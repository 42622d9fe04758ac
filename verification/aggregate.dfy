/** The site-wide pages of generator/phase3.go: the index page (the five
    newest files, every tag with its file count, the rendered preamble),
    one page per tag, and the copy of the static assets. Stat, ReadFile,
    ReadDir, the templates and the writes are effects; their answers come in
    as parameters. */
module Aggregate {
  import opened Wrappers
  import Paths
  import Discovery
  import Render
  import Results

  /** How many files the index lists as recent. */
  const RecentCount: nat := 5
  const IndexFile := "index.html"

  // ---------------------------------------------------------------------
  // The newest files
  // ---------------------------------------------------------------------

  /** Every file is at least as new as every file after it. */
  predicate NewestFirst(s: seq<Discovery.FileInfo>)
  {
    forall i, j :: 0 <= i < j < |s| ==> s[i].modTime >= s[j].modTime
  }

  /** No file of `s` is newer than `t`. */
  predicate NoneNewer(t: int, s: seq<Discovery.FileInfo>)
  {
    forall i :: 0 <= i < |s| ==> s[i].modTime <= t
  }

  /** Places `x` before the first file that is not newer than it. */
  function InsertByTime(x: Discovery.FileInfo, s: seq<Discovery.FileInfo>): (r: seq<Discovery.FileInfo>)
    ensures multiset(r) == multiset(s) + multiset{x}
    ensures |r| == |s| + 1
  {
    if s == [] then [x]
    else if x.modTime >= s[0].modTime then [x] + s
    else
      assert s == [s[0]] + s[1..];
      [s[0]] + InsertByTime(x, s[1..])
  }

  lemma NewestFirstCons(h: Discovery.FileInfo, s: seq<Discovery.FileInfo>)
    requires NoneNewer(h.modTime, s) && NewestFirst(s)
    ensures NewestFirst([h] + s)
  {
    var r := [h] + s;
    forall i, j | 0 <= i < j < |r|
      ensures r[i].modTime >= r[j].modTime
    {
      assert r[j] == s[j - 1];
      if i > 0 {
        assert r[i] == s[i - 1];
      }
    }
  }

  lemma {:induction false} InsertByTimeBound(t: int, x: Discovery.FileInfo, s: seq<Discovery.FileInfo>)
    requires NoneNewer(t, s) && x.modTime <= t
    ensures NoneNewer(t, InsertByTime(x, s))
    decreases |s|
  {
    if s != [] && x.modTime < s[0].modTime {
      InsertByTimeBound(t, x, s[1..]);
    }
  }

  lemma {:induction false} InsertByTimeOrdered(x: Discovery.FileInfo, s: seq<Discovery.FileInfo>)
    requires NewestFirst(s)
    ensures NewestFirst(InsertByTime(x, s))
    decreases |s|
  {
    if s == [] {
    } else if x.modTime >= s[0].modTime {
      NewestFirstCons(x, s);
    } else {
      var tail := s[1..];
      InsertByTimeOrdered(x, tail);
      InsertByTimeBound(s[0].modTime, x, tail);
      NewestFirstCons(s[0], InsertByTime(x, tail));
    }
  }

  /** The newest-first copy of the file list. Files with equal times keep
      their list order, one of the orders sort.Slice may produce. */
  function SortByTime(s: seq<Discovery.FileInfo>): (r: seq<Discovery.FileInfo>)
    ensures multiset(r) == multiset(s)
    ensures |r| == |s|
  {
    if s == [] then []
    else
      assert s == [s[0]] + s[1..];
      InsertByTime(s[0], SortByTime(s[1..]))
  }

  lemma {:induction false} SortByTimeOrdered(s: seq<Discovery.FileInfo>)
    ensures NewestFirst(SortByTime(s))
    decreases |s|
  {
    if s != [] {
      SortByTimeOrdered(s[1..]);
      InsertByTimeOrdered(s[0], SortByTime(s[1..]));
    }
  }

  /** The index's recent files: at most five, newest first, drawn from the
      file list, and no file left out is newer than any file listed. */
  function Recent(files: seq<Discovery.FileInfo>): (r: seq<Discovery.FileInfo>)
    ensures |r| == if |files| < RecentCount then |files| else RecentCount
    ensures NewestFirst(r)
    ensures multiset(r) <= multiset(files)
    ensures |files| <= RecentCount ==> multiset(r) == multiset(files)
    ensures forall f, i :: f in multiset(files) - multiset(r) && 0 <= i < |r| ==> f.modTime <= r[i].modTime
  {
    var sorted := SortByTime(files);
    SortByTimeOrdered(files);
    if |sorted| > RecentCount then
      var r := sorted[..RecentCount];
      RecentPrefix(sorted, RecentCount);
      r
    else
      sorted
  }

  /** A prefix of a newest-first list holds its newest files. */
  lemma RecentPrefix(sorted: seq<Discovery.FileInfo>, k: nat)
    requires k <= |sorted| && NewestFirst(sorted)
    ensures NewestFirst(sorted[..k])
    ensures multiset(sorted[..k]) <= multiset(sorted)
    ensures forall f, i :: f in multiset(sorted) - multiset(sorted[..k]) && 0 <= i < k ==> f.modTime <= sorted[..k][i].modTime
  {
    var front, rest := sorted[..k], sorted[k..];
    assert sorted == front + rest;
    assert multiset(sorted) == multiset(front) + multiset(rest);
    forall f, i | f in multiset(sorted) - multiset(front) && 0 <= i < k
      ensures f.modTime <= front[i].modTime
    {
      assert f in multiset(rest);
      var j :| 0 <= j < |rest| && rest[j] == f;
      assert sorted[k + j] == f;
    }
  }

  // ---------------------------------------------------------------------
  // The tag list
  // ---------------------------------------------------------------------

  /** An index entry for a tag. */
  datatype TagInfo = TagInfo(name: string, count: nat)

  /** Go's `<` on strings: byte-wise lexicographic order. */
  predicate Below(a: string, b: string)
    decreases |a|
  {
    if a == [] then b != []
    else if b == [] then false
    else if a[0] != b[0] then a[0] < b[0]
    else Below(a[1..], b[1..])
  }

  lemma {:induction false} BelowIrreflexive(a: string)
    ensures !Below(a, a)
    decreases |a|
  {
    if a != [] {
      BelowIrreflexive(a[1..]);
    }
  }

  lemma {:induction false} BelowTransitive(a: string, b: string, c: string)
    requires Below(a, b) && Below(b, c)
    ensures Below(a, c)
    decreases |a|
  {
    if a != [] && a[0] == b[0] && b[0] == c[0] {
      BelowTransitive(a[1..], b[1..], c[1..]);
    }
  }

  lemma {:induction false} BelowTotal(a: string, b: string)
    requires a != b
    ensures Below(a, b) || Below(b, a)
    decreases |a|
  {
    if a != [] && b != [] && a[0] == b[0] {
      assert a == [a[0]] + a[1..] && b == [b[0]] + b[1..];
      BelowTotal(a[1..], b[1..]);
    }
  }

  /** Names strictly increase along the list. */
  predicate Ascending(s: seq<TagInfo>)
  {
    forall i, j :: 0 <= i < j < |s| ==> Below(s[i].name, s[j].name)
  }

  /** Every name of `s` comes after `t`. */
  predicate AllAfter(t: string, s: seq<TagInfo>)
  {
    forall i :: 0 <= i < |s| ==> Below(t, s[i].name)
  }

  /** Places `x` before the first entry whose name comes after it. */
  function InsertByName(x: TagInfo, s: seq<TagInfo>): (r: seq<TagInfo>)
    ensures multiset(r) == multiset(s) + multiset{x}
    ensures |r| == |s| + 1
  {
    if s == [] then [x]
    else if Below(x.name, s[0].name) then [x] + s
    else
      assert s == [s[0]] + s[1..];
      [s[0]] + InsertByName(x, s[1..])
  }

  lemma AscendingCons(h: TagInfo, s: seq<TagInfo>)
    requires AllAfter(h.name, s) && Ascending(s)
    ensures Ascending([h] + s)
  {
    var r := [h] + s;
    forall i, j | 0 <= i < j < |r|
      ensures Below(r[i].name, r[j].name)
    {
      assert r[j] == s[j - 1];
      if i > 0 {
        assert r[i] == s[i - 1];
      }
    }
  }

  lemma {:induction false} InsertByNameAfter(t: string, x: TagInfo, s: seq<TagInfo>)
    requires AllAfter(t, s) && Below(t, x.name)
    ensures AllAfter(t, InsertByName(x, s))
    decreases |s|
  {
    if s != [] && !Below(x.name, s[0].name) {
      InsertByNameAfter(t, x, s[1..]);
    }
  }

  lemma {:induction false} InsertByNameAscending(x: TagInfo, s: seq<TagInfo>)
    requires Ascending(s)
    requires forall i :: 0 <= i < |s| ==> s[i].name != x.name
    ensures Ascending(InsertByName(x, s))
    decreases |s|
  {
    if s == [] {
    } else if Below(x.name, s[0].name) {
      forall i | 0 <= i < |s|
        ensures Below(x.name, s[i].name)
      {
        if i > 0 {
          BelowTransitive(x.name, s[0].name, s[i].name);
        }
      }
      AscendingCons(x, s);
    } else {
      var tail := s[1..];
      BelowTotal(x.name, s[0].name);
      InsertByNameAscending(x, tail);
      InsertByNameAfter(s[0].name, x, tail);
      AscendingCons(s[0], InsertByName(x, tail));
    }
  }

  /** Sorting by name; sort.Slice with `Name <`. */
  function SortByName(s: seq<TagInfo>): (r: seq<TagInfo>)
    ensures multiset(r) == multiset(s)
    ensures |r| == |s|
  {
    if s == [] then []
    else
      assert s == [s[0]] + s[1..];
      InsertByName(s[0], SortByName(s[1..]))
  }

  /** Entries with distinct names sort into strictly ascending order. */
  lemma {:induction false} SortByNameAscending(s: seq<TagInfo>)
    requires forall i, j :: 0 <= i < j < |s| ==> s[i].name != s[j].name
    ensures Ascending(SortByName(s))
    decreases |s|
  {
    if s != [] {
      var tail := s[1..];
      var sorted := SortByName(tail);
      SortByNameAscending(tail);
      forall i | 0 <= i < |sorted|
        ensures sorted[i].name != s[0].name
      {
        assert sorted[i] in multiset(tail);
        var k :| 0 <= k < |tail| && tail[k] == sorted[i];
        assert s[k + 1] == sorted[i];
      }
      InsertByNameAscending(s[0], sorted);
    }
  }

  /** The Range loop's entries, one per tag in Range order. */
  function TagEntries(m: map<string, seq<Discovery.FileInfo>>, order: seq<string>): (r: seq<TagInfo>)
    requires forall i :: 0 <= i < |order| ==> order[i] in m
    ensures |r| == |order|
    ensures forall i :: 0 <= i < |r| ==> r[i].name == order[i] && r[i].count == |m[order[i]]|
  {
    seq(|order|, i requires 0 <= i < |order| => TagInfo(order[i], |m[order[i]]|))
  }

  /** The index's tag list: one entry per tag, with the number of files
      the tag lists, in ascending name order. */
  function TagList(m: map<string, seq<Discovery.FileInfo>>, order: seq<string>): (r: seq<TagInfo>)
    requires Render.Enumerates(order, m)
    ensures Ascending(r)
    ensures |r| == |order|
    ensures forall x: TagInfo :: x in r <==> x.name in m && x.count == |m[x.name]|
  {
    var entries := TagEntries(m, order);
    SortByNameAscending(entries);
    var r := SortByName(entries);
    assert forall x :: x in r <==> x in multiset(entries);
    assert forall x :: x in r <==> x in entries;
    forall x: TagInfo | x.name in m && x.count == |m[x.name]|
      ensures x in entries
    {
      var i :| 0 <= i < |order| && order[i] == x.name;
      assert entries[i] == x;
    }
    r
  }

  /** Two ascending lists with the same entries are the same list. */
  lemma {:induction false} AscendingUnique(a: seq<TagInfo>, b: seq<TagInfo>)
    requires Ascending(a) && Ascending(b)
    requires forall x :: x in a <==> x in b
    ensures a == b
    decreases |a|
  {
    if a == [] {
      assert forall i :: 0 <= i < |b| ==> b[i] in b;
    } else {
      assert a[0] in b;
      var m :| 0 <= m < |b| && b[m] == a[0];
      assert b != [];
      assert b[0] in a;
      var k :| 0 <= k < |a| && a[k] == b[0];
      if k > 0 && m > 0 {
        BelowTransitive(a[0].name, b[0].name, a[0].name);
        BelowIrreflexive(a[0].name);
      }
      assert a[0] == b[0];
      forall x
        ensures x in a[1..] <==> x in b[1..]
      {
        if x in a[1..] {
          var j :| 1 <= j < |a| && a[j] == x;
          BelowIrreflexive(a[0].name);
          assert x in b;
        }
        if x in b[1..] {
          var j :| 1 <= j < |b| && b[j] == x;
          BelowIrreflexive(b[0].name);
          assert x in a;
        }
      }
      AscendingUnique(a[1..], b[1..]);
      assert a == [a[0]] + a[1..] && b == [b[0]] + b[1..];
    }
  }

  /** The tag list does not depend on the order sync.Map.Range visits the
      tags in. */
  lemma TagListOrderFree(m: map<string, seq<Discovery.FileInfo>>, o1: seq<string>, o2: seq<string>)
    requires Render.Enumerates(o1, m) && Render.Enumerates(o2, m)
    ensures TagList(m, o1) == TagList(m, o2)
  {
    AscendingUnique(TagList(m, o1), TagList(m, o2));
  }

  // ---------------------------------------------------------------------
  // GenerateIndexPage
  // ---------------------------------------------------------------------

  /** The skip test of the index and tag pages: not forced, the page
      exists, and the template is not newer. The pages' contents are not
      consulted. */
  predicate TemplateFresh(force: bool, outputModTime: Option<int>, tmplModTime: int)
  {
    !force && outputModTime.Some? && !(tmplModTime > outputModTime.value)
  }

  /** IndexPageData. */
  datatype IndexPageData = IndexPageData(
    recentFiles: seq<Discovery.FileInfo>,
    tags: seq<TagInfo>,
    content: string,
    siteName: string)

  /** What the file system and the libraries answer for the index: the
      Stat of index.html, the preamble's bytes (None when reading fails),
      the go-org HTML writer, the index template, and whether WriteFile
      succeeds. */
  datatype IndexEnv = IndexEnv(
    outputModTime: Option<int>,
    preamble: Option<string>,
    toHtml: string -> Result<string>,
    execute: IndexPageData -> Result<string>,
    writeOk: bool)

  /** The preamble's HTML; empty when the file is missing or does not
      convert. */
  function PreambleContent(env: IndexEnv): (c: string)
    ensures env.preamble.None? ==> c == ""
    ensures env.preamble.Some? && env.toHtml(Render.ConvertInput(env.preamble.value)).Ok? ==>
      c == env.toHtml(Render.ConvertInput(env.preamble.value)).value
  {
    if env.preamble.None? then ""
    else
      var html := env.toHtml(Render.ConvertInput(env.preamble.value));
      if html.Ok? then html.value else ""
  }

  /** The data the index template receives. */
  function IndexData(files: seq<Discovery.FileInfo>, tagMap: map<string, seq<Discovery.FileInfo>>, order: seq<string>,
                     ctx: Render.BuildContext, env: IndexEnv): IndexPageData
    requires Render.Enumerates(order, tagMap)
  {
    IndexPageData(Recent(files), TagList(tagMap, order), PreambleContent(env), ctx.siteName)
  }

  /** GenerateIndexPage: exactly one of skipped, generated or error. */
  function GenerateIndexPage(files: seq<Discovery.FileInfo>, tagMap: map<string, seq<Discovery.FileInfo>>,
                             order: seq<string>, ctx: Render.BuildContext, env: IndexEnv): (r: Results.GenerationResult)
    requires Render.Enumerates(order, tagMap)
    ensures r.filesSkipped + r.filesGenerated + r.errors == 1
    ensures r.totalFilesScanned == 0 && r.filesWithUuids == 0 && r.tagPagesGenerated == 0 && r.staticFilesCopied == 0
    ensures r.startTime == Results.ZeroTime
    ensures r.filesSkipped == 1 <==> TemplateFresh(ctx.forceRebuild, env.outputModTime, ctx.tmplModTime)
    ensures r.filesGenerated == 1 <==>
      !TemplateFresh(ctx.forceRebuild, env.outputModTime, ctx.tmplModTime) &&
      env.execute(IndexData(files, tagMap, order, ctx, env)).Ok? && env.writeOk
  {
    if TemplateFresh(ctx.forceRebuild, env.outputModTime, ctx.tmplModTime) then
      Results.Zero.(filesSkipped := 1)
    else if env.execute(IndexData(files, tagMap, order, ctx, env)).Err? then
      Results.Zero.(errors := 1)
    else if !env.writeOk then
      Results.Zero.(errors := 1)
    else
      Results.Zero.(filesGenerated := 1)
  }

  /** Adding, editing or removing source files never makes an existing
      index stale: only forcing, a missing index or a newer template do. */
  lemma IndexSkipIgnoresFiles(f1: seq<Discovery.FileInfo>, f2: seq<Discovery.FileInfo>,
                              m1: map<string, seq<Discovery.FileInfo>>, o1: seq<string>,
                              m2: map<string, seq<Discovery.FileInfo>>, o2: seq<string>,
                              ctx: Render.BuildContext, env: IndexEnv)
    requires Render.Enumerates(o1, m1) && Render.Enumerates(o2, m2)
    requires GenerateIndexPage(f1, m1, o1, ctx, env).filesSkipped == 1
    ensures GenerateIndexPage(f2, m2, o2, ctx, env) == GenerateIndexPage(f1, m1, o1, ctx, env)
  {
  }

  // ---------------------------------------------------------------------
  // GenerateTagPages
  // ---------------------------------------------------------------------

  /** TagPageData. */
  datatype TagPageData = TagPageData(title: string, files: seq<Discovery.FileInfo>, siteName: string)

  /** The Stat of the tag page, the tag template, and whether WriteFile
      succeeds. */
  datatype TagEnv = TagEnv(
    outputModTime: Option<int>,
    execute: TagPageData -> Result<string>,
    writeOk: bool)

  /** How one tag's worker ends. */
  datatype TagOutcome = TagKept | TagFailed | TagWritten(path: string, page: string)

  /** The page name of a tag. */
  function TagFileName(tag: string): (name: string)
    ensures |name| == |tag| + 9
    ensures name[4..|name| - 5] == tag
  {
    "tag-" + tag + ".html"
  }

  /** Distinct tags get distinct page names. */
  lemma TagFileNameInjective(a: string, b: string)
    requires TagFileName(a) == TagFileName(b)
    ensures a == b
  {
  }

  /** One tag's worker. */
  function TagPage(tag: string, files: seq<Discovery.FileInfo>, ctx: Render.BuildContext, env: TagEnv): (o: TagOutcome)
    ensures o == TagKept <==> TemplateFresh(ctx.forceRebuild, env.outputModTime, ctx.tmplModTime)
    ensures o.TagWritten? <==>
      !TemplateFresh(ctx.forceRebuild, env.outputModTime, ctx.tmplModTime) &&
      env.execute(TagPageData(tag, files, ctx.siteName)).Ok? && env.writeOk
    ensures o.TagWritten? ==>
      o.path == Paths.JoinPath(ctx.destDir, TagFileName(tag)) &&
      Ok(o.page) == env.execute(TagPageData(tag, files, ctx.siteName))
  {
    if TemplateFresh(ctx.forceRebuild, env.outputModTime, ctx.tmplModTime) then TagKept
    else
      var page := env.execute(TagPageData(tag, files, ctx.siteName));
      if page.Err? || !env.writeOk then TagFailed
      else TagWritten(Paths.JoinPath(ctx.destDir, TagFileName(tag)), page.value)
  }

  /** The outcome of every tag's worker. */
  function TagOutcomes(m: map<string, seq<Discovery.FileInfo>>, ctx: Render.BuildContext, envOf: string -> TagEnv)
    : string -> TagOutcome
  {
    tag => TagPage(tag, if tag in m then m[tag] else [], ctx, envOf(tag))
  }

  /** The number of tags in `tags` whose worker ends with `kind`. */
  function CountTags(tags: seq<string>, outcome: string -> TagOutcome, written: bool): (n: nat)
    ensures n <= |tags|
  {
    if tags == [] then 0
    else
      var o := outcome(tags[|tags| - 1]);
      (if (if written then o.TagWritten? else o.TagFailed?) then 1 else 0) +
      CountTags(tags[..|tags| - 1], outcome, written)
  }

  /** The two atomic counters after the workers of `tags` ran. */
  function TagTally(tags: seq<string>, outcome: string -> TagOutcome): (r: (nat, nat))
    ensures r.0 + r.1 <= |tags|
    ensures r.0 == CountTags(tags, outcome, true) && r.1 == CountTags(tags, outcome, false)
  {
    if tags == [] then (0, 0)
    else
      var (w, e) := TagTally(tags[..|tags| - 1], outcome);
      match outcome(tags[|tags| - 1])
      case TagKept => (w, e)
      case TagFailed => (w, e + 1)
      case TagWritten(_, _) => (w + 1, e)
  }

  /** GenerateTagPages with the workers run in Range order. A kept page is
      not counted anywhere. */
  function GenerateTagPages(m: map<string, seq<Discovery.FileInfo>>, order: seq<string>, ctx: Render.BuildContext,
                            envOf: string -> TagEnv): (r: Results.GenerationResult)
    requires Render.Enumerates(order, m)
    ensures r.tagPagesGenerated + r.errors <= |order|
    ensures r.tagPagesGenerated == CountTags(order, TagOutcomes(m, ctx, envOf), true)
    ensures r.errors == CountTags(order, TagOutcomes(m, ctx, envOf), false)
    ensures r.filesSkipped == 0 && r.filesGenerated == 0
    ensures r.totalFilesScanned == 0 && r.filesWithUuids == 0 && r.staticFilesCopied == 0
  {
    var (w, e) := TagTally(order, TagOutcomes(m, ctx, envOf));
    Results.Zero.(tagPagesGenerated := w, errors := e)
  }

  /** With every tag page fresh, the result is all zero. */
  lemma {:induction false} AllKeptCountsNothing(tags: seq<string>, outcome: string -> TagOutcome)
    requires forall k :: 0 <= k < |tags| ==> outcome(tags[k]) == TagKept
    ensures TagTally(tags, outcome) == (0, 0)
    decreases |tags|
  {
    if tags != [] {
      var front := tags[..|tags| - 1];
      forall k | 0 <= k < |front|
        ensures outcome(front[k]) == TagKept
      {
        assert front[k] == tags[k];
      }
      AllKeptCountsNothing(front, outcome);
    }
  }

  /** Unforced runs with every tag page present and no newer template
      write nothing and report nothing. */
  lemma FreshTagPagesReportNothing(m: map<string, seq<Discovery.FileInfo>>, order: seq<string>,
                                   ctx: Render.BuildContext, envOf: string -> TagEnv)
    requires Render.Enumerates(order, m)
    requires forall k :: 0 <= k < |order| ==>
      TemplateFresh(ctx.forceRebuild, envOf(order[k]).outputModTime, ctx.tmplModTime)
    ensures GenerateTagPages(m, order, ctx, envOf) == Results.Zero
  {
    var outcome := TagOutcomes(m, ctx, envOf);
    forall k | 0 <= k < |order|
      ensures outcome(order[k]) == TagKept
    {
    }
    AllKeptCountsNothing(order, outcome);
  }

  // ---------------------------------------------------------------------
  // CopyStaticFiles
  // ---------------------------------------------------------------------

  /** A ReadDir entry and whether copying it succeeds. */
  datatype StaticEntry = StaticEntry(name: string, isDir: bool, copyOk: bool)

  /** What ReadDir of `root`/static answers. */
  datatype StaticDir = Missing | Unreadable | Listing(entries: seq<StaticEntry>)

  /** The number of plain files in `entries`, and of those copied. */
  function CountFiles(entries: seq<StaticEntry>, copied: bool): (n: nat)
    ensures n <= |entries|
  {
    if entries == [] then 0
    else
      var e := entries[|entries| - 1];
      (if !e.isDir && (!copied || e.copyOk) then 1 else 0) + CountFiles(entries[..|entries| - 1], copied)
  }

  /** CopyStaticFiles' result, entry counts read off the listing: every
      plain file is either copied or an error. */
  function StaticCopyResult(dir: StaticDir, mkdirOk: bool): (r: Results.GenerationResult)
    ensures r.totalFilesScanned == 0 && r.filesWithUuids == 0 && r.filesGenerated == 0
    ensures r.filesSkipped == 0 && r.tagPagesGenerated == 0 && r.startTime == Results.ZeroTime
    ensures 0 <= r.staticFilesCopied && 0 <= r.errors
    ensures dir.Listing? && mkdirOk ==> r.staticFilesCopied + r.errors == CountFiles(dir.entries, false)
  {
    match dir
    case Missing => Results.Zero
    case Unreadable => Results.Zero.(errors := 1)
    case Listing(entries) =>
      if !mkdirOk then Results.Zero.(errors := 1)
      else
        CopiedAtMostFiles(entries);
        Results.Zero.(staticFilesCopied := CountFiles(entries, true),
                      errors := CountFiles(entries, false) - CountFiles(entries, true))
  }

  lemma {:induction false} CopiedAtMostFiles(entries: seq<StaticEntry>)
    ensures CountFiles(entries, true) <= CountFiles(entries, false)
    decreases |entries|
  {
    if entries != [] {
      CopiedAtMostFiles(entries[..|entries| - 1]);
    }
  }

  /** CopyStaticFiles, the loop over the directory listing. */
  method CopyStaticFiles(dir: StaticDir, mkdirOk: bool) returns (result: Results.GenerationResult)
    ensures result == StaticCopyResult(dir, mkdirOk)
    ensures dir.Missing? ==> result == Results.Zero
    ensures dir.Unreadable? || (dir.Listing? && !mkdirOk) ==> result == Results.Zero.(errors := 1)
    ensures dir.Listing? && mkdirOk ==>
      result.staticFilesCopied == CountFiles(dir.entries, true) &&
      result.staticFilesCopied + result.errors == CountFiles(dir.entries, false) &&
      result == Results.Zero.(staticFilesCopied := result.staticFilesCopied, errors := result.errors)
  {
    result := Results.Zero;
    if dir.Missing? {
      return;
    }
    if dir.Unreadable? || !mkdirOk {
      result := result.(errors := 1);
      return;
    }
    var entries := dir.entries;
    var k := 0;
    while k < |entries|
      invariant 0 <= k <= |entries|
      invariant result.staticFilesCopied == CountFiles(entries[..k], true)
      invariant result.staticFilesCopied + result.errors == CountFiles(entries[..k], false)
      invariant result == Results.Zero.(staticFilesCopied := result.staticFilesCopied, errors := result.errors)
    {
      assert entries[..k + 1][..k] == entries[..k];
      var entry := entries[k];
      if !entry.isDir {
        if !entry.copyOk {
          result := result.(errors := result.errors + 1);
        } else {
          result := result.(staticFilesCopied := result.staticFilesCopied + 1);
        }
      }
      k := k + 1;
    }
    assert entries[..k] == entries;
  }

  /** Directories are passed over: a listing of directories copies
      nothing and reports nothing. */
  lemma {:induction false} DirectoriesCountNothing(entries: seq<StaticEntry>, copied: bool)
    requires forall k :: 0 <= k < |entries| ==> entries[k].isDir
    ensures CountFiles(entries, copied) == 0
    decreases |entries|
  {
    if entries != [] {
      var front := entries[..|entries| - 1];
      forall k | 0 <= k < |front|
        ensures front[k].isDir
      {
        assert front[k] == entries[k];
      }
      DirectoriesCountNothing(front, copied);
    }
  }
}
