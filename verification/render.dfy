/** Page rendering decisions (generator/phase2.go, and main.go's older
    copy): where a page goes, when an existing page is fresh enough to
    keep, the sentinel file that is never rendered, and how
    GenerateHtmlPages and main.go's phase3 count what happened. Reading,
    the go-org HTML writer, template execution and writing are effects;
    their outcomes come in through `Env`. */
module Render {
  import opened Wrappers
  import opened GoStrings
  import Paths
  import Links
  import Discovery
  import Results

  /** The file generateHTML passes over without reading or writing. */
  const Sentinel := "sitemap-preamble.org"
  const OrgExt := ".org"
  const HtmlExt := ".html"

  /** BuildContext. */
  datatype BuildContext = BuildContext(
    root: string,
    destDir: string,
    forceRebuild: bool,
    tmplModTime: int,
    siteName: string)

  // ---------------------------------------------------------------------
  // Output paths
  // ---------------------------------------------------------------------

  /** The page's path below the output directory: one trailing ".org"
      replaced by ".html", any other name just gains ".html". */
  function HtmlRelPath(path: string): (r: string)
    ensures HasSuffix(path, OrgExt) ==> r == path[..|path| - |OrgExt|] + HtmlExt
    ensures !HasSuffix(path, OrgExt) ==> r == path + HtmlExt
  {
    TrimSuffix(path, OrgExt) + HtmlExt
  }

  /** Source paths (which all end in ".org") map to distinct pages, and the
      page's name gives the source back. */
  lemma HtmlRelPathInverse(path: string)
    requires HasSuffix(path, OrgExt)
    ensures TrimSuffix(HtmlRelPath(path), HtmlExt) + OrgExt == path
  {
    var stem := path[..|path| - |OrgExt|];
    var r := HtmlRelPath(path);
    assert r[..|r| - |HtmlExt|] == stem;
    assert stem + OrgExt == path;
  }

  lemma HtmlRelPathInjective(a: string, b: string)
    requires HasSuffix(a, OrgExt) && HasSuffix(b, OrgExt)
    requires HtmlRelPath(a) == HtmlRelPath(b)
    ensures a == b
  {
    HtmlRelPathInverse(a);
    HtmlRelPathInverse(b);
  }

  /** Only one ".org" goes: "notes.org.org" becomes "notes.org.html". */
  lemma HtmlRelPathTrimsOnce(stem: string)
    ensures HtmlRelPath(stem + OrgExt + OrgExt) == stem + OrgExt + HtmlExt
  {
    var p := stem + OrgExt + OrgExt;
    assert p[|p| - |OrgExt|..] == OrgExt;
    assert p[..|p| - |OrgExt|] == stem + OrgExt;
  }

  /** filepath.Join(DestDir, htmlRelativePath). */
  function OutputPath(destDir: string, path: string): (r: string)
    ensures destDir != [] ==> Paths.Clean(r) == Paths.Clean(destDir + [Paths.Sep] + HtmlRelPath(path))
    ensures destDir == [] ==> Paths.Clean(r) == Paths.Clean(HtmlRelPath(path))
    ensures r != [] && Paths.Render(Paths.Clean(r)) == r
  {
    Paths.JoinPath(destDir, HtmlRelPath(path))
  }

  // ---------------------------------------------------------------------
  // Freshness
  // ---------------------------------------------------------------------

  /** The skip test: not forced, the output exists (its Stat gave a
      modification time), and neither the source nor the template is newer
      than it. */
  predicate IsUpToDate(force: bool, outputModTime: Option<int>, sourceModTime: int, tmplModTime: int)
  {
    !force && outputModTime.Some? &&
    !(sourceModTime > outputModTime.value) && !(tmplModTime > outputModTime.value)
  }

  /** Editing the source or the template after the page was written makes
      it stale; so does forcing or losing the page. */
  lemma StaleWhenNewer(force: bool, out: Option<int>, src: int, tmpl: int)
    ensures out.Some? && (src > out.value || tmpl > out.value) ==> !IsUpToDate(force, out, src, tmpl)
    ensures force || out.None? ==> !IsUpToDate(force, out, src, tmpl)
    ensures !force && out.Some? && src <= out.value && tmpl <= out.value ==> IsUpToDate(force, out, src, tmpl)
  {
  }

  // ---------------------------------------------------------------------
  // convertOrgToHTML's input
  // ---------------------------------------------------------------------

  /** The text handed to the go-org parser: the first line is dropped when
      it opens a headline ("* "), the lines are joined back. */
  function ConvertInput(org: string): (r: string)
    ensures !HasPrefix(Split(org, '\n')[0], "* ") ==> r == org
  {
    var lines := Split(org, '\n');
    SplitFacts(org, '\n');
    Join(if HasPrefix(lines[0], "* ") then lines[1..] else lines, '\n')
  }

  /** A leading headline line disappears, with its newline. */
  lemma ConvertInputDropsHeadline(first: string, rest: string)
    requires '\n' !in first && HasPrefix(first, "* ")
    ensures ConvertInput(first + "\n" + rest) == rest
  {
    SplitCons(first, rest, '\n');
    assert Split(first + "\n" + rest, '\n')[1..] == Split(rest, '\n');
    SplitFacts(rest, '\n');
  }

  /** A document that is one headline line converts from nothing. */
  lemma ConvertInputSingleHeadline(first: string)
    requires '\n' !in first && HasPrefix(first, "* ")
    ensures ConvertInput(first) == ""
  {
    assert Split(first, '\n') == [first];
  }

  // ---------------------------------------------------------------------
  // generateHTML
  // ---------------------------------------------------------------------

  /** What the file system and the libraries answer for one page: the
      output's Stat (None when it does not exist), the source bytes (None
      when reading fails), the go-org HTML writer, the page template, and
      whether MkdirAll and WriteFile succeed. */
  datatype Env = Env(
    outputModTime: Option<int>,
    data: Option<string>,
    toHtml: string -> Result<string>,
    execute: (Discovery.FileInfo, string) -> Result<string>,
    mkdirOk: bool,
    writeOk: bool)

  /** How one generateHTML call ends. Only `Failed` is an error return. */
  datatype PageOutcome =
    | SentinelSkipped
    | UpToDate
    | Failed(reason: string)
    | Generated(outputPath: string, page: string)

  /** The link-rewritten source text of a page. */
  function Rewritten(data: string, path: string, keywords: seq<string>, targets: seq<string>): string
  {
    Links.ReplaceUuidLinks(data, keywords, targets, path)
  }

  /** generateHTML of generator/phase2.go. */
  function GenerateHtml(fi: Discovery.FileInfo, ctx: BuildContext, keywords: seq<string>, targets: seq<string>, env: Env)
    : (r: PageOutcome)
    ensures r == SentinelSkipped <==> fi.path == Sentinel
    ensures fi.path != Sentinel ==>
      (r == UpToDate <==> IsUpToDate(ctx.forceRebuild, env.outputModTime, fi.modTime, ctx.tmplModTime))
    ensures r.Generated? ==>
      r.outputPath == OutputPath(ctx.destDir, fi.path) && env.data.Some? && env.mkdirOk && env.writeOk &&
      var html := env.toHtml(ConvertInput(Rewritten(env.data.value, fi.path, keywords, targets)));
      html.Ok? && env.execute(fi, html.value) == Ok(r.page)
  {
    if fi.path == Sentinel then SentinelSkipped
    else if IsUpToDate(ctx.forceRebuild, env.outputModTime, fi.modTime, ctx.tmplModTime) then UpToDate
    else if env.data.None? then Failed("read")
    else
      var html := env.toHtml(ConvertInput(Rewritten(env.data.value, fi.path, keywords, targets)));
      if html.Err? then Failed(html.reason)
      else
        var page := env.execute(fi, html.value);
        if page.Err? then Failed(page.reason)
        else if !env.mkdirOk then Failed("mkdir")
        else if !env.writeOk then Failed("write")
        else Generated(OutputPath(ctx.destDir, fi.path), page.value)
  }

  /** A stale page whose every step succeeds is written; a stale page
      with any failing step is an error. */
  lemma GenerateHtmlSucceeds(fi: Discovery.FileInfo, ctx: BuildContext, keywords: seq<string>, targets: seq<string>, env: Env)
    requires fi.path != Sentinel
    requires !IsUpToDate(ctx.forceRebuild, env.outputModTime, fi.modTime, ctx.tmplModTime)
    ensures GenerateHtml(fi, ctx, keywords, targets, env).Generated? <==>
      env.data.Some? && env.mkdirOk && env.writeOk &&
      var html := env.toHtml(ConvertInput(Rewritten(env.data.value, fi.path, keywords, targets)));
      html.Ok? && env.execute(fi, html.value).Ok?
    ensures !GenerateHtml(fi, ctx, keywords, targets, env).Generated? ==> GenerateHtml(fi, ctx, keywords, targets, env).Failed?
  {
  }

  // ---------------------------------------------------------------------
  // Keyword lists from the UUID map
  // ---------------------------------------------------------------------

  /** `order` lists every key of `m` exactly once: one possible order of
      sync.Map.Range. */
  predicate Enumerates<V>(order: seq<string>, m: map<string, V>)
  {
    (forall i, j :: 0 <= i < j < |order| ==> order[i] != order[j]) &&
    (forall i :: 0 <= i < |order| ==> order[i] in m) &&
    (forall key :: key in m ==> key in order)
  }

  /** The Range loop: keys and their paths, side by side. */
  function RangeLists(m: map<string, string>, order: seq<string>): (r: (seq<string>, seq<string>))
    requires forall i :: 0 <= i < |order| ==> order[i] in m
    ensures |r.0| == |r.1| == |order|
    ensures forall i :: 0 <= i < |order| ==> r.0[i] in m && r.1[i] == m[r.0[i]]
  {
    (order, seq(|order|, i requires 0 <= i < |order| => m[order[i]]))
  }

  /** Every key of the map appears, paired with its path. */
  lemma RangeListsCover(m: map<string, string>, order: seq<string>, key: string)
    requires Enumerates(order, m) && key in m
    ensures exists i :: 0 <= i < |order| && RangeLists(m, order).0[i] == key && RangeLists(m, order).1[i] == m[key]
  {
    var i :| 0 <= i < |order| && order[i] == key;
    assert RangeLists(m, order).0[i] == key;
  }

  // ---------------------------------------------------------------------
  // GenerateHtmlPages
  // ---------------------------------------------------------------------

  /** The number of queued files whose page fails. */
  function CountFailed(files: seq<Discovery.FileInfo>, outcome: Discovery.FileInfo -> PageOutcome): (n: nat)
    ensures n <= |files|
  {
    if files == [] then 0
    else (if outcome(files[|files| - 1]).Failed? then 1 else 0) + CountFailed(files[..|files| - 1], outcome)
  }

  /** The workers' tally: an error return counts as an error, any other
      return (sentinel and fresh pages included) as generated. */
  function Tally(files: seq<Discovery.FileInfo>, outcome: Discovery.FileInfo -> PageOutcome): (r: (nat, nat))
    ensures r.0 + r.1 == |files|
    ensures r.1 == CountFailed(files, outcome)
  {
    if files == [] then (0, 0)
    else
      var (g, e) := Tally(files[..|files| - 1], outcome);
      if outcome(files[|files| - 1]).Failed? then (g, e + 1) else (g + 1, e)
  }

  /** GenerateHtmlPages with the workers run in queue order; `envOf` gives
      each file's environment and `order` the UUID map's Range order. */
  function GenerateHtmlPages(files: seq<Discovery.FileInfo>, uuidMap: map<string, string>, order: seq<string>,
                             ctx: BuildContext, envOf: Discovery.FileInfo -> Env): (r: Results.GenerationResult)
    requires Enumerates(order, uuidMap)
    ensures r.filesGenerated + r.errors == |files|
    ensures r.errors == CountFailed(files, PageOutcomes(uuidMap, order, ctx, envOf))
    ensures r.filesSkipped == 0
    ensures r.totalFilesScanned == 0 && r.filesWithUuids == 0 && r.tagPagesGenerated == 0 && r.staticFilesCopied == 0
  {
    var (g, e) := Tally(files, PageOutcomes(uuidMap, order, ctx, envOf));
    Results.Zero.(filesGenerated := g, errors := e)
  }

  /** The outcome of every page, for one UUID map and context. */
  function PageOutcomes(uuidMap: map<string, string>, order: seq<string>, ctx: BuildContext,
                        envOf: Discovery.FileInfo -> Env): Discovery.FileInfo -> PageOutcome
    requires forall i :: 0 <= i < |order| ==> order[i] in uuidMap
  {
    var lists := RangeLists(uuidMap, order);
    fi => GenerateHtml(fi, ctx, lists.0, lists.1, envOf(fi))
  }

  /** No file fails exactly when no error is reported; fresh and sentinel
      files are reported as generated, never as skipped. */
  lemma {:induction false} CountFailedZero(files: seq<Discovery.FileInfo>, outcome: Discovery.FileInfo -> PageOutcome)
    ensures CountFailed(files, outcome) == 0 <==> forall k :: 0 <= k < |files| ==> !outcome(files[k]).Failed?
    decreases |files|
  {
    if files != [] {
      var front := files[..|files| - 1];
      CountFailedZero(front, outcome);
      if CountFailed(files, outcome) == 0 {
        forall k | 0 <= k < |files|
          ensures !outcome(files[k]).Failed?
        {
          if k < |front| {
            assert files[k] == front[k];
          }
        }
      }
    }
  }

  lemma NothingFailsAllGenerated(files: seq<Discovery.FileInfo>, uuidMap: map<string, string>, order: seq<string>,
                                 ctx: BuildContext, envOf: Discovery.FileInfo -> Env)
    requires Enumerates(order, uuidMap)
    requires forall k :: 0 <= k < |files| ==> files[k].path == Sentinel
    ensures GenerateHtmlPages(files, uuidMap, order, ctx, envOf).filesGenerated == |files|
  {
    var outcome := PageOutcomes(uuidMap, order, ctx, envOf);
    forall k | 0 <= k < |files|
      ensures !outcome(files[k]).Failed?
    {
      assert outcome(files[k]) == SentinelSkipped;
    }
    CountFailedZero(files, outcome);
  }

  // ---------------------------------------------------------------------
  // main.go's generateHTML statistics
  // ---------------------------------------------------------------------

  /** The global counters main.go's phase3 touches. */
  datatype Stats = Stats(filesGenerated: nat, filesSkipped: nat, errors: nat)

  /** The counters one call moves: a fresh page is skipped, a written one
      generated; a failure is counted inside generateHTML and once more by
      the worker that sees its error; the sentinel moves nothing. */
  function StatsDelta(o: PageOutcome): (d: Stats)
    ensures d.filesGenerated + d.filesSkipped + d.errors / 2 == (if o.SentinelSkipped? then 0 else 1)
    ensures d.errors % 2 == 0
  {
    match o
    case SentinelSkipped => Stats(0, 0, 0)
    case UpToDate => Stats(0, 1, 0)
    case Failed(_) => Stats(0, 0, 2)
    case Generated(_, _) => Stats(1, 0, 0)
  }

  /** main.go writes below `root`/public. */
  function MainContext(root: string, tmplModTime: int, force: bool): BuildContext
  {
    BuildContext(root, Paths.JoinPath(root, "public"), force, tmplModTime, "")
  }

  /** The number of sentinel files in the queue. */
  function CountSentinels(files: seq<Discovery.FileInfo>): (n: nat)
    ensures n <= |files|
  {
    if files == [] then 0
    else (if files[|files| - 1].path == Sentinel then 1 else 0) + CountSentinels(files[..|files| - 1])
  }

  /** main.go's phase3 over its file list, workers in queue order. */
  function Phase3Stats(files: seq<Discovery.FileInfo>, outcome: Discovery.FileInfo -> PageOutcome, st: Stats): Stats
  {
    if files == [] then st
    else
      var d := StatsDelta(outcome(files[|files| - 1]));
      var s := Phase3Stats(files[..|files| - 1], outcome, st);
      Stats(s.filesGenerated + d.filesGenerated, s.filesSkipped + d.filesSkipped, s.errors + d.errors)
  }

  /** Errors come in pairs, and every non-sentinel file lands in exactly
      one of generated, skipped, or errors (as a pair). */
  lemma {:induction false} Phase3StatsAccount(files: seq<Discovery.FileInfo>, outcome: Discovery.FileInfo -> PageOutcome)
    requires forall fi: Discovery.FileInfo :: fi.path == Sentinel <==> outcome(fi).SentinelSkipped?
    ensures var s := Phase3Stats(files, outcome, Stats(0, 0, 0));
      s.errors % 2 == 0 &&
      s.filesGenerated + s.filesSkipped + s.errors / 2 + CountSentinels(files) == |files| &&
      s.errors == 2 * CountFailed(files, outcome)
    decreases |files|
  {
    if files != [] {
      var front := files[..|files| - 1];
      Phase3StatsAccount(front, outcome);
    }
  }

  /** The outcomes main.go's generateHTML produces: phase two's decisions
      with pages under `root`/public. */
  function MainOutcomes(root: string, tmplModTime: int, force: bool, keywords: seq<string>, targets: seq<string>,
                        envOf: Discovery.FileInfo -> Env): (outcome: Discovery.FileInfo -> PageOutcome)
    ensures forall fi: Discovery.FileInfo :: fi.path == Sentinel <==> outcome(fi).SentinelSkipped?
  {
    var outcome := (fi: Discovery.FileInfo) => GenerateHtml(fi, MainContext(root, tmplModTime, force), keywords, targets, envOf(fi));
    assert forall fi: Discovery.FileInfo :: outcome(fi) == GenerateHtml(fi, MainContext(root, tmplModTime, force), keywords, targets, envOf(fi));
    outcome
  }

  /** One failing page adds two errors in main.go but one in phase two. */
  lemma OneFailureCountsTwice(fi: Discovery.FileInfo, outcome: Discovery.FileInfo -> PageOutcome)
    requires outcome(fi).Failed?
    ensures Phase3Stats([fi], outcome, Stats(0, 0, 0)).errors == 2
    ensures Tally([fi], outcome).1 == 1
  {
    assert [fi][..0] == [];
  }
}
