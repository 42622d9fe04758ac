/** File discovery and index building, sequentialised: the `.org` listing
    of collectOrgFiles, the per-file readers of both generators
    (processFile in generator/phase1.go and in main.go), the UUID-map
    registration and the two tag-map append disciplines. Discovery returns
    a finished index that rendering only reads. */
module Discovery {
  import opened Wrappers
  import opened GoStrings
  import OrgDoc
  import Preview
  import OrgLines
  import Uuid
  import Results

  /** filepath.Separator on the slash systems modelled here. */
  const Separator := '/'
  const OrgExt := ".org"
  /** The preview length both readers pass. */
  const PreviewLen: nat := 500
  /** UUID-map key prefixes: bare in generator/phase1.go, "id:" in main.go. */
  const BareKeyPrefix := ""
  const IdKeyPrefix := "id:"

  /** FileInfo. The go-org document a phase-one FileInfo also holds is not
      carried: nothing modelled reads it back. */
  datatype FileInfo = FileInfo(
    path: string,
    modTime: int,
    preview: string,
    title: string,
    tags: seq<string>,
    uuids: seq<string>)

  // ---------------------------------------------------------------------
  // collectOrgFiles
  // ---------------------------------------------------------------------

  /** One visit of filepath.WalkDir: the path, whether the walk reported an
      error for it, whether it is a directory, and the modification time
      from d.Info() (None when Info fails). */
  datatype WalkEntry = WalkEntry(path: string, failed: bool, isDir: bool, info: Option<int>)

  /** An entry collectOrgFiles keeps. */
  predicate IsOrgEntry(e: WalkEntry)
  {
    !e.failed && !e.isDir && HasSuffix(e.path, OrgExt) && e.info.Some?
  }

  /** The stored path: `root` plus a separator removed, or failing that
      `root` alone, or the path unchanged. */
  function RelativeTo(path: string, root: string): (rel: string)
    ensures HasPrefix(path, root + [Separator]) ==> root + [Separator] + rel == path
    ensures !HasPrefix(path, root + [Separator]) && HasPrefix(path, root) ==> root + rel == path
    ensures !HasPrefix(path, root) ==> rel == path
  {
    var rel := TrimPrefix(path, root + [Separator]);
    if rel == path then TrimPrefix(path, root) else rel
  }

  /** A path the walk builds under `root` comes back as the part below it. */
  lemma RelativeToJoined(root: string, rel: string)
    ensures RelativeTo(root + [Separator] + rel, root) == rel
  {
    var p := root + [Separator] + rel;
    assert p[..|root| + 1] == root + [Separator];
    assert p[|root| + 1..] == rel;
  }

  /** Under a root that already ends in a separator, only `root` is removed. */
  lemma RelativeToSlashRoot(root: string, rel: string)
    requires root != [] && root[|root| - 1] == Separator
    requires rel == [] || rel[0] != Separator
    ensures RelativeTo(root + rel, root) == rel
  {
    var p := root + rel;
    assert !HasPrefix(p, root + [Separator]) by {
      if |root| + 1 <= |p| {
        assert p[|root|] == rel[0];
        assert p[..|root| + 1][|root|] != (root + [Separator])[|root|];
      }
    }
    assert p[..|root|] == root;
    assert p[|root|..] == rel;
  }

  /** What collectOrgFiles records for a kept entry. */
  function Listed(root: string, e: WalkEntry): FileInfo
    requires e.info.Some?
  {
    FileInfo(RelativeTo(e.path, root), e.info.value, "", "", [], [])
  }

  /** collectOrgFiles over the entries the walk visits, in walk order. */
  function CollectOrgFiles(root: string, walk: seq<WalkEntry>): (files: seq<FileInfo>)
    ensures |files| <= |walk|
  {
    if walk == [] then []
    else (if IsOrgEntry(walk[0]) then [Listed(root, walk[0])] else []) + CollectOrgFiles(root, walk[1..])
  }

  /** Walk order is kept: the listing of a concatenated walk is the
      concatenation of the listings. */
  lemma {:induction false} CollectOrgFilesAppend(root: string, a: seq<WalkEntry>, b: seq<WalkEntry>)
    ensures CollectOrgFiles(root, a + b) == CollectOrgFiles(root, a) + CollectOrgFiles(root, b)
    decreases |a|
  {
    if a == [] {
      assert a + b == b;
    } else {
      var head := if IsOrgEntry(a[0]) then [Listed(root, a[0])] else [];
      assert (a + b)[0] == a[0];
      assert (a + b)[1..] == a[1..] + b;
      CollectOrgFilesAppend(root, a[1..], b);
      calc {
        CollectOrgFiles(root, a + b);
        head + CollectOrgFiles(root, a[1..] + b);
        head + (CollectOrgFiles(root, a[1..]) + CollectOrgFiles(root, b));
        (head + CollectOrgFiles(root, a[1..])) + CollectOrgFiles(root, b);
        CollectOrgFiles(root, a) + CollectOrgFiles(root, b);
      }
    }
  }

  /** Exactly the kept entries are listed: every non-directory `.org`
      entry whose Info succeeded, and nothing else. */
  lemma {:induction false} CollectOrgFilesExactly(root: string, walk: seq<WalkEntry>)
    ensures forall e :: e in walk && IsOrgEntry(e) ==> Listed(root, e) in CollectOrgFiles(root, walk)
    ensures forall fi :: fi in CollectOrgFiles(root, walk) ==>
      exists e :: e in walk && IsOrgEntry(e) && fi == Listed(root, e)
    decreases |walk|
  {
    if walk != [] {
      CollectOrgFilesExactly(root, walk[1..]);
      var head := if IsOrgEntry(walk[0]) then [Listed(root, walk[0])] else [];
      assert CollectOrgFiles(root, walk) == head + CollectOrgFiles(root, walk[1..]);
      forall e | e in walk && IsOrgEntry(e)
        ensures Listed(root, e) in CollectOrgFiles(root, walk)
      {
        if e != walk[0] {
          assert e in walk[1..];
        }
      }
      forall fi | fi in CollectOrgFiles(root, walk)
        ensures exists e :: e in walk && IsOrgEntry(e) && fi == Listed(root, e)
      {
        if fi in head {
          assert walk[0] in walk;
        } else {
          var e :| e in walk[1..] && IsOrgEntry(e) && fi == Listed(root, e);
          assert e in walk;
        }
      }
    }
  }

  // ---------------------------------------------------------------------
  // UUID registration
  // ---------------------------------------------------------------------

  /** `key` is the key some UUID of `uuids` is stored under. */
  predicate Registers(prefix: string, uuids: seq<string>, key: string)
  {
    exists k :: 0 <= k < |uuids| && key == prefix + uuids[k]
  }

  /** The Store loop of processFile: each UUID, with the key prefix, maps
      to the file's path. */
  function Register(m: map<string, string>, prefix: string, uuids: seq<string>, path: string): map<string, string>
    decreases |uuids|
  {
    if uuids == [] then m else Register(m[prefix + uuids[0] := path], prefix, uuids[1..], path)
  }

  /** Registration adds exactly the file's keys, all pointing at the file,
      and leaves every other key as it was. */
  lemma {:induction false} RegisterFacts(m: map<string, string>, prefix: string, uuids: seq<string>, path: string)
    ensures forall key :: key in Register(m, prefix, uuids, path) <==> key in m || Registers(prefix, uuids, key)
    ensures forall k :: 0 <= k < |uuids| ==>
      prefix + uuids[k] in Register(m, prefix, uuids, path) && Register(m, prefix, uuids, path)[prefix + uuids[k]] == path
    ensures forall key :: key in m && !Registers(prefix, uuids, key) ==> Register(m, prefix, uuids, path)[key] == m[key]
    decreases |uuids|
  {
    if uuids != [] {
      var m' := m[prefix + uuids[0] := path];
      RegisterFacts(m', prefix, uuids[1..], path);
      forall key
        ensures Registers(prefix, uuids, key) <==> key == prefix + uuids[0] || Registers(prefix, uuids[1..], key)
      {
        if Registers(prefix, uuids, key) {
          var k :| 0 <= k < |uuids| && key == prefix + uuids[k];
          if k > 0 {
            assert key == prefix + uuids[1..][k - 1];
          }
        }
        if Registers(prefix, uuids[1..], key) {
          var k :| 0 <= k < |uuids[1..]| && key == prefix + uuids[1..][k];
          assert key == prefix + uuids[k + 1];
        }
      }
      forall k | 0 <= k < |uuids|
        ensures prefix + uuids[k] in Register(m, prefix, uuids, path)
        ensures Register(m, prefix, uuids, path)[prefix + uuids[k]] == path
      {
        if k > 0 {
          assert uuids[k] == uuids[1..][k - 1];
        }
      }
    }
  }

  // ---------------------------------------------------------------------
  // processFile
  // ---------------------------------------------------------------------

  /** What the file system yields for one listed file: its bytes (None
      when opening or reading fails) and its modification time (None when
      Stat fails). */
  datatype Source = Source(data: Option<string>, modTime: Option<int>)

  /** The go-org parser and the text collectText gathers from a parsed
      document (with the sentence-spacing substitution applied); neither
      is modelled, so both are parameters. */
  datatype Parser = Parser(parse: string -> OrgDoc.Document, collect: OrgDoc.Document -> string)

  /** processFile of generator/phase1.go, without the registration: a read
      failure is an error, an empty file gives nil, a Stat failure is an
      error, otherwise the metadata the AST extractors find. */
  function ProcessFile(filePath: string, src: Source, parser: Parser): (r: Result<Option<FileInfo>>)
    ensures src.data.None? ==> r.Err?
    ensures src.data == Some([]) ==> r == Ok(None)
    ensures src.data.Some? && src.data.value != [] ==>
      (r.Ok? <==> src.modTime.Some?) && (r.Ok? ==> r.value.Some?)
    ensures r.Ok? && r.value.Some? ==>
      src.data.Some? && src.data.value != [] && src.modTime == Some(r.value.value.modTime) &&
      r.value.value.path == filePath &&
      forall k :: 0 <= k < |r.value.value.uuids| ==> Uuid.IsValidUuid(r.value.value.uuids[k])
  {
    match src.data
    case None => Err("failed to read file")
    case Some(data) =>
      if data == [] then Ok(None)
      else if src.modTime.None? then Err("failed to stat file")
      else
        var doc := parser.parse(data);
        Ok(Some(FileInfo(
          filePath,
          src.modTime.value,
          Preview.PreviewTail(parser.collect(doc), PreviewLen),
          OrgDoc.TitleFromAst(doc),
          OrgDoc.TagsFromAst(doc),
          OrgDoc.UuidsFromAst(doc))))
  }

  /** processFile of main.go: open, Stat and mmap failures are errors, a
      zero-size file gives nil, otherwise the line-based readers' metadata
      and the `:ID:`-only scan. `strip` is the markup-stripping regular
      expression chain of the preview. */
  function ProcessFileLines(filePath: string, src: Source, strip: string -> string): (r: Result<Option<FileInfo>>)
    ensures src.data.None? || src.modTime.None? ==> r.Err?
    ensures src.modTime.Some? && src.data == Some([]) ==> r == Ok(None)
    ensures r.Ok? && r.value.Some? ==>
      src.data.Some? && src.data.value != [] && src.modTime == Some(r.value.value.modTime) &&
      r.value.value.path == filePath
  {
    if src.data.None? || src.modTime.None? then Err("failed to open, stat or map file")
    else if src.data.value == [] then Ok(None)
    else
      var data := src.data.value;
      Ok(Some(FileInfo(
        filePath,
        src.modTime.value,
        OrgLines.ExtractPreview(data, PreviewLen, strip),
        OrgLines.ExtractTitle(data),
        OrgLines.ExtractTags(data),
        Uuid.ExtractedUuids(data, Uuid.UpperOnly))))
  }

  /** The two readers disagree on an empty file whose Stat fails: the
      phase-one reader never stats it, main.go stats first. */
  lemma EmptyUnstattableFile(filePath: string, parser: Parser, strip: string -> string)
    ensures ProcessFile(filePath, Source(Some([]), None), parser) == Ok(None)
    ensures ProcessFileLines(filePath, Source(Some([]), None), strip).Err?
  {
  }

  // ---------------------------------------------------------------------
  // Tag maps
  // ---------------------------------------------------------------------

  /** The files under `tag`, nil when the tag is absent. */
  function Entries(m: map<string, seq<FileInfo>>, tag: string): seq<FileInfo>
  {
    if tag in m then m[tag] else []
  }

  /** `n` copies of one file. */
  function Copies(fi: FileInfo, n: nat): (r: seq<FileInfo>)
    ensures |r| == n && forall k :: 0 <= k < n ==> r[k] == fi
  {
    if n == 0 then [] else [fi] + Copies(fi, n - 1)
  }

  /** The phase-one tag loop: the file is appended under each of its tags,
      with no duplicate check. */
  function AppendTags(m: map<string, seq<FileInfo>>, tags: seq<string>, fi: FileInfo): map<string, seq<FileInfo>>
    decreases |tags|
  {
    if tags == [] then m else AppendTags(m[tags[0] := Entries(m, tags[0]) + [fi]], tags[1..], fi)
  }

  lemma MultisetHead(tags: seq<string>, t: string)
    requires tags != []
    ensures multiset(tags)[t] == (if tags[0] == t then 1 else 0) + multiset(tags[1..])[t]
  {
    assert tags == [tags[0]] + tags[1..];
  }

  /** Each tag's list grows by one copy of the file per occurrence of the
      tag in the file's tag list. */
  lemma {:induction false} AppendTagsCounts(m: map<string, seq<FileInfo>>, tags: seq<string>, fi: FileInfo, t: string)
    ensures Entries(AppendTags(m, tags, fi), t) == Entries(m, t) + Copies(fi, multiset(tags)[t])
    decreases |tags|
  {
    if tags == [] {
      assert Entries(m, t) + [] == Entries(m, t);
    } else {
      var m' := m[tags[0] := Entries(m, tags[0]) + [fi]];
      var n := multiset(tags[1..])[t];
      AppendTagsCounts(m', tags[1..], fi, t);
      MultisetHead(tags, t);
      assert AppendTags(m, tags, fi) == AppendTags(m', tags[1..], fi);
      if tags[0] == t {
        assert Entries(m', t) == Entries(m, t) + [fi];
        CopiesPrepend(fi, n);
        assert Entries(m', t) + Copies(fi, n) == Entries(m, t) + ([fi] + Copies(fi, n));
      } else {
        assert Entries(m', t) == Entries(m, t);
      }
    }
  }

  /** The tags present afterwards: those present before and the file's. */
  lemma {:induction false} AppendTagsKeys(m: map<string, seq<FileInfo>>, tags: seq<string>, fi: FileInfo, t: string)
    ensures t in AppendTags(m, tags, fi) <==> t in m || t in tags
    decreases |tags|
  {
    if tags != [] {
      AppendTagsKeys(m[tags[0] := Entries(m, tags[0]) + [fi]], tags[1..], fi, t);
      assert tags == [tags[0]] + tags[1..];
    }
  }

  lemma CopiesPrepend(fi: FileInfo, n: nat)
    ensures [fi] + Copies(fi, n) == Copies(fi, n + 1)
  {
  }

  /** A path appears among the files. */
  predicate HasPath(files: seq<FileInfo>, p: string)
  {
    exists k :: 0 <= k < |files| && files[k].path == p
  }

  /** No two files under one tag share a path. */
  predicate PathsDistinct(m: map<string, seq<FileInfo>>)
  {
    forall t, i, j :: t in m && 0 <= i < j < |m[t]| ==> m[t][i].path != m[t][j].path
  }

  /** main.go's tag append: LoadOrStore a one-file list, then append only
      when no file with the same path is there. */
  function AddTagUnique(m: map<string, seq<FileInfo>>, tag: string, fi: FileInfo): (r: map<string, seq<FileInfo>>)
  {
    if tag !in m then m[tag := [fi]]
    else if HasPath(m[tag], fi.path) then m
    else m[tag := m[tag] + [fi]]
  }

  /** One append keeps paths distinct, indexes the file under the tag, and
      only extends that tag's list. */
  lemma AddTagUniqueFacts(m: map<string, seq<FileInfo>>, tag: string, fi: FileInfo)
    ensures PathsDistinct(m) ==> PathsDistinct(AddTagUnique(m, tag, fi))
    ensures tag in AddTagUnique(m, tag, fi) && HasPath(AddTagUnique(m, tag, fi)[tag], fi.path)
    ensures Grows(m, AddTagUnique(m, tag, fi))
    ensures forall t :: t != tag ==> Entries(AddTagUnique(m, tag, fi), t) == Entries(m, t)
  {
    var r: map<string, seq<FileInfo>> := AddTagUnique(m, tag, fi);
    if tag !in m {
      assert r[tag][0].path == fi.path;
    } else if !HasPath(m[tag], fi.path) {
      assert r[tag][|m[tag]|].path == fi.path;
      if PathsDistinct(m) {
        forall t, i, j | t in r && 0 <= i < j < |r[t]|
          ensures r[t][i].path != r[t][j].path
        {
          if t == tag && j == |m[tag]| {
            assert r[t][i] == m[tag][i];
          }
        }
      }
    }
  }

  /** The main.go tag loop over one file's tags. */
  function UniqueTags(m: map<string, seq<FileInfo>>, tags: seq<string>, fi: FileInfo): map<string, seq<FileInfo>>
    decreases |tags|
  {
    if tags == [] then m else UniqueTags(AddTagUnique(m, tags[0], fi), tags[1..], fi)
  }

  /** Every file list is a prefix of its later self. */
  predicate Grows(m: map<string, seq<FileInfo>>, r: map<string, seq<FileInfo>>)
  {
    forall t :: t in m ==> t in r && m[t] <= r[t]
  }

  lemma GrowsHasPath(m: map<string, seq<FileInfo>>, r: map<string, seq<FileInfo>>, t: string, p: string)
    requires Grows(m, r) && t in m && HasPath(m[t], p)
    ensures t in r && HasPath(r[t], p)
  {
    var k :| 0 <= k < |m[t]| && m[t][k].path == p;
    assert r[t][k] == m[t][k];
  }

  lemma {:induction false} UniqueTagsFacts(m: map<string, seq<FileInfo>>, tags: seq<string>, fi: FileInfo)
    ensures PathsDistinct(m) ==> PathsDistinct(UniqueTags(m, tags, fi))
    ensures Grows(m, UniqueTags(m, tags, fi))
    ensures forall j :: 0 <= j < |tags| ==>
      tags[j] in UniqueTags(m, tags, fi) && HasPath(UniqueTags(m, tags, fi)[tags[j]], fi.path)
    decreases |tags|
  {
    if tags != [] {
      var m' := AddTagUnique(m, tags[0], fi);
      AddTagUniqueFacts(m, tags[0], fi);
      UniqueTagsFacts(m', tags[1..], fi);
      var r := UniqueTags(m, tags, fi);
      assert r == UniqueTags(m', tags[1..], fi);
      GrowsHasPath(m', r, tags[0], fi.path);
      forall j | 0 <= j < |tags|
        ensures tags[j] in r && HasPath(r[tags[j]], fi.path)
      {
        if j > 0 {
          assert tags[j] == tags[1..][j - 1];
        }
      }
    }
  }

  /** Where the two disciplines part: a file listing a tag twice is
      entered twice by phase one and once by main.go. */
  lemma RepeatedTag(fi: FileInfo, t: string)
    ensures Entries(AppendTags(map[], [t, t], fi), t) == [fi, fi]
    ensures Entries(UniqueTags(map[], [t, t], fi), t) == [fi]
  {
    AppendTagsCounts(map[], [t, t], fi, t);
    assert multiset([t, t])[t] == 2;
    assert Copies(fi, 2) == [fi] + ([fi] + Copies(fi, 0));
    var m1: map<string, seq<FileInfo>> := AddTagUnique(map[], t, fi);
    assert m1 == map[t := [fi]];
    assert m1[t][0].path == fi.path;
    assert HasPath(m1[t], fi.path);
    assert AddTagUnique(m1, t, fi) == m1;
    assert [t, t][1..] == [t];
    assert UniqueTags(map[], [t, t], fi) == UniqueTags(m1, [t], fi);
    assert [t][1..] == [];
    assert UniqueTags(m1, [t], fi) == UniqueTags(m1, [], fi);
  }

  // ---------------------------------------------------------------------
  // FindAndProcessOrgFiles
  // ---------------------------------------------------------------------

  /** The finished index: the file list and the two maps. */
  datatype Index = Index(files: seq<FileInfo>, uuidMap: map<string, string>, tagMap: map<string, seq<FileInfo>>)

  /** The number of files with at least one UUID. */
  function CountWithUuids(files: seq<FileInfo>): (n: nat)
    ensures n <= |files|
  {
    if files == [] then 0
    else (if |files[|files| - 1].uuids| > 0 then 1 else 0) + CountWithUuids(files[..|files| - 1])
  }

  /** Every UUID of every file is a key of the UUID map. */
  predicate AllRegistered(ix: Index, prefix: string)
  {
    forall k, j :: 0 <= k < |ix.files| && 0 <= j < |ix.files[k].uuids| ==>
      prefix + ix.files[k].uuids[j] in ix.uuidMap
  }

  /** Every UUID-map value is the path of a file in the list. */
  predicate PointsIntoFiles(ix: Index)
  {
    forall key :: key in ix.uuidMap ==> HasPath(ix.files, ix.uuidMap[key])
  }

  /** What processFile leaves for one listed file: the processed
      FileInfo, or None when it failed or found the file empty. */
  function Outcome(listed: FileInfo, src: Source, parser: Parser): (o: Option<FileInfo>)
    ensures o.Some? ==> o.value.path == listed.path
  {
    var r := ProcessFile(listed.path, src, parser);
    if r.Ok? && r.value.Some? then Some(r.value.value) else None
  }

  /** One goroutine of FindAndProcessOrgFiles, run in list order, given
      processFile's outcome `o`: a rejected or empty file stays as listed;
      a processed one replaces it and is registered under its UUIDs and
      tags. The flag says whether the file had UUIDs. */
  function Phase1Visit(ix: Index, listed: FileInfo, o: Option<FileInfo>, prefix: string): (Index, bool)
  {
    match o
    case Some(fi) =>
      (Index(ix.files + [fi], Register(ix.uuidMap, prefix, fi.uuids, fi.path), AppendTags(ix.tagMap, fi.tags, fi)),
       |fi.uuids| > 0)
    case None => (ix.(files := ix.files + [listed]), false)
  }

  /** The visited file keeps its listed path. */
  lemma Phase1VisitShape(ix: Index, listed: FileInfo, o: Option<FileInfo>, prefix: string)
    requires listed.uuids == []
    requires o.Some? ==> o.value.path == listed.path
    ensures var (ix', b) := Phase1Visit(ix, listed, o, prefix);
      |ix'.files| == |ix.files| + 1 && ix'.files[..|ix.files|] == ix.files &&
      ix'.files[|ix.files|].path == listed.path
  {
    var (ix', b) := Phase1Visit(ix, listed, o, prefix);
    assert ix'.files[..|ix.files|] == ix.files;
  }

  /** The counter follows the UUID-bearing files. */
  lemma Phase1VisitCount(ix: Index, listed: FileInfo, o: Option<FileInfo>, prefix: string)
    requires listed.uuids == []
    ensures var (ix', b) := Phase1Visit(ix, listed, o, prefix);
      CountWithUuids(ix'.files) == CountWithUuids(ix.files) + (if b then 1 else 0)
  {
    var (ix', b) := Phase1Visit(ix, listed, o, prefix);
    assert ix'.files[..|ix.files|] == ix.files;
  }

  /** A visit keeps both UUID-map invariants. */
  lemma Phase1VisitMaps(ix: Index, listed: FileInfo, o: Option<FileInfo>, prefix: string)
    requires listed.uuids == []
    ensures var (ix', b) := Phase1Visit(ix, listed, o, prefix);
      (AllRegistered(ix, prefix) ==> AllRegistered(ix', prefix)) &&
      (PointsIntoFiles(ix) ==> PointsIntoFiles(ix'))
  {
    var (ix', b) := Phase1Visit(ix, listed, o, prefix);
    var n := |ix.files|;
    assert |ix'.files| == n + 1 && ix'.files[..n] == ix.files;
    var fi := ix'.files[n];
    RegisterFacts(ix.uuidMap, prefix, fi.uuids, fi.path);
    if AllRegistered(ix, prefix) {
      forall k, j | 0 <= k < |ix'.files| && 0 <= j < |ix'.files[k].uuids|
        ensures prefix + ix'.files[k].uuids[j] in ix'.uuidMap
      {
        if k < n {
          assert ix'.files[k] == ix.files[k];
        }
      }
    }
    if PointsIntoFiles(ix) {
      forall key | key in ix'.uuidMap
        ensures HasPath(ix'.files, ix'.uuidMap[key])
      {
        if key in ix.uuidMap && !Registers(prefix, fi.uuids, key) {
          var k :| 0 <= k < n && ix.files[k].path == ix.uuidMap[key];
          assert ix'.files[k] == ix.files[k];
        } else {
          var k :| 0 <= k < |fi.uuids| && key == prefix + fi.uuids[k];
          assert ix'.files[n].path == ix'.uuidMap[key];
        }
      }
    }
  }

  /** An outcome function that never changes a file's path. */
  ghost predicate KeepsPaths(outcome: FileInfo -> Option<FileInfo>)
  {
    forall l :: outcome(l).Some? ==> outcome(l).value.path == l.path
  }

  /** The listed files are visited in order; `outcome` is processFile's
      result for each. */
  function Phase1Fold(listed: seq<FileInfo>, outcome: FileInfo -> Option<FileInfo>, prefix: string, ix: Index, n: nat): (Index, nat)
    decreases |listed|
  {
    if listed == [] then (ix, n)
    else
      var (ix', b) := Phase1Visit(ix, listed[0], outcome(listed[0]), prefix);
      Phase1Fold(listed[1..], outcome, prefix, ix', n + (if b then 1 else 0))
  }

  /** Files as collectOrgFiles lists them: no metadata yet. */
  predicate Bare(listed: seq<FileInfo>)
  {
    forall k :: 0 <= k < |listed| ==> listed[k].uuids == []
  }

  /** The fold keeps the listed files in place, with their paths. */
  lemma {:induction false} Phase1FoldFiles(listed: seq<FileInfo>, outcome: FileInfo -> Option<FileInfo>, prefix: string, ix: Index, n: nat)
    requires Bare(listed) && KeepsPaths(outcome)
    ensures var r := Phase1Fold(listed, outcome, prefix, ix, n);
      |r.0.files| == |ix.files| + |listed| && r.0.files[..|ix.files|] == ix.files &&
      (forall k :: 0 <= k < |listed| ==> r.0.files[|ix.files| + k].path == listed[k].path)
    decreases |listed|
  {
    if listed != [] {
      var v := Phase1Visit(ix, listed[0], outcome(listed[0]), prefix);
      var ix1 := v.0;
      Phase1VisitShape(ix, listed[0], outcome(listed[0]), prefix);
      var n1 := n + (if v.1 then 1 else 0);
      assert Bare(listed[1..]);
      Phase1FoldFiles(listed[1..], outcome, prefix, ix1, n1);
      var r := Phase1Fold(listed[1..], outcome, prefix, ix1, n1);
      assert Phase1Fold(listed, outcome, prefix, ix, n) == r;
      var m := |ix.files|;
      var fs := r.0.files;
      assert fs[..m + 1] == ix1.files;
      assert fs[..m] == fs[..m + 1][..m];
      assert ix1.files[..m] == ix.files;
      assert fs[m] == ix1.files[m];
      forall k | 0 <= k < |listed|
        ensures fs[m + k].path == listed[k].path
      {
        if k > 0 {
          assert listed[k] == listed[1..][k - 1];
          assert fs[m + k] == fs[|ix1.files| + (k - 1)];
        }
      }
    }
  }

  /** The fold counts exactly the UUID-bearing files it leaves. */
  lemma {:induction false} Phase1FoldCount(listed: seq<FileInfo>, outcome: FileInfo -> Option<FileInfo>, prefix: string, ix: Index, n: nat)
    requires Bare(listed)
    requires n == CountWithUuids(ix.files)
    ensures var r := Phase1Fold(listed, outcome, prefix, ix, n);
      r.1 == CountWithUuids(r.0.files)
    decreases |listed|
  {
    if listed != [] {
      var v := Phase1Visit(ix, listed[0], outcome(listed[0]), prefix);
      Phase1VisitCount(ix, listed[0], outcome(listed[0]), prefix);
      assert Bare(listed[1..]);
      Phase1FoldCount(listed[1..], outcome, prefix, v.0, n + (if v.1 then 1 else 0));
    }
  }

  /** The fold keeps the listed files in place, with their paths, and
      counts the UUID-bearing ones. */
  lemma Phase1FoldShape(listed: seq<FileInfo>, outcome: FileInfo -> Option<FileInfo>, prefix: string, ix: Index, n: nat)
    requires Bare(listed) && KeepsPaths(outcome)
    requires n == CountWithUuids(ix.files)
    ensures var r := Phase1Fold(listed, outcome, prefix, ix, n);
      |r.0.files| == |ix.files| + |listed| && r.0.files[..|ix.files|] == ix.files &&
      (forall k :: 0 <= k < |listed| ==> r.0.files[|ix.files| + k].path == listed[k].path) &&
      r.1 == CountWithUuids(r.0.files)
  {
    Phase1FoldFiles(listed, outcome, prefix, ix, n);
    Phase1FoldCount(listed, outcome, prefix, ix, n);
  }

  /** The fold keeps both UUID-map invariants. */
  lemma {:induction false} Phase1FoldMaps(listed: seq<FileInfo>, outcome: FileInfo -> Option<FileInfo>, prefix: string, ix: Index, n: nat)
    requires Bare(listed) && KeepsPaths(outcome)
    ensures var r := Phase1Fold(listed, outcome, prefix, ix, n);
      (AllRegistered(ix, prefix) ==> AllRegistered(r.0, prefix)) &&
      (PointsIntoFiles(ix) ==> PointsIntoFiles(r.0))
    decreases |listed|
  {
    if listed != [] {
      var v := Phase1Visit(ix, listed[0], outcome(listed[0]), prefix);
      Phase1VisitMaps(ix, listed[0], outcome(listed[0]), prefix);
      assert Bare(listed[1..]);
      Phase1FoldMaps(listed[1..], outcome, prefix, v.0, n + (if v.1 then 1 else 0));
    }
  }

  lemma CollectedBare(root: string, walk: seq<WalkEntry>)
    ensures Bare(CollectOrgFiles(root, walk))
  {
    var files := CollectOrgFiles(root, walk);
    CollectOrgFilesExactly(root, walk);
    forall k | 0 <= k < |files|
      ensures files[k].uuids == []
    {
      assert files[k] in files;
    }
  }

  /** FindAndProcessOrgFiles with the goroutines run one after another in
      list order. The key prefix is explicit: generator/phase1.go stores
      bare UUIDs, the link rewriting needs "id:". */
  function FindAndProcessOrgFiles(root: string, walk: seq<WalkEntry>, fs: string -> Source, parser: Parser, prefix: string)
    : (r: (Index, Results.GenerationResult))
    ensures r.1.totalFilesScanned == |CollectOrgFiles(root, walk)| == |r.0.files|
    ensures r.1.filesWithUuids == CountWithUuids(r.0.files) <= r.1.totalFilesScanned
    ensures Results.Counters(r.1)[2..] == [0, 0, 0, 0, 0]
    ensures forall k :: 0 <= k < |r.0.files| ==> r.0.files[k].path == CollectOrgFiles(root, walk)[k].path
    ensures AllRegistered(r.0, prefix) && PointsIntoFiles(r.0)
  {
    var listed := CollectOrgFiles(root, walk);
    CollectedBare(root, walk);
    var start := Index([], map[], map[]);
    var outcome := (l: FileInfo) => Outcome(l, fs(l.path), parser);
    Phase1FoldShape(listed, outcome, prefix, start, 0);
    Phase1FoldMaps(listed, outcome, prefix, start, 0);
    var (ix, n) := Phase1Fold(listed, outcome, prefix, start, 0);
    (ix, Results.Zero.(totalFilesScanned := |listed|, filesWithUuids := n))
  }

  // ---------------------------------------------------------------------
  // main.go phase2Worker
  // ---------------------------------------------------------------------

  /** The global state the workers of main.go build. */
  datatype MainIndex = MainIndex(
    orgFiles: seq<FileInfo>,
    uuidMap: map<string, string>,
    tagMap: map<string, seq<FileInfo>>,
    totalFiles: nat,
    filesWithUuids: nat)

  /** One file from the channel: rejected and empty files are dropped,
      processed files are counted, listed, registered under "id:" keys and
      entered under their tags at most once per path. */
  function MainVisit(st: MainIndex, queued: FileInfo, src: Source, strip: string -> string): MainIndex
  {
    var o := ProcessFileLines(queued.path, src, strip);
    if o.Err? || o.value.None? then st
    else
      var fi := o.value.value;
      MainIndex(
        st.orgFiles + [fi],
        Register(st.uuidMap, IdKeyPrefix, fi.uuids, fi.path),
        UniqueTags(st.tagMap, fi.tags, fi),
        st.totalFiles + 1,
        st.filesWithUuids + (if |fi.uuids| > 0 then 1 else 0))
  }

  /** The invariant of the main.go index: the counters count the listed
      files, no tag lists a path twice, and every listed file is found
      under each of its tags. */
  predicate MainInvariant(st: MainIndex)
  {
    st.totalFiles == |st.orgFiles| &&
    st.filesWithUuids == CountWithUuids(st.orgFiles) &&
    PathsDistinct(st.tagMap) &&
    forall k, j :: 0 <= k < |st.orgFiles| && 0 <= j < |st.orgFiles[k].tags| ==>
      st.orgFiles[k].tags[j] in st.tagMap && HasPath(st.tagMap[st.orgFiles[k].tags[j]], st.orgFiles[k].path)
  }

  lemma MainVisitKeeps(st: MainIndex, queued: FileInfo, src: Source, strip: string -> string)
    requires MainInvariant(st)
    ensures MainInvariant(MainVisit(st, queued, src, strip))
  {
    var o := ProcessFileLines(queued.path, src, strip);
    if o.Ok? && o.value.Some? {
      var fi := o.value.value;
      var st' := MainVisit(st, queued, src, strip);
      var n := |st.orgFiles|;
      UniqueTagsFacts(st.tagMap, fi.tags, fi);
      assert st'.orgFiles[..n] == st.orgFiles;
      forall k, j | 0 <= k < |st'.orgFiles| && 0 <= j < |st'.orgFiles[k].tags|
        ensures st'.orgFiles[k].tags[j] in st'.tagMap && HasPath(st'.tagMap[st'.orgFiles[k].tags[j]], st'.orgFiles[k].path)
      {
        if k < n {
          assert st'.orgFiles[k] == st.orgFiles[k];
          GrowsHasPath(st.tagMap, st'.tagMap, st.orgFiles[k].tags[j], st.orgFiles[k].path);
        } else {
          assert st'.orgFiles[k] == fi;
        }
      }
    }
  }

  /** The workers, run one after another over the queued files. */
  function MainFold(queued: seq<FileInfo>, fs: string -> Source, strip: string -> string, st: MainIndex): MainIndex
  {
    if queued == [] then st
    else MainFold(queued[1..], fs, strip, MainVisit(st, queued[0], fs(queued[0].path), strip))
  }

  lemma {:induction false} MainFoldKeeps(queued: seq<FileInfo>, fs: string -> Source, strip: string -> string, st: MainIndex)
    requires MainInvariant(st)
    ensures MainInvariant(MainFold(queued, fs, strip, st))
    decreases |queued|
  {
    if queued != [] {
      MainVisitKeeps(st, queued[0], fs(queued[0].path), strip);
      MainFoldKeeps(queued[1..], fs, strip, MainVisit(st, queued[0], fs(queued[0].path), strip));
    }
  }

  /** The index main.go's discovery leaves: totals count the processed
      files, no tag holds one path twice, and no processed file is missing
      from any of its tags. */
  function MainDiscover(queued: seq<FileInfo>, fs: string -> Source, strip: string -> string): (st: MainIndex)
    ensures MainInvariant(st)
    ensures st.filesWithUuids <= st.totalFiles
  {
    var start := MainIndex([], map[], map[], 0, 0);
    MainFoldKeeps(queued, fs, strip, start);
    MainFold(queued, fs, strip, start)
  }
}
