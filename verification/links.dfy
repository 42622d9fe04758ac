/** replaceUUIDLinks of generator/phase2.go: every occurrence of a known
    key in a page is replaced by a relative link to the page that defines
    it, "file:" + relative path without ".org" + ".html". */
module Links {
  import opened Wrappers
  import opened GoStrings
  import opened Paths
  import opened Uuid

  /** One reported occurrence: where it starts and which key it is. */
  datatype Match = Match(pos: nat, word: string)

  function End(m: Match): nat
  {
    m.pos + |m.word|
  }

  // ---------------------------------------------------------------------
  // The splice
  // ---------------------------------------------------------------------

  /** The splice loop from position `last` on: the text before each match,
      then the match's replacement; None where Go's slice expressions
      would panic (a match starting before the previous one ended, or past
      the end of the text). */
  function SpliceFrom(content: string, ms: seq<Match>, last: nat, f: string -> string): (r: Option<string>)
    ensures ms == [] && last <= |content| ==> r == Some(content[last..])
    decreases |ms|
  {
    if ms == [] then
      if last <= |content| then Some(content[last..]) else None
    else
      var m := ms[0];
      if !(last <= m.pos <= |content|) then None
      else
        match SpliceFrom(content, ms[1..], End(m), f)
        case None => None
        case Some(rest) => Some(content[last..m.pos] + f(m.word) + rest)
  }

  function Splice(content: string, ms: seq<Match>, f: string -> string): Option<string>
  {
    SpliceFrom(content, ms, 0, f)
  }

  /** Matches as a correct search reports them: each really occurs, they
      are sorted and do not overlap, and none starts before `last`. */
  predicate Ordered(content: string, ms: seq<Match>, last: nat)
  {
    && last <= |content|
    && (forall i :: 0 <= i < |ms| ==> OccursAt(content, ms[i].word, ms[i].pos))
    && (|ms| > 0 ==> last <= ms[0].pos)
    && (forall i :: 0 <= i < |ms| - 1 ==> End(ms[i]) <= ms[i + 1].pos)
  }

  lemma OrderedTail(content: string, ms: seq<Match>, last: nat)
    requires Ordered(content, ms, last) && ms != []
    ensures Ordered(content, ms[1..], End(ms[0]))
  {
    if |ms| > 1 {
      assert End(ms[0]) <= ms[1].pos;
    }
  }

  /** Ordered matches never make the splice panic. */
  lemma {:induction false} SpliceDefined(content: string, ms: seq<Match>, last: nat, f: string -> string)
    requires Ordered(content, ms, last)
    ensures SpliceFrom(content, ms, last, f).Some?
    decreases |ms|
  {
    if ms != [] {
      OrderedTail(content, ms, last);
      SpliceDefined(content, ms[1..], End(ms[0]), f);
    }
  }

  /** Every character outside the matches is kept, in order: replacing
      each match by its own text gives the original back. */
  lemma {:induction false} SpliceKeepsText(content: string, ms: seq<Match>, last: nat, f: string -> string)
    requires Ordered(content, ms, last)
    requires forall i :: 0 <= i < |ms| ==> f(ms[i].word) == ms[i].word
    ensures SpliceFrom(content, ms, last, f) == Some(content[last..])
    decreases |ms|
  {
    if ms != [] {
      var m := ms[0];
      OrderedTail(content, ms, last);
      assert forall i :: 0 <= i < |ms[1..]| ==> f(ms[1..][i].word) == ms[1..][i].word by {
        forall i | 0 <= i < |ms[1..]|
          ensures f(ms[1..][i].word) == ms[1..][i].word
        {
          assert ms[1..][i] == ms[i + 1];
        }
      }
      SpliceKeepsText(content, ms[1..], End(m), f);
      assert OccursAt(content, m.word, m.pos);
      assert content[last..m.pos] + m.word + content[End(m)..] == content[last..];
    }
  }

  /** A match that starts before the previous one ends makes Go slice
      backwards, which panics. */
  lemma SpliceOverlapPanics(content: string, m1: Match, m2: Match, f: string -> string)
    requires m2.pos < End(m1)
    ensures Splice(content, [m1, m2], f) == None
  {
    assert [m1, m2][1..] == [m2];
    assert SpliceFrom(content, [m2], End(m1), f) == None;
  }

  /** One match: the text before it, its replacement, the text after it. */
  lemma SpliceOne(pre: string, key: string, post: string, f: string -> string)
    ensures Splice(pre + key + post, [Match(|pre|, key)], f) == Some(pre + f(key) + post)
  {
    var content := pre + key + post;
    assert content[..|pre|] == pre;
    assert content[|pre| + |key|..] == post;
    assert [Match(|pre|, key)][1..] == [];
  }

  function Prepend(x: string, o: Option<string>): Option<string>
  {
    match o
    case None => None
    case Some(y) => Some(x + y)
  }

  lemma PrependTwice(x: string, y: string, o: Option<string>)
    ensures Prepend(x, Prepend(y, o)) == Prepend(x + y, o)
  {
    if o.Some? {
      assert x + (y + o.value) == (x + y) + o.value;
    }
  }

  /** The splice loop as written: append the text up to each match and its
      replacement, then the tail. */
  method SpliceLoop(content: string, ms: seq<Match>, f: string -> string) returns (r: Option<string>)
    ensures r == Splice(content, ms, f)
  {
    var result := "";
    var lastPos: nat := 0;
    var k := 0;
    assert ms[0..] == ms;
    assert Prepend("", Splice(content, ms, f)) == Splice(content, ms, f) by {
      if Splice(content, ms, f).Some? {
        assert "" + Splice(content, ms, f).value == Splice(content, ms, f).value;
      }
    }
    while k < |ms|
      invariant 0 <= k <= |ms|
      invariant Splice(content, ms, f) == Prepend(result, SpliceFrom(content, ms[k..], lastPos, f))
    {
      var m := ms[k];
      assert ms[k..][0] == m && ms[k..][1..] == ms[k + 1..];
      if !(lastPos <= m.pos <= |content|) {
        return None;
      }
      var piece := content[lastPos..m.pos] + f(m.word);
      PrependTwice(result, piece, SpliceFrom(content, ms[k + 1..], End(m), f));
      result := result + piece;
      lastPos := End(m);
      k := k + 1;
    }
    assert ms[k..] == [];
    if lastPos > |content| {
      return None;
    }
    r := Some(result + content[lastPos..]);
  }

  // ---------------------------------------------------------------------
  // Finding the keys
  // ---------------------------------------------------------------------

  /** A key that can be reported at position `i`. */
  predicate KeyAt(content: string, keywords: seq<string>, k: int, i: nat)
  {
    0 <= k < |keywords| && keywords[k] != [] && OccursAt(content, keywords[k], i)
  }

  /** The first key, from index `from` on, that occurs at `i`, or -1. */
  function FirstKeyAt(content: string, keywords: seq<string>, i: nat, from: nat): (k: int)
    requires from <= |keywords|
    ensures k == -1 <==> forall j :: from <= j < |keywords| ==> !KeyAt(content, keywords, j, i)
    ensures k != -1 ==> from <= k && KeyAt(content, keywords, k, i)
    decreases |keywords| - from
  {
    if from == |keywords| then -1
    else if KeyAt(content, keywords, from, i) then from
    else FirstKeyAt(content, keywords, i, from + 1)
  }

  /** The search, left to right: at each position the first key that
      occurs there is reported and the search resumes after it. */
  function Scan(content: string, keywords: seq<string>, i: nat): (ms: seq<Match>)
    decreases |content| - i
  {
    if i >= |content| then []
    else
      var k := FirstKeyAt(content, keywords, i, 0);
      if k == -1 then Scan(content, keywords, i + 1)
      else [Match(i, keywords[k])] + Scan(content, keywords, i + |keywords[k]|)
  }

  /** No key occurs anywhere from `i` on. */
  predicate NoKeyFrom(content: string, keywords: seq<string>, i: nat)
  {
    forall j, k :: i <= j < |content| && 0 <= k < |keywords| ==> !KeyAt(content, keywords, k, j)
  }

  /** A reported match followed by matches from its end on is ordered. */
  lemma OrderedCons(content: string, m: Match, rest: seq<Match>, i: nat)
    requires i <= m.pos && OccursAt(content, m.word, m.pos)
    requires Ordered(content, rest, End(m))
    ensures Ordered(content, [m] + rest, i)
  {
    var ms := [m] + rest;
    assert ms[1..] == rest;
    forall j | 0 <= j < |ms| - 1
      ensures End(ms[j]) <= ms[j + 1].pos
    {
      if j > 0 {
        assert ms[j] == rest[j - 1] && ms[j + 1] == rest[j];
      }
    }
    forall j | 0 <= j < |ms|
      ensures OccursAt(content, ms[j].word, ms[j].pos)
    {
      if j > 0 {
        assert ms[j] == rest[j - 1];
      }
    }
  }

  /** Matches ordered from `i + 1` are ordered from `i`. */
  lemma OrderedWeaken(content: string, ms: seq<Match>, i: nat)
    requires Ordered(content, ms, i + 1)
    ensures Ordered(content, ms, i)
  {
  }

  /** The search reports matches that splice safely. */
  lemma {:induction false} ScanOrdered(content: string, keywords: seq<string>, i: nat)
    requires i <= |content|
    ensures Ordered(content, Scan(content, keywords, i), i)
    decreases |content| - i
  {
    if i < |content| {
      var k := FirstKeyAt(content, keywords, i, 0);
      if k == -1 {
        ScanOrdered(content, keywords, i + 1);
        OrderedWeaken(content, Scan(content, keywords, i + 1), i);
      } else {
        var m := Match(i, keywords[k]);
        ScanOrdered(content, keywords, End(m));
        OrderedCons(content, m, Scan(content, keywords, End(m)), i);
      }
    }
  }

  /** The search reports nothing exactly when no key occurs. */
  lemma {:induction false} ScanEmpty(content: string, keywords: seq<string>, i: nat)
    ensures Scan(content, keywords, i) == [] <==> NoKeyFrom(content, keywords, i)
    decreases |content| - i
  {
    if i < |content| {
      var k := FirstKeyAt(content, keywords, i, 0);
      ScanEmpty(content, keywords, i + 1);
      if k == -1 {
        forall j, k' | i <= j < |content| && 0 <= k' < |keywords| && KeyAt(content, keywords, k', j)
          ensures i + 1 <= j
        {
        }
      }
    } else {
      assert NoKeyFrom(content, keywords, i);
    }
  }

  // ---------------------------------------------------------------------
  // replaceUUIDLinks
  // ---------------------------------------------------------------------

  /** The target path stored for a key: the last one listed, since later
      keys overwrite earlier ones when the key-to-path map is filled; ""
      (Go's zero value) for none. */
  function TargetFor(keywords: seq<string>, targetPaths: seq<string>, w: string): string
  {
    var k := LastIndex(keywords, w);
    if 0 <= k < |targetPaths| then targetPaths[k] else ""
  }

  /** The link path: relative to the page's directory, or the stored path
      itself when filepath.Rel fails. */
  function LinkPath(currentDir: string, targetPath: string): (p: string)
    ensures Rel(currentDir, targetPath).Err? ==> p == targetPath
  {
    match Rel(currentDir, targetPath)
    case Ok(rel) => rel
    case Err(_) => targetPath
  }

  /** The replacement text for a relative path. */
  function Replacement(rel: string): (r: string)
    ensures HasPrefix(r, "file:") && HasSuffix(r, ".html")
  {
    var r := "file:" + TrimSuffix(rel, ".org") + ".html";
    assert r[..5] == "file:";
    assert r[|r| - 5..] == ".html";
    r
  }

  /** The replacement for one matched key, linked from `currentFilePath`. */
  function LinkFor(keywords: seq<string>, targetPaths: seq<string>, currentFilePath: string, w: string): string
  {
    Replacement(LinkPath(Dir(currentFilePath), TargetFor(keywords, targetPaths, w)))
  }

  function ReplacementFor(keywords: seq<string>, targetPaths: seq<string>, currentFilePath: string): string -> string
  {
    w => LinkFor(keywords, targetPaths, currentFilePath, w)
  }

  /** replaceUUIDLinks with the match list given: the content unchanged
      when there are no keys, the key and path lists differ in length, or
      nothing matched; else the splice (None where Go would panic). */
  function ReplaceWith(data: string, keywords: seq<string>, targetPaths: seq<string>,
                       currentFilePath: string, ms: seq<Match>): (r: Option<string>)
    ensures |keywords| == 0 || |targetPaths| != |keywords| || ms == [] ==> r == Some(data)
  {
    if |keywords| == 0 || |targetPaths| != |keywords| then Some(data)
    else if ms == [] then Some(data)
    else Splice(data, ms, ReplacementFor(keywords, targetPaths, currentFilePath))
  }

  /** replaceUUIDLinks with the left-to-right search. */
  function ReplaceUuidLinks(data: string, keywords: seq<string>, targetPaths: seq<string>,
                            currentFilePath: string): (r: string)
    ensures |keywords| == 0 || |targetPaths| != |keywords| ==> r == data
  {
    var ms := Scan(data, keywords, 0);
    ScanOrdered(data, keywords, 0);
    SpliceDefined(data, ms, 0, ReplacementFor(keywords, targetPaths, currentFilePath));
    ReplaceWith(data, keywords, targetPaths, currentFilePath, ms).value
  }

  /** Text in which no key occurs comes back unchanged. */
  lemma ReplaceNothingFound(data: string, keywords: seq<string>, targetPaths: seq<string>, currentFilePath: string)
    requires NoKeyFrom(data, keywords, 0)
    ensures ReplaceUuidLinks(data, keywords, targetPaths, currentFilePath) == data
  {
    ScanEmpty(data, keywords, 0);
  }

  /** With the guards passed, the output is the splice of the search's
      matches, and text outside them is kept: replacing each key by
      itself would give the input back. */
  lemma ReplaceIsSplice(data: string, keywords: seq<string>, targetPaths: seq<string>, currentFilePath: string)
    requires |keywords| > 0 && |targetPaths| == |keywords|
    ensures Some(ReplaceUuidLinks(data, keywords, targetPaths, currentFilePath))
         == Splice(data, Scan(data, keywords, 0), ReplacementFor(keywords, targetPaths, currentFilePath))
    ensures Splice(data, Scan(data, keywords, 0), w => w) == Some(data)
  {
    var ms := Scan(data, keywords, 0);
    ScanOrdered(data, keywords, 0);
    SpliceDefined(data, ms, 0, ReplacementFor(keywords, targetPaths, currentFilePath));
    SpliceKeepsText(data, ms, 0, w => w);
  }

  // ---------------------------------------------------------------------
  // The relative-link shapes of a replacement
  // ---------------------------------------------------------------------

  /** A page linking to a page in its own directory gets the bare name. */
  lemma LinkSameDir(d: Path, src: string, n: string)
    requires IsClean(d) && IsName(src) && IsName(n)
    ensures Replacement(LinkPath(Dir(Render(Path(d.abs, d.elems + [src]))), Render(Path(d.abs, d.elems + [n]))))
         == "file:" + TrimSuffix(n, ".org") + ".html"
  {
    DirOfChild(d, src);
    RelSameDir(d, n);
  }

  /** A link into a child directory gets `sub/name`. */
  lemma LinkSubDir(d: Path, src: string, sub: string, n: string)
    requires IsClean(d) && IsName(src) && IsName(sub) && IsName(n)
    ensures Replacement(LinkPath(Dir(Render(Path(d.abs, d.elems + [src]))), Render(Path(d.abs, d.elems + [sub, n]))))
         == "file:" + TrimSuffix(sub + "/" + n, ".org") + ".html"
  {
    DirOfChild(d, src);
    RelSubDir(d, sub, n);
  }

  /** A link from a child directory up to its parent gets `../name`. */
  lemma LinkParentDir(d: Path, sub: string, src: string, n: string)
    requires IsClean(d) && IsName(sub) && IsName(src) && IsName(n) && sub != n
    ensures IsClean(Path(d.abs, d.elems + [sub]))
    ensures Replacement(LinkPath(Dir(Render(Path(d.abs, d.elems + [sub, src]))), Render(Path(d.abs, d.elems + [n]))))
         == "file:" + TrimSuffix("../" + n, ".org") + ".html"
  {
    var b := Path(d.abs, d.elems + [sub]);
    ExtendClean(d, [sub]);
    assert b.elems + [src] == d.elems + [sub, src];
    DirOfChild(b, src);
    RelParentDir(d, sub, n);
  }

  // ---------------------------------------------------------------------
  // One key in one org link: the key format decides the result
  // ---------------------------------------------------------------------

  /** An occurrence of `p` covering position `idx` would put one of its
      characters there. */
  lemma NotCovering(s: string, p: string, j: nat, idx: nat)
    requires j <= idx < j + |p| && idx < |s|
    requires forall t :: 0 <= t < |p| ==> p[t] != s[idx]
    ensures !OccursAt(s, p, j)
  {
    if j + |p| <= |s| {
      assert s[j..j + |p|][idx - j] == s[idx];
    }
  }

  /** Scanning up to position `p` finds nothing when no key occurs before it. */
  lemma {:induction false} ScanSkip(content: string, keywords: seq<string>, i: nat, p: nat)
    requires i <= p <= |content|
    requires forall j, k :: i <= j < p && 0 <= k < |keywords| ==> !KeyAt(content, keywords, k, j)
    ensures Scan(content, keywords, i) == Scan(content, keywords, p)
    decreases p - i
  {
    if i < p {
      assert FirstKeyAt(content, keywords, i, 0) == -1;
      ScanSkip(content, keywords, i + 1, p);
    }
  }

  /** A single key that occurs exactly once is reported once. */
  lemma ScanSingle(content: string, key: string, p: nat)
    requires key != [] && OccursAt(content, key, p)
    requires forall j :: 0 <= j < p ==> !OccursAt(content, key, j)
    requires forall j :: p + |key| <= j ==> !OccursAt(content, key, j)
    ensures Scan(content, [key], 0) == [Match(p, key)]
  {
    ScanSkip(content, [key], 0, p);
    assert FirstKeyAt(content, [key], p, 0) == 0;
    ScanEmpty(content, [key], p + |key|);
  }

  /** The characters a UUID is made of. */
  predicate UuidChar(c: char)
  {
    c == '-' || IsHexChar(c)
  }

  lemma ConcatEqSuffix(a: string, b: string, q: string, u: string)
    requires |a| == |q|
    ensures a + b == q + u ==> b == u
  {
    if a + b == q + u {
      assert b == (a + b)[|a|..];
    }
  }

  /** Nothing inside a bracket link after the key: `key` occurs neither in
      "][", nor in the description `d` (which does not hold `u`), nor in
      the closing "]]". */
  lemma NoKeyInLinkTail(x: string, q: string, u: string, d: string)
    requires |q + u| >= 3
    requires forall t :: 0 <= t < |q + u| ==> (q + u)[t] != '[' && (q + u)[t] != ']'
    requires forall j :: !OccursAt(d, u, j)
    ensures forall j :: |x| <= j ==> !OccursAt(x + "][" + d + "]]", q + u, j)
  {
    var s := x + "][" + d + "]]";
    var key := q + u;
    var a := |x| + 2;
    forall j | |x| <= j
      ensures !OccursAt(s, key, j)
    {
      if j + |key| > |s| {
      } else if j < a {
        NotCovering(s, key, j, j);
      } else if j + |key| <= a + |d| {
        var o := j - a + |q|;
        assert s[j..j + |key|] == s[j..j + |q|] + d[o..o + |u|];
        ConcatEqSuffix(s[j..j + |q|], d[o..o + |u|], q, u);
        assert !OccursAt(d, u, o);
      } else {
        NotCovering(s, key, j, a + |d|);
      }
    }
  }

  /** A single key occurring exactly once is replaced by its link. */
  lemma ReplaceSingle(pre: string, key: string, post: string, target: string, cur: string)
    requires key != []
    requires forall j :: 0 <= j < |pre| ==> !OccursAt(pre + key + post, key, j)
    requires forall j :: |pre| + |key| <= j ==> !OccursAt(pre + key + post, key, j)
    ensures ReplaceUuidLinks(pre + key + post, [key], [target], cur)
         == pre + LinkFor([key], [target], cur, key) + post
  {
    var s := pre + key + post;
    assert s[|pre|..|pre| + |key|] == key;
    ScanSingle(s, key, |pre|);
    var f := ReplacementFor([key], [target], cur);
    SpliceOne(pre, key, post, f);
    assert f(key) == LinkFor([key], [target], cur, key);
  }

  lemma OpenerLiteral(u: string)
    ensures "[[id:" + u == "[[" + ("id:" + u)
  {
    assert "[[id:" == "[[" + "id:";
  }

  /** The bracket-link layout, regrouped. */
  lemma LinkShape(pre: string, x: string, d: string)
    ensures pre + x + ("][" + d + "]]") == pre + x + "][" + d + "]]"
  {
  }

  /** As written, keys are bare UUIDs, so the "id:" of the link stays in
      front of the replacement and the rewritten link is broken. */
  lemma BareKeyKeepsIdPrefix(u: string, d: string, cur: string, target: string)
    requires IsValidUuid(u)
    requires forall j :: !OccursAt(d, u, j)
    ensures ReplaceUuidLinks("[[id:" + u + "][" + d + "]]", [u], [target], cur)
         == "[[id:" + LinkFor([u], [target], cur, u) + "][" + d + "]]"
  {
    var pre := "[[id:";
    var post := "][" + d + "]]";
    var s := pre + u + post;
    assert s == pre + u + "][" + d + "]]";
    forall j | 0 <= j < |pre|
      ensures !OccursAt(s, u, j)
    {
      NotCovering(s, u, j, 4);
    }
    assert [] + u == u;
    NoKeyInLinkTail(pre + u, [], u, d);
    ReplaceSingle(pre, u, post, target, cur);
    LinkShape(pre, u, d);
    LinkShape(pre, LinkFor([u], [target], cur, u), d);
  }

  /** The prefixed key occurs in the link only where the link names it. */
  lemma PrefixedKeyOnce(u: string, d: string)
    requires IsValidUuid(u)
    requires forall j :: !OccursAt(d, u, j)
    ensures var s := "[[" + ("id:" + u) + ("][" + d + "]]");
      && (forall j :: 0 <= j < 2 ==> !OccursAt(s, "id:" + u, j))
      && (forall j :: 2 + |"id:" + u| <= j ==> !OccursAt(s, "id:" + u, j))
  {
    var key := "id:" + u;
    var s := "[[" + key + ("][" + d + "]]");
    LinkShape("[[", key, d);
    forall j | 0 <= j < 2
      ensures !OccursAt(s, key, j)
    {
      NotCovering(s, key, j, 1);
    }
    NoKeyInLinkTail("[[" + key, "id:", u, d);
  }

  /** With "id:"-prefixed keys the whole `id:` link target is replaced and
      the link points at the page. */
  lemma PrefixedKeyRewritesLink(u: string, d: string, cur: string, target: string)
    requires IsValidUuid(u)
    requires forall j :: !OccursAt(d, u, j)
    ensures ReplaceUuidLinks("[[id:" + u + "][" + d + "]]", ["id:" + u], [target], cur)
         == "[[" + LinkFor(["id:" + u], [target], cur, "id:" + u) + "][" + d + "]]"
  {
    var key := "id:" + u;
    var post := "][" + d + "]]";
    PrefixedKeyOnce(u, d);
    ReplaceSingle("[[", key, post, target, cur);
    OpenerLiteral(u);
    LinkShape("[[", key, d);
    LinkShape("[[", LinkFor([key], [target], cur, key), d);
  }
}
