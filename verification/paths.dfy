/** Slash-separated paths as Go's path/filepath treats them on a Unix
    host: Clean, Dir, Join and Rel, on a path seen as a root flag plus a
    sequence of components. */
module Paths {
  import opened Wrappers
  import opened GoStrings

  const Sep: char := '/'

  /** A path after Clean: rooted or not, and its components. The empty
      relative path is rendered ".", the empty rooted path "/". */
  datatype Path = Path(abs: bool, elems: seq<string>)

  /** A single ordinary component: not empty, not "." or "..", no '/'. */
  predicate IsName(e: string)
  {
    e != "" && e != "." && e != ".." && Sep !in e
  }

  /** The components Clean can produce: no empty or "." component, no '/',
      and ".." only as a leading run of a relative path. */
  predicate IsCleanElems(abs: bool, elems: seq<string>)
  {
    forall i :: 0 <= i < |elems| ==>
      && elems[i] != "" && elems[i] != "." && Sep !in elems[i]
      && (elems[i] == ".." ==> !abs && forall j :: 0 <= j < i ==> elems[j] == "..")
  }

  predicate IsClean(p: Path)
  {
    IsCleanElems(p.abs, p.elems)
  }

  /** One component of Clean's lexical walk: skip "" and ".", let ".."
      remove the previous real component, else keep ".." (relative) or drop
      it at the root. */
  function Step(abs: bool, out: seq<string>, e: string): seq<string>
  {
    if e == "" || e == "." then out
    else if e == ".." then
      if |out| > 0 && out[|out| - 1] != ".." then out[..|out| - 1]
      else if abs then out
      else out + [".."]
    else out + [e]
  }

  /** Clean's walk over the components `xs`, starting from `out`. */
  function Fold(abs: bool, out: seq<string>, xs: seq<string>): seq<string>
    decreases |xs|
  {
    if xs == [] then out else Fold(abs, Step(abs, out, xs[0]), xs[1..])
  }

  lemma StepClean(abs: bool, out: seq<string>, e: string)
    requires IsCleanElems(abs, out) && Sep !in e
    ensures IsCleanElems(abs, Step(abs, out, e))
  {
    if e == ".." && !(|out| > 0 && out[|out| - 1] != "..") && !abs {
      var r := out + [".."];
      forall i | 0 <= i < |r| && r[i] == ".."
        ensures forall j :: 0 <= j < i ==> r[j] == ".."
      {
        if i < |out| {
        } else if |out| > 0 {
          assert out[|out| - 1] == "..";
        }
      }
    }
  }

  lemma {:induction false} FoldClean(abs: bool, out: seq<string>, xs: seq<string>)
    requires IsCleanElems(abs, out)
    requires forall i :: 0 <= i < |xs| ==> Sep !in xs[i]
    ensures IsCleanElems(abs, Fold(abs, out, xs))
    decreases |xs|
  {
    if xs != [] {
      StepClean(abs, out, xs[0]);
      FoldClean(abs, Step(abs, out, xs[0]), xs[1..]);
    }
  }

  /** filepath.Clean: the shortest lexically equivalent path. */
  function Clean(s: string): (p: Path)
    ensures IsClean(p)
    ensures p.abs <==> (s != [] && s[0] == Sep)
  {
    var abs := s != [] && s[0] == Sep;
    SplitFacts(s, Sep);
    FoldClean(abs, [], Split(s, Sep));
    Path(abs, Fold(abs, [], Split(s, Sep)))
  }

  /** The string form of a cleaned path. */
  function Render(p: Path): string
  {
    if p.abs then [Sep] + Join(p.elems, Sep)
    else if p.elems == [] then "."
    else Join(p.elems, Sep)
  }

  // ---------------------------------------------------------------------
  // The walk on components
  // ---------------------------------------------------------------------

  /** Walking components that are already clean after `out` appends them. */
  lemma {:induction false} FoldKeepsClean(abs: bool, out: seq<string>, xs: seq<string>)
    requires IsCleanElems(abs, out + xs)
    ensures Fold(abs, out, xs) == out + xs
    decreases |xs|
  {
    if xs != [] {
      var x := xs[0];
      assert (out + xs)[|out|] == x;
      if x == ".." && |out| > 0 {
        assert (out + xs)[|out| - 1] == out[|out| - 1];
      }
      assert Step(abs, out, x) == out + [x];
      assert (out + [x]) + xs[1..] == out + xs;
      FoldKeepsClean(abs, out + [x], xs[1..]);
    }
  }

  lemma {:induction false} FoldAppend(abs: bool, out: seq<string>, xs: seq<string>, ys: seq<string>)
    ensures Fold(abs, out, xs + ys) == Fold(abs, Fold(abs, out, xs), ys)
    decreases |xs|
  {
    if xs != [] {
      assert (xs + ys)[0] == xs[0] && (xs + ys)[1..] == xs[1..] + ys;
      FoldAppend(abs, Step(abs, out, xs[0]), xs[1..], ys);
    } else {
      assert xs + ys == ys;
    }
  }

  /** `n` copies of one component. */
  function Repeat(e: string, n: nat): (r: seq<string>)
    ensures |r| == n
    ensures forall i :: 0 <= i < n ==> r[i] == e
  {
    if n == 0 then [] else [e] + Repeat(e, n - 1)
  }

  /** Each ".." removes one real component from the end. */
  lemma {:induction false} FoldUps(abs: bool, out: seq<string>, k: nat)
    requires k <= |out|
    requires forall i :: |out| - k <= i < |out| ==> out[i] != ".."
    ensures Fold(abs, out, Repeat("..", k)) == out[..|out| - k]
    decreases k
  {
    if k > 0 {
      var out' := out[..|out| - 1];
      assert Step(abs, out, "..") == out';
      assert Repeat("..", k)[1..] == Repeat("..", k - 1);
      FoldUps(abs, out', k - 1);
      assert out'[..|out'| - (k - 1)] == out[..|out| - k];
    }
  }

  // ---------------------------------------------------------------------
  // Splitting and rendering
  // ---------------------------------------------------------------------

  /** Splitting at a separator splits the two sides independently. */
  lemma {:induction false} SplitAppend(x: string, y: string, c: char)
    ensures Split(x + [c] + y, c) == Split(x, c) + Split(y, c)
    decreases |x|
  {
    if c !in x {
      SplitCons(x, y, c);
      assert Split(x, c) == [x];
    } else {
      var k := IndexByte(x, c);
      var x1, x2 := x[..k], x[k + 1..];
      assert x == x1 + [c] + x2;
      var tail := x2 + [c] + y;
      assert x + [c] + y == x1 + [c] + tail;
      SplitCons(x1, tail, c);
      SplitCons(x1, x2, c);
      SplitAppend(x2, y, c);
      ConsAssoc(x1, Split(x2, c), Split(y, c));
    }
  }

  lemma ConsAssoc(a: string, b: seq<string>, c: seq<string>)
    ensures [a] + (b + c) == ([a] + b) + c
  {
  }

  lemma JoinHead(elems: seq<string>)
    requires elems != [] && elems[0] != []
    ensures Join(elems, Sep) != [] && Join(elems, Sep)[0] == elems[0][0]
  {
    if |elems| > 1 {
      JoinCons(elems[0], elems[1..], Sep);
      assert [elems[0]] + elems[1..] == elems;
    }
  }

  /** A rendered clean path is never empty and starts with '/' exactly when
      it is rooted. */
  lemma RenderHead(p: Path)
    requires IsClean(p)
    ensures Render(p) != [] && (Render(p)[0] == Sep <==> p.abs)
  {
    if !p.abs && p.elems != [] {
      JoinHead(p.elems);
      assert p.elems[0][0] in p.elems[0];
    }
  }

  /** Walking the split of a rendered clean path rebuilds its components. */
  lemma RenderElems(p: Path)
    requires IsClean(p)
    ensures Fold(p.abs, [], Split(Render(p), Sep)) == p.elems
  {
    if p.abs {
      RenderElemsRooted(p);
    } else if p.elems == [] {
      assert Split(".", Sep) == ["."];
    } else {
      JoinElems(p.abs, p.elems);
    }
  }

  lemma JoinElems(abs: bool, elems: seq<string>)
    requires IsCleanElems(abs, elems) && elems != []
    ensures Fold(abs, [], Split(Join(elems, Sep), Sep)) == elems
  {
    SplitJoin(elems, Sep);
    assert [] + elems == elems;
    FoldKeepsClean(abs, [], elems);
  }

  /** The leading '/' of a rooted path splits off an empty component, which
      the walk drops. */
  lemma FoldRootedSplit(j: string)
    ensures Fold(true, [], Split([Sep] + j, Sep)) == Fold(true, [], Split(j, Sep))
  {
    SplitCons([], j, Sep);
    assert [] + [Sep] + j == [Sep] + j;
    FoldAppend(true, [], [[]], Split(j, Sep));
    assert Fold(true, [], [[]]) == [];
  }

  lemma RenderElemsRooted(p: Path)
    requires IsClean(p) && p.abs
    ensures Fold(p.abs, [], Split(Render(p), Sep)) == p.elems
  {
    var j := Join(p.elems, Sep);
    assert Render(p) == [Sep] + j;
    FoldRootedSplit(j);
    if p.elems == [] {
      assert Split([], Sep) == [[]];
    } else {
      JoinElems(true, p.elems);
    }
  }

  /** Clean undoes Render: the round trip of a cleaned path. */
  lemma CleanRender(p: Path)
    requires IsClean(p)
    ensures Clean(Render(p)) == p
  {
    RenderHead(p);
    RenderElems(p);
  }

  /** Clean is idempotent on rendered paths. */
  lemma CleanIdempotent(s: string)
    ensures Clean(Render(Clean(s))) == Clean(s)
  {
    CleanRender(Clean(s));
  }

  /** Render is one-to-one on cleaned paths. */
  lemma RenderInjective(p: Path, q: Path)
    requires IsClean(p) && IsClean(q)
    ensures Render(p) == Render(q) <==> p == q
  {
    CleanRender(p);
    CleanRender(q);
  }

  // ---------------------------------------------------------------------
  // Dir, Join and Rel
  // ---------------------------------------------------------------------

  /** filepath.Dir: everything up to the last '/', cleaned. */
  function Dir(s: string): (d: string)
    ensures Clean(d) == Clean(s[..LastIndex(s, Sep) + 1])
    ensures Render(Clean(d)) == d
  {
    CleanIdempotent(s[..LastIndex(s, Sep) + 1]);
    Render(Clean(s[..LastIndex(s, Sep) + 1]))
  }

  /** filepath.Join of two elements: empty elements are ignored and the
      result is cleaned. */
  function JoinPath(a: string, b: string): (r: string)
    ensures a != [] && b != [] ==> Clean(r) == Clean(a + [Sep] + b)
    ensures a == [] && b != [] ==> Clean(r) == Clean(b)
    ensures a != [] && b == [] ==> Clean(r) == Clean(a)
    ensures r == [] <==> a == [] && b == []
    ensures r == [] || Render(Clean(r)) == r
  {
    if a == [] && b == [] then ""
    else if a == [] then
      CleanIdempotent(b);
      RenderNonEmpty(Clean(b));
      Render(Clean(b))
    else if b == [] then
      CleanIdempotent(a);
      RenderNonEmpty(Clean(a));
      Render(Clean(a))
    else
      CleanIdempotent(a + [Sep] + b);
      RenderNonEmpty(Clean(a + [Sep] + b));
      Render(Clean(a + [Sep] + b))
  }

  /** A rendered path is never the empty string: "." stands for no
      components. */
  lemma RenderNonEmpty(p: Path)
    requires IsClean(p)
    ensures Render(p) != []
  {
    if !p.abs && p.elems != [] {
      JoinHead(p.elems);
    }
  }

  /** Length of the longest common prefix of two component sequences. */
  function CommonPrefix(xs: seq<string>, ys: seq<string>): (c: nat)
    ensures c <= |xs| && c <= |ys| && xs[..c] == ys[..c]
    ensures c == |xs| || c == |ys| || xs[c] != ys[c]
  {
    if xs == [] || ys == [] || xs[0] != ys[0] then 0
    else
      var c := CommonPrefix(xs[1..], ys[1..]);
      assert xs[..c + 1] == [xs[0]] + xs[1..][..c];
      assert ys[..c + 1] == [ys[0]] + ys[1..][..c];
      c + 1
  }

  /** The target's components as Rel compares them: a cleaned relative
      "." keeps its single "." component. */
  function TargetElems(t: Path): seq<string>
  {
    if !t.abs && t.elems == [] then ["."] else t.elems
  }

  /** The base still has a ".." after the prefix it shares with `ts`. */
  predicate Blocked(b: Path, ts: seq<string>)
  {
    var c := CommonPrefix(b.elems, ts);
    c < |b.elems| && b.elems[c] == ".."
  }

  /** The components of a non-trivial relative path from `b` to `t`: one
      ".." per unshared base component, then the target's remainder. */
  function RelElems(b: Path, t: Path): seq<string>
  {
    var ts := TargetElems(t);
    var c := CommonPrefix(b.elems, ts);
    Repeat("..", |b.elems| - c) + ts[c..]
  }

  /** filepath.Rel on cleaned paths; None where Go reports an error. */
  function RelPaths(b: Path, t: Path): (r: Option<string>)
    ensures r.None? ==> b.abs != t.abs || Blocked(b, TargetElems(t))
  {
    if Render(b) == Render(t) then Some(".")
    else if b.abs != t.abs || Blocked(b, TargetElems(t)) then None
    else Some(Join(RelElems(b, t), Sep))
  }

  /** filepath.Rel: a path that, joined to `basepath`, names `targpath`.
      It fails when one path is rooted and the other is not, or when the
      base still has a ".." left after the shared prefix. */
  function Rel(basepath: string, targpath: string): (r: Result<string>)
    ensures r.Err? ==>
      || Clean(basepath).abs != Clean(targpath).abs
      || Blocked(Clean(basepath), TargetElems(Clean(targpath)))
  {
    match RelPaths(Clean(basepath), Clean(targpath))
    case Some(rel) => Ok(rel)
    case None => Err("Rel: can't make " + targpath + " relative to " + basepath)
  }

  /** Rel fails exactly when one path is rooted and the other is not, or
      when the base keeps a ".." past the shared prefix. */
  lemma RelPathsFails(b: Path, t: Path)
    requires IsClean(b) && IsClean(t)
    ensures RelPaths(b, t).None? <==> b.abs != t.abs || Blocked(b, TargetElems(t))
  {
    RenderInjective(b, t);
    if b == t {
      var c := CommonPrefix(b.elems, TargetElems(t));
      if TargetElems(t) == t.elems {
        assert c == |b.elems|;
      } else {
        assert c == 0 == |b.elems|;
      }
    }
  }

  lemma RelFails(basepath: string, targpath: string)
    ensures Rel(basepath, targpath).Err? <==>
      || Clean(basepath).abs != Clean(targpath).abs
      || Blocked(Clean(basepath), TargetElems(Clean(targpath)))
  {
    RelPathsFails(Clean(basepath), Clean(targpath));
  }

  /** The parts of a non-trivial relative path survive Join then Split. */
  lemma RelElemsSplit(b: Path, t: Path)
    requires IsClean(b) && IsClean(t) && b.abs == t.abs && b != t
    requires !Blocked(b, TargetElems(t))
    ensures Split(Join(RelElems(b, t), Sep), Sep) == RelElems(b, t)
  {
    var ts := TargetElems(t);
    var c := CommonPrefix(b.elems, ts);
    var parts := RelElems(b, t);
    assert |parts| >= 1;
    forall i | 0 <= i < |parts|
      ensures Sep !in parts[i]
    {
      if i >= |b.elems| - c {
        assert parts[i] == ts[c + i - (|b.elems| - c)];
      }
    }
    SplitJoin(parts, Sep);
  }

  /** The ".." parts climb from the base to the shared prefix. */
  lemma UpsReachPrefix(b: Path, c: nat)
    requires IsClean(b) && c <= |b.elems|
    requires !(c < |b.elems| && b.elems[c] == "..")
    ensures Fold(b.abs, b.elems, Repeat("..", |b.elems| - c)) == b.elems[..c]
  {
    FoldUps(b.abs, b.elems, |b.elems| - c);
  }

  /** Walking the rest of a clean sequence from its prefix gives it back. */
  lemma ResolveTail(abs: bool, ts: seq<string>, c: nat)
    requires IsCleanElems(abs, ts) && c <= |ts|
    ensures Fold(abs, ts[..c], ts[c..]) == ts
  {
    assert ts[..c] + ts[c..] == ts;
    FoldKeepsClean(abs, ts[..c], ts[c..]);
  }

  /** Walking the relative parts from the base arrives at the target. */
  lemma RelElemsResolve(b: Path, t: Path)
    requires IsClean(b) && IsClean(t) && b.abs == t.abs
    requires !Blocked(b, TargetElems(t))
    ensures Fold(b.abs, b.elems, RelElems(b, t)) == t.elems
  {
    var ts := TargetElems(t);
    var c := CommonPrefix(b.elems, ts);
    var ups := Repeat("..", |b.elems| - c);
    FoldAppend(b.abs, b.elems, ups, ts[c..]);
    UpsReachPrefix(b, c);
    if ts == t.elems {
      ResolveTail(b.abs, ts, c);
    } else {
      assert c == 0 by {
        assert b.elems != [] ==> b.elems[0] != ts[0];
      }
      assert ts[c..] == ["."];
    }
  }

  /** Cleaning a rendered path joined with more text walks that text from
      the path's components. */
  lemma CleanJoinRendered(b: Path, r: string)
    requires IsClean(b)
    ensures Clean(Render(b) + [Sep] + r) == Path(b.abs, Fold(b.abs, b.elems, Split(r, Sep)))
  {
    var s := Render(b) + [Sep] + r;
    RenderHead(b);
    assert s[0] == Render(b)[0];
    SplitAppend(Render(b), r, Sep);
    FoldAppend(b.abs, [], Split(Render(b), Sep), Split(r, Sep));
    RenderElems(b);
  }

  /** Joining the base and Rel's answer names the target again: the
      defining promise of filepath.Rel. */
  lemma RelResolves(basepath: string, targpath: string)
    requires Rel(basepath, targpath).Ok?
    ensures Clean(Render(Clean(basepath)) + [Sep] + Rel(basepath, targpath).value) == Clean(targpath)
  {
    var b := Clean(basepath);
    var t := Clean(targpath);
    RelPathsResolves(b, t);
  }

  lemma RelPathsResolves(b: Path, t: Path)
    requires IsClean(b) && IsClean(t) && RelPaths(b, t).Some?
    ensures Clean(Render(b) + [Sep] + RelPaths(b, t).value) == t
  {
    var r := RelPaths(b, t).value;
    CleanJoinRendered(b, r);
    RenderInjective(b, t);
    if Render(b) == Render(t) {
      assert Split(".", Sep) == ["."];
    } else {
      RelElemsSplit(b, t);
      RelElemsResolve(b, t);
    }
  }

  // ---------------------------------------------------------------------
  // The three relative-link shapes
  // ---------------------------------------------------------------------

  /** The shared prefix of a sequence and an extension of it is all of it. */
  lemma {:induction false} CommonPrefixExtends(xs: seq<string>, ys: seq<string>)
    requires ys != []
    ensures CommonPrefix(xs, xs + ys) == |xs|
    decreases |xs|
  {
    if xs != [] {
      assert (xs + ys)[0] == xs[0] && (xs + ys)[1..] == xs[1..] + ys;
      CommonPrefixExtends(xs[1..], ys);
    }
  }

  /** Two sequences that first differ right after a shared prefix. */
  lemma {:induction false} CommonPrefixFork(d: seq<string>, x: string, y: string)
    requires x != y
    ensures CommonPrefix(d + [x], d + [y]) == |d|
    decreases |d|
  {
    if d != [] {
      assert (d + [x])[0] == d[0] && (d + [x])[1..] == d[1..] + [x];
      assert (d + [y])[0] == d[0] && (d + [y])[1..] == d[1..] + [y];
      CommonPrefixFork(d[1..], x, y);
    }
  }

  /** Appending ordinary names keeps a path clean. */
  lemma ExtendClean(d: Path, rest: seq<string>)
    requires IsClean(d)
    requires forall i :: 0 <= i < |rest| ==> IsName(rest[i])
    ensures IsClean(Path(d.abs, d.elems + rest))
  {
    var e := d.elems + rest;
    forall i | 0 <= i < |e| && e[i] == ".."
      ensures forall j :: 0 <= j < i ==> e[j] == ".."
    {
      assert i < |d.elems| && e[i] == d.elems[i];
    }
  }

  /** Rel on cleaned paths, from a directory to a target below it. */
  lemma RelPathsBelow(d: Path, rest: seq<string>)
    requires IsClean(d) && rest != []
    requires forall i :: 0 <= i < |rest| ==> IsName(rest[i])
    ensures RelPaths(d, Path(d.abs, d.elems + rest)) == Some(Join(rest, Sep))
  {
    var t := Path(d.abs, d.elems + rest);
    ExtendClean(d, rest);
    RenderInjective(d, t);
    assert TargetElems(t) == t.elems;
    CommonPrefixExtends(d.elems, rest);
    assert t.elems[|d.elems|..] == rest;
    assert RelElems(d, t) == rest;
  }

  /** Rel from a clean directory to a target below it: the remaining
      components joined by '/'. */
  lemma RelBelow(d: Path, rest: seq<string>)
    requires IsClean(d) && rest != []
    requires forall i :: 0 <= i < |rest| ==> IsName(rest[i])
    ensures Rel(Render(d), Render(Path(d.abs, d.elems + rest))) == Ok(Join(rest, Sep))
  {
    ExtendClean(d, rest);
    CleanRender(d);
    CleanRender(Path(d.abs, d.elems + rest));
    RelPathsBelow(d, rest);
  }

  /** Same directory: the link is the bare target name. */
  lemma RelSameDir(d: Path, n: string)
    requires IsClean(d) && IsName(n)
    ensures Rel(Render(d), Render(Path(d.abs, d.elems + [n]))) == Ok(n)
  {
    RelBelow(d, [n]);
  }

  /** Child directory: the link is `sub/name`. */
  lemma RelSubDir(d: Path, sub: string, n: string)
    requires IsClean(d) && IsName(sub) && IsName(n)
    ensures Rel(Render(d), Render(Path(d.abs, d.elems + [sub, n]))) == Ok(sub + "/" + n)
  {
    RelBelow(d, [sub, n]);
    assert Join([sub, n], Sep) == sub + [Sep] + Join([n], Sep);
  }

  /** Rel on cleaned paths, from a directory to a sibling's child. */
  lemma RelPathsParent(d: Path, sub: string, n: string)
    requires IsClean(d) && IsName(sub) && IsName(n) && sub != n
    ensures RelPaths(Path(d.abs, d.elems + [sub]), Path(d.abs, d.elems + [n])) == Some("../" + n)
  {
    var b := Path(d.abs, d.elems + [sub]);
    var t := Path(d.abs, d.elems + [n]);
    ExtendClean(d, [sub]);
    ExtendClean(d, [n]);
    RenderInjective(b, t);
    assert TargetElems(t) == t.elems;
    CommonPrefixFork(d.elems, sub, n);
    assert b.elems[|d.elems|] == sub && t.elems[|d.elems|] == n;
    assert Render(b) != Render(t);
    assert !Blocked(b, TargetElems(t));
    assert t.elems[|d.elems|..] == [n];
    assert Repeat("..", 1) == [".."];
    assert RelElems(b, t) == ["..", n];
    assert Join(["..", n], Sep) == ".." + [Sep] + Join([n], Sep);
    assert Join([n], Sep) == n;
    assert ".." + [Sep] + n == "../" + n;
  }

  /** Parent directory: the link is `../name`. */
  lemma RelParentDir(d: Path, sub: string, n: string)
    requires IsClean(d) && IsName(sub) && IsName(n) && sub != n
    ensures Rel(Render(Path(d.abs, d.elems + [sub])), Render(Path(d.abs, d.elems + [n]))) == Ok("../" + n)
  {
    ExtendClean(d, [sub]);
    ExtendClean(d, [n]);
    CleanRender(Path(d.abs, d.elems + [sub]));
    CleanRender(Path(d.abs, d.elems + [n]));
    RelPathsParent(d, sub, n);
  }

  /** The last separator of `x + "/" + n`, where `n` has none, is the one
      in the middle. */
  lemma LastSep(x: string, n: string)
    requires Sep !in n
    ensures LastIndex(x + [Sep] + n, Sep) == |x|
  {
    var s := x + [Sep] + n;
    var k := LastIndex(s, Sep);
    assert s[|x|] == Sep;
  }

  /** Dir of a path with a last component is its parent, rendered. */
  lemma DirOfChild(p: Path, n: string)
    requires IsClean(p) && IsName(n)
    ensures IsClean(Path(p.abs, p.elems + [n]))
    ensures Dir(Render(Path(p.abs, p.elems + [n]))) == Render(p)
  {
    ExtendClean(p, [n]);
    if p.elems == [] {
      if p.abs {
        DirOfRootChild(n);
      } else {
        DirOfBareName(n);
      }
    } else {
      DirOfNestedChild(p, n);
    }
  }

  lemma DirOfRootChild(n: string)
    requires IsName(n)
    ensures Dir(Render(Path(true, [n]))) == Render(Path(true, []))
  {
    var s := Render(Path(true, [n]));
    assert s == [] + [Sep] + n;
    LastSep([], n);
    var h := s[..1];
    assert h == [] + [Sep] + [];
    SplitCons([], [], Sep);
    assert Split([], Sep) == [[]];
    assert Split(h, Sep) == [[], []];
    assert Fold(true, [], [[], []]) == [];
    assert Clean(h) == Path(true, []);
  }

  lemma DirOfBareName(n: string)
    requires IsName(n)
    ensures Dir(Render(Path(false, [n]))) == Render(Path(false, []))
  {
    var s := Render(Path(false, [n]));
    assert s == n;
    assert LastIndex(s, Sep) == -1;
    assert s[..0] == [];
    assert Split([], Sep) == [[]];
    assert Fold(false, [], [[]]) == [];
    assert Clean([]) == Path(false, []);
  }

  lemma DirOfNestedChild(p: Path, n: string)
    requires IsClean(p) && IsName(n) && p.elems != []
    ensures Dir(Render(Path(p.abs, p.elems + [n]))) == Render(p)
  {
    var s := Render(Path(p.abs, p.elems + [n]));
    JoinSnoc(p.elems, n, Sep);
    assert s == Render(p) + [Sep] + n;
    LastSep(Render(p), n);
    assert s[..|Render(p)| + 1] == Render(p) + [Sep] + [];
    CleanJoinRendered(p, []);
    assert Split([], Sep) == [[]];
  }
}
