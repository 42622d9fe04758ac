/** The handful of Go `strings` functions the generator relies on, on byte
    strings: a `char` stands for one byte, and whitespace is the ASCII set that
    Go's `unicode.IsSpace` accepts below 0x80. */
module GoStrings {

  /** `p` occurs in `s` starting at byte offset `j`. */
  predicate OccursAt(s: string, p: string, j: int)
  {
    0 <= j && j + |p| <= |s| && s[j..j + |p|] == p
  }

  /** strings.HasPrefix */
  predicate HasPrefix(s: string, p: string)
  {
    OccursAt(s, p, 0)
  }

  /** strings.HasSuffix */
  predicate HasSuffix(s: string, p: string)
  {
    OccursAt(s, p, |s| - |p|)
  }

  /** strings.TrimPrefix: drops `p` once from the front when it is there. */
  function TrimPrefix(s: string, p: string): (r: string)
    ensures HasPrefix(s, p) ==> p + r == s
    ensures !HasPrefix(s, p) ==> r == s
  {
    if HasPrefix(s, p) then s[|p|..] else s
  }

  /** strings.TrimSuffix: drops `p` once from the end when it is there. */
  function TrimSuffix(s: string, p: string): (r: string)
    ensures HasSuffix(s, p) ==> r + p == s
    ensures !HasSuffix(s, p) ==> r == s
  {
    if HasSuffix(s, p) then s[..|s| - |p|] else s
  }

  /** The first occurrence of `p` at or after `i`, or -1. */
  function IndexFrom(s: string, p: string, i: nat): (k: int)
    ensures k == -1 || (i <= k && OccursAt(s, p, k))
    decreases |s| - i
  {
    if i + |p| > |s| then -1
    else if s[i..i + |p|] == p then i
    else IndexFrom(s, p, i + 1)
  }

  /** Nothing at or after `i` and before the reported offset is an occurrence. */
  lemma {:induction false} IndexFromFirst(s: string, p: string, i: nat)
    ensures forall j :: i <= j && (IndexFrom(s, p, i) == -1 || j < IndexFrom(s, p, i)) ==> !OccursAt(s, p, j)
    decreases |s| - i
  {
    if i + |p| <= |s| && s[i..i + |p|] != p {
      IndexFromFirst(s, p, i + 1);
    }
  }

  /** strings.Index: the byte offset of the first occurrence of `p`, or -1. */
  function Index(s: string, p: string): (k: int)
    ensures k == -1 || OccursAt(s, p, k)
  {
    IndexFrom(s, p, 0)
  }

  /** Index reports -1 exactly when `p` does not occur, and otherwise the
      first occurrence. */
  lemma IndexFacts(s: string, p: string)
    ensures Index(s, p) == -1 <==> forall j :: !OccursAt(s, p, j)
    ensures Index(s, p) != -1 ==> forall j :: j < Index(s, p) ==> !OccursAt(s, p, j)
  {
    IndexFromFirst(s, p, 0);
  }

  /** When `p` occurs at `k` and nowhere earlier, strings.Index finds `k`. */
  lemma IndexIsFirst(s: string, p: string, k: int)
    requires OccursAt(s, p, k)
    requires forall j :: j < k ==> !OccursAt(s, p, j)
    ensures Index(s, p) == k
  {
    IndexFacts(s, p);
    var r := Index(s, p);
    assert r != -1;
    assert !(r < k);
    assert !(k < r);
  }

  /** A one-byte separator occurs at `j` exactly when byte `j` is that separator. */
  lemma OccursAtChar(s: string, c: char, j: int)
    ensures OccursAt(s, [c], j) <==> 0 <= j < |s| && s[j] == c
  {
    if 0 <= j < |s| {
      assert s[j..j + 1] == [s[j]];
    }
  }

  /** Go's unicode.IsSpace restricted to single bytes. */
  predicate IsSpace(c: char)
  {
    c == ' ' || c == '\t' || c == '\n' || c == '\U{000B}' || c == '\U{000C}' || c == '\r'
  }

  /** The first offset at or after `i` that does not hold whitespace. */
  function SkipSpaceFrom(s: string, i: nat): (k: nat)
    requires i <= |s|
    ensures i <= k <= |s|
    ensures k == |s| || !IsSpace(s[k])
    decreases |s| - i
  {
    if i < |s| && IsSpace(s[i]) then SkipSpaceFrom(s, i + 1) else i
  }

  /** Only whitespace is skipped. */
  lemma {:induction false} SkipSpaceFromSpaces(s: string, i: nat)
    requires i <= |s|
    ensures forall j :: i <= j < SkipSpaceFrom(s, i) ==> IsSpace(s[j])
    decreases |s| - i
  {
    if i < |s| && IsSpace(s[i]) {
      SkipSpaceFromSpaces(s, i + 1);
    }
  }

  /** The end of `s[..k]` with its trailing whitespace removed. */
  function BackSpaceFrom(s: string, k: nat): (e: nat)
    requires k <= |s|
    ensures e <= k
    ensures e == 0 || !IsSpace(s[e - 1])
    decreases k
  {
    if k > 0 && IsSpace(s[k - 1]) then BackSpaceFrom(s, k - 1) else k
  }

  /** Only whitespace is dropped. */
  lemma {:induction false} BackSpaceFromSpaces(s: string, k: nat)
    requires k <= |s|
    ensures forall j :: BackSpaceFrom(s, k) <= j < k ==> IsSpace(s[j])
    decreases k
  {
    if k > 0 && IsSpace(s[k - 1]) {
      BackSpaceFromSpaces(s, k - 1);
    }
  }

  /** `r` is the slice of `s` at offset `a`, and everything around it is whitespace. */
  predicate BetweenMargins(s: string, r: string, a: int)
  {
    && 0 <= a && a + |r| <= |s| && r == s[a..a + |r|]
    && (forall i :: 0 <= i < a ==> IsSpace(s[i]))
    && (forall i :: a + |r| <= i < |s| ==> IsSpace(s[i]))
  }

  /** strings.TrimSpace: the middle of `s` between its whitespace margins. */
  function TrimSpace(s: string): (r: string)
    ensures r == [] || (!IsSpace(r[0]) && !IsSpace(r[|r| - 1]))
    ensures |r| <= |s|
  {
    var a := SkipSpaceFrom(s, 0);
    var e := BackSpaceFrom(s, |s|);
    if a < e then
      assert s[a..e][0] == s[a] && s[a..e][e - a - 1] == s[e - 1];
      s[a..e]
    else []
  }

  /** Trimmed text: empty, or neither end is whitespace. */
  predicate Trimmed(s: string)
  {
    s == [] || (!IsSpace(s[0]) && !IsSpace(s[|s| - 1]))
  }

  /** Trimmed text is its own TrimSpace. */
  lemma TrimmedFixed(s: string)
    requires Trimmed(s)
    ensures TrimSpace(s) == s
  {
    assert s[0..|s|] == s;
    TrimSpaceUnique(s, s, 0);
  }

  /** TrimSpace removes whitespace margins and nothing else. */
  lemma TrimSpaceMargins(s: string)
    ensures exists a :: BetweenMargins(s, TrimSpace(s), a)
  {
    var a := SkipSpaceFrom(s, 0);
    var e := BackSpaceFrom(s, |s|);
    SkipSpaceFromSpaces(s, 0);
    BackSpaceFromSpaces(s, |s|);
    if a < e {
      assert TrimSpace(s) == s[a..e];
      assert BetweenMargins(s, s[a..e], a);
    } else {
      assert TrimSpace(s) == [];
      assert forall i :: 0 <= i < |s| ==> IsSpace(s[i]);
      assert BetweenMargins(s, [], 0);
    }
  }

  /** TrimSpace returns the one slice that has whitespace margins around it
      and no whitespace at either end of its own. */
  lemma TrimSpaceUnique(s: string, r: string, a: int)
    requires BetweenMargins(s, r, a)
    requires r == [] || (!IsSpace(r[0]) && !IsSpace(r[|r| - 1]))
    ensures TrimSpace(s) == r
  {
    var a' := SkipSpaceFrom(s, 0);
    var e' := BackSpaceFrom(s, |s|);
    SkipSpaceFromSpaces(s, 0);
    BackSpaceFromSpaces(s, |s|);
    if r != [] {
      assert s[a] == r[0] && s[a + |r| - 1] == r[|r| - 1];
      assert a' == a;
      assert e' == a + |r|;
    } else {
      assert a' == |s|;
    }
  }

  /** strings.Join with a one-byte separator. */
  function Join(parts: seq<string>, c: char): string
  {
    if |parts| == 0 then ""
    else if |parts| == 1 then parts[0]
    else parts[0] + [c] + Join(parts[1..], c)
  }

  /** The offset of the last `x` in `xs`, or -1 (strings.LastIndexByte on a
      string). */
  function LastIndex<T(==)>(xs: seq<T>, x: T): (k: int)
    ensures k == -1 <==> x !in xs
    ensures k != -1 ==> 0 <= k < |xs| && xs[k] == x && x !in xs[k + 1..]
  {
    if xs == [] then -1
    else if xs[|xs| - 1] == x then |xs| - 1
    else
      var k := LastIndex(xs[..|xs| - 1], x);
      assert xs[..|xs| - 1] + [xs[|xs| - 1]] == xs;
      if k != -1 then assert xs[k + 1..] == xs[..|xs| - 1][k + 1..] + [xs[|xs| - 1]]; k
      else k
  }

  /** strings.IndexByte: the offset of the first `c` in `s`, or -1. */
  function IndexByte(s: string, c: char): (k: int)
    ensures k == -1 <==> c !in s
    ensures k != -1 ==> 0 <= k < |s| && s[k] == c && c !in s[..k]
  {
    if s == [] then -1
    else if s[0] == c then 0
    else
      var k := IndexByte(s[1..], c);
      if k == -1 then -1
      else
        assert s[..k + 1] == [s[0]] + s[1..][..k];
        k + 1
  }

  /** A first occurrence is the one IndexByte reports. */
  lemma IndexByteIsFirst(s: string, c: char, k: int)
    requires 0 <= k < |s| && s[k] == c && c !in s[..k]
    ensures IndexByte(s, c) == k
  {
  }

  /** Join with at least two parts puts the separator after the first. */
  lemma JoinCons(x: string, rest: seq<string>, c: char)
    requires |rest| >= 1
    ensures Join([x] + rest, c) == x + [c] + Join(rest, c)
  {
    assert ([x] + rest)[1..] == rest;
  }

  /** strings.Split with a one-byte separator: the text between consecutive
      separators, always at least one part. */
  function Split(s: string, c: char): (parts: seq<string>)
    ensures |parts| >= 1
    decreases |s|
  {
    var k := IndexByte(s, c);
    if k == -1 then [s] else [s[..k]] + Split(s[k + 1..], c)
  }

  /** No part holds the separator, and joining the parts back gives the input. */
  lemma {:induction false} SplitFacts(s: string, c: char)
    ensures forall i :: 0 <= i < |Split(s, c)| ==> c !in Split(s, c)[i]
    ensures Join(Split(s, c), c) == s
    decreases |s|
  {
    var k := IndexByte(s, c);
    if k != -1 {
      var rest := Split(s[k + 1..], c);
      SplitFacts(s[k + 1..], c);
      JoinCons(s[..k], rest, c);
      assert s == s[..k] + [c] + s[k + 1..];
    }
  }

  /** A first part free of the separator splits off on its own. */
  lemma SplitCons(x: string, rest: string, c: char)
    requires c !in x
    ensures Split(x + [c] + rest, c) == [x] + Split(rest, c)
  {
    var s := x + [c] + rest;
    assert s[..|x|] == x;
    IndexByteIsFirst(s, c, |x|);
    assert s[|x| + 1..] == rest;
  }

  /** Join with at least one part puts the separator before an appended part. */
  lemma {:induction false} JoinSnoc(parts: seq<string>, y: string, c: char)
    requires |parts| >= 1
    ensures Join(parts + [y], c) == Join(parts, c) + [c] + y
    decreases |parts|
  {
    if |parts| == 1 {
      assert (parts + [y])[1..] == [y];
    } else {
      assert (parts + [y])[1..] == parts[1..] + [y];
      JoinSnoc(parts[1..], y, c);
    }
  }

  /** Splitting a join of separator-free parts gives the parts back. */
  lemma {:induction false} SplitJoin(parts: seq<string>, c: char)
    requires |parts| >= 1
    requires forall i :: 0 <= i < |parts| ==> c !in parts[i]
    ensures Split(Join(parts, c), c) == parts
    decreases |parts|
  {
    var s := Join(parts, c);
    if |parts| > 1 {
      var x := parts[0];
      var rest := Join(parts[1..], c);
      JoinCons(x, parts[1..], c);
      assert [x] + parts[1..] == parts;
      assert s[..|x|] == x;
      IndexByteIsFirst(s, c, |x|);
      assert s[|x| + 1..] == rest;
      SplitJoin(parts[1..], c);
    }
  }

  /** ASCII lower-casing of one byte. */
  function LowerChar(c: char): char
  {
    if 'A' <= c <= 'Z' then (c as int + 32) as char else c
  }

  /** strings.ToLower on ASCII: same length, each byte lower-cased. */
  function Lower(s: string): (r: string)
    ensures |r| == |s|
  {
    seq(|s|, i requires 0 <= i < |s| => LowerChar(s[i]))
  }
}
