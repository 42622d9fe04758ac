/** The tail that turns collected document text into a preview: whitespace
    collapsed to single spaces, then a byte-length cap that never ends the
    kept text inside a multi-byte UTF-8 sequence. */
module Preview {
  import opened GoStrings

  /** A byte above 127, that is, part of a multi-byte UTF-8 sequence. */
  predicate HighByte(c: char)
  {
    c as int > 127
  }

  /** No whitespace byte anywhere in `w`. */
  predicate NoSpace(w: string)
  {
    forall j :: 0 <= j < |w| ==> !IsSpace(w[j])
  }

  // ---------------------------------------------------------------------
  // Truncation
  // ---------------------------------------------------------------------

  /** The truncation loop: start at `k` and step back while the byte before
      the cut is high. The cut lands at 0 or right after an ASCII byte, and
      only high bytes lie between it and `k`. */
  function CutPoint(text: string, k: nat): (c: nat)
    requires k <= |text|
    ensures c <= k
    ensures c == 0 || !HighByte(text[c - 1])
    ensures forall j :: c <= j < k ==> HighByte(text[j])
    decreases k
  {
    if k > 0 && HighByte(text[k - 1]) then CutPoint(text, k - 1) else k
  }

  /** The cut is the largest offset at or below `k` that is 0 or follows an
      ASCII byte: any such offset is at most the cut. */
  lemma {:induction false} CutPointGreatest(text: string, k: nat, c: nat)
    requires c <= k <= |text|
    requires c == 0 || !HighByte(text[c - 1])
    ensures c <= CutPoint(text, k)
    decreases k
  {
    if k > 0 && HighByte(text[k - 1]) && c < k {
      CutPointGreatest(text, k - 1, c);
    }
  }

  /** The byte cap: text longer than `maxLen` bytes is cut at CutPoint and
      suffixed with "...", shorter text is returned unchanged. */
  function Truncate(text: string, maxLen: nat): (r: string)
    ensures |text| <= maxLen ==> r == text
    ensures |text| > maxLen ==>
      && |r| >= 3 && r[|r| - 3..] == "..."
      && |r| - 3 <= maxLen
      && r[..|r| - 3] == text[..|r| - 3]
      && (|r| == 3 || !HighByte(r[|r| - 4]))
      && (forall j :: |r| - 3 <= j < maxLen ==> HighByte(text[j]))
  {
    if |text| > maxLen then text[..CutPoint(text, maxLen)] + "..." else text
  }

  /** Text of ASCII bytes only loses exactly its tail past `maxLen`. */
  lemma TruncateAscii(text: string, maxLen: nat)
    requires |text| > maxLen
    requires forall j :: 0 <= j < |text| ==> !HighByte(text[j])
    ensures Truncate(text, maxLen) == text[..maxLen] + "..."
  {
  }

  /** A truncated preview is never longer than `maxLen + 3` bytes. */
  lemma TruncateBound(text: string, maxLen: nat)
    ensures |Truncate(text, maxLen)| <= maxLen + 3
    ensures |Truncate(text, maxLen)| <= |text| + 3
  {
  }

  // ---------------------------------------------------------------------
  // strings.Fields and the joined form
  // ---------------------------------------------------------------------

  /** The end of the run of non-whitespace bytes starting at `i`. */
  function WordEnd(s: string, i: nat): (e: nat)
    requires i <= |s|
    ensures i <= e <= |s|
    decreases |s| - i
  {
    if i < |s| && !IsSpace(s[i]) then WordEnd(s, i + 1) else i
  }

  lemma {:induction false} WordEndFacts(s: string, i: nat)
    requires i <= |s|
    ensures forall j :: i <= j < WordEnd(s, i) ==> !IsSpace(s[j])
    ensures WordEnd(s, i) == |s| || IsSpace(s[WordEnd(s, i)])
    decreases |s| - i
  {
    if i < |s| && !IsSpace(s[i]) {
      WordEndFacts(s, i + 1);
    }
  }

  lemma {:induction false} WordEndUnique(s: string, i: nat, e: nat)
    requires i <= e <= |s|
    requires forall j :: i <= j < e ==> !IsSpace(s[j])
    requires e == |s| || IsSpace(s[e])
    ensures WordEnd(s, i) == e
    decreases e - i
  {
    if i < e {
      WordEndUnique(s, i + 1, e);
    }
  }

  /** strings.Fields: the maximal runs of non-whitespace bytes, in order. */
  function Fields(s: string): (fs: seq<string>)
    ensures forall k :: 0 <= k < |fs| ==> fs[k] != [] && NoSpace(fs[k])
    decreases |s|
  {
    if s == [] then []
    else if IsSpace(s[0]) then Fields(s[1..])
    else
      var e := WordEnd(s, 0);
      WordEndFacts(s, 0);
      assert NoSpace(s[..e]);
      [s[..e]] + Fields(s[e..])
  }

  /** Text that starts with a word `w` followed by whitespace or the end has
      `w` as its first field. */
  lemma FieldsCons(w: string, rest: string)
    requires w != [] && NoSpace(w)
    requires rest == [] || IsSpace(rest[0])
    ensures Fields(w + rest) == [w] + Fields(rest)
  {
    var s := w + rest;
    assert forall j :: 0 <= j < |w| ==> s[j] == w[j];
    assert |w| < |s| ==> s[|w|] == rest[0];
    WordEndUnique(s, 0, |w|);
    assert s[..|w|] == w && s[|w|..] == rest;
  }

  /** The collapse step: fields joined by single spaces. */
  function Collapse(s: string): string
  {
    Join(Fields(s), ' ')
  }

  /** Joining non-empty, space-free words with single spaces and splitting
      the result into fields gives the words back. */
  lemma {:induction false} FieldsOfJoin(ws: seq<string>)
    requires forall k :: 0 <= k < |ws| ==> ws[k] != [] && NoSpace(ws[k])
    ensures Fields(Join(ws, ' ')) == ws
    decreases |ws|
  {
    if |ws| == 1 {
      FieldsCons(ws[0], []);
      assert ws[0] + [] == ws[0];
    } else if |ws| > 1 {
      var rest := Join(ws[1..], ' ');
      JoinCons(ws[0], ws[1..], ' ');
      assert [ws[0]] + ws[1..] == ws;
      FieldsCons(ws[0], [' '] + rest);
      assert ws[0] + [' '] + rest == ws[0] + ([' '] + rest);
      assert ([' '] + rest)[1..] == rest;
      FieldsOfJoin(ws[1..]);
    }
  }

  /** Collapsing twice is collapsing once. */
  lemma CollapseIdempotent(s: string)
    ensures Collapse(Collapse(s)) == Collapse(s)
  {
    FieldsOfJoin(Fields(s));
  }

  /** Space-free words joined by ' ': the only whitespace is single ' '
      bytes strictly inside, each between two non-whitespace bytes. */
  predicate Canonical(r: string)
  {
    forall j :: 0 <= j < |r| && IsSpace(r[j]) ==>
      r[j] == ' ' && 0 < j < |r| - 1 && !IsSpace(r[j - 1]) && !IsSpace(r[j + 1])
  }

  lemma {:induction false} JoinCanonical(ws: seq<string>)
    requires forall k :: 0 <= k < |ws| ==> ws[k] != [] && NoSpace(ws[k])
    ensures Canonical(Join(ws, ' '))
    decreases |ws|
  {
    if |ws| > 1 {
      var x := ws[0];
      var rest := Join(ws[1..], ' ');
      JoinCons(x, ws[1..], ' ');
      assert [x] + ws[1..] == ws;
      JoinCanonical(ws[1..]);
      var r := x + [' '] + rest;
      assert rest != [] by {
        assert |Join(ws[1..], ' ')| >= |ws[1]| by { JoinFirst(ws[1..], ' '); }
      }
      assert !IsSpace(rest[0]) by { JoinFirst(ws[1..], ' '); assert rest[0] == ws[1][0]; }
      assert forall j :: 0 <= j < |x| ==> r[j] == x[j];
      assert forall j :: |x| < j < |r| ==> r[j] == rest[j - |x| - 1];
      assert r[|x|] == ' ';
    } else if |ws| == 1 {
      assert Join(ws, ' ') == ws[0];
    }
  }

  /** The first word is a prefix of the join. */
  lemma JoinFirst(ws: seq<string>, c: char)
    requires |ws| >= 1
    ensures |Join(ws, c)| >= |ws[0]| && Join(ws, c)[..|ws[0]|] == ws[0]
  {
    if |ws| > 1 {
      JoinCons(ws[0], ws[1..], c);
      assert [ws[0]] + ws[1..] == ws;
    }
  }

  /** The collapsed text has canonical spacing. */
  lemma CollapseCanonical(s: string)
    ensures Canonical(Collapse(s))
  {
    JoinCanonical(Fields(s));
  }

  /** The non-whitespace bytes of `s`, in order. */
  function Ink(s: string): (r: string)
    ensures NoSpace(r)
    ensures |r| <= |s|
  {
    if s == [] then []
    else if IsSpace(s[0]) then Ink(s[1..])
    else [s[0]] + Ink(s[1..])
  }

  lemma {:induction false} InkAppend(a: string, b: string)
    ensures Ink(a + b) == Ink(a) + Ink(b)
    decreases |a|
  {
    if a != [] {
      assert (a + b)[1..] == a[1..] + b;
      InkAppend(a[1..], b);
    } else {
      assert a + b == b;
    }
  }

  lemma {:induction false} InkNoSpace(w: string)
    requires NoSpace(w)
    ensures Ink(w) == w
    decreases |w|
  {
    if w != [] {
      InkNoSpace(w[1..]);
      assert w == [w[0]] + w[1..];
    }
  }

  /** The words glued together. */
  function Concat(ws: seq<string>): string
  {
    if ws == [] then [] else ws[0] + Concat(ws[1..])
  }

  lemma {:induction false} InkFields(s: string)
    ensures Concat(Fields(s)) == Ink(s)
    decreases |s|
  {
    if s != [] && IsSpace(s[0]) {
      InkFields(s[1..]);
    } else if s != [] {
      var e := WordEnd(s, 0);
      WordEndFacts(s, 0);
      var fs := Fields(s);
      assert fs == [s[..e]] + Fields(s[e..]);
      assert fs[1..] == Fields(s[e..]);
      assert s == s[..e] + s[e..];
      InkAppend(s[..e], s[e..]);
      InkNoSpace(s[..e]);
      InkFields(s[e..]);
    }
  }

  lemma {:induction false} InkJoin(ws: seq<string>)
    requires forall k :: 0 <= k < |ws| ==> NoSpace(ws[k])
    ensures Ink(Join(ws, ' ')) == Concat(ws)
    decreases |ws|
  {
    if |ws| == 1 {
      InkNoSpace(ws[0]);
      assert ws[1..] == [];
    } else if |ws| > 1 {
      JoinCons(ws[0], ws[1..], ' ');
      assert [ws[0]] + ws[1..] == ws;
      InkAppend(ws[0] + [' '], Join(ws[1..], ' '));
      InkAppend(ws[0], [' ']);
      InkNoSpace(ws[0]);
      assert Ink([' ']) == [];
      InkJoin(ws[1..]);
    }
  }

  /** Collapsing keeps every non-whitespace byte, in order, and adds none. */
  lemma CollapseKeepsInk(s: string)
    ensures Ink(Collapse(s)) == Ink(s)
  {
    InkJoin(Fields(s));
    InkFields(s);
  }

  /** The tail of extractPreviewFromAST after the sentence-spacing regex:
      collapse whitespace, then cap at `maxLen` bytes. */
  function PreviewTail(text: string, maxLen: nat): (r: string)
    ensures |Collapse(text)| <= maxLen ==> r == Collapse(text)
    ensures |r| <= maxLen + 3
  {
    TruncateBound(Collapse(text), maxLen);
    Truncate(Collapse(text), maxLen)
  }

  // ---------------------------------------------------------------------
  // Regular-expression whitespace runs
  // ---------------------------------------------------------------------

  /** The bytes of RE2's `\s` class: tab, newline, form feed, carriage
      return and space (no vertical tab). */
  predicate ReSpace(c: char)
  {
    c == ' ' || c == '\t' || c == '\n' || c == '\U{000C}' || c == '\r'
  }

  /** A newline byte, the class of the `\n+` pattern. */
  predicate IsNewline(c: char)
  {
    c == '\n'
  }

  /** Every maximal run of bytes in class `p` replaced by one ' ', as
      ReplaceAllString with the pattern `[p]+` and the replacement " " does.
      A byte of the class is kept (as ' ') only when it ends its run. */
  function Runs(s: string, p: char -> bool): (r: string)
    ensures |r| <= |s|
  {
    if s == [] then []
    else if p(s[0]) then
      if |s| > 1 && p(s[1]) then Runs(s[1..], p) else [' '] + Runs(s[1..], p)
    else [s[0]] + Runs(s[1..], p)
  }

  /** The first byte of the result: ' ' for a run, else the byte itself. */
  lemma RunsHead(s: string, p: char -> bool)
    requires s != []
    ensures Runs(s, p) != []
    ensures Runs(s, p)[0] == if p(s[0]) then ' ' else s[0]
    decreases |s|
  {
    if p(s[0]) && |s| > 1 && p(s[1]) {
      RunsHead(s[1..], p);
    }
  }

  /** Collapsing the runs of a narrower class first changes nothing, when
      ' ' itself is in the wider class: `\n+` then `\s+` is `\s+`. */
  lemma {:induction false} RunsSubsumed(s: string, p: char -> bool, q: char -> bool)
    requires forall c :: p(c) ==> q(c)
    requires q(' ')
    ensures Runs(Runs(s, p), q) == Runs(s, q)
    decreases |s|
  {
    if s != [] {
      RunsSubsumed(s[1..], p, q);
      var x := Runs(s[1..], p);
      if |s| > 1 {
        RunsHead(s[1..], p);
      }
      if p(s[0]) && |s| > 1 && p(s[1]) {
      } else if p(s[0]) {
        assert ([' '] + x)[1..] == x;
      } else {
        assert ([s[0]] + x)[1..] == x;
      }
    }
  }

  /** Two classes that agree on every byte of `s` collapse it alike. */
  lemma {:induction false} RunsAgree(s: string, p: char -> bool, q: char -> bool)
    requires forall k :: 0 <= k < |s| ==> p(s[k]) == q(s[k])
    ensures Runs(s, p) == Runs(s, q)
    decreases |s|
  {
    if s != [] {
      RunsAgree(s[1..], p, q);
    }
  }

  // ---------------------------------------------------------------------
  // Runs of whitespace, trimmed, are the joined fields
  // ---------------------------------------------------------------------

  /** A word passes through unchanged. */
  lemma {:induction false} RunsWord(w: string, rest: string)
    requires NoSpace(w)
    ensures Runs(w + rest, IsSpace) == w + Runs(rest, IsSpace)
    decreases |w|
  {
    if w != [] {
      assert (w + rest)[0] == w[0];
      assert (w + rest)[1..] == w[1..] + rest;
      RunsWord(w[1..], rest);
      assert w == [w[0]] + w[1..];
    } else {
      assert w + rest == rest;
    }
  }

  /** A run of leading whitespace becomes one ' '. */
  lemma {:induction false} RunsLeadingSpace(s: string)
    requires s != [] && IsSpace(s[0])
    ensures Runs(s, IsSpace) == [' '] + Runs(s[SkipSpaceFrom(s, 0)..], IsSpace)
    decreases |s|
  {
    if |s| > 1 && IsSpace(s[1]) {
      RunsLeadingSpace(s[1..]);
      SkipSpaceShift(s);
    } else {
      assert SkipSpaceFrom(s, 0) == 1;
    }
  }

  /** Skipping whitespace from the second byte, after a leading whitespace
      byte, lands where skipping from the first does. */
  lemma SkipSpaceShift(s: string)
    requires |s| > 1 && IsSpace(s[0])
    ensures SkipSpaceFrom(s, 0) == 1 + SkipSpaceFrom(s[1..], 0)
    ensures s[SkipSpaceFrom(s, 0)..] == s[1..][SkipSpaceFrom(s[1..], 0)..]
  {
    SkipOffset(s, 1, 0);
  }

  /** Skipping in `s` from `i + j` is skipping in `s[i..]` from `j`, shifted. */
  lemma {:induction false} SkipOffset(s: string, i: nat, j: nat)
    requires i + j <= |s|
    ensures SkipSpaceFrom(s, i + j) == i + SkipSpaceFrom(s[i..], j)
    decreases |s| - i - j
  {
    if i + j < |s| && IsSpace(s[i + j]) {
      assert s[i..][j] == s[i + j];
      SkipOffset(s, i, j + 1);
    } else if i + j < |s| {
      assert s[i..][j] == s[i + j];
    }
  }

  /** A leading whitespace byte does not change TrimSpace. */
  lemma TrimSpaceLeadingSpace(x: string)
    ensures TrimSpace([' '] + x) == TrimSpace(x)
  {
    TrimSpaceMargins(x);
    var r := TrimSpace(x);
    var a :| BetweenMargins(x, r, a);
    var s := [' '] + x;
    assert s[a + 1..a + 1 + |r|] == x[a..a + |r|];
    assert forall i :: 1 <= i < |s| ==> s[i] == x[i - 1];
    assert BetweenMargins(s, r, a + 1);
    TrimSpaceUnique(s, r, a + 1);
  }

  /** A word, one ' ' and text starting with a non-whitespace byte: only the
      text's trailing whitespace is trimmed. */
  lemma TrimSpaceAfterWord(w: string, x: string)
    requires w != [] && NoSpace(w)
    requires x != [] && !IsSpace(x[0])
    ensures TrimSpace(w + [' '] + x) == w + [' '] + TrimSpace(x)
  {
    TrimSpaceMargins(x);
    var r := TrimSpace(x);
    var a :| BetweenMargins(x, r, a);
    assert !(0 < a);
    assert IsSpace(x[0]) || |r| > 0;
    var s := w + [' '] + x;
    var r' := w + [' '] + r;
    assert s[..|r'|] == r' by {
      assert x[..|r|] == r;
    }
    assert forall i :: |w| + 1 <= i < |s| ==> s[i] == x[i - |w| - 1];
    assert BetweenMargins(s, r', 0);
    assert r'[|r'| - 1] == r[|r| - 1];
    TrimSpaceUnique(s, r', 0);
  }

  /** A word followed by one ' ' trims to the word. */
  lemma TrimSpaceWordSpace(w: string)
    requires w != [] && NoSpace(w)
    ensures TrimSpace(w + [' ']) == w
  {
    var s := w + [' '];
    assert s[0..|w|] == w;
    assert BetweenMargins(s, w, 0);
    TrimSpaceUnique(s, w, 0);
  }

  /** Leading whitespace contributes no field. */
  lemma {:induction false} FieldsLeadingSpace(s: string)
    requires s != [] && IsSpace(s[0])
    ensures Fields(s) == Fields(s[SkipSpaceFrom(s, 0)..])
    decreases |s|
  {
    if |s| > 1 && IsSpace(s[1]) {
      FieldsLeadingSpace(s[1..]);
      SkipSpaceShift(s);
    } else {
      assert SkipSpaceFrom(s, 0) == 1;
    }
  }

  /** Text that starts with a non-whitespace byte has a first field. */
  lemma FieldsNonEmpty(s: string)
    requires s != [] && !IsSpace(s[0])
    ensures Fields(s) != []
  {
  }

  /** Induction step at leading whitespace: the run becomes one ' ' that
      TrimSpace drops, and Fields skips it. */
  lemma CollapseStepSpace(s: string, y: string)
    requires s != [] && IsSpace(s[0]) && y == s[SkipSpaceFrom(s, 0)..]
    requires TrimSpace(Runs(y, IsSpace)) == Collapse(y)
    ensures TrimSpace(Runs(s, IsSpace)) == Collapse(s)
  {
    RunsLeadingSpace(s);
    TrimSpaceLeadingSpace(Runs(y, IsSpace));
    FieldsLeadingSpace(s);
  }

  /** Induction step at a word `w` that ends the text. */
  lemma CollapseStepLastWord(w: string)
    requires w != [] && NoSpace(w)
    ensures TrimSpace(Runs(w, IsSpace)) == Collapse(w)
  {
    RunsWord(w, []);
    assert w + [] == w;
    TrimmedFixed(w);
    FieldsCons(w, []);
    assert [w] + [] == [w];
  }

  /** Induction step at a word `w` followed by whitespace and then `y`. */
  lemma CollapseStepWord(w: string, rest: string, y: string)
    requires w != [] && NoSpace(w)
    requires rest != [] && IsSpace(rest[0]) && y == rest[SkipSpaceFrom(rest, 0)..]
    requires TrimSpace(Runs(y, IsSpace)) == Collapse(y)
    ensures TrimSpace(Runs(w + rest, IsSpace)) == Collapse(w + rest)
  {
    RunsWord(w, rest);
    RunsLeadingSpace(rest);
    FieldsLeadingSpace(rest);
    FieldsCons(w, rest);
    assert Runs(w + rest, IsSpace) == w + [' '] + Runs(y, IsSpace);
    if y == [] {
      assert w + [' '] + [] == w + [' '];
      TrimSpaceWordSpace(w);
      assert [w] + [] == [w];
    } else {
      RunsHead(y, IsSpace);
      TrimSpaceAfterWord(w, Runs(y, IsSpace));
      FieldsNonEmpty(y);
      JoinCons(w, Fields(y), ' ');
    }
  }

  /** Replacing whitespace runs by single spaces and trimming gives the
      fields joined by single spaces. */
  lemma {:induction false} TrimmedRunsAreCollapse(s: string)
    ensures TrimSpace(Runs(s, IsSpace)) == Collapse(s)
    decreases |s|
  {
    if s == [] {
      assert TrimSpace([]) == [];
    } else if IsSpace(s[0]) {
      var y := s[SkipSpaceFrom(s, 0)..];
      TrimmedRunsAreCollapse(y);
      CollapseStepSpace(s, y);
    } else {
      var e := WordEnd(s, 0);
      WordEndFacts(s, 0);
      var w, rest := s[..e], s[e..];
      assert s == w + rest;
      if rest == [] {
        assert s == w;
        CollapseStepLastWord(w);
      } else {
        var y := rest[SkipSpaceFrom(rest, 0)..];
        TrimmedRunsAreCollapse(y);
        CollapseStepWord(w, rest, y);
      }
    }
  }

  /** The two preview pipelines agree on text without a vertical tab: the
      regular-expression passes `\n+` then `\s+` to " " followed by
      TrimSpace give exactly the strings.Fields collapse. */
  lemma RegexCollapseIsFieldsCollapse(s: string)
    requires '\U{000B}' !in s
    ensures TrimSpace(Runs(Runs(s, IsNewline), ReSpace)) == Collapse(s)
  {
    RunsSubsumed(s, IsNewline, ReSpace);
    RunsAgree(s, ReSpace, IsSpace);
    TrimmedRunsAreCollapse(s);
  }
}
