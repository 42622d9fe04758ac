/** The line-based metadata readers of the command-line generator (main.go):
    title, tags and preview taken straight from the raw org text, one
    '\n'-separated line at a time. */
module OrgLines {
  import opened Wrappers
  import opened GoStrings
  import opened Preview

  /** The title keyword, compared against the lower-cased trimmed line. */
  const TitleKey: string := "#+title:"

  /** A trimmed line that opens a top-level headline. */
  predicate IsHeadline(trimmed: string)
  {
    HasPrefix(trimmed, "* ") && trimmed != "* "
  }

  /** A string with no " :" anywhere in it. */
  predicate NoTagOpener(s: string)
  {
    forall j :: 0 <= j < |s| ==> !OccursAt(s, " :", j)
  }

  // ---------------------------------------------------------------------
  // extractTitle
  // ---------------------------------------------------------------------

  /** A trimmed line that starts with the title keyword, in any case. */
  predicate IsKeywordLine(trimmed: string)
  {
    HasPrefix(Lower(trimmed), TitleKey)
  }

  /** Non-empty text is offered, empty text is not. */
  function Offer(s: string): Option<string>
  {
    if s != "" then Some(s) else None
  }

  /** The text of a trimmed headline line: what follows "* ", trimmed, cut
      before its first " :" and trimmed again. */
  function HeadlineText(trimmed: string): (r: string)
    requires |trimmed| >= 2
    ensures Trimmed(r)
  {
    var part := TrimSpace(trimmed[2..]);
    var k := Index(part, " :");
    if k != -1 then TrimSpace(part[..k]) else part
  }

  /** What one line offers as a title. A `#+title:` line (in any case) offers
      its trimmed remainder and, when that is empty, nothing at all; the
      headline test is then not tried. A headline offers its text. */
  function LineTitle(line: string): (t: Option<string>)
    ensures t.Some? ==> t.value != [] && Trimmed(t.value)
  {
    var trimmed := TrimSpace(line);
    if IsKeywordLine(trimmed) then Offer(TrimSpace(trimmed[8..]))
    else if IsHeadline(trimmed) then Offer(HeadlineText(trimmed))
    else None
  }

  /** The offset of the first offer that is made, or -1 when none is. */
  function FirstSome<T>(offers: seq<Option<T>>): (k: int)
    ensures k == -1 <==> forall j :: 0 <= j < |offers| ==> offers[j].None?
    ensures k != -1 ==> 0 <= k < |offers| && offers[k].Some? && forall j :: 0 <= j < k ==> offers[j].None?
  {
    if offers == [] then -1
    else if offers[0].Some? then 0
    else
      var k := FirstSome(offers[1..]);
      if k == -1 then -1 else k + 1
  }

  /** A declined first offer shifts the first made one by one. */
  lemma FirstSomeCons<T>(o: Option<T>, offers: seq<Option<T>>)
    ensures FirstSome([o] + offers) ==
      if o.Some? then 0 else if FirstSome(offers) == -1 then -1 else FirstSome(offers) + 1
  {
    assert ([o] + offers)[1..] == offers;
  }

  /** The first offer made is at `i` when one is made there and none before. */
  lemma FirstSomeAt<T>(offers: seq<Option<T>>, i: nat)
    requires i < |offers| && offers[i].Some?
    requires forall j :: 0 <= j < i ==> offers[j].None?
    ensures FirstSome(offers) == i
  {
    var k := FirstSome(offers);
    assert k != -1;
    assert !(k < i);
  }

  /** What each line offers, line by line. */
  function Offers<T>(f: string -> Option<T>, lines: seq<string>): (o: seq<Option<T>>)
    ensures |o| == |lines|
    ensures forall i :: 0 <= i < |lines| ==> o[i] == f(lines[i])
  {
    seq(|lines|, i requires 0 <= i < |lines| => f(lines[i]))
  }

  /** The line scan shared by extractTitle and extractTags: the value
      offered by the first '\n'-separated line of `content` that offers one,
      or `none` when no line does. */
  function FirstOffer<T>(f: string -> Option<T>, content: string, none: T): T
  {
    var offers := Offers(f, Split(content, '\n'));
    var k := FirstSome(offers);
    if k == -1 then none else offers[k].value
  }

  /** The value is the one line `i` offers when no earlier line offers any. */
  lemma FirstOfferAt<T>(f: string -> Option<T>, content: string, none: T, i: nat)
    requires i < |Split(content, '\n')| && f(Split(content, '\n')[i]).Some?
    requires forall j :: 0 <= j < i ==> f(Split(content, '\n')[j]).None?
    ensures FirstOffer(f, content, none) == f(Split(content, '\n')[i]).value
  {
    FirstSomeAt(Offers(f, Split(content, '\n')), i);
  }

  /** No line offers anything: the value is `none`. */
  lemma FirstOfferNone<T>(f: string -> Option<T>, content: string, none: T)
    requires forall j :: 0 <= j < |Split(content, '\n')| ==> f(Split(content, '\n')[j]).None?
    ensures FirstOffer(f, content, none) == none
  {
  }

  /** A first line that makes an offer decides the scan, whatever follows. */
  lemma FirstOfferFirstLine<T>(f: string -> Option<T>, line: string, rest: string, none: T)
    requires '\n' !in line && f(line).Some?
    ensures FirstOffer(f, line + "\n" + rest, none) == f(line).value
  {
    SplitCons(line, rest, '\n');
    assert Offers(f, Split(line + "\n" + rest, '\n'))[0] == f(line);
  }

  /** A first line that makes no offer is passed over. */
  lemma FirstOfferSkipsLine<T>(f: string -> Option<T>, line: string, rest: string, none: T)
    requires '\n' !in line && f(line).None?
    ensures FirstOffer(f, line + "\n" + rest, none) == FirstOffer(f, rest, none)
  {
    SplitCons(line, rest, '\n');
    var offers := Offers(f, Split(rest, '\n'));
    assert Offers(f, Split(line + "\n" + rest, '\n')) == [f(line)] + offers;
    FirstSomeCons(f(line), offers);
  }

  /** extractTitle: the title offered by the first line of `content` that
      offers one, or "" when no line does. */
  function ExtractTitle(content: string): (r: string)
    ensures r == [] || Trimmed(r)
  {
    FirstOffer(LineTitle, content, "")
  }

  /** A `#+TITLE:` keyword in any case followed by text offers that text,
      trimmed. */
  lemma KeywordLineTitle(kw: string, v: string)
    requires |kw| == 8 && Lower(kw) == TitleKey
    requires v != [] && !IsSpace(v[|v| - 1]) && TrimSpace(v) != []
    ensures LineTitle(kw + v) == Some(TrimSpace(v))
  {
    var line := kw + v;
    assert Lower(kw)[0] == LowerChar(kw[0]) == '#';
    assert line[0] == kw[0] && line[|line| - 1] == v[|v| - 1];
    TrimmedFixed(line);
    assert Lower(line)[..8] == Lower(kw);
    assert line[8..] == v;
  }

  /** An occurrence of " :" that starts inside `x` but is not wholly inside
      it starts at the last byte of `x`. */
  lemma OpenerStraddles(x: string, y: string, j: int)
    requires OccursAt(x + y, " :", j) && j < |x|
    ensures OccursAt(x, " :", j) || (j == |x| - 1 && x[j] == ' ')
  {
    assert (x + y)[j..j + 2][0] == (x + y)[j];
    if j + 2 <= |x| {
      assert (x + y)[j..j + 2] == x[j..j + 2];
    }
  }

  /** The first " :" of `t + " :" + rest` is the appended one when `t`
      holds none and does not end in a space. */
  lemma OpenerAfter(t: string, rest: string)
    requires NoTagOpener(t)
    requires t == [] || t[|t| - 1] != ' '
    ensures Index(t + " :" + rest, " :") == |t|
  {
    var s := t + " :" + rest;
    assert s == t + (" :" + rest);
    assert s[|t|..|t| + 2] == " :";
    forall j | j < |t| ensures !OccursAt(s, " :", j) {
      if OccursAt(s, " :", j) {
        OpenerStraddles(t, " :" + rest, j);
      }
    }
    IndexIsFirst(s, " :", |t|);
  }

  /** A trimmed headline line offers its headline text. */
  lemma HeadlineLine(x: string)
    requires x != [] && !IsSpace(x[|x| - 1])
    ensures LineTitle("* " + x) == Offer(HeadlineText("* " + x))
    ensures ("* " + x)[2..] == x
  {
    var line := "* " + x;
    assert line[|line| - 1] == x[|x| - 1];
    TrimmedFixed(line);
    StarNotKeyword(line);
    assert line[..2] == "* ";
    assert IsHeadline(line);
  }

  /** A line starting with '*' is not a title keyword line. */
  lemma StarNotKeyword(s: string)
    requires s != [] && s[0] == '*'
    ensures !IsKeywordLine(s)
  {
    if |s| >= 8 {
      assert Lower(s)[..8][0] == LowerChar(s[0]) == '*';
    }
  }

  /** A headline whose text holds no " :" offers that text. */
  lemma HeadlineLineTitle(t: string)
    requires t != [] && Trimmed(t) && NoTagOpener(t)
    ensures LineTitle("* " + t) == Some(t)
  {
    HeadlineLine(t);
    TrimmedFixed(t);
    IndexFacts(t, " :");
  }

  /** The text of a tagged headline stops before the tags. */
  lemma TaggedHeadlineText(t: string, rest: string)
    requires t != [] && Trimmed(t) && NoTagOpener(t)
    requires rest != [] && !IsSpace(rest[|rest| - 1])
    ensures HeadlineText("* " + (t + " :" + rest)) == t
  {
    var part := t + " :" + rest;
    assert ("* " + part)[2..] == part;
    assert part[|part| - 1] == rest[|rest| - 1];
    TrimmedFixed(part);
    OpenerAfter(t, rest);
    assert part[..|t|] == t;
    TrimmedFixed(t);
  }

  /** A tagged headline offers the text before its tags:
      `* My Headline Title :tag1:tag2:` offers `My Headline Title`. */
  lemma TaggedHeadlineLineTitle(t: string, ts: seq<string>)
    requires t != [] && Trimmed(t) && NoTagOpener(t)
    ensures LineTitle("* " + t + " :" + Join(ts, ':') + ":") == Some(t)
  {
    TaggedShape("* " + t, Join(ts, ':'));
    TitleBeforeTags(t, Join(ts, ':') + ":");
  }

  /** A headline with text `t`, then " :" and text not ending in whitespace,
      offers `t`. */
  lemma TitleBeforeTags(t: string, rest: string)
    requires t != [] && Trimmed(t) && NoTagOpener(t)
    requires rest != [] && !IsSpace(rest[|rest| - 1])
    ensures LineTitle("* " + t + " :" + rest) == Some(t)
  {
    assert "* " + t + " :" + rest == "* " + (t + " :" + rest);
    var x := t + " :" + rest;
    assert x[|x| - 1] == rest[|rest| - 1];
    HeadlineLine(x);
    TaggedHeadlineText(t, rest);
  }

  /** A `#+title:` line with nothing after the keyword offers nothing, so a
      later headline supplies the title. */
  lemma BareKeywordLineTitle(kw: string)
    requires |kw| == 8 && Lower(kw) == TitleKey
    ensures LineTitle(kw) == None
  {
    assert Lower(kw)[0] == LowerChar(kw[0]) == '#';
    assert Lower(kw)[7] == LowerChar(kw[7]) == ':';
    TrimmedFixed(kw);
    assert kw[8..] == [];
  }

  // ---------------------------------------------------------------------
  // extractTags
  // ---------------------------------------------------------------------

  /** The non-empty parts, in order. */
  function NonEmpty(parts: seq<string>): (r: seq<string>)
    ensures forall k :: 0 <= k < |r| ==> r[k] != []
    ensures |r| <= |parts|
  {
    if parts == [] then []
    else if parts[0] == [] then NonEmpty(parts[1..])
    else [parts[0]] + NonEmpty(parts[1..])
  }

  /** NonEmpty keeps exactly the non-empty parts. */
  lemma {:induction false} NonEmptyMembers(parts: seq<string>)
    ensures forall x :: x in NonEmpty(parts) <==> x in parts && x != []
    decreases |parts|
  {
    if parts != [] {
      NonEmptyMembers(parts[1..]);
      assert parts == [parts[0]] + parts[1..];
    }
  }

  lemma {:induction false} NonEmptyAppend(a: seq<string>, b: seq<string>)
    ensures NonEmpty(a + b) == NonEmpty(a) + NonEmpty(b)
    decreases |a|
  {
    if a == [] {
      assert a + b == b;
    } else {
      assert (a + b)[1..] == a[1..] + b;
      NonEmptyAppend(a[1..], b);
    }
  }

  lemma {:induction false} NonEmptyKeepsAll(parts: seq<string>)
    requires forall k :: 0 <= k < |parts| ==> parts[k] != []
    ensures NonEmpty(parts) == parts
    decreases |parts|
  {
    if parts != [] {
      NonEmptyKeepsAll(parts[1..]);
      assert [parts[0]] + parts[1..] == parts;
    }
  }

  /** The tag token of a trimmed headline: from the ':' of its first " :"
      up to the next ' ', or -1 for the offsets when there is no " :". */
  function TagToken(trimmed: string): (token: string)
  {
    var k := Index(trimmed, " :");
    if k == -1 then []
    else
      var tagStr := trimmed[k + 1..];
      var sp := Index(tagStr, " ");
      if sp != -1 then tagStr[..sp] else tagStr
  }

  /** What one line offers as tags. A headline without " :" offers nothing
      and the scan goes on; a headline with one offers the ':'-separated
      non-empty parts of its tag token, and the scan stops there even when
      no part is left. */
  function LineTags(line: string): (r: Option<seq<string>>)
    ensures r.Some? ==> forall k :: 0 <= k < |r.value| ==> r.value[k] != []
  {
    var trimmed := TrimSpace(line);
    if !IsHeadline(trimmed) || Index(trimmed, " :") == -1 then None
    else Some(NonEmpty(Split(TagToken(trimmed), ':')))
  }

  /** No tag holds a ':'. */
  lemma LineTagsNoColon(line: string)
    requires LineTags(line).Some?
    ensures forall k :: 0 <= k < |LineTags(line).value| ==> ':' !in LineTags(line).value[k]
  {
    var parts := Split(TagToken(TrimSpace(line)), ':');
    SplitFacts(TagToken(TrimSpace(line)), ':');
    NonEmptyMembers(parts);
    forall k | 0 <= k < |LineTags(line).value| ensures ':' !in LineTags(line).value[k] {
      var x := LineTags(line).value[k];
      assert x in parts;
    }
  }

  /** extractTags: the tags offered by the first tagged headline line of
      `content`, or none (nil in the source) when there is no such line. */
  function ExtractTags(content: string): (r: seq<string>)
    ensures forall k :: 0 <= k < |r| ==> r[k] != []
  {
    FirstOffer(LineTags, content, [])
  }

  /** A byte in no part, other than the separator, is not in the join. */
  lemma {:induction false} JoinAvoids(parts: seq<string>, c: char, b: char)
    requires b != c
    requires forall k :: 0 <= k < |parts| ==> b !in parts[k]
    ensures b !in Join(parts, c)
    decreases |parts|
  {
    if |parts| > 1 {
      JoinAvoids(parts[1..], c, b);
    }
  }

  /** A token framed by separators starts with an empty part. */
  lemma Framed(j: string, c: char)
    ensures [c] + j + [c] == [] + [c] + (j + [c])
  {
  }

  /** Joined separator-free parts followed by a separator split into the
      parts and one empty part. */
  lemma SplitTrailing(ts: seq<string>, c: char)
    requires |ts| >= 1
    requires forall k :: 0 <= k < |ts| ==> c !in ts[k]
    ensures Split(Join(ts, c) + [c], c) == ts + [""]
  {
    JoinSnoc(ts, "", c);
    var parts := ts + [""];
    assert Join(parts, c) == Join(ts, c) + [c];
    assert forall k :: 0 <= k < |parts| ==> c !in parts[k] by {
      assert forall k :: 0 <= k < |ts| ==> parts[k] == ts[k];
    }
    SplitJoin(parts, c);
  }

  /** Splitting a written tag token and dropping empty parts gives the tags
      back. */
  lemma TagTokenParts(ts: seq<string>)
    requires forall k :: 0 <= k < |ts| ==> ts[k] != [] && ':' !in ts[k]
    ensures NonEmpty(Split(":" + Join(ts, ':') + ":", ':')) == ts
  {
    var j := Join(ts, ':');
    var parts := Split(":" + j + ":", ':');
    Framed(j, ':');
    SplitCons([], j + ":", ':');
    assert parts == [""] + Split(j + ":", ':');
    var tail := if ts == [] then ["", ""] else ts + [""];
    if ts == [] {
      SplitCons([], [], ':');
      assert Split([], ':') == [[]];
    } else {
      SplitTrailing(ts, ':');
    }
    assert Split(j + ":", ':') == tail;
    NonEmptyTagParts(ts, tail);
  }

  /** Dropping the empty parts around non-empty tags leaves the tags. */
  lemma NonEmptyTagParts(ts: seq<string>, tail: seq<string>)
    requires forall k :: 0 <= k < |ts| ==> ts[k] != []
    requires tail == if ts == [] then ["", ""] else ts + [""]
    ensures NonEmpty([""] + tail) == ts
  {
    NonEmptyAppend([""], tail);
    assert NonEmpty([""]) == [];
    if ts == [] {
      assert NonEmpty(tail) == [];
    } else {
      NonEmptyAppend(ts, [""]);
      NonEmptyKeepsAll(ts);
    }
  }

  /** The shape of a tagged headline line `u + " :" + j + ":"`. */
  lemma TaggedShape(u: string, j: string)
    ensures u + " :" + j + ":" == u + " :" + (j + ":")
    ensures (u + " :" + j + ":")[|u| + 1..] == ":" + j + ":"
    ensures (u + " :" + j + ":")[..|u|] == u
    ensures (u + " :" + j + ":")[|u + " :" + j + ":"| - 1] == ':'
  {
  }

  lemma TaggedHeadlineLineTags(t: string, ts: seq<string>)
    requires t != [] && t[0] != ':' && !IsSpace(t[|t| - 1]) && NoTagOpener(t)
    requires forall k :: 0 <= k < |ts| ==> ts[k] != [] && ':' !in ts[k] && ' ' !in ts[k]
    ensures LineTags("* " + t + " :" + Join(ts, ':') + ":") == Some(ts)
  {
    JoinAvoids(ts, ':', ' ');
    TaggedLineToken(t, Join(ts, ':'));
    TagTokenParts(ts);
  }

  /** The tag token of a headline line with tags written after its text is
      the ':'-framed tag text. */
  lemma TaggedLineToken(t: string, j: string)
    requires t != [] && t[0] != ':' && !IsSpace(t[|t| - 1]) && NoTagOpener(t)
    requires ' ' !in j
    ensures LineTags("* " + t + " :" + j + ":") == Some(NonEmpty(Split(":" + j + ":", ':')))
  {
    var u := "* " + t;
    var line := u + " :" + j + ":";
    TaggedShape(u, j);
    assert line[0] == '*';
    TrimmedFixed(line);
    assert line[..2] == "* ";
    assert IsHeadline(line);
    HeadlineOpenerFree(t);
    OpenerAfter(u, j + ":");
    NoSpaceInToken(j);
    assert TagToken(line) == ":" + j + ":";
  }

  /** The tag token ends at the first ' ' after " :": text after the tags
      does not change them. */
  lemma SpaceAfterTagsLineTags(t: string, ts: seq<string>, more: string)
    requires t != [] && t[0] != ':' && !IsSpace(t[|t| - 1]) && NoTagOpener(t)
    requires forall k :: 0 <= k < |ts| ==> ts[k] != [] && ':' !in ts[k] && ' ' !in ts[k]
    requires more != [] && Trimmed(more)
    ensures LineTags("* " + t + " :" + Join(ts, ':') + ": " + more) == Some(ts)
  {
    JoinAvoids(ts, ':', ' ');
    SpacedLineToken(t, Join(ts, ':'), more);
    TagTokenParts(ts);
  }

  /** The two groupings of a tagged headline line followed by more text. */
  lemma SpacedLineForm(u: string, j: string, more: string)
    ensures u + " :" + j + ": " + more == u + " :" + (j + ": " + more)
    ensures u + " :" + j + ": " + more == (u + " ") + ((":" + j + ":") + " " + more)
  {
    var v := u + " ";
    var token := ":" + j + ":";
    assert u + " :" == v + ":";
    assert u + " :" + j == v + (":" + j);
    assert u + " :" + j + ": " == v + (token + " ");
  }

  /** A headline line with more text after its tags is its own TrimSpace. */
  lemma SpacedLineTrimmed(t: string, j: string, more: string)
    requires more != [] && Trimmed(more)
    ensures var line := "* " + t + " :" + j + ": " + more;
      TrimSpace(line) == line && IsHeadline(line)
  {
    var line := "* " + t + " :" + j + ": " + more;
    assert line[0] == '*' && line[|line| - 1] == more[|more| - 1];
    TrimmedFixed(line);
    assert line[..2] == "* ";
  }

  /** The tag token of a headline line with more text after its tags is the
      ':'-framed tag text. */
  lemma SpacedLineToken(t: string, j: string, more: string)
    requires t != [] && t[0] != ':' && !IsSpace(t[|t| - 1]) && NoTagOpener(t)
    requires ' ' !in j
    requires more != [] && Trimmed(more)
    ensures LineTags("* " + t + " :" + j + ": " + more) == Some(NonEmpty(Split(":" + j + ":", ':')))
  {
    var u := "* " + t;
    var line := u + " :" + j + ": " + more;
    var token := ":" + j + ":";
    SpacedLineForm(u, j, more);
    SpacedLineTrimmed(t, j, more);
    HeadlineOpenerFree(t);
    OpenerAfter(u, j + ": " + more);
    assert ' ' !in token;
    TokenBeforeSpace(line, u, token, more);
  }

  /** With the first " :" right after `u`, the tag token runs from its ':'
      up to the ' ' that follows `token`. */
  lemma TokenBeforeSpace(line: string, u: string, token: string, more: string)
    requires line == (u + " ") + (token + " " + more)
    requires Index(line, " :") == |u|
    requires ' ' !in token
    ensures TagToken(line) == token
  {
    var after := token + " " + more;
    assert line[|u| + 1..] == after;
    FirstSpaceAfter(token, more);
    assert after[..|token|] == token;
  }

  /** The first ' ' of `x + " " + y` is the appended one when `x` has none. */
  lemma FirstSpaceAfter(x: string, y: string)
    requires ' ' !in x
    ensures Index(x + " " + y, " ") == |x|
  {
    var s := x + " " + y;
    OccursAtChar(s, ' ', |x|);
    forall i | i < |x| ensures !OccursAt(s, " ", i) {
      OccursAtChar(s, ' ', i);
      if 0 <= i {
        assert s[i] == x[i];
      }
    }
    IndexIsFirst(s, " ", |x|);
  }

  /** extractTags returns the tags of the first line that offers any,
      whatever later lines hold. */
  lemma ExtractTagsFirst(content: string, i: nat)
    requires i < |Split(content, '\n')| && LineTags(Split(content, '\n')[i]).Some?
    requires forall j :: 0 <= j < i ==> LineTags(Split(content, '\n')[j]).None?
    ensures ExtractTags(content) == LineTags(Split(content, '\n')[i]).value
  {
    FirstOfferAt(LineTags, content, [], i);
  }

  /** With no headline line holding " :", extractTags returns nil. */
  lemma ExtractTagsNone(content: string)
    requires forall j :: 0 <= j < |Split(content, '\n')| ==> LineTags(Split(content, '\n')[j]).None?
    ensures ExtractTags(content) == []
  {
    FirstOfferNone(LineTags, content, []);
  }

  /** A tagged headline on the first line decides the tags, whatever
      follows. */
  lemma TaggedFirstLineWins(t: string, ts: seq<string>, rest: string)
    requires t != [] && t[0] != ':' && !IsSpace(t[|t| - 1]) && NoTagOpener(t) && '\n' !in t
    requires forall k :: 0 <= k < |ts| ==> ts[k] != [] && ':' !in ts[k] && ' ' !in ts[k] && '\n' !in ts[k]
    ensures ExtractTags("* " + t + " :" + Join(ts, ':') + ":" + "\n" + rest) == ts
  {
    TaggedHeadlineLineTags(t, ts);
    TaggedLineOneLine(t, ts);
    FirstOfferFirstLine(LineTags, "* " + t + " :" + Join(ts, ':') + ":", rest, []);
  }

  /** A tagged headline line built from newline-free text holds no '\n'. */
  lemma TaggedLineOneLine(t: string, ts: seq<string>)
    requires '\n' !in t
    requires forall k :: 0 <= k < |ts| ==> '\n' !in ts[k]
    ensures '\n' !in "* " + t + " :" + Join(ts, ':') + ":"
  {
    JoinAvoids(ts, ':', '\n');
    var a := "* " + t;
    assert '\n' !in a;
    var b := a + " :";
    assert '\n' !in b;
    var c := b + Join(ts, ':');
    assert '\n' !in c;
    assert '\n' !in c + ":";
  }

  /** "* T ::" offers no tags and still ends the scan: a tagged headline on
      a later line is not looked at, and the result is nil. */
  lemma EmptyTagsStopScan(t: string, rest: string)
    requires t != [] && t[0] != ':' && !IsSpace(t[|t| - 1]) && NoTagOpener(t) && '\n' !in t
    ensures ExtractTags("* " + t + " ::" + "\n" + rest) == []
  {
    EmptyTokenLine(t);
    TaggedFirstLineWins(t, [], rest);
  }

  /** "* T ::" is the tagged line with no tags. */
  lemma EmptyTokenLine(t: string)
    ensures "* " + t + " :" + Join([], ':') + ":" == "* " + t + " ::"
  {
    var p := "* " + t + " :";
    assert Join([], ':') == [];
    assert p + [] == p;
    assert p + ":" == "* " + t + " ::";
  }

  /** "* " before a text that does not start with ':' adds no " :". */
  lemma HeadlineOpenerFree(t: string)
    requires t != [] && t[0] != ':' && NoTagOpener(t)
    ensures NoTagOpener("* " + t)
  {
    var u := "* " + t;
    forall i | 0 <= i < |u| ensures !OccursAt(u, " :", i) {
      if i >= 2 && i + 2 <= |u| {
        assert u[i..i + 2] == t[i - 2..i];
        assert !OccursAt(t, " :", i - 2);
      } else if i == 0 {
        assert u[i..i + 2][1] == ' ';
      } else if i == 1 && i + 2 <= |u| {
        assert u[2] == t[0];
        assert u[1..3][1] == u[2];
      }
    }
  }

  /** A token framed by ':' bytes around space-free text holds no ' '. */
  lemma NoSpaceInToken(j: string)
    requires ' ' !in j
    ensures Index(":" + j + ":", " ") == -1
  {
    var s := ":" + j + ":";
    forall i ensures !OccursAt(s, " ", i) {
      OccursAtChar(s, ' ', i);
      if 0 < i < |s| - 1 {
        assert s[i] == j[i - 1];
        assert j[i - 1] in j;
      } else if i == 0 || i == |s| - 1 {
        assert s[i] == ':';
      }
    }
    IndexFacts(s, " ");
  }

  // ---------------------------------------------------------------------
  // Preview
  // ---------------------------------------------------------------------

  /** The preview of main.go: everything after the first line, passed
      through the markup-stripping substitutions `strip`, newline runs and
      then `\s` runs replaced by one ' ', trimmed and truncated. */
  function ExtractPreview(content: string, maxLen: nat, strip: string -> string): (r: string)
    ensures '\n' !in content ==> r == ""
    ensures |r| <= maxLen + 3
  {
    if content == [] then ""
    else
      var idx := IndexByte(content, '\n');
      if idx == -1 then ""
      else
        var text := TrimSpace(Runs(Runs(strip(content[idx + 1..]), IsNewline), ReSpace));
        TruncateBound(text, maxLen);
        Truncate(text, maxLen)
  }

  /** The first line never shows in the preview: only its end matters. */
  lemma ExtractPreviewSkipsFirstLine(first: string, body: string, maxLen: nat, strip: string -> string)
    requires '\n' !in first
    ensures ExtractPreview(first + "\n" + body, maxLen, strip)
         == ExtractPreview("\n" + body, maxLen, strip)
  {
    var c := first + "\n" + body;
    assert c[|first|] == '\n' && c[..|first|] == first;
    assert IndexByte(c, '\n') == |first|;
    assert c[|first| + 1..] == body;
    assert ("\n" + body)[1..] == body;
  }

  /** On text without a vertical tab the preview is the phase-one preview
      tail: the strings.Fields words joined by single spaces, truncated. */
  lemma ExtractPreviewIsPreviewTail(first: string, body: string, maxLen: nat, strip: string -> string)
    requires '\n' !in first
    requires '\U{000B}' !in strip(body)
    ensures ExtractPreview(first + "\n" + body, maxLen, strip) == PreviewTail(strip(body), maxLen)
  {
    ExtractPreviewSkipsFirstLine(first, body, maxLen, strip);
    assert ("\n" + body)[1..] == body;
    RegexCollapseIsFieldsCollapse(strip(body));
  }
}
