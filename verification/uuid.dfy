/** ID validation and the raw-text ID scanner.

    generator/utils.go, generator/generator.go and main.go each define
    `isHexChar` and `isValidUUID` with the same bodies; they are defined once
    here. The scanners differ only in which property markers they look for,
    which `Markers` selects: utils.go accepts `:ID:` and `:id:`, generator.go
    and main.go only `:ID:`. */
module Uuid {
  import opened GoStrings

  /** isHexChar: an ASCII hexadecimal digit of either case. */
  predicate IsHexChar(b: char)
  {
    ('0' <= b <= '9') || ('a' <= b <= 'f') || ('A' <= b <= 'F')
  }

  /** isValidUUID, byte by byte: length 36, hyphens at 8, 13, 18 and 23, and
      every byte a hyphen or a hex digit. */
  predicate IsValidUuid(s: string)
  {
    && |s| == 36
    && s[8] == '-' && s[13] == '-' && s[18] == '-' && s[23] == '-'
    && (forall j :: 0 <= j < |s| ==> s[j] == '-' || IsHexChar(s[j]))
  }

  /** Every byte of `s` is a hex digit. */
  predicate AllHex(s: string)
  {
    forall j :: 0 <= j < |s| ==> IsHexChar(s[j])
  }

  /** The hex digits are exactly the 22 characters 0-9, a-f and A-F. */
  lemma HexCharIsDigitSet(c: char)
    ensures IsHexChar(c) <==> c in "0123456789abcdefABCDEF"
  {
  }

  /** The canonical 8-4-4-4-12 form passes, in either letter case. */
  lemma CanonicalFormValid(a: string, b: string, c: string, d: string, e: string)
    requires |a| == 8 && |b| == 4 && |c| == 4 && |d| == 4 && |e| == 12
    requires AllHex(a) && AllHex(b) && AllHex(c) && AllHex(d) && AllHex(e)
    ensures IsValidUuid(a + "-" + b + "-" + c + "-" + d + "-" + e)
  {
    var s := a + "-" + b + "-" + c + "-" + d + "-" + e;
    forall j | 0 <= j < |s| ensures s[j] == '-' || IsHexChar(s[j]) {
      if j < 8 { assert s[j] == a[j]; }
      else if 8 < j < 13 { assert s[j] == b[j - 9]; }
      else if 13 < j < 18 { assert s[j] == c[j - 14]; }
      else if 18 < j < 23 { assert s[j] == d[j - 19]; }
      else if 23 < j { assert s[j] == e[j - 24]; }
    }
  }

  /** Every byte of `g` is a hex digit or a hyphen. */
  predicate HexOrHyphen(g: string)
  {
    forall j :: 0 <= j < |g| ==> g[j] == '-' || IsHexChar(g[j])
  }

  /** Conversely every accepted string is five groups of 8, 4, 4, 4 and 12
      bytes joined by hyphens, each group made of hex digits and hyphens
      (the byte loop does not insist on hex digits inside a group). */
  lemma ValidSplitsAtHyphens(s: string)
    requires IsValidUuid(s)
    ensures var a, b, c, d, e := s[..8], s[9..13], s[14..18], s[19..23], s[24..];
      && |a| == 8 && |b| == 4 && |c| == 4 && |d| == 4 && |e| == 12
      && s == a + "-" + b + "-" + c + "-" + d + "-" + e
      && HexOrHyphen(a) && HexOrHyphen(b) && HexOrHyphen(c) && HexOrHyphen(d) && HexOrHyphen(e)
  {
    assert s == s[..8] + [s[8]] + s[9..13] + [s[13]] + s[14..18] + [s[18]] + s[19..23] + [s[23]] + s[24..];
    GroupHexOrHyphen(s, 0, 8);
    GroupHexOrHyphen(s, 9, 13);
    GroupHexOrHyphen(s, 14, 18);
    GroupHexOrHyphen(s, 19, 23);
    GroupHexOrHyphen(s, 24, 36);
  }

  /** A slice of an accepted string holds only hex digits and hyphens. */
  lemma GroupHexOrHyphen(s: string, i: nat, k: nat)
    requires IsValidUuid(s) && i <= k <= |s|
    ensures HexOrHyphen(s[i..k])
  {
    forall j | 0 <= j < k - i ensures s[i..k][j] == '-' || IsHexChar(s[i..k][j]) {
      assert s[i..k][j] == s[i + j];
    }
  }

  /** The byte loop does not tell the hyphen positions apart from the others:
      36 hyphens pass. */
  lemma AllHyphensValid()
    ensures IsValidUuid(seq(36, _ => '-'))
  {
  }

  /** A byte outside hex digits and '-' anywhere rejects, as does any length
      other than 36 or a missing hyphen at 8, 13, 18 or 23. */
  lemma Rejections(s: string)
    ensures (exists j :: 0 <= j < |s| && s[j] != '-' && !IsHexChar(s[j])) ==> !IsValidUuid(s)
    ensures |s| != 36 ==> !IsValidUuid(s)
    ensures |s| == 36 && (s[8] != '-' || s[13] != '-' || s[18] != '-' || s[23] != '-') ==> !IsValidUuid(s)
  {
  }

  /** Cases from the source's tests: a 'g', a missing hyphen, the empty string. */
  lemma RejectionExamples()
    ensures !IsValidUuid("550g8400-e29b-41d4-a716-446655440000")
    ensures !IsValidUuid("550e8400e29b41d4a716446655440000")
    ensures !IsValidUuid("")
  {
    var g := "550g8400-e29b-41d4-a716-446655440000";
    assert g[3] == 'g';
  }

  // ---------------------------------------------------------------------
  // The raw-text scanner (extractUUIDs)
  // ---------------------------------------------------------------------

  /** Which property markers a scanner recognises. */
  datatype Markers = UpperOnly | UpperOrLower

  /** A recognised marker starts at byte offset `j`, spelled out byte by byte. */
  predicate MarkerAt(s: string, j: int, m: Markers)
  {
    && 0 <= j && j + 4 <= |s| && s[j] == ':' && s[j + 3] == ':'
    && ((s[j + 1] == 'I' && s[j + 2] == 'D') || (m == UpperOrLower && s[j + 1] == 'i' && s[j + 2] == 'd'))
  }

  /** The byte-wise marker test is the substring test the source performs. */
  lemma MarkerAtOccurs(s: string, j: int, m: Markers)
    ensures MarkerAt(s, j, m) <==> OccursAt(s, ":ID:", j) || (m == UpperOrLower && OccursAt(s, ":id:", j))
  {
    if 0 <= j && j + 4 <= |s| {
      assert s[j..j + 4] == [s[j], s[j + 1], s[j + 2], s[j + 3]];
    }
  }

  lemma OccursAtShift(s: string, p: string, i: nat, j: nat)
    requires i <= |s|
    ensures OccursAt(s[i..], p, j) <==> OccursAt(s, p, i + j)
  {
    if i + j + |p| <= |s| {
      assert s[i..][j..j + |p|] == s[i + j..i + j + |p|];
    }
  }

  /** strings.Index on the text from `i` on, in absolute offsets. */
  lemma IndexOfSuffix(s: string, i: nat, p: string)
    requires i <= |s|
    ensures Index(s[i..], p) == -1 ==> forall j :: i <= j ==> !OccursAt(s, p, j)
    ensures Index(s[i..], p) != -1 ==>
      && OccursAt(s, p, i + Index(s[i..], p))
      && forall j :: i <= j < i + Index(s[i..], p) ==> !OccursAt(s, p, j)
  {
    var k := Index(s[i..], p);
    IndexFacts(s[i..], p);
    forall j | i <= j ensures OccursAt(s, p, j) <==> OccursAt(s[i..], p, j - i) {
      OccursAtShift(s, p, i, j - i);
    }
    if k != -1 {
      OccursAtShift(s, p, i, k);
    }
  }

  /** The marker search at the top of the scan loop: the absolute offset of
      the first marker at or after `i`, or -1. The two-marker version compares
      the offsets of `:ID:` and `:id:` and takes the smaller. */
  method NextMarker(s: string, i: nat, m: Markers) returns (k: int)
    requires i <= |s|
    ensures k == -1 ==> forall j :: i <= j ==> !MarkerAt(s, j, m)
    ensures k != -1 ==> i <= k && MarkerAt(s, k, m) && forall j :: i <= j < k ==> !MarkerAt(s, j, m)
  {
    var t := s[i..];
    var upper := Index(t, ":ID:");
    var lower := Index(t, ":id:");
    IndexOfSuffix(s, i, ":ID:");
    IndexOfSuffix(s, i, ":id:");
    if m == UpperOnly {
      k := if upper == -1 then -1 else i + upper;
    } else if upper != -1 && (lower == -1 || upper < lower) {
      k := i + upper;
    } else if lower != -1 {
      k := i + lower;
    } else {
      k := -1;
    }
    forall j | i <= j && (k == -1 || j < k) ensures !MarkerAt(s, j, m) {
      MarkerAtOccurs(s, j, m);
    }
    if k != -1 {
      MarkerAtOccurs(s, k, m);
    }
  }

  /** The space-skipping loop after a marker: the first offset at or after `j`
      that is not ' ' (tabs are not skipped), or the end of the text. */
  function SkipSpaces(s: string, j: nat): (r: nat)
    requires j <= |s|
    ensures j <= r <= |s|
    decreases |s| - j
  {
    if j < |s| && s[j] == ' ' then SkipSpaces(s, j + 1) else j
  }

  /** SkipSpaces passes over ' ' bytes only and stops at the first other
      byte or at the end. */
  lemma {:induction false} SkipSpacesSpaces(s: string, j: nat)
    requires j <= |s|
    ensures forall k :: j <= k < SkipSpaces(s, j) ==> s[k] == ' '
    ensures SkipSpaces(s, j) == |s| || s[SkipSpaces(s, j)] != ' '
    decreases |s| - j
  {
    if j < |s| && s[j] == ' ' {
      SkipSpacesSpaces(s, j + 1);
    }
  }

  /** The two facts SkipSpaces ensures determine its result. */
  lemma {:induction false} SkipSpacesUnique(s: string, j: nat, r: nat)
    requires j <= r <= |s|
    requires forall k :: j <= k < r ==> s[k] == ' '
    requires r == |s| || s[r] != ' '
    ensures SkipSpaces(s, j) == r
    decreases r - j
  {
    if j < r {
      SkipSpacesUnique(s, j + 1, r);
    }
  }

  /** Walking back from `q` over ' ' bytes. */
  function BackOverSpaces(s: string, q: nat): (b: nat)
    requires q <= |s|
    ensures b <= q
    decreases q
  {
    if q > 0 && s[q - 1] == ' ' then BackOverSpaces(s, q - 1) else q
  }

  lemma {:induction false} BackOverSpacesUnique(s: string, b: nat, q: nat)
    requires b <= q <= |s|
    requires forall k :: b <= k < q ==> s[k] == ' '
    requires b == 0 || s[b - 1] != ' '
    ensures BackOverSpaces(s, q) == b
    decreases q
  {
    if b < q {
      BackOverSpacesUnique(s, b, q - 1);
    }
  }

  /** Offset `q` is reached from a marker over nothing but ' ' bytes. */
  predicate IntroducedByMarker(s: string, q: nat, m: Markers)
    requires q <= |s|
  {
    var b := BackOverSpaces(s, q);
    b >= 4 && MarkerAt(s, b - 4, m)
  }

  /** A valid 36-byte ID starts at `q`, right after a marker and its spaces. */
  predicate UuidAt(s: string, q: nat, m: Markers)
  {
    q + 36 <= |s| && IsValidUuid(s[q..q + 36]) && IntroducedByMarker(s, q, m)
  }

  /** Where one turn of the scan loop leaves the cursor, and whether it
      accepted an ID, which then ends right before `next`. */
  datatype Move = Move(next: nat, found: bool)

  /** One turn of the scan, taken one byte at a time: at a marker, skip the
      spaces after it and either accept the 36 bytes there and jump past
      them, or move one byte past the spaces; at any other byte, move on. */
  function Step(s: string, i: nat, m: Markers): (mv: Move)
    requires i < |s|
    ensures i < mv.next
    ensures mv.found ==> i + 40 <= mv.next <= |s|
  {
    if MarkerAt(s, i, m) then
      var q := SkipSpaces(s, i + 4);
      if q + 36 <= |s| && IsValidUuid(s[q..q + 36]) then Move(q + 36, true) else Move(q + 1, false)
    else Move(i + 1, false)
  }

  /** A step that accepts has found a valid ID right after a marker and its
      spaces. */
  lemma StepSound(s: string, i: nat, m: Markers)
    requires i < |s| && Step(s, i, m).found
    ensures UuidAt(s, Step(s, i, m).next - 36, m)
  {
    var q := SkipSpaces(s, i + 4);
    SkipSpacesSpaces(s, i + 4);
    BackOverSpacesUnique(s, i + 4, q);
  }

  /** The scan as a reference: the IDs it accepts from cursor `i` on. */
  function Scan(s: string, i: nat, m: Markers): seq<string>
    decreases |s| + 1 - i
  {
    if i >= |s| then []
    else
      var mv := Step(s, i, m);
      if mv.found then [s[mv.next - 36..mv.next]] + Scan(s, mv.next, m) else Scan(s, mv.next, m)
  }

  /** The reference unfolded once at a cursor inside the text. */
  lemma ScanUnfold(s: string, i: nat, m: Markers)
    requires i < |s|
    ensures Step(s, i, m).found ==>
      Scan(s, i, m) == [s[Step(s, i, m).next - 36..Step(s, i, m).next]] + Scan(s, Step(s, i, m).next, m)
    ensures !Step(s, i, m).found ==> Scan(s, i, m) == Scan(s, Step(s, i, m).next, m)
  {
  }

  /** extractUUIDs as a value: the IDs the scan accepts from the start. */
  function ExtractedUuids(s: string, m: Markers): seq<string>
  {
    Scan(s, 0, m)
  }

  /** Every ID the scan returns is 36 bytes long and passes isValidUUID. */
  lemma {:induction false} ScanValid(s: string, i: nat, m: Markers)
    ensures forall k :: 0 <= k < |Scan(s, i, m)| ==>
      |Scan(s, i, m)[k]| == 36 && IsValidUuid(Scan(s, i, m)[k])
    decreases |s| + 1 - i
  {
    if i < |s| {
      var mv := Step(s, i, m);
      ScanValid(s, mv.next, m);
      if mv.found {
        StepSound(s, i, m);
      }
    }
  }

  /** Between the cursor and the next marker the reference makes no progress
      other than moving the cursor: skipping straight to the marker is sound. */
  lemma {:induction false} SkipToMarker(s: string, i: nat, k: nat, m: Markers)
    requires i <= k <= |s|
    requires forall j :: i <= j < k ==> !MarkerAt(s, j, m)
    ensures Scan(s, i, m) == Scan(s, k, m)
    decreases k - i
  {
    if i < k {
      SkipToMarker(s, i + 1, k, m);
    }
  }

  /** With no marker from `i` on, the reference finds nothing more. */
  lemma {:induction false} NoMarkerNoScan(s: string, i: nat, m: Markers)
    requires forall j :: i <= j ==> !MarkerAt(s, j, m)
    ensures Scan(s, i, m) == []
    decreases |s| + 1 - i
  {
    if i < |s| {
      NoMarkerNoScan(s, i + 1, m);
    }
  }

  /** At a marker whose spaces end at `q`, the reference accepts the valid
      ID there and resumes after it. */
  lemma AcceptAtMarker(s: string, i: nat, q: nat, m: Markers)
    requires i < |s| && MarkerAt(s, i, m) && q == SkipSpaces(s, i + 4)
    requires q + 36 <= |s| && IsValidUuid(s[q..q + 36])
    ensures Scan(s, i, m) == [s[q..q + 36]] + Scan(s, q + 36, m)
  {
    assert Step(s, i, m) == Move(q + 36, true);
    ScanUnfold(s, i, m);
  }

  /** At a marker whose spaces end at `q`, bytes that do not form a valid ID
      are skipped one past the spaces. */
  lemma RejectAtMarker(s: string, i: nat, q: nat, m: Markers)
    requires i < |s| && MarkerAt(s, i, m) && q == SkipSpaces(s, i + 4)
    requires !(q + 36 <= |s| && IsValidUuid(s[q..q + 36]))
    ensures Scan(s, i, m) == Scan(s, q + 1, m)
  {
    assert Step(s, i, m) == Move(q + 1, false);
    ScanUnfold(s, i, m);
  }

  /** The space-skipping loop of extractUUIDs. */
  method SkipSpaceRun(s: string, j: nat) returns (r: nat)
    requires j <= |s|
    ensures r == SkipSpaces(s, j)
  {
    r := j;
    while r < |s| && s[r] == ' '
      invariant j <= r <= |s|
      invariant forall k :: j <= k < r ==> s[k] == ' '
    {
      r := r + 1;
    }
    SkipSpacesUnique(s, j, r);
  }

  /** The reference at a marker `k` whose spaces end at `q`: the ID there
      when it is valid, then the scan from past it; otherwise the scan from
      one past the spaces. */
  lemma TurnAtMarker(s: string, k: nat, q: nat, m: Markers, found: seq<string>, next: nat)
    requires k < |s| && MarkerAt(s, k, m) && q == SkipSpaces(s, k + 4)
    requires q + 36 <= |s| && IsValidUuid(s[q..q + 36]) ==> found == [s[q..q + 36]] && next == q + 36
    requires !(q + 36 <= |s| && IsValidUuid(s[q..q + 36])) ==> found == [] && next == q + 1
    ensures Scan(s, k, m) == found + Scan(s, next, m)
  {
    if q + 36 <= |s| && IsValidUuid(s[q..q + 36]) {
      AcceptAtMarker(s, k, q, m);
    } else {
      RejectAtMarker(s, k, q, m);
      assert found + Scan(s, next, m) == Scan(s, next, m);
    }
  }

  /** The rest of a turn once the marker search found `k`: skip the spaces
      and take the 36 bytes there when they form a valid ID. */
  method TakeAfterMarker(s: string, i: nat, k: nat, m: Markers) returns (found: seq<string>, next: nat)
    requires i <= k < |s| && MarkerAt(s, k, m)
    requires forall j :: i <= j < k ==> !MarkerAt(s, j, m)
    ensures i < next
    ensures Scan(s, i, m) == found + Scan(s, next, m)
    ensures |found| <= 1
  {
    var q := SkipSpaceRun(s, k + 4);
    if q + 36 <= |s| && IsValidUuid(s[q..q + 36]) {
      found, next := [s[q..q + 36]], q + 36;
    } else {
      found, next := [], q + 1;
    }
    TurnAtMarker(s, k, q, m, found, next);
    SkipToMarker(s, i, k, m);
  }

  /** One turn of the extractUUIDs loop from cursor `i`: the ID it appends,
      if any, and where the cursor goes next (the end of the text when no
      marker is left, where the Go loop breaks). */
  method ScanTurn(s: string, i: nat, m: Markers) returns (found: seq<string>, next: nat)
    requires i < |s|
    ensures i < next
    ensures Scan(s, i, m) == found + Scan(s, next, m)
    ensures |found| <= 1
  {
    var idx := NextMarker(s, i, m);
    if idx == -1 {
      NoMarkerNoScan(s, i, m);
      found, next := [], |s|;
    } else {
      found, next := TakeAfterMarker(s, i, idx, m);
    }
  }

  /** extractUUIDs, as the loop in generator/utils.go and generator/generator.go
      runs it: find the next marker, skip spaces, take 36 bytes if valid. */
  method ExtractUuids(s: string, m: Markers) returns (uuids: seq<string>)
    ensures uuids == ExtractedUuids(s, m)
    ensures forall k :: 0 <= k < |uuids| ==> |uuids[k]| == 36 && IsValidUuid(uuids[k])
  {
    uuids := [];
    var i := 0;
    while i < |s|
      invariant uuids + Scan(s, i, m) == Scan(s, 0, m)
      decreases |s| - i
    {
      var found, next := ScanTurn(s, i, m);
      assert (uuids + found) + Scan(s, next, m) == uuids + (found + Scan(s, next, m));
      uuids := uuids + found;
      i := next;
    }
    ScanValid(s, 0, m);
  }

  /** Text with no marker yields no IDs; in particular `:Id:` or other mixed
      case spellings are never markers. */
  lemma NoMarkerNoUuids(s: string, m: Markers)
    requires forall j :: !MarkerAt(s, j, m)
    ensures ExtractedUuids(s, m) == []
  {
    NoMarkerNoScan(s, 0, m);
  }

  /** The upper-case-only scanner of generator.go and main.go and the
      two-marker scanner of utils.go agree on text without a `:id:` marker. */
  lemma {:induction false} VariantsAgreeWithoutLowerMarker(s: string, i: nat)
    requires forall j :: !OccursAt(s, ":id:", j)
    ensures Scan(s, i, UpperOnly) == Scan(s, i, UpperOrLower)
    decreases |s| + 1 - i
  {
    if i < |s| {
      MarkerAtOccurs(s, i, UpperOnly);
      MarkerAtOccurs(s, i, UpperOrLower);
      assert Step(s, i, UpperOnly) == Step(s, i, UpperOrLower);
      VariantsAgreeWithoutLowerMarker(s, Step(s, i, UpperOnly).next);
    }
  }

  // Prefix independence: the scan only ever looks forward.

  lemma MarkerAtConcat(x: string, y: string, j: nat, m: Markers)
    ensures MarkerAt(x + y, |x| + j, m) <==> MarkerAt(y, j, m)
  {
    var s := x + y;
    if j + 4 <= |y| {
      assert s[|x| + j] == y[j] && s[|x| + j + 1] == y[j + 1];
      assert s[|x| + j + 2] == y[j + 2] && s[|x| + j + 3] == y[j + 3];
    }
  }

  lemma {:induction false} SkipSpacesConcat(x: string, y: string, j: nat)
    requires j <= |y|
    ensures SkipSpaces(x + y, |x| + j) == |x| + SkipSpaces(y, j)
  {
    var r := SkipSpaces(y, j);
    SkipSpacesSpaces(y, j);
    var s := x + y;
    forall k | |x| + j <= k < |x| + r ensures s[k] == ' ' {
      assert s[k] == y[k - |x|];
    }
    if |x| + r < |s| {
      assert s[|x| + r] == y[r];
    }
    SkipSpacesUnique(s, |x| + j, |x| + r);
  }

  lemma SliceOfConcat(x: string, y: string, a: nat, b: nat)
    requires a <= b <= |y|
    ensures (x + y)[|x| + a..|x| + b] == y[a..b]
  {
  }

  /** A step from offset `|x| + j` of `x + y` is the step from `j` of `y`,
      moved by `|x|`. */
  lemma StepConcat(x: string, y: string, i: nat, j: nat, m: Markers)
    requires i == |x| + j && j < |y|
    ensures Step(x + y, i, m) == Move(|x| + Step(y, j, m).next, Step(y, j, m).found)
  {
    MarkerAtConcat(x, y, j, m);
    if MarkerAt(y, j, m) {
      var q := SkipSpaces(y, j + 4);
      SkipSpacesConcat(x, y, j + 4);
      if q + 36 <= |y| {
        SliceOfConcat(x, y, q, q + 36);
      }
    }
  }

  /** The IDs found from offset `|x| + j` of `x + y` are those found from `j`
      of `y` alone. */
  lemma {:induction false} ScanConcat(x: string, y: string, i: nat, j: nat, m: Markers)
    requires i == |x| + j
    ensures Scan(x + y, i, m) == Scan(y, j, m)
    decreases |y| + 1 - j
  {
    if j < |y| {
      var sy := Step(y, j, m);
      StepConcat(x, y, i, j, m);
      ScanConcat(x, y, |x| + sy.next, sy.next, m);
      ScanUnfold(x + y, i, m);
      ScanUnfold(y, j, m);
      if sy.found {
        SliceOfConcat(x, y, sy.next - 36, sy.next);
      }
    }
  }

  /** A marker, any run of ' ', and a valid ID at the front of the text give
      that ID first, and the scan then carries on with the rest of the text as
      if it stood alone: results keep the textual order of their markers. */
  lemma MarkedUuidFirst(mk: string, sp: string, u: string, rest: string, m: Markers)
    requires |mk| == 4 && MarkerAt(mk, 0, m)
    requires forall k :: 0 <= k < |sp| ==> sp[k] == ' '
    requires IsValidUuid(u)
    ensures ExtractedUuids(mk + sp + u + rest, m) == [u] + ExtractedUuids(rest, m)
  {
    var head := mk + sp + u;
    var s := head + rest;
    assert s[..4] == mk;
    assert MarkerAt(s, 0, m);
    assert s[4 + |sp|] == u[0];
    SkipSpacesUnique(s, 4, 4 + |sp|);
    assert s[4 + |sp|..4 + |sp| + 36] == u;
    AcceptAtMarker(s, 0, 4 + |sp|, m);
    ScanConcat(head, rest, |head|, 0, m);
  }

  /** A `:id:` marker counts for utils.go's scanner and not for the
      upper-case-only one of generator.go and main.go. */
  lemma LowerMarkerOnlyInUtils(sp: string, u: string)
    requires forall k :: 0 <= k < |sp| ==> sp[k] == ' '
    requires IsValidUuid(u)
    ensures ExtractedUuids(":id:" + sp + u, UpperOrLower) == [u]
    ensures ExtractedUuids(":id:" + sp + u, UpperOnly) == []
  {
    var s := ":id:" + sp + u;
    MarkedUuidFirst(":id:", sp, u, [], UpperOrLower);
    assert s + [] == s;
    assert ExtractedUuids([], UpperOrLower) == [];
    assert forall j :: !MarkerAt(s, j, UpperOnly);
    NoMarkerNoUuids(s, UpperOnly);
  }
}
