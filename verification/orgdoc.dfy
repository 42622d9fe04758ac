/** The parsed org document as the metadata extractors of
    generator/phase1.go see it, and those extractors. The parser itself is
    not modelled: a document is its in-buffer keywords and its top-level
    nodes, of which only headlines carry anything the extractors read. */
module OrgDoc {
  import opened Wrappers
  import opened Uuid

  /** One `(key, value)` pair of a property drawer. */
  datatype Property = Property(key: string, value: string)

  /** A top-level node: a headline with its rendered title text, its tags
      and its property drawer (absent when the headline has none), or any
      other node. */
  datatype Node =
    | Headline(title: string, tags: seq<string>, properties: Option<seq<Property>>)
    | OtherNode

  /** In-buffer settings (`#+KEY: value`) and the top-level nodes in order. */
  datatype Document = Document(keywords: map<string, string>, nodes: seq<Node>)

  /** Document.Get: the setting's value, or "" when it is not set. */
  function Get(doc: Document, key: string): string
  {
    if key in doc.keywords then doc.keywords[key] else ""
  }

  // ---------------------------------------------------------------------
  // Title
  // ---------------------------------------------------------------------

  /** A headline whose title text is non-empty. */
  predicate Titled(n: Node)
  {
    n.Headline? && n.title != ""
  }

  /** The index of the first titled headline, or |nodes| when there is none. */
  function FirstTitled(nodes: seq<Node>): (k: nat)
    ensures k <= |nodes|
    ensures k < |nodes| ==> Titled(nodes[k])
    ensures forall j :: 0 <= j < k ==> !Titled(nodes[j])
  {
    if nodes == [] then 0
    else if Titled(nodes[0]) then 0
    else 1 + FirstTitled(nodes[1..])
  }

  /** extractTitleFromAST: `#+TITLE`, then `#+title`, then the first
      non-empty headline title, else "". */
  function TitleFromAst(doc: Document): (t: string)
    ensures Get(doc, "TITLE") != "" ==> t == Get(doc, "TITLE")
    ensures Get(doc, "TITLE") == "" && Get(doc, "title") != "" ==> t == Get(doc, "title")
  {
    if Get(doc, "TITLE") != "" then Get(doc, "TITLE")
    else if Get(doc, "title") != "" then Get(doc, "title")
    else
      var k := FirstTitled(doc.nodes);
      if k < |doc.nodes| then doc.nodes[k].title else ""
  }

  /** Without either keyword, the title is that of any headline with a
      non-empty title that no earlier headline with a non-empty title
      precedes. */
  lemma TitleFromHeadline(doc: Document, i: nat)
    requires Get(doc, "TITLE") == "" && Get(doc, "title") == ""
    requires i < |doc.nodes| && Titled(doc.nodes[i])
    requires forall j :: 0 <= j < i ==> !Titled(doc.nodes[j])
    ensures TitleFromAst(doc) == doc.nodes[i].title
  {
  }

  /** The title is empty exactly when neither keyword is set and no
      headline has title text. */
  lemma TitleEmpty(doc: Document)
    ensures TitleFromAst(doc) == "" <==>
      Get(doc, "TITLE") == "" && Get(doc, "title") == "" &&
      forall j :: 0 <= j < |doc.nodes| ==> !Titled(doc.nodes[j])
  {
  }

  // ---------------------------------------------------------------------
  // Tags
  // ---------------------------------------------------------------------

  /** A headline with a non-empty tag list. */
  predicate Tagged(n: Node)
  {
    n.Headline? && |n.tags| > 0
  }

  /** The index of the first tagged headline, or |nodes|. */
  function FirstTagged(nodes: seq<Node>): (k: nat)
    ensures k <= |nodes|
    ensures k < |nodes| ==> Tagged(nodes[k])
    ensures forall j :: 0 <= j < k ==> !Tagged(nodes[j])
  {
    if nodes == [] then 0
    else if Tagged(nodes[0]) then 0
    else 1 + FirstTagged(nodes[1..])
  }

  /** extractTagsFromAST: the tags of the first headline that has any;
      the empty list (Go's nil) when none has. */
  function TagsFromAst(doc: Document): (tags: seq<string>)
    ensures tags == [] <==> forall j :: 0 <= j < |doc.nodes| ==> !Tagged(doc.nodes[j])
  {
    var k := FirstTagged(doc.nodes);
    if k < |doc.nodes| then doc.nodes[k].tags else []
  }

  /** The tags are those of any tagged headline that no earlier tagged
      headline precedes; later headlines do not contribute. */
  lemma TagsFromFirstTagged(doc: Document, i: nat)
    requires i < |doc.nodes| && Tagged(doc.nodes[i])
    requires forall j :: 0 <= j < i ==> !Tagged(doc.nodes[j])
    ensures TagsFromAst(doc) == doc.nodes[i].tags
  {
  }

  // ---------------------------------------------------------------------
  // IDs from property drawers
  // ---------------------------------------------------------------------

  /** A property the ID extractor accepts: key exactly "ID" (case matters),
      a non-empty value, and the value passes isValidUUID. */
  predicate IdProperty(p: Property)
  {
    p.key == "ID" && p.value != "" && IsValidUuid(p.value)
  }

  /** The accepted ID values of a drawer, in drawer order. */
  function PropIds(props: seq<Property>): (ids: seq<string>)
    ensures forall x :: x in ids ==> IsValidUuid(x)
  {
    if props == [] then []
    else
      var last := props[|props| - 1];
      var front := props[..|props| - 1];
      assert props == front + [last];
      PropIds(front) + (if IdProperty(last) then [last.value] else [])
  }

  /** Each accepted value comes from a property of the drawer with key "ID". */
  lemma {:induction false} PropIdsSource(props: seq<Property>, x: string)
    requires x in PropIds(props)
    ensures exists p :: p in props && IdProperty(p) && p.value == x
    decreases |props|
  {
    var last := props[|props| - 1];
    var front := props[..|props| - 1];
    if x in PropIds(front) {
      PropIdsSource(front, x);
      var p :| p in front && IdProperty(p) && p.value == x;
      assert p in props;
    } else {
      assert last in props;
    }
  }

  /** The accepted IDs of one node: only headlines with a drawer have any. */
  function NodeIds(n: Node): seq<string>
  {
    if n.Headline? && n.properties.Some? then PropIds(n.properties.value) else []
  }

  /** All accepted ID values, headline by headline, in document order. */
  function Candidates(nodes: seq<Node>): (ids: seq<string>)
    ensures forall x :: x in ids ==> IsValidUuid(x)
  {
    if nodes == [] then []
    else Candidates(nodes[..|nodes| - 1]) + NodeIds(nodes[|nodes| - 1])
  }

  /** No value occurs twice. */
  predicate Distinct(xs: seq<string>)
  {
    forall i, j :: 0 <= i < j < |xs| ==> xs[i] != xs[j]
  }

  /** The first occurrence of each value, in order of first occurrence. */
  function Dedup(xs: seq<string>): (r: seq<string>)
    ensures Distinct(r)
    ensures forall x :: x in r <==> x in xs
  {
    if xs == [] then []
    else
      var d := Dedup(xs[..|xs| - 1]);
      var x := xs[|xs| - 1];
      assert xs == xs[..|xs| - 1] + [x];
      if x in d then d else d + [x]
  }

  /** The offset of the first occurrence of `x` in `xs`. */
  function FirstIndexOf(xs: seq<string>, x: string): (k: nat)
    requires x in xs
    ensures k < |xs| && xs[k] == x && x !in xs[..k]
  {
    if xs[0] == x then 0
    else
      var k := 1 + FirstIndexOf(xs[1..], x);
      assert xs[..k] == [xs[0]] + xs[1..][..k - 1];
      k
  }

  /** An occurrence with none before it is the first occurrence. */
  lemma {:induction false} FirstIndexUnique(xs: seq<string>, y: string, k: nat)
    requires k < |xs| && xs[k] == y && y !in xs[..k]
    ensures FirstIndexOf(xs, y) == k
    decreases k
  {
    if k > 0 {
      assert xs[0] in xs[..k];
      assert xs[1..][..k - 1] == xs[..k][1..];
      FirstIndexUnique(xs[1..], y, k - 1);
    }
  }

  lemma FirstIndexOfAppend(xs: seq<string>, x: string, y: string)
    requires y in xs
    ensures FirstIndexOf(xs + [x], y) == FirstIndexOf(xs, y)
  {
    var k := FirstIndexOf(xs, y);
    assert (xs + [x])[..k] == xs[..k];
    FirstIndexUnique(xs + [x], y, k);
  }

  /** Dedup keeps first occurrences in the order they occur in `xs`. */
  lemma {:induction false} DedupOrder(xs: seq<string>)
    ensures forall i, j :: 0 <= i < j < |Dedup(xs)| ==>
      FirstIndexOf(xs, Dedup(xs)[i]) < FirstIndexOf(xs, Dedup(xs)[j])
    decreases |xs|
  {
    if xs != [] {
      var front := xs[..|xs| - 1];
      var x := xs[|xs| - 1];
      var d := Dedup(front);
      assert xs == front + [x];
      DedupOrder(front);
      forall y | y in d ensures FirstIndexOf(xs, y) == FirstIndexOf(front, y) {
        FirstIndexOfAppend(front, x, y);
      }
      if x !in d {
        assert x !in front;
        assert FirstIndexOf(xs, x) == |front| by {
          assert x !in xs[..|front|] by { assert xs[..|front|] == front; }
        }
      }
    }
  }

  /** extractUUIDsFromAST: the accepted IDs, first occurrences only. */
  function UuidsFromAst(doc: Document): (ids: seq<string>)
    ensures Distinct(ids)
    ensures forall k :: 0 <= k < |ids| ==> IsValidUuid(ids[k])
    ensures forall x :: x in ids <==> x in Candidates(doc.nodes)
  {
    Dedup(Candidates(doc.nodes))
  }

  /** An accepted ID drawn from headline `i`: a property there with key "ID"
      and this value. */
  lemma UuidsComeFromIdProperties(doc: Document, x: string)
    requires x in UuidsFromAst(doc)
    ensures exists i, p ::
      (0 <= i < |doc.nodes| && doc.nodes[i].Headline? &&
       doc.nodes[i].properties.Some? && p in doc.nodes[i].properties.value &&
       p.key == "ID" && p.value == x)
  {
    CandidateSource(doc.nodes, x);
  }

  lemma {:induction false} CandidateSource(nodes: seq<Node>, x: string)
    requires x in Candidates(nodes)
    ensures exists i, p ::
      (0 <= i < |nodes| && nodes[i].Headline? &&
       nodes[i].properties.Some? && p in nodes[i].properties.value &&
       p.key == "ID" && p.value == x)
    decreases |nodes|
  {
    var front := nodes[..|nodes| - 1];
    var last := nodes[|nodes| - 1];
    if x in Candidates(front) {
      CandidateSource(front, x);
      var i, p :| 0 <= i < |front| && front[i].Headline? &&
        front[i].properties.Some? && p in front[i].properties.value &&
        p.key == "ID" && p.value == x;
      assert nodes[i] == front[i];
    } else {
      assert x in NodeIds(last);
      PropIdsSource(last.properties.value, x);
      var p :| p in last.properties.value && IdProperty(p) && p.value == x;
      assert nodes[|nodes| - 1] == last;
    }
  }

  lemma PropIdsSnoc(props: seq<Property>, j: nat)
    requires j < |props|
    ensures PropIds(props[..j + 1]) ==
      PropIds(props[..j]) + (if IdProperty(props[j]) then [props[j].value] else [])
  {
    assert props[..j + 1][..j] == props[..j];
  }

  lemma CandidatesSnoc(nodes: seq<Node>, i: nat)
    requires i < |nodes|
    ensures Candidates(nodes[..i + 1]) == Candidates(nodes[..i]) + NodeIds(nodes[i])
  {
    assert nodes[..i + 1][..i] == nodes[..i];
  }

  lemma DedupSnoc(xs: seq<string>, x: string)
    ensures Dedup(xs + [x]) == if x in Dedup(xs) then Dedup(xs) else Dedup(xs) + [x]
  {
    assert (xs + [x])[..|xs|] == xs;
  }

  /** One property of a drawer: the deduplicated prefix grows by its value
      exactly when the value is accepted and new. */
  lemma DrawerStep(before: seq<string>, props: seq<Property>, j: nat)
    requires j < |props|
    ensures Dedup(before + PropIds(props[..j + 1])) ==
      if IdProperty(props[j]) && props[j].value !in Dedup(before + PropIds(props[..j]))
      then Dedup(before + PropIds(props[..j])) + [props[j].value]
      else Dedup(before + PropIds(props[..j]))
  {
    var xs := before + PropIds(props[..j]);
    PropIdsSnoc(props, j);
    if IdProperty(props[j]) {
      assert before + PropIds(props[..j + 1]) == xs + [props[j].value];
      DedupSnoc(xs, props[j].value);
    } else {
      assert before + PropIds(props[..j + 1]) == xs;
    }
  }

  /** The inner loop: the properties of one drawer, appending each accepted
      value not seen before. */
  method AddDrawerIds(before: seq<string>, props: seq<Property>, uuids0: seq<string>, seen0: set<string>)
    returns (uuids: seq<string>, seen: set<string>)
    requires uuids0 == Dedup(before)
    requires forall x :: x in seen0 <==> x in uuids0
    ensures uuids == Dedup(before + PropIds(props))
    ensures forall x :: x in seen <==> x in uuids
  {
    uuids, seen := uuids0, seen0;
    var j := 0;
    assert before + PropIds(props[..0]) == before;
    while j < |props|
      invariant 0 <= j <= |props|
      invariant uuids == Dedup(before + PropIds(props[..j]))
      invariant forall x :: x in seen <==> x in uuids
    {
      var prop := props[j];
      DrawerStep(before, props, j);
      if prop.key == "ID" && prop.value != "" && IsValidUuid(prop.value) && prop.value !in seen {
        uuids := uuids + [prop.value];
        seen := seen + {prop.value};
      }
      j := j + 1;
    }
    assert props[..j] == props;
  }

  /** The extractor loop of generator/phase1.go: walk headlines with a
      drawer, then their properties, appending each accepted value not
      seen before. */
  method ExtractUuidsFromAst(doc: Document) returns (uuids: seq<string>)
    ensures uuids == UuidsFromAst(doc)
  {
    uuids := [];
    var seen: set<string> := {};
    var i := 0;
    while i < |doc.nodes|
      invariant 0 <= i <= |doc.nodes|
      invariant uuids == Dedup(Candidates(doc.nodes[..i]))
      invariant forall x :: x in seen <==> x in uuids
    {
      var node := doc.nodes[i];
      CandidatesSnoc(doc.nodes, i);
      if node.Headline? && node.properties.Some? {
        uuids, seen := AddDrawerIds(Candidates(doc.nodes[..i]), node.properties.value, uuids, seen);
      } else {
        assert Candidates(doc.nodes[..i + 1]) == Candidates(doc.nodes[..i]);
      }
      i := i + 1;
    }
    assert doc.nodes[..i] == doc.nodes;
  }
}
