/** Concrete documents and the records the walk gives for them. */
module Scenarios {
  import opened DocTree
  import opened Translator

  function Tag(name: string): map<string, AttrValue>
  {
    map["tagname" := ScalarValue(Str(name))]
  }

  /** A document with no line of its own holding one text node "hello":
      both records cover line 1, and the text node is tagged "text". */
  lemma SingleTextChild()
    ensures Document(Node(None, Tag("document"), None, [Node(None, map[], Some("hello"), [])]))
      == Some(Record(map["tagname" := Str("document")], None, 1, 1,
           Present([Record(map["tagname" := Str("text")], Some("hello"), 1, 1, Absent)])))
  {
    var text := Node(None, map[], Some("hello"), []);
    var leaf := Record(map["tagname" := Str("text")], Some("hello"), 1, 1, Absent);
    var f := Fields(map[], true, false);
    assert forall k :: k in f <==> k == "tagname";
    assert f == map["tagname" := Str("text")];
    assert WalkChildren([], 1) == ([], 1);
    assert Walk(text, 1) == Some(leaf);
    var g := Fields(Tag("document"), false, true);
    assert forall k :: k in g <==> k == "tagname";
    assert g == map["tagname" := Str("document")];
    assert [text][1..] == [] && [leaf] + [] == [leaf];
    assert WalkChildren([text], 1) == ([leaf], 1);
  }

  /** A document on line 1 holding a paragraph on line 3 that holds a text
      node on line 3: the paragraph covers lines 3 to 3 and the document
      ends on line 3. */
  lemma NestedLines()
    ensures var r := Document(Node(Some(1), Tag("document"), None,
                               [Node(Some(3), Tag("paragraph"), None, [Node(Some(3), map[], Some("x"), [])])]));
      && r.Some? && r.value.start == 1 && r.value.end == 3
      && r.value.children.Present? && |r.value.children.records| == 1
      && r.value.children.records[0].start == 3 && r.value.children.records[0].end == 3
  {
  }

  /** A list-valued attribute is dropped, an integer one is kept. */
  lemma CompoundAttributeDropped()
    ensures var r := Document(Node(None, map["tagname" := ScalarValue(Str("document")),
                                             "names" := Compound, "level" := ScalarValue(Int(2))], None, []));
      && r.Some? && "level" in r.value.fields && r.value.fields["level"] == Int(2)
      && "names" !in r.value.fields
  {
  }

  /** Keys starting with two underscores are never copied, and a scalar
      `line` attribute gives way to the line object. */
  lemma ReservedAndLineDropped()
    ensures var r := Document(Node(Some(4), map["__module__" := ScalarValue(Str("docutils.nodes")),
                                                "line" := ScalarValue(Int(4)),
                                                "source" := ScalarValue(Str("a.rst"))], None, []));
      && r.Some? && r.value.fields == map["tagname" := Str("text"), "source" := Str("a.rst")]
      && r.value.start == 4 && r.value.end == 4
  {
  }

  /** A later sibling with no line of its own starts where the earlier
      sibling ended, not on the parent's line; a sibling with a smaller line
      of its own keeps it, and the parent still ends on the largest end. */
  lemma LaterSiblingStartsAtRunningLine()
    ensures var r := Document(Node(Some(1), Tag("section"), None,
                               [Node(Some(5), map[], None, []),
                                Node(None, map[], None, []),
                                Node(Some(2), map[], None, [])]));
      && r.Some? && r.value.children.Present? && |r.value.children.records| == 3
      && r.value.children.records[1].start == 5
      && r.value.children.records[2].start == 2
      && r.value.end == 5
  {
  }

  /** A node whose only child is not a node keeps an empty `children` list;
      a node with no children has no `children` key. */
  lemma SkippedChildrenLeaveEmptyList()
    ensures var r := Document(Node(Some(7), Tag("paragraph"), None, [NotANode]));
      r.Some? && r.value.children == Present([]) && r.value.end == 7
    ensures var r := Document(Node(Some(7), Tag("paragraph"), None, []));
      r.Some? && r.value.children == Absent && r.value.end == 7
  {
  }
}
