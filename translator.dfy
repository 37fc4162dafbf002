/** The tree-to-record conversion of the AST writer (`ASTTranslator.walk`):
    a pure specification (`Walk`, `WalkChildren`), the step-by-step method
    that builds the record the way the writer does (`WalkNode`), and the
    properties of the records it produces. */
module Translator {
  import opened DocTree

  // ---------------------------------------------------------------------
  // Attributes

  /** A key the writer never copies: one that starts with two underscores. */
  predicate Reserved(k: string)
  {
    |k| >= 2 && k[0] == '_' && k[1] == '_'
  }

  /** An instance-dictionary entry that the attribute loop copies. */
  predicate Copied(k: string, v: AttrValue)
  {
    !Reserved(k) && v.ScalarValue?
  }

  /** The dictionary right after the attribute loop. */
  function ScalarAttrs(attrs: map<string, AttrValue>): map<string, Scalar>
  {
    map k | k in attrs && Copied(k, attrs[k]) :: attrs[k].scalar
  }

  /** The scalar keys of the finished dictionary: the copied attributes,
      `tagname` defaulted to `"text"`, and the keys the walk then writes
      itself (`line` always, `text` for a text node, `children` for a node
      with children) no longer holding their attribute value. */
  function Fields(attrs: map<string, AttrValue>, isText: bool, hasChildren: bool): (f: map<string, Scalar>)
    ensures forall k :: k in f <==>
      && (k == "tagname" || (k in attrs && Copied(k, attrs[k])))
      && k != "line"
      && !(isText && k == "text")
      && !(hasChildren && k == "children")
    ensures "tagname" in f
    ensures f["tagname"] ==
      if "tagname" in attrs && Copied("tagname", attrs["tagname"]) then attrs["tagname"].scalar else Str("text")
    ensures forall k :: k in f && k != "tagname" ==> k in attrs && Copied(k, attrs[k]) && f[k] == attrs[k].scalar
  {
    var copied := ScalarAttrs(attrs);
    var tagged := if "tagname" in copied then copied else copied["tagname" := Str("text")];
    tagged - {"line"} - (if isText then {"text"} else {}) - (if hasChildren then {"children"} else {})
  }

  // ---------------------------------------------------------------------
  // Specification of the walk

  /** The line a node starts on: its own `line` when that is set and
      nonzero, the inherited line otherwise. */
  function StartLine(n: Node, inherited: int): int
    requires n.Node?
  {
    if n.line.Some? && n.line.value != 0 then n.line.value else inherited
  }

  /** The record the walk gives for `n` when it inherits line `line`;
      `None` for an object that is not a node. */
  function Walk(n: Node, line: int): (r: Option<Record>)
    decreases n
    ensures r.Some? ==> r.value.start <= r.value.end
  {
    match n
    case NotANode => None
    case Node(_, attrs, text, children) =>
      var start := StartLine(n, line);
      var kids := WalkChildren(children, start);
      Some(Record(Fields(attrs, text.Some?, |children| > 0), text, start, kids.1,
                  if |children| > 0 then Present(kids.0) else Absent))
  }

  /** The children loop: the records of the retained children, in order, and
      the running line afterwards. Each child inherits the running line, and
      a retained child raises it to its own end when that is larger. */
  function WalkChildren(cs: seq<Node>, line: int): (p: (seq<Record>, int))
    decreases cs
    ensures line <= p.1
    ensures |p.0| <= |cs|
  {
    if cs == [] then ([], line)
    else
      match Walk(cs[0], line)
      case None => WalkChildren(cs[1..], line)
      case Some(r) =>
        var rest := WalkChildren(cs[1..], if line < r.end then r.end else line);
        ([r] + rest.0, rest.1)
  }

  /** The root of a document inherits line 1. */
  function Document(root: Node): Option<Record>
  {
    Walk(root, 1)
  }

  // ---------------------------------------------------------------------
  // Independent descriptions of the walk's results

  /** The running maximum: `line` raised, one by one, to the end of each
      record of `rs`. */
  function MaxEnd(line: int, rs: seq<Record>): int
    decreases rs
  {
    if rs == [] then line else MaxEnd(if line < rs[0].end then rs[0].end else line, rs[1..])
  }

  /** The objects of `cs` that are nodes, in order. */
  function Retained(cs: seq<Node>): (ns: seq<Node>)
  {
    if cs == [] then []
    else (if cs[0].Node? then [cs[0]] else []) + Retained(cs[1..])
  }

  /** Every record of the tree has its keys distinct, a `tagname`, and a
      line range that is ordered and contains the ranges of its children. */
  predicate WellFormed(r: Record)
    decreases r
  {
    && KeysDistinct(r)
    && "tagname" in r.fields
    && r.start <= r.end
    && match r.children
       case Absent => true
       case Present(cs) => forall i :: 0 <= i < |cs| ==> cs[i].end <= r.end && WellFormed(cs[i])
  }

  // ---------------------------------------------------------------------
  // Lemmas

  /** The running maximum is the maximum of `line` and the ends of `rs`. */
  lemma {:induction false} MaxEndIsMaximum(line: int, rs: seq<Record>)
    decreases rs
    ensures line <= MaxEnd(line, rs)
    ensures forall j :: 0 <= j < |rs| ==> rs[j].end <= MaxEnd(line, rs)
    ensures MaxEnd(line, rs) == line || exists j :: 0 <= j < |rs| && rs[j].end == MaxEnd(line, rs)
  {
    if rs != [] {
      var next := if line < rs[0].end then rs[0].end else line;
      MaxEndIsMaximum(next, rs[1..]);
      forall j | 0 <= j < |rs| ensures rs[j].end <= MaxEnd(line, rs) {
        if j > 0 { assert rs[j] == rs[1..][j - 1]; }
      }
      if MaxEnd(line, rs) != line {
        if MaxEnd(next, rs[1..]) == next {
          assert rs[0].end == MaxEnd(line, rs);
        } else {
          var j :| 0 <= j < |rs[1..]| && rs[1..][j].end == MaxEnd(next, rs[1..]);
          assert rs[j + 1].end == MaxEnd(line, rs);
        }
      }
    }
  }

  /** The children loop keeps one record per node child, in order, and
      drops the others without touching the running line: the `j`-th record
      is the walk of the `j`-th node child from the running maximum of the
      parent's line and the ends of the records before it, and the line the
      loop ends on is the running maximum over all of them. */
  lemma {:induction false} ChildrenInOrder(cs: seq<Node>, line: int)
    decreases cs
    ensures |WalkChildren(cs, line).0| == |Retained(cs)|
    ensures WalkChildren(cs, line).1 == MaxEnd(line, WalkChildren(cs, line).0)
    ensures forall j :: 0 <= j < |Retained(cs)| ==>
      Walk(Retained(cs)[j], MaxEnd(line, WalkChildren(cs, line).0[..j])) == Some(WalkChildren(cs, line).0[j])
  {
    if cs != [] {
      match Walk(cs[0], line)
      case None =>
        assert Retained(cs) == Retained(cs[1..]);
        ChildrenInOrder(cs[1..], line);
      case Some(r) =>
        var next := if line < r.end then r.end else line;
        ChildrenInOrder(cs[1..], next);
        var rs := WalkChildren(cs, line).0;
        var tail := WalkChildren(cs[1..], next).0;
        assert rs == [r] + tail;
        assert Retained(cs) == [cs[0]] + Retained(cs[1..]);
        assert MaxEnd(line, rs) == MaxEnd(next, tail) by { assert rs[1..] == tail; }
        forall j | 0 <= j < |Retained(cs)|
          ensures Walk(Retained(cs)[j], MaxEnd(line, rs[..j])) == Some(rs[j])
        {
          if j > 0 {
            assert rs[..j][0] == r && rs[..j][1..] == tail[..j - 1];
            assert MaxEnd(line, rs[..j]) == MaxEnd(next, tail[..j - 1]);
          }
        }
    }
  }

  /** The record of a node: it starts on `StartLine`, carries the node's
      text exactly when the node is a text node, has a `children` list
      exactly when the node has at least one child (an empty list when every
      child was skipped), holds the filtered attributes, and ends on the
      running maximum of its start and its children's ends, which is their
      maximum. */
  lemma NodeRecord(n: Node, line: int)
    requires n.Node?
    ensures Walk(n, line).Some?
    ensures Walk(n, line).value.start == StartLine(n, line)
    ensures Walk(n, line).value.text == n.text
    ensures Walk(n, line).value.children.Present? <==> |n.children| > 0
    ensures Walk(n, line).value.children.Present? ==> |Walk(n, line).value.children.records| == |Retained(n.children)|
    ensures Walk(n, line).value.children.Present? ==>
      Walk(n, line).value.children.records == WalkChildren(n.children, StartLine(n, line)).0
    ensures Walk(n, line).value.fields == Fields(n.attrs, n.text.Some?, |n.children| > 0)
    ensures Walk(n, line).value.end == MaxEnd(StartLine(n, line), Kids(Walk(n, line).value))
    ensures KeysDistinct(Walk(n, line).value)
  {
    var start := StartLine(n, line);
    ChildrenInOrder(n.children, start);
    if |n.children| == 0 {
      assert WalkChildren(n.children, start) == ([], start);
    }
  }

  /** A retained child that has no line of its own starts on the parent's
      running line at its position: the parent's start or the largest end of
      the earlier retained siblings, whichever is larger; one with a line of
      its own starts there, even when that is smaller. */
  lemma ChildStart(n: Node, line: int, j: nat)
    requires n.Node? && j < |Retained(n.children)|
    ensures Walk(n, line).value.children.Present?
    ensures |Walk(n, line).value.children.records| == |Retained(n.children)|
    ensures var r := Walk(n, line).value;
      && Retained(n.children)[j].Node?
      && r.children.records[j].start == StartLine(Retained(n.children)[j], MaxEnd(r.start, r.children.records[..j]))
  {
    var start := StartLine(n, line);
    ChildrenInOrder(n.children, start);
    RetainedAreNodes(n.children);
  }

  /** Every object `Retained` keeps is a node of the input. */
  lemma {:induction false} RetainedAreNodes(cs: seq<Node>)
    ensures forall x :: x in Retained(cs) ==> x.Node? && x in cs
  {
    if cs != [] {
      RetainedAreNodes(cs[1..]);
    }
  }

  /** Every record the walk produces, at any depth, is well formed: ordered
      line ranges nested in their parent's, a `tagname`, distinct keys. */
  lemma {:induction false} WalkWellFormed(n: Node, line: int)
    decreases n
    ensures Walk(n, line).Some? ==> WellFormed(Walk(n, line).value)
  {
    if n.Node? {
      var start := StartLine(n, line);
      WalkChildrenWellFormed(n.children, start);
      NodeRecord(n, line);
    }
  }

  /** The children loop keeps only well-formed records, each ending no later
      than the line the loop ends on. */
  lemma {:induction false} WalkChildrenWellFormed(cs: seq<Node>, line: int)
    decreases cs
    ensures forall i :: 0 <= i < |WalkChildren(cs, line).0| ==>
      WalkChildren(cs, line).0[i].end <= WalkChildren(cs, line).1 && WellFormed(WalkChildren(cs, line).0[i])
  {
    if cs != [] {
      WalkWellFormed(cs[0], line);
      match Walk(cs[0], line)
      case None =>
        WalkChildrenWellFormed(cs[1..], line);
      case Some(r) =>
        var next := if line < r.end then r.end else line;
        WalkChildrenWellFormed(cs[1..], next);
        var rs := WalkChildren(cs, line).0;
        assert rs == [r] + WalkChildren(cs[1..], next).0;
        forall i | 0 <= i < |rs|
          ensures rs[i].end <= WalkChildren(cs, line).1 && WellFormed(rs[i])
        {
          if i > 0 { assert rs[i] == WalkChildren(cs[1..], next).0[i - 1]; }
        }
    }
  }

  /** The root's record starts on its own line when set, else on line 1. */
  lemma DocumentStart(root: Node)
    requires root.Node?
    ensures Document(root).Some?
    ensures Document(root).value.start == if root.line.Some? && root.line.value != 0 then root.line.value else 1
    ensures WellFormed(Document(root).value)
  {
    WalkWellFormed(root, 1);
  }

  // ---------------------------------------------------------------------
  // The walk, step by step

  /** The attribute loop: copy every entry of the instance dictionary whose
      key is not reserved and whose value is a scalar. */
  method CopyScalarAttrs(attrs: map<string, AttrValue>) returns (result: map<string, Scalar>)
    ensures result == ScalarAttrs(attrs)
  {
    result := map[];
    var todo := attrs.Keys;
    while todo != {}
      invariant todo <= attrs.Keys
      invariant forall k :: k in result <==> k in attrs && k !in todo && Copied(k, attrs[k])
      invariant forall k :: k in result ==> result[k] == attrs[k].scalar
      decreases todo
    {
      var k :| k in todo;
      var v := attrs[k];
      if !Reserved(k) && v.ScalarValue? {
        result := result[k := v.scalar];
      }
      todo := todo - {k};
    }
  }

  /** The walk: the record of `n` and the line it ends on, or `None` twice
      for an object that is not a node. */
  method WalkNode(n: Node, line: int) returns (res: Option<Record>, endLine: Option<int>)
    decreases n, 1
    ensures res == Walk(n, line)
    ensures endLine == if res.Some? then Some(res.value.end) else None
  {
    if n.NotANode? {
      return None, None;
    }
    var cur := line;
    if n.line.Some? && n.line.value != 0 {
      cur := n.line.value;
    }
    var result := CopyScalarAttrs(n.attrs);
    if "tagname" !in result {
      result := result["tagname" := Str("text")];
    }
    var text: Option<string> := None;
    if n.text.Some? {
      result := result - {"text"};
      text := n.text;
    }
    var start := cur;
    result := result - {"line"};
    var children: Children := Absent;
    if |n.children| > 0 {
      result := result - {"children"};
      var records;
      records, cur := WalkChildNodes(n.children, start);
      children := Present(records);
    }
    assert result == Fields(n.attrs, n.text.Some?, |n.children| > 0) by {
      var f := Fields(n.attrs, n.text.Some?, |n.children| > 0);
      assert forall k :: k in result <==> k in f;
    }
    res := Some(Record(result, text, start, cur, children));
    endLine := Some(cur);
  }

  /** The children loop: walk each child from the running line, skip what
      is not a node, append the others' records and raise the running line
      to their end. */
  method WalkChildNodes(cs: seq<Node>, line: int) returns (records: seq<Record>, cur: int)
    decreases cs, 0
    ensures (records, cur) == WalkChildren(cs, line)
  {
    records, cur := [], line;
    var i := 0;
    assert cs[i..] == cs;
    while i < |cs|
      invariant 0 <= i <= |cs|
      invariant WalkChildren(cs, line).0 == records + WalkChildren(cs[i..], cur).0
      invariant WalkChildren(cs, line).1 == WalkChildren(cs[i..], cur).1
    {
      assert cs[i..][0] == cs[i] && cs[i..][1..] == cs[i + 1..];
      var r, childEnd := WalkNode(cs[i], cur);
      if r.Some? {
        records := records + [r.value];
        if cur < childEnd.value {
          cur := childEnd.value;
        }
      }
      i := i + 1;
    }
    assert cs[i..] == [] && records + [] == records;
  }

  /** The translator's entry point: walk the document from line 1. */
  method Translate(document: Node) returns (result: Option<Record>)
    ensures result == Document(document)
    ensures document.Node? ==> result.Some? && WellFormed(result.value)
  {
    var endLine;
    result, endLine := WalkNode(document, 1);
    WalkWellFormed(document, 1);
  }
}
