# rst2ast tree-to-record conversion, in Dafny

The rst2ast writer turns a parsed docutils document tree into JSON. This
project models the core of that conversion, `ASTTranslator.walk`
(`rst2ast/writer.py`). For each node, the walk builds a record that holds:
- the node's scalar attributes;
- a `tagname`, `"text"` when the node has none;
- the rendered text of a text node;
- a `line` object `{start, end}`;
- the records of its children.

It also carries a running line number down and across the tree.

Files:

- `doctree.dfy` (module `DocTree`): the input and output shapes.
  - `Node` is a docutils node or `NotANode`. A node has a `line`, its
    instance dictionary as a map of `AttrValue` (a `Scalar` or `Compound`),
    the text of the text variant, and its children.
  - `Record` is the dictionary the walk builds, in structured form:
    `fields` (`tagname` and the copied attributes), `text`, `start`, `end`,
    and `children` (`Absent` or `Present(list)`).
  - The keys that the walk writes itself (`line`, `text`, `children`) are
    kept out of `fields`, so no key of the dictionary is stored twice
    (`KeysDistinct`). The converse does not hold: a text node's `text` and a
    scalar `text` attribute of a node that is not a text node give the same
    JSON key, but different `Record`s (`text` set, or `"text"` in `fields`).
- `translator.dfy` (module `Translator`):
  - the specification `Walk` / `WalkChildren`;
  - the step-by-step methods `WalkNode` (the walk), `CopyScalarAttrs` (the
    attribute loop) and `WalkChildNodes` (the children loop with its running
    maximum), each proved equal to the specification;
  - the lemmas about the records the walk produces.
- `scenarios.dfy` (module `Scenarios`): concrete documents and their records.

Two behaviours of the walk are easy to misread:

- **Line inheritance.** A child with no line of its own does not inherit its
  parent's start. It inherits the running line at its position: the larger
  of the parent's start and the largest end among the earlier retained
  siblings (writer.py:69, 73-74). `ChildStart` states this, and
  `Scenarios.LaterSiblingStartsAtRunningLine` shows a sibling that starts on
  line 5 while its parent starts on line 1.
- **The `children` key.** The key is present whenever the node has at least
  one child, even if every child is skipped. In that case it holds an empty
  list (writer.py:66-67). It is absent only when the node has no children.
  `NodeRecord` and `Scenarios.SkippedChildrenLeaveEmptyList` state this.

Two modelling choices:
- `line` is an `Option<int>`. Both `None` and `Some(0)` count as unset, as
  Python's `if node.line:` treats them.
- Strings are treated as Python 3 `str`.

## Model

| member | source | states |
|---|---|---|
| `Translator.Fields` | rst2ast/writer.py:48-67 | a key is in the record's scalar fields exactly when it is `tagname` or a copied attribute (no `__` prefix, scalar value), and it is not `line`, not `text` on a text node, and not `children` on a node with children; `tagname` is always present, holding the copied attribute when there is one and `"text"` otherwise; every other field holds the attribute's value unchanged |
| `Translator.CopyScalarAttrs` | rst2ast/writer.py:48-53 | the attribute loop copies exactly the entries whose key does not start with `__` and whose value is a scalar, with their values unchanged |
| `Translator.Walk` | rst2ast/writer.py:40-77 | every record the walk produces has `start <= end` |
| `Translator.WalkChildren` | rst2ast/writer.py:68-74 | the running line after the children loop is never below the line it started from, and the loop keeps at most one record per child |
| `Translator.WalkNode` | rst2ast/writer.py:40-77 | the walk returns `(None, None)` for an object that is not a node; otherwise it returns the record `Walk` specifies and, as its second result, that record's `end` |
| `Translator.WalkChildNodes` | rst2ast/writer.py:68-74 | the loop over the children, which skips non-nodes and raises the running line to each retained child's end, gives the records and the final line that `WalkChildren` specifies |
| `Translator.Translate` | rst2ast/writer.py:37 | the document is walked from inherited line 1, and a document node gives a well-formed record |
| `Translator.MaxEndIsMaximum` | rst2ast/writer.py:73-76 | the running line is at least the start, at least every retained child's end, and equal to the start or to one of those ends: it is their maximum |
| `Translator.ChildrenInOrder` | rst2ast/writer.py:68-74 | the loop keeps one record per node child, in the original order, and skips non-nodes without changing the running line; the j-th record is the walk of the j-th node child from the running maximum of the parent's start and the ends of the records before it; the final line is the running maximum over all retained records |
| `Translator.NodeRecord` | rst2ast/writer.py:43-77 | a node's record starts on its own nonzero line or else the inherited one; it carries `text` exactly for a text node; it has a `children` list exactly when the node has children, with one entry per node child; it holds the filtered fields; its `children` list, when present, is the records of the children loop; it ends on the maximum of its start and its children's ends; its keys are distinct |
| `Translator.ChildStart` | rst2ast/writer.py:69-74 | the j-th retained child starts on its own nonzero line when it has one, even a smaller one, and otherwise on the parent's running line at that position |
| `Translator.WalkWellFormed` | rst2ast/writer.py:61-76 | at every depth of the produced tree, `start <= end`, every retained child ends no later than its parent, `tagname` is present and no key appears twice |
| `Translator.WalkChildrenWellFormed` | rst2ast/writer.py:68-76 | every record the children loop keeps is well formed and ends no later than the loop's final line |
| `Translator.DocumentStart` | rst2ast/writer.py:40-46 | the root record starts on the root's own nonzero line, else on line 1, and is well formed |
| `Scenarios.SingleTextChild` | rst2ast/writer.py:40-77 | a document with no line that holds the text node "hello" gives `{tagname: document, line: {1,1}, children: [{tagname: text, text: hello, line: {1,1}}]}` |
| `Scenarios.NestedLines` | rst2ast/writer.py:45-46 | document on line 1, paragraph on line 3, text on line 3: the paragraph covers 3..3 and the document ends on 3 |
| `Scenarios.CompoundAttributeDropped` | rst2ast/writer.py:48-51 | a list-valued attribute is dropped and an integer attribute is kept |
| `Scenarios.ReservedAndLineDropped` | rst2ast/writer.py:48-63 | a `__`-prefixed key is dropped, a scalar `line` attribute gives way to the line object, and `tagname` defaults to `"text"` |
| `Scenarios.LaterSiblingStartsAtRunningLine` | rst2ast/writer.py:69-74 | a sibling with no line starts where an earlier sibling ended, not on the parent's line; a sibling with a smaller line of its own keeps it; the parent ends on the largest end |
| `Scenarios.SkippedChildrenLeaveEmptyList` | rst2ast/writer.py:65-67 | a node whose only child is not a node keeps an empty `children` list; a node with no children has no `children` key |

## Left out

- `ASTWriter` (writer.py:13-31), the output list and `''.join`: wiring into the docutils writer framework, with no logic of its own.
- Serialisation with `json.dumps` / `simplejson` (writer.py:5-8, 38): a foreign library. The model stops at the record.
- The visitor no-ops `default_visit`, `default_departure`, `unknown_visit`, `unknown_departure` (writer.py:80-93): they do nothing.
- `node.astext()` (writer.py:59) is docutils code and is not part of this model. The text of a text node is an opaque field of `Node`.
- Reflection over `node.__dict__`: the instance dictionary is an explicit map of keys to values, and `line`, `children` and the text variant are separate fields of `Node`. The `NameError` guard (writer.py:52-53) cannot fire on such a map, so it is not modelled.
- `DocTree.Node` does not tie its `attrs` map to its separate `line` and `children` fields, although Python reads both from the same `node.__dict__` (writer.py:45, 65). On trees that docutils builds this changes no result. On a node docutils cannot build, it does: with `attrs["children"] := ScalarValue(Str("x"))` and no children, the model keeps `fields["children"]`, while Python would see a `children` attribute of length 1 and write an empty `children` list.
- Float attribute values are carried as opaque `real`s. No arithmetic is done on them.
- The order of keys in the JSON object is not modelled. The record's `fields` is a map.
- Determinism needs no lemma: `Walk` is a function, so equal trees give equal records.
