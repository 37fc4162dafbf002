/** The two shapes the AST writer works between: the docutils document tree
    it reads and the JSON-ready record it produces for each node. */
module DocTree {

  datatype Option<T> = None | Some(value: T)

  /** A scalar attribute value: the four Python types the writer copies
      (`str`, `int`, `float`, `bool`). Floats are carried verbatim and never
      computed with, so a `real` stands for one. */
  datatype Scalar = Str(s: string) | Int(i: int) | Float(f: real) | Bool(b: bool)

  /** A value found in a node's instance dictionary: a scalar, or anything
      else (a list, a dict, another object, `None`). */
  datatype AttrValue = ScalarValue(scalar: Scalar) | Compound

  /** An object handed to the walk. `NotANode` is anything that is not a
      docutils node. A `Node` carries its `line` attribute (`None` when the
      node has none), its instance dictionary `attrs`, the rendered text of a
      text node (`Some` exactly for the text variant; its value is what the
      node's `astext()` returns) and its ordered `children`, empty when the
      node has none. */
  datatype Node =
    | NotANode
    | Node(line: Option<int>, attrs: map<string, AttrValue>, text: Option<string>, children: seq<Node>)

  /** The dictionary the walk builds for one node, in structured form:
      - `fields`: every scalar-valued key of the dictionary other than the
        three the walk writes itself (`line`, `text`, `children`), so it
        holds `tagname` and the copied attributes;
      - `text`: the value of the `text` key when the walk set it;
      - `start`, `end`: the two entries of the `line` object;
      - `children`: whether the `children` key is present, and its list.
      The dictionary's keys are then `fields.Keys`, `line`, and `text` and
      `children` when present, with no key held twice. */
  datatype Record = Record(
    fields: map<string, Scalar>,
    text: Option<string>,
    start: int,
    end: int,
    children: Children)

  /** The `children` key of a record: absent, or present with its list. */
  datatype Children = Absent | Present(records: seq<Record>)

  /** No key of the JSON object is represented twice. */
  predicate KeysDistinct(r: Record)
  {
    && "line" !in r.fields
    && (r.text.Some? ==> "text" !in r.fields)
    && (r.children.Present? ==> "children" !in r.fields)
  }

  /** The retained children of a record, `[]` when the key is absent. */
  function Kids(r: Record): seq<Record>
  {
    if r.children.Present? then r.children.records else []
  }
}
