/** The parsed documentation page as a tree, with the accessors the
    extractor uses and the exceptions Python raises when one of them is
    asked of the wrong kind of node. */
module Markup {
  import opened Results

  /** A node of the parsed page: a string between tags, or a tag with its
      name, its class list (empty when the tag has no `class` attribute),
      its `id` attribute and its children in document order. */
  datatype Node =
    | Str(value: string)
    | Tag(name: string, classes: seq<string>, id: Option<string>, children: seq<Node>)

  /** `.text`: the concatenation of every string below the node, in
      document order. */
  function TextOf(n: Node): string
    decreases n, 1
  {
    match n
    case Str(s) => s
    case Tag(_, _, _, cs) => TextOfAll(cs)
  }

  function TextOfAll(ns: seq<Node>): string
    decreases ns, 0
  {
    if |ns| == 0 then "" else TextOf(ns[0]) + TextOfAll(ns[1..])
  }

  /** `.name`: a string has none. */
  function NameOf(n: Node): Option<string>
  {
    match n
    case Str(_) => None
    case Tag(name, _, _, _) => Some(name)
  }

  predicate IsSpan(n: Node)
  {
    NameOf(n) == Some("span")
  }

  /** `.contents`: only a tag has children. */
  function ChildrenOf(n: Node): (r: Result<seq<Node>>)
    ensures r.Ok? <==> n.Tag?
    ensures r.Ok? ==> r.value == n.children
    ensures r.Fail? ==> r.error == AttributeError
  {
    match n
    case Str(_) => Fail(AttributeError)
    case Tag(_, _, _, cs) => Ok(cs)
  }

  /** `ns[k]` for a non-negative index. */
  function At(ns: seq<Node>, k: nat): (r: Result<Node>)
    ensures r.Ok? <==> k < |ns|
    ensures r.Ok? ==> r.value == ns[k]
    ensures r.Fail? ==> r.error == IndexError
  {
    if k < |ns| then Ok(ns[k]) else Fail(IndexError)
  }

  /** `.attrs['class'][0]`. */
  function FirstClass(n: Node): (r: Result<string>)
    ensures r.Ok? <==> n.Tag? && |n.classes| > 0
    ensures r.Ok? ==> r.value == n.classes[0]
  {
    match n
    case Str(_) => Fail(AttributeError)
    case Tag(_, classes, _, _) => if |classes| == 0 then Fail(KeyError) else Ok(classes[0])
  }

  /** `.attrs['id']`. */
  function IdOf(n: Node): (r: Result<string>)
    ensures r.Ok? <==> n.Tag? && n.id.Some?
    ensures r.Ok? ==> r.value == n.id.value
  {
    match n
    case Str(_) => Fail(AttributeError)
    case Tag(_, _, id, _) => if id.None? then Fail(KeyError) else Ok(id.value)
  }
}
