/** The generic value tree the client's validators work on.

    The XML decoder produces only `Null` (an empty element), `Str` (text),
    `List` (a repeated child) and `Dict` (an element with children); the
    validators write back the scalar kinds `Bool`, `Int` and `Float`, and a
    record that was parsed before carries its timestamp as `Time`. */
module Tree {

  datatype Node =
    | Null
    | Str(s: string)
    | Bool(b: bool)
    | Int(i: int)
    | Float(text: string)   // a float, kept as the text it was read from
    | Time(epoch: int)      // an already-parsed datetime, as UTC epoch seconds
    | List(items: seq<Node>)
    | Dict(fields: map<string, Node>)

  /** `isinstance(v, dict) and key in v` */
  predicate HasKey(v: Node, key: string) {
    v.Dict? && key in v.fields
  }

  /** Python's `m.get(key, default)` */
  function Get(m: map<string, Node>, key: string, default: Node): Node {
    if key in m then m[key] else default
  }

  /** How the XML decoder renders the children `xs` of one element, all named
      `key`: no child leaves the element empty (`Null`), one child is a plain
      entry under `key`, several are a list under `key`. */
  function XmlChildren(key: string, xs: seq<Node>): Node {
    if xs == [] then Null
    else if |xs| == 1 then Dict(map[key := xs[0]])
    else Dict(map[key := List(xs)])
  }
}
