/** The abstract value of a cJSON tree: what `type`, `valuestring`, `valuedouble`, `string` and the
    chain of children amount to. Children keep their order and repeated names survive. */
module JsonTree {
  import opened CText

  datatype Kind = List | Object

  /** The `string` field of a child: null in a list, the key in an object. */
  datatype Name = NoName | Name(s: seq<byte>)

  datatype Json =
    | Null
    | False
    | True
    | Num(d: real)
    | Str(s: seq<byte>)
    | Nest(kind: Kind, members: seq<Member>)

  datatype Member = Member(name: Name, value: Json)

  const INT_MIN: int := -0x8000_0000
  const INT_MAX: int := 0x7FFF_FFFF

  /** Whether the cast of a `double` to `int` is defined, and then it truncates. */
  predicate FitsInt(d: real) { INT_MIN <= Trunc(d) <= INT_MAX }

  function Trunc(d: real): int { if d >= 0.0 then d.Floor else -(-d).Floor }

  /** The `valueint` of a parsed value. */
  function IntOf(j: Json): int {
    match j
    case Num(d) => Trunc(d)
    case True => 1
    case _ => 0
  }

  function Open(kind: Kind): byte { if kind == List then LBRACKET else LBRACE }
  function Close(kind: Kind): byte { if kind == List then RBRACKET else RBRACE }

  const NULL_TEXT: seq<byte> := [110, 117, 108, 108]
  const FALSE_TEXT: seq<byte> := [102, 97, 108, 115, 101]
  const TRUE_TEXT: seq<byte> := [116, 114, 117, 101]
}
