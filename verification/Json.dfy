/** JSON trees. The chains mirror the `child` / `next` links of cJSON items. */
module Json {
  import opened Bytes
  import JsonNumber

  datatype Value =
    | Null
    | Bool(b: bool)
    | Number(n: real)
    | String(s: seq<byte>)
    | Array(elems: Elems)
    | Object(members: Members)

  datatype Elems = Done | Elem(head: Value, tail: Elems)

  datatype Members = End | Member(key: seq<byte>, value: Value, rest: Members)

  function Max(a: nat, b: nat): nat {
    if a < b then b else a
  }

  /** How many containers are nested in the tree. */
  function Depth(t: Value): nat {
    match t
    case Array(es) => 1 + ElemsDepth(es)
    case Object(ms) => 1 + MembersDepth(ms)
    case _ => 0
  }

  function ElemsDepth(es: Elems): nat {
    match es
    case Done => 0
    case Elem(t, rest) => Max(Depth(t), ElemsDepth(rest))
  }

  function MembersDepth(ms: Members): nat {
    match ms
    case End => 0
    case Member(_, t, rest) => Max(Depth(t), MembersDepth(rest))
  }

  predicate PrintableNumber(n: real) {
    n == n.Floor as real && -JsonNumber.PRINT_LIMIT < n.Floor < JsonNumber.PRINT_LIMIT
  }

  /** Trees whose strings are C strings and whose numbers print as plain integers. */
  predicate Printable(t: Value) {
    match t
    case Null => true
    case Bool(_) => true
    case Number(n) => PrintableNumber(n)
    case String(s) => NulFree(s)
    case Array(es) => PrintableElems(es)
    case Object(ms) => PrintableMembers(ms)
  }

  predicate PrintableElems(es: Elems) {
    match es
    case Done => true
    case Elem(t, rest) => Printable(t) && PrintableElems(rest)
  }

  predicate PrintableMembers(ms: Members) {
    match ms
    case End => true
    case Member(k, t, rest) => NulFree(k) && Printable(t) && PrintableMembers(rest)
  }
}
