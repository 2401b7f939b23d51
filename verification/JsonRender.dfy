/** The text cJSON prints for a tree, as one function of the tree, the format flag and the depth. */
module JsonRender {
  import opened Bytes
  import opened Json
  import opened JsonText
  import opened JsonNumber

  function LowHex(d: nat): byte
    requires d < 16
  {
    if d < 10 then 48 + d else 87 + d
  }

  /** How print_string_ptr writes one byte. */
  function EscapeByte(b: byte): (r: seq<byte>)
    ensures |r| > 0
  {
    if b > 31 && b != QUOTE && b != BACKSLASH then [b]
    else if b == QUOTE || b == BACKSLASH then [BACKSLASH, b]
    else if b == BACKSPACE then [BACKSLASH, LETTER_B]
    else if b == FORM_FEED then [BACKSLASH, LETTER_F]
    else if b == NEWLINE then [BACKSLASH, LETTER_N]
    else if b == RETURN then [BACKSLASH, LETTER_R]
    else if b == TAB then [BACKSLASH, LETTER_T]
    else [BACKSLASH, LETTER_U, ZERO, ZERO, LowHex(b / 16), LowHex(b % 16)]
  }

  function EscapeAll(s: seq<byte>): seq<byte> {
    if s == [] then [] else EscapeByte(s[0]) + EscapeAll(s[1..])
  }

  lemma {:induction false} EscapedNulFree(x: seq<byte>)
    requires NulFree(x)
    ensures NulFree(EscapeAll(x))
  {
    if x != [] {
      EscapedNulFree(x[1..]);
      NulFreeConcat(EscapeByte(x[0]), EscapeAll(x[1..]));
    }
  }

  function RenderString(s: seq<byte>): seq<byte> {
    [QUOTE] + EscapeAll(s) + [QUOTE]
  }

  function Tabs(k: nat): seq<byte> {
    seq(k, _ => TAB)
  }

  /** Text that only the formatted print has. */
  function When(format: bool, s: seq<byte>): seq<byte> {
    if format then s else []
  }

  function Render(t: Value, format: bool, depth: nat): seq<byte> {
    match t
    case Null => NULL_TEXT
    case Bool(b) => if b then TRUE_TEXT else FALSE_TEXT
    case Number(n) => Decimal(n.Floor)
    case String(s) => RenderString(s)
    case Array(es) => [LBRACKET] + RenderElems(es, format, depth + 1) + [RBRACKET]
    case Object(ms) =>
      [LBRACE] + When(format, [NEWLINE]) + RenderMembers(ms, format, depth + 1) + When(format, Tabs(depth)) + [RBRACE]
  }

  function ElemSeparator(format: bool, more: bool): seq<byte> {
    if more then [COMMA] + When(format, [SPACE]) else []
  }

  function RenderElems(es: Elems, format: bool, depth: nat): seq<byte> {
    match es
    case Done => []
    case Elem(t, rest) =>
      Render(t, format, depth) + ElemSeparator(format, rest.Elem?) + RenderElems(rest, format, depth)
  }

  /** Indentation, key and colon. */
  function RenderKey(k: seq<byte>, format: bool, depth: nat): seq<byte> {
    When(format, Tabs(depth)) + RenderString(k) + [COLON] + When(format, [TAB])
  }

  function MemberEnd(format: bool, more: bool): seq<byte> {
    (if more then [COMMA] else []) + When(format, [NEWLINE])
  }

  function RenderMembers(ms: Members, format: bool, depth: nat): seq<byte> {
    match ms
    case End => []
    case Member(k, t, rest) =>
      RenderKey(k, format, depth) + Render(t, format, depth) + MemberEnd(format, rest.Member?)
      + RenderMembers(rest, format, depth)
  }

  // ----- the same text in front of a given rest -----

  function Put(t: Value, format: bool, depth: nat, rest: seq<byte>): seq<byte>
    decreases t
  {
    match t
    case Array(es) => [LBRACKET] + PutElems(es, format, depth + 1, [RBRACKET] + rest)
    case Object(ms) =>
      [LBRACE] + (When(format, [NEWLINE])
                  + PutMembers(ms, format, depth + 1, When(format, Tabs(depth)) + ([RBRACE] + rest)))
    case _ => Render(t, format, depth) + rest
  }

  function PutElems(es: Elems, format: bool, depth: nat, rest: seq<byte>): seq<byte>
    decreases es
  {
    match es
    case Done => rest
    case Elem(t, more) =>
      Put(t, format, depth, ElemSeparator(format, more.Elem?) + PutElems(more, format, depth, rest))
  }

  function PutKey(k: seq<byte>, format: bool, depth: nat, rest: seq<byte>): seq<byte> {
    When(format, Tabs(depth)) + (RenderString(k) + ([COLON] + (When(format, [TAB]) + rest)))
  }

  function PutMembers(ms: Members, format: bool, depth: nat, rest: seq<byte>): seq<byte>
    decreases ms
  {
    match ms
    case End => rest
    case Member(k, t, more) =>
      PutKey(k, format, depth,
             Put(t, format, depth, MemberEnd(format, more.Member?) + PutMembers(more, format, depth, rest)))
  }

  lemma {:induction false} PutIsRender(t: Value, format: bool, depth: nat, rest: seq<byte>)
    ensures Put(t, format, depth, rest) == Render(t, format, depth) + rest
    decreases t
  {
    match t
    case Array(es) =>
      PutElemsIsRender(es, format, depth + 1, [RBRACKET] + rest);
      Assoc4([LBRACKET], RenderElems(es, format, depth + 1), [RBRACKET], rest);
    case Object(ms) =>
      var indent := When(format, Tabs(depth));
      PutMembersIsRender(ms, format, depth + 1, indent + ([RBRACE] + rest));
      Assoc6([LBRACE], When(format, [NEWLINE]), RenderMembers(ms, format, depth + 1), indent, [RBRACE], rest);
    case _ =>
  }

  lemma {:induction false} PutElemsIsRender(es: Elems, format: bool, depth: nat, rest: seq<byte>)
    ensures PutElems(es, format, depth, rest) == RenderElems(es, format, depth) + rest
    decreases es
  {
    match es
    case Done =>
    case Elem(t, more) =>
      var sep := ElemSeparator(format, more.Elem?);
      PutElemsIsRender(more, format, depth, rest);
      PutIsRender(t, format, depth, sep + PutElems(more, format, depth, rest));
      Assoc4(Render(t, format, depth), sep, RenderElems(more, format, depth), rest);
  }

  lemma PutKeyIsRender(k: seq<byte>, format: bool, depth: nat, rest: seq<byte>)
    ensures PutKey(k, format, depth, rest) == RenderKey(k, format, depth) + rest
  {
    Assoc4(When(format, Tabs(depth)), RenderString(k), [COLON], When(format, [TAB]) + rest);
    Assoc(When(format, Tabs(depth)) + RenderString(k) + [COLON], When(format, [TAB]), rest);
  }

  lemma {:induction false} PutMembersIsRender(ms: Members, format: bool, depth: nat, rest: seq<byte>)
    ensures PutMembers(ms, format, depth, rest) == RenderMembers(ms, format, depth) + rest
    decreases ms
  {
    match ms
    case End =>
    case Member(k, t, more) =>
      var end := MemberEnd(format, more.Member?);
      var tail := end + PutMembers(more, format, depth, rest);
      PutMembersIsRender(more, format, depth, rest);
      PutIsRender(t, format, depth, tail);
      PutKeyIsRender(k, format, depth, Put(t, format, depth, tail));
      Assoc4(RenderKey(k, format, depth), Render(t, format, depth), end, RenderMembers(more, format, depth) + rest);
      Assoc(RenderKey(k, format, depth) + Render(t, format, depth) + end, RenderMembers(more, format, depth), rest);
  }
}
