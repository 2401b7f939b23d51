/** What the cJSON parser computes, on the bytes from the current offset to the terminating NUL. */
module JsonText {
  import opened Bytes
  import opened Json
  import JsonString
  import JsonNumber

  const NESTING_LIMIT: nat := 1000

  const NULL_TEXT: seq<byte> := [110, 117, 108, 108]
  const TRUE_TEXT: seq<byte> := [116, 114, 117, 101]
  const FALSE_TEXT: seq<byte> := [102, 97, 108, 115, 101]

  /** buffer_skip_whitespace: everything up to 32 counts, and it never moves past the last byte. */
  function SkipSpace(s: seq<byte>): (r: seq<byte>)
    requires Terminated(s)
    ensures Terminated(r) && |r| <= |s|
    ensures |r| > 1 ==> r[0] > 32
  {
    if |s| > 1 && s[0] <= 32 then SkipSpace(s[1..]) else s
  }

  lemma SkipAgain(s: seq<byte>)
    requires Terminated(s)
    ensures SkipSpace(SkipSpace(s)) == SkipSpace(s)
  {}

  function ParseValue(s: seq<byte>, depth: nat): (r: Parsed<Value>)
    requires Terminated(s)
    ensures r.Ok? ==> Terminated(r.rest) && |r.rest| < |s|
    decreases |s|, 1
  {
    if NULL_TEXT <= s then Ok(Null, s[4..])
    else if FALSE_TEXT <= s then Ok(Bool(false), s[5..])
    else if TRUE_TEXT <= s then Ok(Bool(true), s[4..])
    else if s[0] == QUOTE then AsString(JsonString.ParseString(s))
    else if s[0] == MINUS || JsonNumber.IsDigit(s[0]) then AsNumber(JsonNumber.ParseNumber(s))
    else if s[0] == LBRACKET then AsArray(ParseArray(s, depth))
    else if s[0] == LBRACE then AsObject(ParseObject(s, depth))
    else Fail
  }

  function AsString(r: Parsed<seq<byte>>): Parsed<Value> {
    if r.Ok? then Ok(String(r.value), r.rest) else Fail
  }

  function AsNumber(r: Parsed<real>): Parsed<Value> {
    if r.Ok? then Ok(Number(r.value), r.rest) else Fail
  }

  function AsArray(r: Parsed<Elems>): Parsed<Value> {
    if r.Ok? then Ok(Array(r.value), r.rest) else Fail
  }

  function AsObject(r: Parsed<Members>): Parsed<Value> {
    if r.Ok? then Ok(Object(r.value), r.rest) else Fail
  }

  /** The first byte decides which parser reads the value. */
  lemma ValueAt(s: seq<byte>, depth: nat)
    requires Terminated(s)
    ensures s[0] == QUOTE ==> ParseValue(s, depth) == AsString(JsonString.ParseString(s))
    ensures s[0] == MINUS || JsonNumber.IsDigit(s[0])
      ==> ParseValue(s, depth) == AsNumber(JsonNumber.ParseNumber(s))
    ensures s[0] == LBRACKET ==> ParseValue(s, depth) == AsArray(ParseArray(s, depth))
    ensures s[0] == LBRACE ==> ParseValue(s, depth) == AsObject(ParseObject(s, depth))
  {
    hide JsonString.ParseString, JsonNumber.ParseNumber, ParseArray, ParseObject;
  }

  function ParseArray(s: seq<byte>, depth: nat): (r: Parsed<Elems>)
    requires Terminated(s)
    ensures r.Ok? ==> Terminated(r.rest) && |r.rest| < |s|
    decreases |s|, 0
  {
    if depth >= NESTING_LIMIT || s[0] != LBRACKET then Fail
    else
      var first := SkipSpace(s[1..]);
      if first[0] == RBRACKET then Ok(Done, first[1..]) else ParseElems(first, depth + 1)
  }

  function ParseObject(s: seq<byte>, depth: nat): (r: Parsed<Members>)
    requires Terminated(s)
    ensures r.Ok? ==> Terminated(r.rest) && |r.rest| < |s|
    decreases |s|, 0
  {
    if depth >= NESTING_LIMIT || s[0] != LBRACE then Fail
    else
      var first := SkipSpace(s[1..]);
      if first[0] == RBRACE then Ok(End, first[1..]) else ParseMembers(first, depth + 1)
  }

  function ConsElem(t: Value, r: Parsed<Elems>): Parsed<Elems> {
    if r.Ok? then Ok(Elem(t, r.value), r.rest) else Fail
  }

  function ConsMember(k: seq<byte>, t: Value, r: Parsed<Members>): Parsed<Members> {
    if r.Ok? then Ok(Member(k, t, r.value), r.rest) else Fail
  }

  /** The comma separated elements up to and including the closing bracket. */
  function ParseElems(s: seq<byte>, depth: nat): (r: Parsed<Elems>)
    requires Terminated(s)
    ensures r.Ok? ==> Terminated(r.rest) && |r.rest| < |s|
    decreases |s|, 2
  {
    match ParseValue(s, depth)
    case Fail => Fail
    case Ok(t, rest) => ElemsAfter(t, rest, depth)
  }

  /** Behind element `t`: a comma and more elements, or the closing bracket. */
  function ElemsAfter(t: Value, s: seq<byte>, depth: nat): (r: Parsed<Elems>)
    requires Terminated(s)
    ensures r.Ok? ==> Terminated(r.rest) && |r.rest| < |s|
    decreases |s|, 3
  {
    var next := SkipSpace(s);
    if next[0] == COMMA then ConsElem(t, ParseElems(SkipSpace(next[1..]), depth))
    else if next[0] == RBRACKET then Ok(Elem(t, Done), next[1..])
    else Fail
  }

  /** The key at `s`, its colon, and the text where its value starts. */
  function ParseKey(s: seq<byte>): (r: Parsed<seq<byte>>)
    requires Terminated(s)
    ensures r.Ok? ==> Terminated(r.rest) && |r.rest| < |s|
  {
    match JsonString.ParseString(s)
    case Fail => Fail
    case Ok(k, rest) =>
      var colon := SkipSpace(rest);
      if colon[0] != COLON then Fail else Ok(k, SkipSpace(colon[1..]))
  }

  /** The comma separated members up to and including the closing brace. */
  function ParseMembers(s: seq<byte>, depth: nat): (r: Parsed<Members>)
    requires Terminated(s)
    ensures r.Ok? ==> Terminated(r.rest) && |r.rest| < |s|
    decreases |s|, 2
  {
    match ParseKey(s)
    case Fail => Fail
    case Ok(k, value) =>
      match ParseValue(value, depth)
      case Fail => Fail
      case Ok(t, rest) => MembersAfter(k, t, rest, depth)
  }

  /** Behind member `k`: `t`: a comma and more members, or the closing brace. */
  function MembersAfter(k: seq<byte>, t: Value, s: seq<byte>, depth: nat): (r: Parsed<Members>)
    requires Terminated(s)
    ensures r.Ok? ==> Terminated(r.rest) && |r.rest| < |s|
    decreases |s|, 3
  {
    var next := SkipSpace(s);
    if next[0] == COMMA then ConsMember(k, t, ParseMembers(SkipSpace(next[1..]), depth))
    else if next[0] == RBRACE then Ok(Member(k, t, End), next[1..])
    else Fail
  }

  lemma ElemsStep(s: seq<byte>, depth: nat)
    requires Terminated(s)
    ensures var v := ParseValue(s, depth);
      ParseElems(s, depth) == if v.Ok? then ElemsAfter(v.value, v.rest, depth) else Fail
  {}

  lemma MembersStep(s: seq<byte>, depth: nat)
    requires Terminated(s) && ParseKey(s).Ok?
    ensures var v := ParseValue(ParseKey(s).rest, depth);
      ParseMembers(s, depth) == if v.Ok? then MembersAfter(ParseKey(s).value, v.value, v.rest, depth) else Fail
  {}

  /** cJSON_ParseWithOpts on a NUL-terminated text. */
  function ParseText(s: seq<byte>, requireEnd: bool): (r: Parsed<Value>)
    requires Terminated(s)
    ensures r.Ok? ==> Terminated(r.rest) && |r.rest| <= |s|
  {
    match ParseValue(SkipSpace(s), 0)
    case Fail => Fail
    case Ok(t, rest) =>
      if !requireEnd then Ok(t, rest)
      else
        var end := SkipSpace(rest);
        if end[0] != 0 then Fail else Ok(t, end)
  }
}
