/** Parsing what was printed gives the tree back, exactly when the tree is within the nesting limit. */
module JsonRoundTrip {
  import opened Bytes
  import opened Json
  import opened JsonText
  import opened JsonRender
  import opened JsonNumber
  import JsonString
  import JsonEscapes

  // ----- strings -----

  /** The piece that EscapeByte writes. */
  function PieceOf(b: byte): (p: JsonEscapes.Piece)
    requires b != 0
    ensures JsonEscapes.InStep(p) && JsonEscapes.Loose(p) && !JsonEscapes.HighUnit(p) && !JsonEscapes.LowUnit(p)
    ensures JsonEscapes.Spell(p) == EscapeByte(b)
    ensures JsonEscapes.PieceMeaning(p) == [b]
  {
    var e := EscapeByte(b);
    if b > 31 && b != QUOTE && b != BACKSLASH then JsonEscapes.Raw(b)
    else if |e| == 2 then JsonEscapes.Short(e[1])
    else JsonEscapes.Unit(e[2..])
  }

  function PiecesOf(s: seq<byte>): (ps: seq<JsonEscapes.Piece>)
    requires NulFree(s)
    ensures JsonEscapes.AllInStep(ps) && JsonEscapes.AllLoose(ps) && JsonEscapes.Paired(ps)
    ensures JsonEscapes.SpellAll(ps) == EscapeAll(s)
    ensures JsonEscapes.Meaning(ps) == s
  {
    hide PieceOf, EscapeByte, JsonEscapes.Spell, JsonEscapes.PieceMeaning, JsonEscapes.HighUnit, JsonEscapes.LowUnit;
    hide JsonEscapes.InStep, JsonEscapes.Loose;
    if s == [] then []
    else
      var ps := [PieceOf(s[0])] + PiecesOf(s[1..]);
      assert ps[0] == PieceOf(s[0]) && ps[1..] == PiecesOf(s[1..]);
      assert s == [s[0]] + s[1..];
      ps
  }

  lemma StringRoundTrip(s: seq<byte>, rest: seq<byte>)
    requires NulFree(s) && Terminated(rest)
    ensures JsonString.ParseString(RenderString(s) + rest) == Ok(s, rest)
  {
    hide JsonString.ParseString, UpToNul, JsonEscapes.SpellAll, JsonEscapes.Meaning, EscapeAll, PiecesOf;
    hide JsonEscapes.AllInStep, JsonEscapes.AllLoose, JsonEscapes.Paired;
    JsonEscapes.LiteralExact(PiecesOf(s), rest);
    UpToNulIdentity(s);
  }

  // ----- white space -----

  predicate AllSpace(ws: seq<byte>) {
    forall i :: 0 <= i < |ws| ==> ws[i] <= 32
  }

  lemma {:induction false} SkipTo(ws: seq<byte>, s: seq<byte>)
    requires AllSpace(ws) && Terminated(s) && (s[0] > 32 || |s| == 1)
    ensures SkipSpace(ws + s) == s
  {
    if ws == [] {
      assert ws + s == s;
    } else {
      assert (ws + s)[1..] == ws[1..] + s;
      SkipTo(ws[1..], s);
    }
  }

  lemma {:induction false} SkipMore(ws: seq<byte>, s: seq<byte>)
    requires AllSpace(ws) && Terminated(s)
    ensures SkipSpace(ws + s) == SkipSpace(s)
  {
    if ws == [] {
      assert ws + s == s;
    } else {
      assert (ws + s)[1..] == ws[1..] + s;
      SkipMore(ws[1..], s);
    }
  }

  lemma SkipNone(s: seq<byte>)
    requires Terminated(s) && (s[0] > 32 || |s| == 1)
    ensures SkipSpace(s) == s
  {}

  lemma BlankSpace(format: bool, k: nat)
    ensures AllSpace(When(format, Tabs(k))) && AllSpace(When(format, [TAB]))
    ensures AllSpace(When(format, [NEWLINE])) && AllSpace(When(format, [SPACE]))
  {}

  /** What may stand behind a value: anything a number does not run into. */
  predicate Follows(rest: seq<byte>) {
    Terminated(rest) && !IsNumberChar(rest[0])
  }

  // ----- the shape of printed text -----

  lemma DecimalHead(n: int)
    ensures Decimal(n) != [] && (Decimal(n)[0] == MINUS || IsDigit(Decimal(n)[0]))
  {
    var d := Decimal(n);
    assert d[0] == MINUS || IsDigit(d[0]);
  }

  /** A printed value starts with a visible byte that closes nothing. */
  lemma PutHead(t: Value, format: bool, depth: nat, rest: seq<byte>)
    requires Terminated(rest)
    ensures var s := Put(t, format, depth, rest);
      Terminated(s) && s[0] > 32 && s[0] != RBRACKET && s[0] != RBRACE
    decreases t, 1
  {
    hide Decimal, PutElems, PutMembers, Tabs;
    match t
    case Number(n) => DecimalHead(n.Floor);
    case Array(es) => PutElemsEnd(es, format, depth + 1, [RBRACKET] + rest);
    case Object(ms) => PutMembersEnd(ms, format, depth + 1, When(format, Tabs(depth)) + ([RBRACE] + rest));
    case _ =>
  }

  lemma PutElemsEnd(es: Elems, format: bool, depth: nat, rest: seq<byte>)
    requires Terminated(rest)
    ensures Terminated(PutElems(es, format, depth, rest))
    decreases es, 1
  {
    if es.Elem? {
      PutElemsEnd(es.tail, format, depth, rest);
      PutHead(es.head, format, depth, ElemSeparator(format, es.tail.Elem?) + PutElems(es.tail, format, depth, rest));
    }
  }

  lemma PutKeyEnd(k: seq<byte>, format: bool, depth: nat, rest: seq<byte>)
    requires Terminated(rest)
    ensures Terminated(PutKey(k, format, depth, rest))
  {
    hide RenderString;
  }

  lemma PutMembersEnd(ms: Members, format: bool, depth: nat, rest: seq<byte>)
    requires Terminated(rest)
    ensures Terminated(PutMembers(ms, format, depth, rest))
    decreases ms, 1
  {
    hide PutMembers, PutKey, Put;
    if ms.End? {
      PutNoMembers(format, depth, rest);
    } else {
      PutMembersStep(ms, format, depth, rest);
      PutMembersEnd(ms.rest, format, depth, rest);
      var tail := MemberEnd(format, ms.rest.Member?) + PutMembers(ms.rest, format, depth, rest);
      PutHead(ms.value, format, depth, tail);
      var value := Put(ms.value, format, depth, tail);
      PutKeyEnd(ms.key, format, depth, value);
    }
  }

  // ----- values -----

  /** The round trip of one value in its context. */
  predicate Back(t: Value, format: bool, k: nat, depth: nat, rest: seq<byte>)
    requires Terminated(Put(t, format, k, rest))
  {
    ParseValue(Put(t, format, k, rest), depth) == if depth + Depth(t) <= NESTING_LIMIT then Ok(t, rest) else Fail
  }

  lemma ConstantBack(t: Value, format: bool, k: nat, depth: nat, rest: seq<byte>)
    requires (t.Null? || t.Bool?) && Terminated(rest) && depth <= NESTING_LIMIT
    ensures Terminated(Put(t, format, k, rest)) && Back(t, format, k, depth, rest)
  {
    var s := Render(t, format, k) + rest;
    assert s[|Render(t, format, k)|..] == rest;
    assert s[0] == Render(t, format, k)[0];
    assert Render(t, format, k) <= s;
  }

  lemma StringBack(x: seq<byte>, format: bool, k: nat, depth: nat, rest: seq<byte>)
    requires NulFree(x) && Terminated(rest) && depth <= NESTING_LIMIT
    ensures Terminated(Put(String(x), format, k, rest)) && Back(String(x), format, k, depth, rest)
  {
    StringRoundTrip(x, rest);
    assert RenderString(x)[0] == QUOTE;
    hide RenderString, JsonString.ParseString, ParseValue;
    ValueAt(RenderString(x) + rest, depth);
  }

  lemma NumberBack(n: real, format: bool, k: nat, depth: nat, rest: seq<byte>)
    requires PrintableNumber(n) && Follows(rest) && depth <= NESTING_LIMIT
    ensures Terminated(Put(Number(n), format, k, rest)) && Back(Number(n), format, k, depth, rest)
  {
    var d := Decimal(n.Floor);
    assert d[0] == MINUS || IsDigit(d[0]);
    ParsePrinted(n.Floor, rest);
    hide Decimal, ParseNumber, ParseValue;
    ValueAt(d + rest, depth);
  }

  lemma {:induction false} ValueBack(t: Value, format: bool, k: nat, depth: nat, rest: seq<byte>)
    requires Printable(t) && Follows(rest) && depth <= NESTING_LIMIT
    ensures Terminated(Put(t, format, k, rest)) && Back(t, format, k, depth, rest)
    decreases t, 1
  {
    match t
    case Array(es) => ArrayBack(es, format, k, depth, rest);
    case Object(ms) => ObjectBack(ms, format, k, depth, rest);
    case String(x) => StringBack(x, format, k, depth, rest);
    case Number(n) => NumberBack(n, format, k, depth, rest);
    case _ => ConstantBack(t, format, k, depth, rest);
  }

  lemma {:induction false} ArrayBack(es: Elems, format: bool, k: nat, depth: nat, rest: seq<byte>)
    requires PrintableElems(es) && Terminated(rest) && depth <= NESTING_LIMIT
    ensures Terminated(Put(Array(es), format, k, rest)) && Back(Array(es), format, k, depth, rest)
    decreases es, 1
  {
    var inner := PutElems(es, format, k + 1, [RBRACKET] + rest);
    var s := [LBRACKET] + inner;
    assert s[1..] == inner;
    PutElemsEnd(es, format, k + 1, [RBRACKET] + rest);
    if es.Elem? {
      ElemsBack(es, format, k + 1, if depth < NESTING_LIMIT then depth + 1 else depth, rest);
    } else {
      assert inner == [RBRACKET] + rest;
      assert inner[1..] == rest;
    }
    hide PutElems, ParseElems, SkipSpace, ParseValue;
    SkipNone(inner);
    ValueAt(s, depth);
  }

  lemma {:induction false} ElemsBack(es: Elems, format: bool, k: nat, depth: nat, rest: seq<byte>)
    requires es.Elem? && PrintableElems(es) && Terminated(rest) && depth <= NESTING_LIMIT
    ensures var s := PutElems(es, format, k, [RBRACKET] + rest);
      Terminated(s) && s[0] > 32 && s[0] != RBRACKET
      && ParseElems(s, depth) == if depth + ElemsDepth(es) <= NESTING_LIMIT then Ok(es, rest) else Fail
    decreases es, 0
  {
    var more := es.tail.Elem?;
    var close := [RBRACKET] + rest;
    var after := PutElems(es.tail, format, k, close);
    var tail := ElemSeparator(format, more) + after;
    assert PutElems(es, format, k, close) == Put(es.head, format, k, tail);
    PutElemsEnd(es.tail, format, k, close);
    if more {
      ElemsBack(es.tail, format, k, depth, rest);
    } else {
      assert after == close;
    }
    hide PutElems, Put, ParseValue, ParseElems;
    SeparatorTail(es.head, format, more, after, depth, rest);
    ValueBack(es.head, format, k, depth, tail);
    PutHead(es.head, format, k, tail);
    ElemsStep(Put(es.head, format, k, tail), depth);
  }

  lemma SeparatorTail(t: Value, format: bool, more: bool, after: seq<byte>, depth: nat, rest: seq<byte>)
    requires Terminated(after) && after[0] > 32 && Terminated(rest)
    requires !more ==> after == [RBRACKET] + rest
    ensures var tail := ElemSeparator(format, more) + after;
      Follows(tail)
      && ElemsAfter(t, tail, depth) ==
         if more then ConsElem(t, ParseElems(after, depth)) else Ok(Elem(t, Done), rest)
  {
    hide SkipSpace, ParseElems, When;
    var tail := ElemSeparator(format, more) + after;
    SkipNone(tail);
    if more {
      BlankSpace(format, 0);
      SkipTo(When(format, [SPACE]), after);
      Assoc([COMMA], When(format, [SPACE]), after);
      assert tail == [COMMA] + (When(format, [SPACE]) + after);
      assert tail[1..] == When(format, [SPACE]) + after;
    } else {
      assert tail == after;
      assert tail[1..] == rest;
    }
  }

  lemma KeyBack(key: seq<byte>, format: bool, k: nat, value: seq<byte>)
    requires NulFree(key) && Terminated(value) && value[0] > 32
    ensures Terminated(PutKey(key, format, k, value))
    ensures !IsNumberChar(PutKey(key, format, k, value)[0])
    ensures SkipSpace(PutKey(key, format, k, value))[0] == QUOTE
    ensures ParseKey(SkipSpace(PutKey(key, format, k, value))) == Ok(key, value)
  {
    hide RenderString, SkipSpace, ParseKey, When, Tabs;
    BlankSpace(format, k);
    KeyAt(When(format, Tabs(k)), When(format, [TAB]), key, value);
  }

  lemma KeyAt(ws: seq<byte>, blank: seq<byte>, key: seq<byte>, value: seq<byte>)
    requires AllSpace(ws) && AllSpace(blank) && NulFree(key) && Terminated(value) && value[0] > 32
    ensures var s := ws + (RenderString(key) + ([COLON] + (blank + value)));
      Terminated(s) && !IsNumberChar(s[0]) && SkipSpace(s)[0] == QUOTE && ParseKey(SkipSpace(s)) == Ok(key, value)
  {
    hide SkipSpace, JsonString.ParseString;
    var colon := [COLON] + (blank + value);
    var text := RenderString(key) + colon;
    assert text[0] == QUOTE;
    hide RenderString;
    SkipTo(ws, text);
    StringRoundTrip(key, colon);
    SkipNone(colon);
    assert colon[1..] == blank + value;
    SkipTo(blank, value);
  }

  lemma ObjectAt(blank: seq<byte>, inner: seq<byte>, depth: nat)
    requires AllSpace(blank) && Terminated(inner)
    ensures var first := SkipSpace(inner);
      ParseObject([LBRACE] + (blank + inner), depth) ==
      if depth >= NESTING_LIMIT then Fail
      else if first[0] == RBRACE then Ok(End, first[1..]) else ParseMembers(first, depth + 1)
  {
    hide SkipSpace, ParseMembers;
    var s := [LBRACE] + (blank + inner);
    assert s[1..] == blank + inner;
    SkipMore(blank, inner);
  }

  /** What an object's text gives, from what its members' text gives. */
  lemma ObjectResult(s: seq<byte>, blank: seq<byte>, inner: seq<byte>, first: seq<byte>, ms: Members, depth: nat,
                     rest: seq<byte>)
    requires AllSpace(blank) && Terminated(inner) && Terminated(rest) && depth <= NESTING_LIMIT
    requires s == [LBRACE] + (blank + inner) && Terminated(s) && first == SkipSpace(inner)
    requires ms.End? ==> first == [RBRACE] + rest
    requires ms.Member? ==> first[0] == QUOTE
    requires ms.Member? && depth < NESTING_LIMIT ==>
      ParseMembers(first, depth + 1) == if depth + Depth(Object(ms)) <= NESTING_LIMIT then Ok(ms, rest) else Fail
    ensures ParseValue(s, depth) == if depth + Depth(Object(ms)) <= NESTING_LIMIT then Ok(Object(ms), rest) else Fail
  {
    hide SkipSpace, ParseMembers, ParseObject, ParseValue;
    ObjectAt(blank, inner, depth);
    ValueAt(s, depth);
    assert ms.End? ==> ([RBRACE] + rest)[1..] == rest;
  }

  lemma {:induction false} ObjectBack(ms: Members, format: bool, k: nat, depth: nat, rest: seq<byte>)
    requires PrintableMembers(ms) && Terminated(rest) && depth <= NESTING_LIMIT
    ensures Terminated(Put(Object(ms), format, k, rest)) && Back(Object(ms), format, k, depth, rest)
    decreases ms, 1
  {
    hide PutMembers, ParseMembers, SkipSpace, ParseValue, Tabs, When;
    var indent := When(format, Tabs(k));
    var close := [RBRACE] + rest;
    var inner := PutMembers(ms, format, k + 1, indent + close);
    var blank := When(format, [NEWLINE]);
    BlankSpace(format, k);
    PutMembersEnd(ms, format, k + 1, indent + close);
    if ms.Member? {
      MembersBack(ms, format, k + 1, if depth < NESTING_LIMIT then depth + 1 else depth, indent, rest);
    } else {
      PutNoMembers(format, k + 1, indent + close);
      SkipTo(indent, close);
    }
    ObjectResult([LBRACE] + (blank + inner), blank, inner, SkipSpace(inner), ms, depth, rest);
  }

  lemma PutMembersStep(ms: Members, format: bool, k: nat, rest: seq<byte>)
    requires ms.Member?
    ensures var tail := MemberEnd(format, ms.rest.Member?) + PutMembers(ms.rest, format, k, rest);
      PutMembers(ms, format, k, rest) == PutKey(ms.key, format, k, Put(ms.value, format, k, tail))
  {}

  lemma PutNoMembers(format: bool, k: nat, rest: seq<byte>)
    ensures PutMembers(End, format, k, rest) == rest
  {}

  lemma {:induction false} MembersBack(ms: Members, format: bool, k: nat, depth: nat, ws: seq<byte>, rest: seq<byte>)
    requires ms.Member? && PrintableMembers(ms) && AllSpace(ws) && Terminated(rest) && depth <= NESTING_LIMIT
    ensures var s := PutMembers(ms, format, k, ws + ([RBRACE] + rest));
      Terminated(s) && !IsNumberChar(s[0]) && SkipSpace(s)[0] == QUOTE
      && ParseMembers(SkipSpace(s), depth) == if depth + MembersDepth(ms) <= NESTING_LIMIT then Ok(ms, rest) else Fail
    decreases ms, 0
  {
    hide Put, PutMembers, PutKey, ParseValue, ParseMembers, ParseKey, SkipSpace;
    PutMembersStep(ms, format, k, ws + ([RBRACE] + rest));
    var more := ms.rest.Member?;
    var close := ws + ([RBRACE] + rest);
    var after := PutMembers(ms.rest, format, k, close);
    var tail := MemberEnd(format, more) + after;
    var value := Put(ms.value, format, k, tail);
    if more {
      MembersBack(ms.rest, format, k, depth, ws, rest);
    } else {
      SkipTo(ws, [RBRACE] + rest);
      PutNoMembers(format, k, close);
      assert ([RBRACE] + rest)[1..] == rest;
    }
    MemberTail(format, more, after);
    ValueBack(ms.value, format, k, depth, tail);
    PutHead(ms.value, format, k, tail);
    KeyBack(ms.key, format, k, value);
    MembersStep(SkipSpace(PutKey(ms.key, format, k, value)), depth);
  }

  /** What follows a member's value: a comma and the next member, or blanks and what is behind them. */
  lemma MemberTail(format: bool, more: bool, after: seq<byte>)
    requires Terminated(after) && !IsNumberChar(after[0])
    ensures var tail := MemberEnd(format, more) + after;
      Follows(tail)
      && (if more then SkipSpace(tail) == tail && tail[0] == COMMA && SkipSpace(tail[1..]) == SkipSpace(after)
          else SkipSpace(tail) == SkipSpace(after))
  {
    var tail := MemberEnd(format, more) + after;
    SkipMore(When(format, [NEWLINE]), after);
    if more {
      assert tail[1..] == When(format, [NEWLINE]) + after;
    } else {
      assert tail == When(format, [NEWLINE]) + after;
    }
  }

  /**
   * cJSON_ParseWithOpts on the text of cJSON_Print or cJSON_PrintUnformatted: the same tree, keys, duplicates
   * and order included, when at most NESTING_LIMIT containers are nested, and a failure otherwise.
   */
  lemma RoundTrip(t: Value, format: bool)
    requires Printable(t)
    ensures ParseText(Render(t, format, 0) + [0], true) == if Depth(t) <= NESTING_LIMIT then Ok(t, [0]) else Fail
  {
    PutHead(t, format, 0, [0]);
    ValueBack(t, format, 0, 0, [0]);
    PutIsRender(t, format, 0, [0]);
  }

  /** Two different trees within the limit never print the same text. */
  lemma RenderInjective(t: Value, u: Value, f: bool, g: bool)
    requires Printable(t) && Printable(u) && Depth(t) <= NESTING_LIMIT && Depth(u) <= NESTING_LIMIT
    requires Render(t, f, 0) == Render(u, g, 0)
    ensures t == u
  {
    RoundTrip(t, f);
    RoundTrip(u, g);
  }
}
