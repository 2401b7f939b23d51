/**
 * What printed text looks like: the formatted text of a tree is the unformatted one laid out by a pass over its bytes
 * that knows nothing of trees, and the unformatted one spells every byte of a string as shortly as RFC 8259 allows.
 */
module JsonLayout {
  import opened Bytes
  import opened Json
  import opened JsonRender
  import JsonText
  import JsonNumber
  import JsonString
  import JsonEscapes
  import JsonRfc

  // ----- the layout pass -----

  /** One tab for every open container. */
  function Indent(open: seq<byte>): seq<byte> {
    if open == [] then [] else [9] + Indent(open[1..])
  }

  /** The containers left open when the innermost one closes. */
  function Outside(open: seq<byte>): seq<byte> {
    if open == [] then [] else open[..|open| - 1]
  }

  /** How much of `s`, the text behind an opening quote, belongs to the string. */
  function Quoted(s: seq<byte>): (n: nat)
    ensures n <= |s|
  {
    if s == [] then 0
    else if s[0] == 34 then 1
    else if s[0] == 92 && |s| > 1 then 2 + Quoted(s[2..])
    else 1 + Quoted(s[1..])
  }

  /**
   * Lays out a text with the opening brackets and braces `open` before it. Strings are copied; a colon is followed by a
   * tab; a comma by a space in an array, and in an object by a new line with one tab for every open container. A brace
   * opens such a line too, and closes on a line with the tabs of the containers around it; "{}" is broken in two.
   */
  function Layout(s: seq<byte>, open: seq<byte>): seq<byte>
    decreases |s|
  {
    if s == [] then []
    else if s[0] == 34 then
      var n := 1 + Quoted(s[1..]);
      s[..n] + Layout(s[n..], open)
    else if s[0] == 123 && |s| > 1 && s[1] == 125 then [123, 10] + Indent(open) + [125] + Layout(s[2..], open)
    else if s[0] == 123 then [123, 10] + Indent(open + [123]) + Layout(s[1..], open + [123])
    else if s[0] == 125 then [10] + Indent(Outside(open)) + [125] + Layout(s[1..], Outside(open))
    else if s[0] == 91 then [91] + Layout(s[1..], open + [91])
    else if s[0] == 93 then [93] + Layout(s[1..], Outside(open))
    else if s[0] == 44 && open != [] && open[|open| - 1] == 123 then [44, 10] + Indent(open) + Layout(s[1..], open)
    else if s[0] == 44 then [44, 32] + Layout(s[1..], open)
    else if s[0] == 58 then [58, 9] + Layout(s[1..], open)
    else [s[0]] + Layout(s[1..], open)
  }

  predicate Plain(b: byte) {
    b != 34 && b != 123 && b != 125 && b != 91 && b != 93 && b != 44 && b != 58
  }

  // ----- its steps -----

  lemma LayoutBrackets(s: seq<byte>, open: seq<byte>)
    ensures Layout([91] + s, open) == [91] + Layout(s, open + [91])
    ensures Layout([93] + s, open + [91]) == [93] + Layout(s, open)
  {
    assert ([91] + s)[1..] == s && ([93] + s)[1..] == s;
    assert Outside(open + [91]) == open;
  }

  lemma LayoutEmpty(s: seq<byte>, open: seq<byte>)
    ensures Layout([123] + ([125] + s), open) == [123] + ([10] + (Indent(open) + ([125] + Layout(s, open))))
  {
    var t := [123] + ([125] + s);
    assert t[2..] == s;
    assert [123, 10] == [123] + [10];
    Assoc4([123, 10], Indent(open), [125], Layout(s, open));
  }

  lemma LayoutBrace(s: seq<byte>, open: seq<byte>)
    requires s != [] && s[0] == 34
    ensures Layout([123] + s, open) == [123] + ([10] + (Indent(open + [123]) + Layout(s, open + [123])))
  {
    assert ([123] + s)[1..] == s;
    assert [123, 10] == [123] + [10];
  }

  lemma LayoutBraceEnd(s: seq<byte>, open: seq<byte>)
    ensures Layout([125] + s, open + [123]) == [10] + (Indent(open) + ([125] + Layout(s, open)))
  {
    assert ([125] + s)[1..] == s;
    assert Outside(open + [123]) == open;
  }

  lemma LayoutComma(s: seq<byte>, open: seq<byte>)
    ensures Layout([44] + s, open + [91]) == [44] + ([32] + Layout(s, open + [91]))
    ensures Layout([44] + s, open + [123]) == [44] + ([10] + (Indent(open + [123]) + Layout(s, open + [123])))
  {
    assert ([44] + s)[1..] == s;
    assert [44, 10] == [44] + [10] && [44, 32] == [44] + [32];
  }

  lemma LayoutColon(s: seq<byte>, open: seq<byte>)
    ensures Layout([58] + s, open) == [58] + ([9] + Layout(s, open))
  {
    assert ([58] + s)[1..] == s;
    assert [58, 9] == [58] + [9];
  }

  lemma {:induction false} LayoutPlain(u: seq<byte>, s: seq<byte>, open: seq<byte>)
    requires forall i :: 0 <= i < |u| ==> Plain(u[i])
    ensures Layout(u + s, open) == u + Layout(s, open)
  {
    if u == [] {
      assert u + s == s;
    } else {
      assert (u + s)[1..] == u[1..] + s;
      assert Plain(u[0]);
      LayoutPlain(u[1..], s, open);
      Assoc([u[0]], u[1..], Layout(s, open));
      assert u == [u[0]] + u[1..];
    }
  }

  /** Behind an escaped byte. */
  lemma QuotedByte(b: byte, s: seq<byte>)
    ensures Quoted(EscapeByte(b) + s) == |EscapeByte(b)| + Quoted(s)
  {
    var e := EscapeByte(b);
    var t := e + s;
    if |e| == 1 {
      assert t[1..] == s;
    } else if |e| == 2 {
      assert t[2..] == s;
    } else {
      assert t[2..] == e[2..] + s;
      QuotedPlain(e[2..], s);
    }
  }

  lemma {:induction false} QuotedPlain(u: seq<byte>, s: seq<byte>)
    requires forall i :: 0 <= i < |u| ==> u[i] != 34 && u[i] != 92
    ensures Quoted(u + s) == |u| + Quoted(s)
  {
    if u == [] {
      assert u + s == s;
    } else {
      assert (u + s)[1..] == u[1..] + s;
      QuotedPlain(u[1..], s);
    }
  }

  lemma {:induction false} QuotedAll(x: seq<byte>, s: seq<byte>)
    ensures Quoted(EscapeAll(x) + ([34] + s)) == |EscapeAll(x)| + 1
  {
    if x == [] {
      assert EscapeAll(x) + ([34] + s) == [34] + s;
    } else {
      QuotedAll(x[1..], s);
      QuotedByte(x[0], EscapeAll(x[1..]) + ([34] + s));
      Assoc(EscapeByte(x[0]), EscapeAll(x[1..]), [34] + s);
    }
  }

  lemma LayoutString(x: seq<byte>, s: seq<byte>, open: seq<byte>)
    ensures Layout(RenderString(x) + s, open) == RenderString(x) + Layout(s, open)
  {
    hide EscapeAll, Quoted;
    var e := EscapeAll(x);
    var t := RenderString(x) + s;
    assert t[1..] == e + ([34] + s);
    QuotedAll(x, s);
    assert t[..|e| + 2] == RenderString(x) && t[|e| + 2..] == s;
  }

  lemma LayoutWord(t: Value, s: seq<byte>, open: seq<byte>, depth: nat)
    requires !t.Array? && !t.Object?
    ensures Layout(Render(t, false, depth) + s, open) == Render(t, true, |open|) + Layout(s, open)
  {
    hide Layout, RenderString, JsonNumber.Decimal, Plain;
    if t.String? {
      LayoutString(t.s, s, open);
    } else if t.Number? {
      DecimalPlain(t.n.Floor);
      LayoutPlain(JsonNumber.Decimal(t.n.Floor), s, open);
    } else {
      WordPlain(t, depth);
      var w := Render(t, false, depth);
      assert w == Render(t, true, |open|);
      hide Render;
      LayoutPlain(w, s, open);
    }
  }

  lemma WordPlain(t: Value, depth: nat)
    requires t.Null? || t.Bool?
    ensures forall i :: 0 <= i < |Render(t, false, depth)| ==> Plain(Render(t, false, depth)[i])
  {}

  lemma DecimalPlain(n: int)
    ensures forall i :: 0 <= i < |JsonNumber.Decimal(n)| ==> Plain(JsonNumber.Decimal(n)[i])
  {
    var d := JsonNumber.DecimalNat(if n < 0 then -n else n);
    hide JsonNumber.DecimalNat, JsonNumber.DigitsValue;
    assert forall i :: 0 <= i < |d| ==> JsonNumber.IsDigit(d[i]);
  }

  lemma {:induction false} IndentTabs(open: seq<byte>)
    ensures Indent(open) == Tabs(|open|)
  {
    if open != [] {
      IndentTabs(open[1..]);
      assert Tabs(|open|) == [TAB] + Tabs(|open| - 1);
    }
  }

  // ----- trees -----

  lemma {:induction false} LayoutValue(t: Value, depth: nat, open: seq<byte>, rest: seq<byte>)
    ensures Layout(Put(t, false, depth, rest), open) == Put(t, true, |open|, Layout(rest, open))
    decreases t
  {
    hide Layout, Indent, Render, Tabs;
    match t
    case Array(es) =>
      LayoutBrackets(PutElems(es, false, depth + 1, [RBRACKET] + rest), open);
      LayoutElems(es, depth + 1, open, rest);
    case Object(ms) => LayoutObject(ms, depth, open, rest);
    case _ => LayoutWord(t, rest, open, depth);
  }

  lemma {:induction false} LayoutElems(es: Elems, depth: nat, open: seq<byte>, rest: seq<byte>)
    ensures Layout(PutElems(es, false, depth, [93] + rest), open + [91])
         == PutElems(es, true, |open| + 1, [93] + Layout(rest, open))
    decreases es
  {
    hide Layout, Put;
    match es
    case Done => LayoutBrackets(rest, open);
    case Elem(t, more) =>
      var tail := PutElems(more, false, depth, [93] + rest);
      var sep := ElemSeparator(false, more.Elem?);
      LayoutValue(t, depth, open + [91], sep + tail);
      LayoutElems(more, depth, open, rest);
      LayoutComma(tail, open);
      ElemJoin(more.Elem?, tail);
      ElemJoin(more.Elem?, Layout(tail, open + [91]));
  }

  lemma ElemJoin(more: bool, s: seq<byte>)
    ensures ElemSeparator(false, more) + s == if more then [44] + s else s
    ensures ElemSeparator(true, more) + s == if more then [44] + ([32] + s) else s
  {
    assert [44] + [] == [44];
  }

  lemma {:induction false} LayoutObject(ms: Members, depth: nat, open: seq<byte>, rest: seq<byte>)
    ensures Layout(Put(Object(ms), false, depth, rest), open) == Put(Object(ms), true, |open|, Layout(rest, open))
    decreases ms, 1
  {
    hide Layout, Indent, Tabs, RenderString, Render;
    var close := When(false, Tabs(depth)) + ([125] + rest);
    assert close == [125] + rest;
    var inner := PutMembers(ms, false, depth + 1, close);
    assert When(false, [NEWLINE]) + inner == inner;
    IndentTabs(open);
    IndentTabs(open + [123]);
    if ms.End? {
      LayoutEmpty(rest, open);
    } else {
      StartsQuoted(ms, depth + 1, close);
      LayoutBrace(inner, open);
      LayoutMembers(ms, depth + 1, open, rest);
    }
  }

  lemma StartsQuoted(ms: Members, depth: nat, rest: seq<byte>)
    requires ms.Member?
    ensures var s := PutMembers(ms, false, depth, rest); s != [] && s[0] == 34
  {
    hide Put;
  }

  lemma {:induction false} LayoutMembers(ms: Members, depth: nat, open: seq<byte>, rest: seq<byte>)
    requires ms.Member?
    ensures Indent(open + [123]) + Layout(PutMembers(ms, false, depth, [125] + rest), open + [123])
         == PutMembers(ms, true, |open| + 1, Tabs(|open|) + ([125] + Layout(rest, open)))
    decreases ms, 0
  {
    hide Layout, Put, Indent, Tabs, RenderString;
    var inside, k, t, more := open + [123], ms.key, ms.value, ms.rest;
    var tail := PutMembers(more, false, depth, [125] + rest);
    var out := Tabs(|open|) + ([125] + Layout(rest, open));
    var end := MemberEnd(false, more.Member?) + tail;
    MemberJoin(more.Member?, tail);
    LayoutKey(k, depth, Put(t, false, depth, end), inside);
    LayoutValue(t, depth, inside, end);
    IndentTabs(open);
    IndentTabs(inside);
    if more.Member? {
      LayoutMembers(more, depth, open, rest);
      LayoutComma(tail, open);
      MemberJoin(true, PutMembers(more, true, |open| + 1, out));
    } else {
      LayoutBraceEnd(rest, open);
      MemberJoin(false, out);
    }
  }

  lemma LayoutKey(k: seq<byte>, depth: nat, value: seq<byte>, open: seq<byte>)
    ensures Indent(open) + Layout(PutKey(k, false, depth, value), open)
         == PutKey(k, true, |open|, Layout(value, open))
  {
    hide Layout, Indent, Tabs, RenderString;
    IndentTabs(open);
    var w := RenderString(k) + ([58] + value);
    assert When(false, [TAB]) + value == value;
    assert When(false, Tabs(depth)) + w == w;
    LayoutString(k, [58] + value, open);
    LayoutColon(value, open);
  }

  lemma MemberJoin(more: bool, s: seq<byte>)
    ensures MemberEnd(false, more) + s == if more then [44] + s else s
    ensures MemberEnd(true, more) + s == if more then [44] + ([10] + s) else [10] + s
  {
    assert [44] + [] == [44];
    assert [44] + [10] + s == [44] + ([10] + s);
    assert [] + [10] == [10];
  }

  /** cJSON_Print is cJSON_PrintUnformatted laid out. */
  lemma FormattedLayout(t: Value)
    ensures Render(t, true, 0) == Layout(Render(t, false, 0), [])
  {
    hide Put, Render;
    LayoutValue(t, 0, [], []);
    PutIsRender(t, false, 0, []);
    PutIsRender(t, true, 0, []);
    assert Render(t, false, 0) + [] == Render(t, false, 0) && Render(t, true, 0) + [] == Render(t, true, 0);
  }

  /** "null", "true" and "false" */
  lemma Words(format: bool, depth: nat)
    ensures Render(Null, format, depth) == [110, 117, 108, 108]
    ensures Render(Bool(true), format, depth) == [116, 114, 117, 101]
    ensures Render(Bool(false), format, depth) == [102, 97, 108, 115, 101]
  {}

  /** {"a":1} is laid out on three lines, the middle one behind a tab and with a tab behind the colon. */
  lemma Example()
    ensures Layout([123, 34, 97, 34, 58, 49, 125], []) == [123, 10, 9, 34, 97, 34, 58, 9, 49, 10, 125]
  {
    hide Layout;
    var key: seq<byte>, end: seq<byte> := [34, 97, 34], [58, 49, 125];
    LayoutBrace(key + end, []);
    assert EscapeAll([97]) == [97] by { assert [97][1..] == [] && EscapeAll([]) == []; }
    assert RenderString([97]) == key;
    LayoutString([97], end, [123]);
    LayoutColon([49, 125], [123]);
    LayoutPlain([49], [125], [123]);
    LayoutBraceEnd([], []);
    assert Layout([], []) == [] by { LayoutNothing(); }
    assert [] + [123] == [123] && [58] + [49, 125] == end && [49] + [125] == [49, 125] && [125] + [] == [125];
    assert Indent([123]) == [9] && Indent([]) == [];
    hide EscapeAll, RenderString, Indent;
    assert Layout(end, [123]) == [58, 9, 49, 10, 125];
    assert [123] + (key + end) == [123, 34, 97, 34, 58, 49, 125];
  }

  lemma LayoutNothing()
    ensures Layout([], []) == []
  {}

  // ----- strings -----

  /**
   * print_string_ptr spells a byte as shortly as section 7 of RFC 8259 allows: no other piece that means the byte is
   * shorter. Where it takes a \u escape, the digits are 00 and the two lower-case digits of the byte.
   */
  lemma ShortestSpelling(b: byte, p: JsonEscapes.Piece)
    requires JsonRfc.RfcPiece(p)
    ensures JsonEscapes.Loose(p) && (JsonEscapes.PieceMeaning(p) == [b] ==> |EscapeByte(b)| <= |JsonEscapes.Spell(p)|)
    ensures |EscapeByte(b)| == 6 ==>
      EscapeByte(b) == [92, 117, 48, 48, JsonString.HEX_LOWER[b / 16], JsonString.HEX_LOWER[b % 16]]
  {
    hide JsonString.Utf8, JsonString.Hex4, JsonString.IsHex;
    if p.Short? {
      JsonString.ShortTable(p.letter);
    }
  }
}
