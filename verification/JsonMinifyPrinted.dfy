/** Minifying the formatted print of a tree gives its unformatted print. */
module JsonMinifyPrinted {
  import opened Bytes
  import opened Json
  import opened JsonText
  import opened JsonMinify
  import opened JsonMinifyMeaning
  import opened JsonNumber
  import opened JsonRender
  import JsonString
  import JsonEscapes
  import JsonRoundTrip

  lemma {:induction false} DropBlanks(ws: seq<byte>, s: seq<byte>, m: seq<byte>)
    requires (forall i :: 0 <= i < |ws| ==> IsBlank(ws[i])) && Mins(s, m)
    ensures Mins(ws + s, m)
  {
    if ws == [] {
      assert ws + s == s;
    } else {
      DropBlanks(ws[1..], s, m);
      var x := ws[1..] + s;
      CStringCons(ws[0], x);
      assert ([ws[0]] + x)[1..] == x;
      assert ws + s == [ws[0]] + x;
    }
  }

  /** The formatting text is dropped. */
  lemma DropFormat(k: nat, s: seq<byte>, m: seq<byte>)
    requires Mins(s, m)
    ensures Mins(When(true, Tabs(k)) + s, m) && Mins(When(true, [TAB]) + s, m)
    ensures Mins(When(true, [NEWLINE]) + s, m) && Mins(When(true, [SPACE]) + s, m)
  {
    hide Mins;
    DropBlanks(Tabs(k), s, m);
    DropBlanks([TAB], s, m);
    DropBlanks([NEWLINE], s, m);
    DropBlanks([SPACE], s, m);
  }

  lemma CStringConcat(u: seq<byte>, s: seq<byte>)
    requires NulFree(u) && CString(s)
    ensures CString(u + s)
  {
    assert forall i :: 0 <= i < |u + s| ==> (u + s)[i] == if i < |u| then u[i] else s[i - |u|];
  }

  lemma KeepString(x: seq<byte>, s: seq<byte>, m: seq<byte>)
    requires NulFree(x) && Mins(s, m)
    ensures Mins(RenderString(x) + s, RenderString(x) + m)
  {
    hide EscapeAll, JsonString.CloseQuote, JsonString.Decode, MinifyText, JsonEscapes.SpellAll, JsonEscapes.AllInStep;
    var e := EscapeAll(x);
    EscapedNulFree(x);
    var ps := JsonRoundTrip.PiecesOf(x);
    JsonEscapes.PiecesScan(ps, [QUOTE] + s);
    JsonEscapes.QuoteEnds(s);
    var w := RenderString(x) + s;
    NulFreeConcat([QUOTE], e);
    NulFreeConcat([QUOTE] + e, [QUOTE]);
    CStringConcat(RenderString(x), s);
    Assoc4([QUOTE], e, [QUOTE], s);
    assert w[1..] == e + ([QUOTE] + s);
    assert w[|e| + 2..] == s;
    assert w[..|e| + 2] == RenderString(x);
    MinLiteral(w, |e|, m);
  }

  lemma KeepNumber(n: int, s: seq<byte>, m: seq<byte>)
    requires Mins(s, m)
    ensures Mins(Decimal(n) + s, Decimal(n) + m)
  {
    var d := Decimal(n);
    assert forall i :: 0 <= i < |d| ==> IsDigit(d[i]) || d[i] == MINUS;
    CopyPlain(d, s, m);
  }

  lemma {:induction false} PrintMins(t: Value, k: nat, j: nat, s: seq<byte>, m: seq<byte>)
    requires Printable(t) && Mins(s, m)
    ensures Mins(Put(t, true, k, s), Put(t, false, j, m))
    decreases t
  {
    match t
    case Null => CopyPlain(NULL_TEXT, s, m);
    case Bool(b) => CopyPlain(if b then TRUE_TEXT else FALSE_TEXT, s, m);
    case Number(n) => KeepNumber(n.Floor, s, m);
    case String(x) => KeepString(x, s, m);
    case Array(es) =>
      hide Mins;
      MinPlain(RBRACKET, s, m);
      PrintElemsMins(es, k + 1, j + 1, [RBRACKET] + s, [RBRACKET] + m);
      MinPlain(LBRACKET, PutElems(es, true, k + 1, [RBRACKET] + s), PutElems(es, false, j + 1, [RBRACKET] + m));
    case Object(ms) => PrintObjectMins(ms, k, j, s, m);
  }

  lemma {:induction false} PrintObjectMins(ms: Members, k: nat, j: nat, s: seq<byte>, m: seq<byte>)
    requires PrintableMembers(ms) && Mins(s, m)
    ensures Mins(Put(Object(ms), true, k, s), Put(Object(ms), false, j, m))
    decreases ms, 1
  {
    hide Mins, Tabs;
    var s' := When(true, Tabs(k)) + ([RBRACE] + s);
    var m' := When(false, Tabs(j)) + ([RBRACE] + m);
    MinPlain(RBRACE, s, m);
    DropFormat(k, [RBRACE] + s, [RBRACE] + m);
    assert m' == [RBRACE] + m;
    PrintMembersMins(ms, k + 1, j + 1, s', m');
    var inner, inner' := PutMembers(ms, true, k + 1, s'), PutMembers(ms, false, j + 1, m');
    DropFormat(0, inner, inner');
    MinPlain(LBRACE, When(true, [NEWLINE]) + inner, inner');
    assert When(false, [NEWLINE]) + inner' == inner';
  }

  lemma {:induction false} PrintElemsMins(es: Elems, k: nat, j: nat, s: seq<byte>, m: seq<byte>)
    requires PrintableElems(es) && Mins(s, m)
    ensures Mins(PutElems(es, true, k, s), PutElems(es, false, j, m))
    decreases es
  {
    if es.Elem? {
      hide Mins;
      var x, y := PutElems(es.tail, true, k, s), PutElems(es.tail, false, j, m);
      PrintElemsMins(es.tail, k, j, s, m);
      var more := es.tail.Elem?;
      var x', y' := ElemSeparator(true, more) + x, ElemSeparator(false, more) + y;
      if more {
        DropFormat(0, x, y);
        MinPlain(COMMA, When(true, [SPACE]) + x, y);
        Assoc([COMMA], When(true, [SPACE]), x);
        Assoc([COMMA], When(false, [SPACE]), y);
        assert When(false, [SPACE]) + y == y;
      } else {
        assert x' == x && y' == y;
      }
      PrintMins(es.head, k, j, x', y');
    }
  }

  lemma KeepKey(key: seq<byte>, k: nat, j: nat, s: seq<byte>, m: seq<byte>)
    requires NulFree(key) && Mins(s, m)
    ensures Mins(PutKey(key, true, k, s), PutKey(key, false, j, m))
  {
    hide Mins, Tabs, RenderString;
    DropFormat(0, s, m);
    var blank := When(true, [TAB]) + s;
    MinPlain(COLON, blank, m);
    KeepString(key, [COLON] + blank, [COLON] + m);
    DropFormat(k, RenderString(key) + ([COLON] + blank), RenderString(key) + ([COLON] + m));
    assert When(false, [TAB]) + m == m;
    assert When(false, Tabs(j)) + (RenderString(key) + ([COLON] + m)) == RenderString(key) + ([COLON] + m);
  }

  lemma {:induction false} PrintMembersMins(ms: Members, k: nat, j: nat, s: seq<byte>, m: seq<byte>)
    requires PrintableMembers(ms) && Mins(s, m)
    ensures Mins(PutMembers(ms, true, k, s), PutMembers(ms, false, j, m))
    decreases ms, 0
  {
    if ms.Member? {
      hide Mins, PutKey;
      var x, y := PutMembers(ms.rest, true, k, s), PutMembers(ms.rest, false, j, m);
      PrintMembersMins(ms.rest, k, j, s, m);
      var more := ms.rest.Member?;
      var x', y' := MemberEnd(true, more) + x, MemberEnd(false, more) + y;
      EndMins(more, x, y);
      PrintMins(ms.value, k, j, x', y');
      KeepKey(ms.key, k, j, Put(ms.value, true, k, x'), Put(ms.value, false, j, y'));
    }
  }

  lemma EndMins(more: bool, x: seq<byte>, y: seq<byte>)
    requires Mins(x, y)
    ensures Mins(MemberEnd(true, more) + x, MemberEnd(false, more) + y)
  {
    hide Mins;
    DropFormat(0, x, y);
    var blank := When(true, [NEWLINE]) + x;
    if more {
      MinPlain(COMMA, blank, y);
      assert MemberEnd(true, more) + x == [COMMA] + blank;
      assert MemberEnd(false, more) + y == [COMMA] + y;
    } else {
      assert MemberEnd(true, more) + x == blank;
      assert MemberEnd(false, more) + y == y;
    }
  }

  /** cJSON_Minify turns the text of cJSON_Print into the text of cJSON_PrintUnformatted. */
  lemma MinifyPrinted(t: Value)
    requires Printable(t)
    ensures MinifyText(Render(t, true, 0) + [0]) == Some(Render(t, false, 0) + [0])
  {
    PrintMins(t, 0, 0, [0], [0]);
    PutIsRender(t, true, 0, [0]);
    PutIsRender(t, false, 0, [0]);
  }
}
