/**
 * The grammar of RFC 8259 itself, as a part of the syntax that cJSON goes through, and exactly which of its texts are
 * accepted: not all of them, since the grammar allows lone surrogate escapes and numbers and nesting of any size.
 */
module JsonRfc {
  import opened Bytes
  import opened Json
  import opened JsonNumber
  import opened JsonFigures
  import opened JsonGrammar
  import JsonRoundTrip
  import JsonText
  import JsonString
  import JsonEscapes

  // ----- tokens -----

  /** Section 2: white space. */
  predicate Blank(ws: seq<byte>) {
    forall i :: 0 <= i < |ws| ==> ws[i] == SPACE || ws[i] == TAB || ws[i] == NEWLINE || ws[i] == RETURN
  }

  /** Section 6: no zero in front of another digit, and digits behind a point. */
  predicate RfcFigure(f: Figure) {
    ValidFigure(f) && f.whole != [] && (f.whole[0] == ZERO ==> |f.whole| == 1) && (f.dotted <==> f.fraction != [])
  }

  /** Section 7: unescaped bytes from 32 on, a one-letter escape, or a unit of four hex digits, surrogate or not. */
  predicate RfcPiece(p: JsonEscapes.Piece) {
    JsonEscapes.InStep(p) && (p.Raw? ==> p.b >= 32)
  }

  predicate RfcSpelling(sp: Spelling) {
    !sp.spill && forall i :: 0 <= i < |sp.pieces| ==> RfcPiece(sp.pieces[i])
  }

  // ----- sections 3 to 5: values -----

  predicate Rfc(d: Syntax) {
    match d
    case Word(_) => true
    case Text(sp) => RfcSpelling(sp)
    case Numeral(f) => RfcFigure(f)
    case EmptyList(ws) => Blank(ws)
    case List(ws, items) => Blank(ws) && RfcItems(items)
    case EmptyRecord(ws) => Blank(ws)
    case Record(ws, fields) => Blank(ws) && RfcFields(fields)
  }

  predicate RfcItems(items: Items) {
    match items
    case LastItem(d, ws) => Rfc(d) && Blank(ws)
    case NextItem(d, ws, lead, more) => Rfc(d) && Blank(ws) && Blank(lead) && RfcItems(more)
  }

  predicate RfcLabel(l: Label) {
    RfcSpelling(l.spelling) && Blank(l.ws) && Blank(l.lead)
  }

  predicate RfcFields(fields: Fields) {
    match fields
    case LastField(l, d, ws) => RfcLabel(l) && Rfc(d) && Blank(ws)
    case NextField(l, d, ws, lead, more) => RfcLabel(l) && Rfc(d) && Blank(ws) && Blank(lead) && RfcFields(more)
  }

  predicate RfcDocument(doc: Document) {
    Blank(doc.lead) && Rfc(doc.value) && Blank(doc.ws)
  }

  // ----- RFC 8259 is a part of the syntax -----

  lemma BlankIsSpace(ws: seq<byte>)
    requires Blank(ws)
    ensures JsonRoundTrip.AllSpace(ws)
  {}

  lemma SpellingFormed(sp: Spelling)
    requires RfcSpelling(sp)
    ensures FormedSpelling(sp) && JsonEscapes.AllInStep(sp.pieces) && Body(sp) == JsonEscapes.SpellAll(sp.pieces)
  {
    var b := JsonEscapes.SpellAll(sp.pieces);
    assert b + [] == b;
    hide JsonString.CloseQuote, JsonEscapes.SpellAll, Closes;
    assert JsonEscapes.AllInStep(sp.pieces);
    JsonEscapes.InStepIsLoose(sp.pieces);
    JsonEscapes.PiecesScan(sp.pieces, [QUOTE]);
    JsonEscapes.QuoteEnds([]);
    assert [QUOTE] + [] == [QUOTE];
    ClosesScanned(b);
  }

  lemma {:induction false} RfcIsFormed(d: Syntax)
    requires Rfc(d)
    ensures Formed(d)
  {
    hide Blank, RfcSpelling, FormedSpelling, ValidFigure, JsonRoundTrip.AllSpace;
    match d
    case Word(_) =>
    case Text(sp) => SpellingFormed(sp);
    case Numeral(_) =>
    case EmptyList(ws) => BlankIsSpace(ws);
    case List(ws, items) =>
      BlankIsSpace(ws);
      RfcItemsFormed(items);
    case EmptyRecord(ws) => BlankIsSpace(ws);
    case Record(ws, fields) =>
      BlankIsSpace(ws);
      RfcFieldsFormed(fields);
  }

  lemma {:induction false} RfcItemsFormed(items: Items)
    requires RfcItems(items)
    ensures FormedItems(items)
  {
    hide Blank, Rfc, Formed, JsonRoundTrip.AllSpace;
    RfcIsFormed(items.item);
    BlankIsSpace(items.ws);
    if items.NextItem? {
      BlankIsSpace(items.lead);
      RfcItemsFormed(items.more);
    }
  }

  lemma {:induction false} RfcFieldsFormed(fields: Fields)
    requires RfcFields(fields)
    ensures FormedFields(fields)
  {
    hide Blank, Rfc, Formed, RfcSpelling, FormedSpelling, JsonRoundTrip.AllSpace;
    SpellingFormed(fields.key.spelling);
    BlankIsSpace(fields.key.ws);
    BlankIsSpace(fields.key.lead);
    RfcIsFormed(fields.value);
    BlankIsSpace(fields.ws);
    if fields.NextField? {
      BlankIsSpace(fields.lead);
      RfcFieldsFormed(fields.more);
    }
  }

  /**
   * A text of RFC 8259 is accepted, and then as what it means, if and only if every surrogate escape in its strings and
   * keys is paired, its numbers have at most 63 characters and at most 1000 containers nest in it.
   */
  lemma RfcExact(doc: Document)
    requires RfcDocument(doc)
    ensures FormedDocument(doc) && Terminated(DocumentText(doc))
    ensures JsonText.ParseText(DocumentText(doc), true)
         == if Readable(doc.value) && Nest(doc.value) <= 1000 then Ok(Meaning(doc.value), [0])
            else Fail
  {
    hide Rfc, Formed, DocumentText, Meaning, Readable, Nest, JsonText.ParseText;
    RfcIsFormed(doc.value);
    BlankIsSpace(doc.lead);
    BlankIsSpace(doc.ws);
    FormedExact(doc);
  }

  /** A string of section 7 alone is read, as the bytes it means up to the first NUL, exactly when paired. */
  lemma RfcStringExact(sp: Spelling, rest: seq<byte>)
    requires RfcSpelling(sp) && Terminated(rest)
    ensures FormedSpelling(sp)
    ensures var s := [QUOTE] + (Body(sp) + ([QUOTE] + rest));
      Terminated(s) && JsonString.ParseString(s)
      == if JsonEscapes.Paired(sp.pieces) then Ok(SpellingMeaning(sp), rest) else Fail
  {
    hide RfcSpelling, FormedSpelling, Body, SpellingMeaning, JsonString.ParseString, JsonEscapes.Paired;
    SpellingFormed(sp);
    ReadString(sp, rest);
  }

  // ----- texts of RFC 8259 that are refused -----

  /** The four digits "DEAD", a low surrogate: the example of section 8.2. */
  const LONE: JsonEscapes.Piece := JsonEscapes.Unit([68, 69, 65, 68])

  lemma LoneSurrogate()
    ensures var doc := Document([], Text(Spelling([LONE], false)), []);
      RfcDocument(doc) && Terminated(DocumentText(doc)) && JsonText.ParseText(DocumentText(doc), true) == Fail
  {
    var doc := Document([], Text(Spelling([LONE], false)), []);
    assert JsonEscapes.LowUnit(LONE);
    assert !JsonEscapes.Paired([LONE]);
    hide JsonText.ParseText, DocumentText, Meaning;
    RfcExact(doc);
  }

  /** The number that is written with `n` ones. */
  function Ones(n: nat): Figure {
    Figure(false, seq(n, _ => 49), false, [], None)
  }

  lemma LongNumber(n: nat)
    requires n > 0
    ensures var doc := Document([], Numeral(Ones(n)), []);
      && RfcDocument(doc) && Terminated(DocumentText(doc))
      && (JsonText.ParseText(DocumentText(doc), true).Ok? <==> n <= 63)
  {
    var doc := Document([], Numeral(Ones(n)), []);
    FigureHead(Ones(n));
    hide JsonText.ParseText, DocumentText, FigureText, FigureValue;
    RfcExact(doc);
  }
}
