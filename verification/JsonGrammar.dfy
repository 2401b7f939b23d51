/**
 * The language that cJSON accepts: syntax trees with all their blanks and spellings, the text they write and the
 * tree they mean. It has the grammar of sections 2 to 7 of RFC 8259, with looser tokens where the code is looser.
 */
module JsonGrammar {
  import opened Bytes
  import opened Json
  import opened JsonText
  import opened JsonNumber
  import opened JsonFigures
  import opened JsonRoundTrip
  import JsonEscapes
  import JsonString

  datatype Constant = NullWord | TrueWord | FalseWord

  /** The inside of a string. With `spill` a last backslash takes the closing quote for the byte it escapes. */
  datatype Spelling = Spelling(pieces: seq<JsonEscapes.Piece>, spill: bool)

  /** A value as it is written. The blanks stand where the grammar allows white space. */
  datatype Syntax =
    | Word(constant: Constant)
    | Text(spelling: Spelling)
    | Numeral(figure: Figure)
    | EmptyList(ws: seq<byte>)
    | List(ws: seq<byte>, items: Items)
    | EmptyRecord(ws: seq<byte>)
    | Record(ws: seq<byte>, fields: Fields)

  /** One item or more, up to the closing bracket. */
  datatype Items =
    | LastItem(item: Syntax, ws: seq<byte>)
    | NextItem(item: Syntax, ws: seq<byte>, lead: seq<byte>, more: Items)

  /** A key with the blanks around its colon. */
  datatype Label = Label(spelling: Spelling, ws: seq<byte>, lead: seq<byte>)

  /** One member or more, up to the closing brace. */
  datatype Fields =
    | LastField(key: Label, value: Syntax, ws: seq<byte>)
    | NextField(key: Label, value: Syntax, ws: seq<byte>, lead: seq<byte>, more: Fields)

  // ----- what is written -----

  function WordText(c: Constant): seq<byte> {
    match c
    case NullWord => NULL_TEXT
    case TrueWord => TRUE_TEXT
    case FalseWord => FALSE_TEXT
  }

  function Body(sp: Spelling): seq<byte> {
    JsonEscapes.SpellAll(sp.pieces) + (if sp.spill then [BACKSLASH] else [])
  }

  /** The text of a value, and behind it `rest`. */
  function Write(d: Syntax, rest: seq<byte>): seq<byte> {
    match d
    case Word(c) => WordText(c) + rest
    case Text(sp) => [QUOTE] + (Body(sp) + ([QUOTE] + rest))
    case Numeral(f) => FigureText(f) + rest
    case EmptyList(ws) => [LBRACKET] + (ws + ([RBRACKET] + rest))
    case List(ws, items) => [LBRACKET] + (ws + WriteItems(items, rest))
    case EmptyRecord(ws) => [LBRACE] + (ws + ([RBRACE] + rest))
    case Record(ws, fields) => [LBRACE] + (ws + WriteFields(fields, rest))
  }

  function WriteItems(items: Items, rest: seq<byte>): seq<byte> {
    match items
    case LastItem(d, ws) => Write(d, ws + ([RBRACKET] + rest))
    case NextItem(d, ws, lead, more) => Write(d, ws + ([COMMA] + (lead + WriteItems(more, rest))))
  }

  function WriteLabel(l: Label, value: seq<byte>): seq<byte> {
    [QUOTE] + (Body(l.spelling) + ([QUOTE] + (l.ws + ([COLON] + (l.lead + value)))))
  }

  function WriteFields(fields: Fields, rest: seq<byte>): seq<byte> {
    match fields
    case LastField(l, d, ws) => WriteLabel(l, Write(d, ws + ([RBRACE] + rest)))
    case NextField(l, d, ws, lead, more) =>
      WriteLabel(l, Write(d, ws + ([COMMA] + (lead + WriteFields(more, rest)))))
  }

  // ----- which trees -----

  /** The next quote is the closing one, when a backslash and the byte behind it are skipped together. */
  predicate Closes(b: seq<byte>)
    decreases |b|
  {
    b == []
    || (if b[0] == BACKSLASH then |b| > 1 && Closes(b[2..]) else b[0] != QUOTE && Closes(b[1..]))
  }

  /** Pieces of any kind, as long as the string ends where they do. */
  predicate FormedSpelling(sp: Spelling) {
    JsonEscapes.AllLoose(sp.pieces) && Closes(Body(sp))
  }

  /** Only blanks where white space is allowed. */
  predicate Formed(d: Syntax) {
    match d
    case Word(_) => true
    case Text(sp) => FormedSpelling(sp)
    case Numeral(f) => ValidFigure(f)
    case EmptyList(ws) => AllSpace(ws)
    case List(ws, items) => AllSpace(ws) && FormedItems(items)
    case EmptyRecord(ws) => AllSpace(ws)
    case Record(ws, fields) => AllSpace(ws) && FormedFields(fields)
  }

  predicate FormedItems(items: Items) {
    match items
    case LastItem(d, ws) => Formed(d) && AllSpace(ws)
    case NextItem(d, ws, lead, more) => Formed(d) && AllSpace(ws) && AllSpace(lead) && FormedItems(more)
  }

  predicate FormedLabel(l: Label) {
    FormedSpelling(l.spelling) && AllSpace(l.ws) && AllSpace(l.lead)
  }

  predicate FormedFields(fields: Fields) {
    match fields
    case LastField(l, d, ws) => FormedLabel(l) && Formed(d) && AllSpace(ws)
    case NextField(l, d, ws, lead, more) =>
      FormedLabel(l) && Formed(d) && AllSpace(ws) && AllSpace(lead) && FormedFields(more)
  }

  /** Every string has its surrogate units paired and every number has at most 63 characters. */
  predicate Readable(d: Syntax) {
    match d
    case Word(_) => true
    case Text(sp) => JsonEscapes.Paired(sp.pieces)
    case Numeral(f) => |FigureText(f)| <= NUMBER_LIMIT
    case EmptyList(_) => true
    case List(_, items) => ReadableItems(items)
    case EmptyRecord(_) => true
    case Record(_, fields) => ReadableFields(fields)
  }

  predicate ReadableItems(items: Items) {
    Readable(items.item) && (items.NextItem? ==> ReadableItems(items.more))
  }

  predicate ReadableFields(fields: Fields) {
    JsonEscapes.Paired(fields.key.spelling.pieces) && Readable(fields.value)
    && (fields.NextField? ==> ReadableFields(fields.more))
  }

  /** How many containers are nested. */
  function Nest(d: Syntax): nat {
    match d
    case EmptyList(_) => 1
    case List(_, items) => 1 + NestItems(items)
    case EmptyRecord(_) => 1
    case Record(_, fields) => 1 + NestFields(fields)
    case _ => 0
  }

  function NestItems(items: Items): nat {
    if items.LastItem? then Nest(items.item) else Max(Nest(items.item), NestItems(items.more))
  }

  function NestFields(fields: Fields): nat {
    if fields.LastField? then Nest(fields.value) else Max(Nest(fields.value), NestFields(fields.more))
  }

  // ----- what is meant -----

  /** The bytes up to the first NUL, since the result is a C string. */
  function SpellingMeaning(sp: Spelling): seq<byte>
    requires JsonEscapes.AllLoose(sp.pieces) && JsonEscapes.Paired(sp.pieces)
  {
    UpToNul(JsonEscapes.Meaning(sp.pieces) + (if sp.spill then [QUOTE] else []))
  }

  function WordMeaning(c: Constant): Value {
    match c
    case NullWord => Null
    case TrueWord => Bool(true)
    case FalseWord => Bool(false)
  }

  function Meaning(d: Syntax): Value
    requires Formed(d) && Readable(d)
  {
    match d
    case Word(c) => WordMeaning(c)
    case Text(sp) => String(SpellingMeaning(sp))
    case Numeral(f) => Number(FigureValue(f))
    case EmptyList(_) => Array(Done)
    case List(_, items) => Array(ItemsMeaning(items))
    case EmptyRecord(_) => Object(End)
    case Record(_, fields) => Object(FieldsMeaning(fields))
  }

  function ItemsMeaning(items: Items): Elems
    requires FormedItems(items) && ReadableItems(items)
  {
    match items
    case LastItem(d, _) => Elem(Meaning(d), Done)
    case NextItem(d, _, _, more) => Elem(Meaning(d), ItemsMeaning(more))
  }

  function FieldsMeaning(fields: Fields): Members
    requires FormedFields(fields) && ReadableFields(fields)
  {
    match fields
    case LastField(l, d, _) => Member(SpellingMeaning(l.spelling), Meaning(d), End)
    case NextField(l, d, _, _, more) => Member(SpellingMeaning(l.spelling), Meaning(d), FieldsMeaning(more))
  }

  // ----- strings -----

  lemma {:induction false} ClosesScanned(b: seq<byte>)
    ensures Closes(b) <==> JsonString.Scanned(b + [QUOTE])
    decreases |b|
  {
    var s := b + [QUOTE];
    if b != [] && b[0] != QUOTE {
      var n := JsonString.TokenLength(s);
      if n <= |b| {
        assert s[n..] == b[n..] + [QUOTE];
        ClosesScanned(b[n..]);
      }
    }
  }

  /** Pass two on the inside of a string and its closing quote. */
  lemma ReadSpelling(sp: Spelling)
    requires JsonEscapes.AllLoose(sp.pieces)
    ensures var end: seq<byte> := if sp.spill then [QUOTE] else [];
      JsonString.Decode(Body(sp) + [QUOTE])
      == if JsonEscapes.Paired(sp.pieces) then Some(JsonEscapes.Meaning(sp.pieces) + end) else None
  {
    hide JsonEscapes.AllLoose, JsonEscapes.Paired, JsonEscapes.Meaning, JsonEscapes.SpellAll;
    var b := JsonEscapes.SpellAll(sp.pieces);
    var end := if sp.spill then [BACKSLASH, QUOTE] else [QUOTE];
    SpillEnds();
    assert Body(sp) + [QUOTE] == b + end;
    hide JsonString.Decode;
    JsonEscapes.PiecesDecode(sp.pieces, end);
  }

  lemma SpillEnds()
    ensures JsonString.Decode([QUOTE]) == Some([]) && JsonString.Decode([BACKSLASH, QUOTE]) == Some([QUOTE])
  {
    var p: seq<byte> := [BACKSLASH, QUOTE];
    assert JsonString.StepAt(p) == Some(JsonString.Escape([QUOTE], 2));
    assert p[2..] == [] && [QUOTE] + [] == [QUOTE];
  }

  lemma ReadString(sp: Spelling, rest: seq<byte>)
    requires FormedSpelling(sp) && Terminated(rest)
    ensures var s := [QUOTE] + (Body(sp) + ([QUOTE] + rest));
      Terminated(s) && JsonString.ParseString(s)
      == if JsonEscapes.Paired(sp.pieces) then Ok(SpellingMeaning(sp), rest) else Fail
  {
    hide JsonString.Decode, UpToNul, JsonString.CloseQuote, Body, Closes, JsonString.ParseString;
    hide JsonEscapes.AllLoose, JsonEscapes.Paired, JsonEscapes.Meaning;
    var b := Body(sp);
    var s := [QUOTE] + (b + ([QUOTE] + rest));
    JsonString.StringCases(s);
    assert s[1..] == b + [QUOTE] + rest;
    ClosesScanned(b);
    JsonString.ScannedMore(b + [QUOTE], rest);
    ReadSpelling(sp);
    assert s[1..|b| + 2] == b + [QUOTE];
    assert s[|b| + 2..] == rest;
  }

  // ----- everything written is read or refused -----

  /** A value that cannot be read: the parser fails, or it stops inside a number. */
  predicate Stuck(r: Parsed<Value>) {
    r.Ok? ==> r.rest != [] && IsNumberChar(r.rest[0])
  }

  /** What the parser makes of a value in its context. */
  predicate Read(d: Syntax, depth: nat, rest: seq<byte>)
    requires Formed(d)
  {
    var s := Write(d, rest);
    && Terminated(s) && s[0] > 32 && s[0] != RBRACKET && s[0] != RBRACE
    && (if Readable(d) && depth + Nest(d) <= NESTING_LIMIT then ParseValue(s, depth) == Ok(Meaning(d), rest)
        else Stuck(ParseValue(s, depth)))
  }

  lemma BlankFollows(ws: seq<byte>, rest: seq<byte>)
    requires AllSpace(ws) && Follows(rest)
    ensures Follows(ws + rest)
  {}

  lemma ReadWord(c: Constant, depth: nat, rest: seq<byte>)
    requires Follows(rest) && depth <= NESTING_LIMIT
    ensures Read(Word(c), depth, rest)
  {
    var s := WordText(c) + rest;
    assert s[|WordText(c)|..] == rest;
  }

  lemma ReadText(sp: Spelling, depth: nat, rest: seq<byte>)
    requires FormedSpelling(sp) && Follows(rest) && depth <= NESTING_LIMIT
    ensures Read(Text(sp), depth, rest)
  {
    hide ParseValue, JsonString.ParseString, FormedSpelling, SpellingMeaning, Body, JsonEscapes.Paired;
    hide JsonEscapes.AllLoose;
    ReadString(sp, rest);
    ValueAt([QUOTE] + (Body(sp) + ([QUOTE] + rest)), depth);
  }

  lemma ShortNumeral(f: Figure, rest: seq<byte>)
    requires ValidFigure(f) && |FigureText(f)| <= NUMBER_LIMIT && Follows(rest)
    ensures ParseNumber(FigureText(f) + rest) == Ok(FigureValue(f), rest)
  {
    hide Strtod, RunLength, FigureText, FigureValue, ValidFigure;
    var t := FigureText(f);
    ReadFigure(f);
    FigureChars(f);
    RunLengthAll(t, rest, NUMBER_LIMIT);
    assert (t + rest)[..|t|] == t && (t + rest)[|t|..] == rest;
  }

  /** A longer number is cut, and what is left of it starts with a number character. */
  lemma LongNumeral(t: seq<byte>, rest: seq<byte>)
    requires |t| > NUMBER_LIMIT && Terminated(rest) && forall i :: 0 <= i < |t| ==> IsNumberChar(t[i])
    ensures ParseNumber(t + rest).Ok? ==> IsNumberChar(ParseNumber(t + rest).rest[0])
  {
    hide Strtod, IsNumberChar;
    var s := t + rest;
    var x := Strtod(s[..RunLength(s, NUMBER_LIMIT)]);
    if x.Some? {
      assert s[x.value.length] == t[x.value.length];
    }
  }

  lemma ReadNumber(f: Figure, depth: nat, rest: seq<byte>)
    requires ValidFigure(f) && Follows(rest) && depth <= NESTING_LIMIT
    ensures Read(Numeral(f), depth, rest)
  {
    hide ParseValue, ParseNumber, FigureText, FigureValue, ValidFigure;
    var t := FigureText(f);
    FigureHead(f);
    FigureChars(f);
    if |t| <= NUMBER_LIMIT {
      ShortNumeral(f, rest);
    } else {
      LongNumeral(t, rest);
    }
    ValueAt(t + rest, depth);
  }

  lemma {:induction false} ReadValue(d: Syntax, depth: nat, rest: seq<byte>)
    requires Formed(d) && Follows(rest) && depth <= NESTING_LIMIT
    ensures Read(d, depth, rest)
    decreases d, 1
  {
    hide Read, ParseValue, FormedSpelling, ValidFigure;
    match d
    case EmptyList(ws) => ReadList(d, depth, rest);
    case List(ws, items) => ReadList(d, depth, rest);
    case EmptyRecord(ws) => ReadRecord(d, depth, rest);
    case Record(ws, fields) => ReadRecord(d, depth, rest);
    case Word(c) => ReadWord(c, depth, rest);
    case Text(sp) => ReadText(sp, depth, rest);
    case Numeral(f) => ReadNumber(f, depth, rest);
  }

  // ----- arrays -----

  lemma ListAt(s: seq<byte>, ws: seq<byte>, inner: seq<byte>, depth: nat)
    requires AllSpace(ws) && Terminated(inner) && inner[0] > 32 && s == [LBRACKET] + (ws + inner) && Terminated(s)
    ensures ParseValue(s, depth) ==
      if depth >= NESTING_LIMIT then Fail
      else if inner[0] == RBRACKET then Ok(Array(Done), inner[1..]) else AsArray(ParseElems(inner, depth + 1))
  {
    hide SkipSpace, ParseElems, ParseValue;
    assert s[1..] == ws + inner;
    SkipTo(ws, inner);
    ValueAt(s, depth);
  }

  lemma {:induction false} ReadList(d: Syntax, depth: nat, rest: seq<byte>)
    requires Formed(d) && Follows(rest) && depth <= NESTING_LIMIT && (d.EmptyList? || d.List?)
    ensures Read(d, depth, rest)
    decreases d, 0
  {
    hide ParseElems, ParseValue, WriteItems, FormedItems, ItemsMeaning, ReadableItems, NestItems;
    if d.List? {
      var inner := WriteItems(d.items, rest);
      ReadItems(d.items, if depth < NESTING_LIMIT then depth + 1 else depth, rest);
      ListAt([LBRACKET] + (d.ws + inner), d.ws, inner, depth);
    } else {
      var inner := [RBRACKET] + rest;
      assert inner[1..] == rest;
      ListAt([LBRACKET] + (d.ws + inner), d.ws, inner, depth);
    }
  }

  /** Behind a value that stops inside a number, no list and no record goes on. */
  lemma StuckAfter(t: Value, k: seq<byte>, s: seq<byte>, depth: nat)
    requires Terminated(s) && IsNumberChar(s[0])
    ensures ElemsAfter(t, s, depth) == Fail && MembersAfter(k, t, s, depth) == Fail
  {
    hide SkipSpace, ParseElems, ParseMembers;
    SkipNone(s);
  }

  lemma {:induction false} ReadItems(items: Items, depth: nat, rest: seq<byte>)
    requires FormedItems(items) && Terminated(rest) && depth <= NESTING_LIMIT
    ensures var s := WriteItems(items, rest);
      && Terminated(s) && s[0] > 32 && s[0] != RBRACKET
      && ParseElems(s, depth) == if ReadableItems(items) && depth + NestItems(items) <= NESTING_LIMIT
                                 then Ok(ItemsMeaning(items), rest) else Fail
    decreases items, 0
  {
    hide SkipSpace, ParseElems, ParseValue, Formed, Write, Meaning, Readable, Nest, ElemsAfter;
    var after := if items.LastItem? then [RBRACKET] + rest else [COMMA] + (items.lead + WriteItems(items.more, rest));
    if items.NextItem? {
      ReadItems(items.more, depth, rest);
    }
    BlankFollows(items.ws, after);
    ReadValue(items.item, depth, items.ws + after);
    var s := WriteItems(items, rest);
    ElemsStep(s, depth);
    if Readable(items.item) && depth + Nest(items.item) <= NESTING_LIMIT {
      ItemEnd(items, Meaning(items.item), after, depth, rest);
    } else if ParseValue(s, depth).Ok? {
      StuckAfter(ParseValue(s, depth).value, [], ParseValue(s, depth).rest, depth);
    }
  }

  /** Behind an item that was read. */
  lemma ItemEnd(items: Items, t: Value, after: seq<byte>, depth: nat, rest: seq<byte>)
    requires AllSpace(items.ws) && Terminated(rest) && (items.NextItem? ==> AllSpace(items.lead))
    requires items.LastItem? ==> after == [RBRACKET] + rest
    requires items.NextItem? ==> after == [COMMA] + (items.lead + WriteItems(items.more, rest))
    requires items.NextItem? ==> Terminated(WriteItems(items.more, rest)) && WriteItems(items.more, rest)[0] > 32
    requires Terminated(items.ws + after)
    ensures items.LastItem? ==> ElemsAfter(t, items.ws + after, depth) == Ok(Elem(t, Done), rest)
    ensures items.NextItem? ==>
      ElemsAfter(t, items.ws + after, depth) == ConsElem(t, ParseElems(WriteItems(items.more, rest), depth))
  {
    hide SkipSpace, ParseElems, WriteItems;
    SkipTo(items.ws, after);
    if items.LastItem? {
      assert after[1..] == rest;
    } else {
      var next := WriteItems(items.more, rest);
      assert after[1..] == items.lead + next;
      SkipTo(items.lead, next);
    }
  }

  // ----- objects -----

  lemma RecordAt(s: seq<byte>, ws: seq<byte>, inner: seq<byte>, depth: nat)
    requires AllSpace(ws) && Terminated(inner) && inner[0] > 32 && s == [LBRACE] + (ws + inner) && Terminated(s)
    ensures ParseValue(s, depth) ==
      if depth >= NESTING_LIMIT then Fail
      else if inner[0] == RBRACE then Ok(Object(End), inner[1..]) else AsObject(ParseMembers(inner, depth + 1))
  {
    hide SkipSpace, ParseMembers, ParseValue;
    assert s[1..] == ws + inner;
    SkipTo(ws, inner);
    ValueAt(s, depth);
  }

  lemma {:induction false} ReadRecord(d: Syntax, depth: nat, rest: seq<byte>)
    requires Formed(d) && Follows(rest) && depth <= NESTING_LIMIT && (d.EmptyRecord? || d.Record?)
    ensures Read(d, depth, rest)
    decreases d, 0
  {
    hide ParseMembers, ParseValue, WriteFields, FormedFields, FieldsMeaning, ReadableFields, NestFields;
    if d.Record? {
      var inner := WriteFields(d.fields, rest);
      ReadFields(d.fields, if depth < NESTING_LIMIT then depth + 1 else depth, rest);
      RecordAt([LBRACE] + (d.ws + inner), d.ws, inner, depth);
    } else {
      var inner := [RBRACE] + rest;
      assert inner[1..] == rest;
      RecordAt([LBRACE] + (d.ws + inner), d.ws, inner, depth);
    }
  }

  lemma ReadLabel(l: Label, value: seq<byte>)
    requires FormedLabel(l) && Terminated(value) && value[0] > 32
    ensures var s := WriteLabel(l, value);
      Terminated(s) && s[0] == QUOTE && ParseKey(s)
      == if JsonEscapes.Paired(l.spelling.pieces) then Ok(SpellingMeaning(l.spelling), value) else Fail
  {
    hide SkipSpace, JsonString.ParseString, FormedSpelling, SpellingMeaning, Body, JsonEscapes.Paired;
    var colon := [COLON] + (l.lead + value);
    ReadString(l.spelling, l.ws + colon);
    SkipTo(l.ws, colon);
    assert colon[1..] == l.lead + value;
    SkipTo(l.lead, value);
  }

  lemma {:induction false} ReadFields(fields: Fields, depth: nat, rest: seq<byte>)
    requires FormedFields(fields) && Terminated(rest) && depth <= NESTING_LIMIT
    ensures var s := WriteFields(fields, rest);
      && Terminated(s) && s[0] == QUOTE
      && ParseMembers(s, depth) == if ReadableFields(fields) && depth + NestFields(fields) <= NESTING_LIMIT
                                   then Ok(FieldsMeaning(fields), rest) else Fail
    decreases fields, 0
  {
    hide SkipSpace, ParseMembers, ParseValue, ParseKey, WriteLabel, FormedLabel, FormedSpelling, SpellingMeaning;
    hide Formed, Write, Meaning, Readable, Nest, MembersAfter, JsonEscapes.Paired;
    var after := if fields.LastField? then [RBRACE] + rest
                 else [COMMA] + (fields.lead + WriteFields(fields.more, rest));
    if fields.NextField? {
      ReadFields(fields.more, depth, rest);
    }
    BlankFollows(fields.ws, after);
    var value := Write(fields.value, fields.ws + after);
    ReadValue(fields.value, depth, fields.ws + after);
    ReadLabel(fields.key, value);
    var s := WriteFields(fields, rest);
    if !JsonEscapes.Paired(fields.key.spelling.pieces) {
      NoKey(s, depth);
    } else {
      MembersStep(s, depth);
      var k := SpellingKey(fields.key);
      if Readable(fields.value) && depth + Nest(fields.value) <= NESTING_LIMIT {
        FieldEnd(fields, k, Meaning(fields.value), after, depth, rest);
      } else if ParseValue(value, depth).Ok? {
        StuckAfter(ParseValue(value, depth).value, k, ParseValue(value, depth).rest, depth);
      }
    }
  }

  function SpellingKey(l: Label): seq<byte>
    requires FormedLabel(l) && JsonEscapes.Paired(l.spelling.pieces)
  {
    SpellingMeaning(l.spelling)
  }

  lemma NoKey(s: seq<byte>, depth: nat)
    requires Terminated(s) && ParseKey(s) == Fail
    ensures ParseMembers(s, depth) == Fail
  {}

  /** Behind a member that was read. */
  lemma FieldEnd(fields: Fields, k: seq<byte>, t: Value, after: seq<byte>, depth: nat, rest: seq<byte>)
    requires AllSpace(fields.ws) && Terminated(rest) && (fields.NextField? ==> AllSpace(fields.lead))
    requires fields.LastField? ==> after == [RBRACE] + rest
    requires fields.NextField? ==> after == [COMMA] + (fields.lead + WriteFields(fields.more, rest))
    requires fields.NextField? ==> Terminated(WriteFields(fields.more, rest)) && WriteFields(fields.more, rest)[0] > 32
    requires Terminated(fields.ws + after)
    ensures fields.LastField? ==> MembersAfter(k, t, fields.ws + after, depth) == Ok(Member(k, t, End), rest)
    ensures fields.NextField? ==>
      MembersAfter(k, t, fields.ws + after, depth)
      == ConsMember(k, t, ParseMembers(WriteFields(fields.more, rest), depth))
  {
    hide SkipSpace, ParseMembers, WriteFields;
    SkipTo(fields.ws, after);
    if fields.LastField? {
      assert after[1..] == rest;
    } else {
      var next := WriteFields(fields.more, rest);
      assert after[1..] == fields.lead + next;
      SkipTo(fields.lead, next);
    }
  }

  // ----- everything read was written -----

  /** The blanks that are skipped. */
  lemma Skipped(s: seq<byte>) returns (ws: seq<byte>)
    requires Terminated(s)
    ensures AllSpace(ws) && s == ws + SkipSpace(s)
    decreases |s|
  {
    if |s| > 1 && s[0] <= 32 {
      var more := Skipped(s[1..]);
      ws := [s[0]] + more;
    } else {
      ws := [];
    }
  }

  /** What stands behind a value that a comma or a closing byte follows is not part of a number. */
  lemma Separated(s: seq<byte>)
    requires Terminated(s) && !IsNumberChar(SkipSpace(s)[0])
    ensures Follows(s)
  {}

  /** A piece that is no surrogate, or a surrogate pair. */
  predicate OneOrPair(ps: seq<JsonEscapes.Piece>) {
    (|ps| == 1 && !JsonEscapes.HighUnit(ps[0]) && !JsonEscapes.LowUnit(ps[0]))
    || (|ps| == 2 && JsonEscapes.HighUnit(ps[0]) && JsonEscapes.LowUnit(ps[1]))
  }

  /** The pieces at the start of what pass two still has to read. */
  lemma FirstPieces(p: seq<byte>) returns (ps: seq<JsonEscapes.Piece>, n: nat)
    requires |p| > 1 && JsonString.StepAt(p).Some? && !(|p| == 2 && p[0] == BACKSLASH)
    ensures n == JsonString.StepAt(p).value.length < |p| && p[..n] == JsonEscapes.SpellAll(ps)
    ensures JsonEscapes.AllLoose(ps) && JsonEscapes.Paired(ps)
    ensures OneOrPair(ps)
  {
    n := JsonString.StepAt(p).value.length;
    if p[0] != BACKSLASH {
      ps := [JsonEscapes.Raw(p[0])];
    } else if p[1] != LETTER_U {
      ps := [JsonEscapes.Short(p[1])];
    } else if n == 6 {
      ps := [JsonEscapes.Unit(p[2..6])];
    } else {
      ps := [JsonEscapes.Unit(p[2..6]), JsonEscapes.Unit(p[8..12])];
    }
    SpellFew(ps);
    hide JsonEscapes.SpellAll, JsonEscapes.Paired;
    assert |ps| == 2 ==> p[..12] == [BACKSLASH, LETTER_U] + p[2..6] + ([BACKSLASH, LETTER_U] + p[8..12]);
    assert n == 6 ==> p[..6] == [BACKSLASH, LETTER_U] + p[2..6];
  }

  lemma SpellFew(ps: seq<JsonEscapes.Piece>)
    ensures |ps| == 1 ==> JsonEscapes.SpellAll(ps) == JsonEscapes.Spell(ps[0])
    ensures |ps| == 2 ==> JsonEscapes.SpellAll(ps) == JsonEscapes.Spell(ps[0]) + JsonEscapes.Spell(ps[1])
    ensures OneOrPair(ps) ==> JsonEscapes.Paired(ps)
  {
    hide JsonEscapes.Spell;
    if |ps| == 1 {
      assert JsonEscapes.SpellAll(ps[1..]) == [];
      assert JsonEscapes.Spell(ps[0]) + [] == JsonEscapes.Spell(ps[0]);
    } else if |ps| == 2 {
      assert ps[1..][0] == ps[1] && ps[1..][1..] == [];
      assert JsonEscapes.Spell(ps[1]) + [] == JsonEscapes.Spell(ps[1]);
      assert JsonEscapes.SpellAll(ps[1..]) == JsonEscapes.Spell(ps[1]);
    }
  }

  /** Pieces behind one more piece, or one more pair. */
  lemma MorePieces(ps: seq<JsonEscapes.Piece>, qs: seq<JsonEscapes.Piece>)
    requires JsonEscapes.AllLoose(ps) && JsonEscapes.AllLoose(qs) && JsonEscapes.Paired(qs)
    requires OneOrPair(ps)
    ensures JsonEscapes.AllLoose(ps + qs) && JsonEscapes.Paired(ps + qs)
    ensures JsonEscapes.SpellAll(ps + qs) == JsonEscapes.SpellAll(ps) + JsonEscapes.SpellAll(qs)
  {
    hide JsonEscapes.Spell, JsonEscapes.HighUnit, JsonEscapes.LowUnit, JsonEscapes.Loose;
    var all := ps + qs;
    SpellFew(ps);
    if |ps| == 1 {
      assert all[1..] == qs;
    } else {
      assert all[1..] == [ps[1]] + qs && all[2..] == qs && all[1..][1..] == qs;
      Assoc(JsonEscapes.Spell(ps[0]), JsonEscapes.Spell(ps[1]), JsonEscapes.SpellAll(qs));
    }
  }

  lemma {:induction false} FindPieces(p: seq<byte>) returns (sp: Spelling)
    requires p != [] && p[|p| - 1] == QUOTE && JsonString.Decode(p).Some?
    ensures JsonEscapes.AllLoose(sp.pieces) && JsonEscapes.Paired(sp.pieces) && Body(sp) + [QUOTE] == p
    decreases |p|
  {
    hide JsonString.StepAt, JsonString.Decode, JsonEscapes.SpellAll, JsonEscapes.Paired, JsonEscapes.AllLoose;
    if |p| == 1 {
      sp := Spelling([], false);
      NoPieces(p, sp);
    } else if |p| == 2 && p[0] == BACKSLASH {
      sp := Spelling([], true);
      NoPieces(p, sp);
    } else {
      assert JsonString.StepAt(p).Some? by { DecodeSteps(p); }
      var ps, n := FirstPieces(p);
      DecodeTail(p, n);
      var more := FindPieces(p[n..]);
      MorePieces(ps, more.pieces);
      sp := Spelling(ps + more.pieces, more.spill);
      var end: seq<byte> := if sp.spill then [BACKSLASH] else [];
      Assoc(JsonEscapes.SpellAll(ps), JsonEscapes.SpellAll(more.pieces), end);
      Assoc(JsonEscapes.SpellAll(ps), Body(more), [QUOTE]);
      assert p == p[..n] + p[n..];
    }
  }

  lemma NoPieces(p: seq<byte>, sp: Spelling)
    requires p == (if sp.spill then [BACKSLASH, QUOTE] else [QUOTE]) && sp.pieces == []
    ensures JsonEscapes.AllLoose(sp.pieces) && JsonEscapes.Paired(sp.pieces) && Body(sp) + [QUOTE] == p
  {}

  lemma DecodeSteps(p: seq<byte>)
    requires |p| > 1 && JsonString.Decode(p).Some?
    ensures JsonString.StepAt(p).Some?
  {
    hide JsonString.StepAt;
  }

  lemma DecodeTail(p: seq<byte>, n: nat)
    requires |p| > 1 && JsonString.Decode(p).Some? && JsonString.StepAt(p).Some?
    requires n == JsonString.StepAt(p).value.length < |p|
    ensures JsonString.Decode(p[n..]).Some?
  {
    hide JsonString.StepAt;
  }

  lemma FindString(s: seq<byte>) returns (sp: Spelling)
    requires Terminated(s) && JsonString.ParseString(s).Ok?
    ensures var r := JsonString.ParseString(s);
      && FormedSpelling(sp) && JsonEscapes.Paired(sp.pieces) && SpellingMeaning(sp) == r.value
      && s == [QUOTE] + (Body(sp) + ([QUOTE] + r.rest))
  {
    hide JsonString.Decode, UpToNul, JsonString.CloseQuote, JsonString.ParseString, Body, Closes;
    hide JsonEscapes.AllLoose, JsonEscapes.Paired, JsonEscapes.Meaning;
    JsonString.StringCases(s);
    var t := s[1..];
    var k := JsonString.CloseQuote(t).value;
    JsonString.ClosedScan(t);
    var p := t[..k + 1];
    assert p == s[1..k + 2];
    sp := FindPieces(p);
    ReadSpelling(sp);
    ClosesScanned(Body(sp));
    assert s == [QUOTE] + (p + s[k + 2..]);
    Assoc(Body(sp), [QUOTE], s[k + 2..]);
  }

  lemma FindNumeral(s: seq<byte>) returns (f: Figure)
    requires Terminated(s) && ParseNumber(s).Ok? && Follows(ParseNumber(s).rest) && (s[0] == MINUS || IsDigit(s[0]))
    ensures ValidFigure(f) && |FigureText(f)| <= NUMBER_LIMIT && FigureValue(f) == ParseNumber(s).value
    ensures s == FigureText(f) + ParseNumber(s).rest
  {
    hide Strtod, ValidFigure, FigureText, FigureValue;
    var n := RunLength(s, NUMBER_LIMIT);
    var x := Strtod(s[..n]).value;
    var rest := ParseNumber(s).rest;
    assert rest == s[x.length..] && rest[0] == s[x.length];
    assert x.length == n;
    hide RunLength;
    assert s[..n] + s[n..] == s;
    f := FindFigure(s[..n]);
    ReadFigure(f);
  }

  lemma FindWord(s: seq<byte>, depth: nat) returns (c: Constant)
    requires Terminated(s) && (NULL_TEXT <= s || TRUE_TEXT <= s || FALSE_TEXT <= s)
    ensures ParseValue(s, depth) == Ok(WordMeaning(c), ParseValue(s, depth).rest)
    ensures s == WordText(c) + ParseValue(s, depth).rest
  {
    c := if NULL_TEXT <= s then NullWord else if TRUE_TEXT <= s then TrueWord else FalseWord;
  }

  /** The first byte of a value that is not a word. */
  lemma OtherHead(s: seq<byte>, depth: nat)
    requires Terminated(s) && ParseValue(s, depth).Ok? && !(NULL_TEXT <= s || TRUE_TEXT <= s || FALSE_TEXT <= s)
    ensures s[0] == QUOTE || s[0] == MINUS || IsDigit(s[0]) || s[0] == LBRACKET || s[0] == LBRACE
  {}

  /** `d` is a tree for what the parser read. */
  predicate Found(d: Syntax, s: seq<byte>, t: Value, rest: seq<byte>) {
    Formed(d) && Readable(d) && Meaning(d) == t && s == Write(d, rest)
  }

  lemma {:induction false} FindValue(s: seq<byte>, depth: nat) returns (d: Syntax)
    requires Terminated(s) && ParseValue(s, depth).Ok? && Follows(ParseValue(s, depth).rest)
    ensures Found(d, s, ParseValue(s, depth).value, ParseValue(s, depth).rest)
    decreases |s|, 1
  {
    hide ParseValue, JsonString.ParseString, ParseNumber, ParseArray, ParseObject, FormedSpelling, ValidFigure;
    hide FigureText, FigureValue, Body, SpellingMeaning, JsonEscapes.Paired;
    if NULL_TEXT <= s || TRUE_TEXT <= s || FALSE_TEXT <= s {
      var c := FindWord(s, depth);
      d := Word(c);
      return;
    }
    OtherHead(s, depth);
    ValueAt(s, depth);
    if s[0] == QUOTE {
      var sp := FindString(s);
      d := Text(sp);
    } else if s[0] == LBRACKET {
      hide Found;
      d := FindList(s, depth);
    } else if s[0] == LBRACE {
      hide Found;
      d := FindRecord(s, depth);
    } else {
      var f := FindNumeral(s);
      d := Numeral(f);
    }
  }

  lemma {:induction false} FindList(s: seq<byte>, depth: nat) returns (d: Syntax)
    requires Terminated(s) && s[0] == LBRACKET && ParseArray(s, depth).Ok?
    ensures Found(d, s, Array(ParseArray(s, depth).value), ParseArray(s, depth).rest)
    decreases |s|, 0
  {
    hide SkipSpace, ParseElems, WriteItems, FormedItems, ItemsMeaning, ReadableItems;
    var first := SkipSpace(s[1..]);
    var ws := Skipped(s[1..]);
    assert s == [LBRACKET] + s[1..];
    if first[0] == RBRACKET {
      assert first == [RBRACKET] + first[1..];
      d := EmptyList(ws);
    } else {
      var items := FindItems(first, depth + 1);
      d := List(ws, items);
    }
  }

  lemma {:induction false} FindItems(s: seq<byte>, depth: nat) returns (items: Items)
    requires Terminated(s) && ParseElems(s, depth).Ok?
    ensures FormedItems(items) && ReadableItems(items) && ItemsMeaning(items) == ParseElems(s, depth).value
    ensures s == WriteItems(items, ParseElems(s, depth).rest)
    decreases |s|, 2
  {
    hide SkipSpace, ParseElems, ParseValue, Formed, Readable, Meaning, Write;
    ElemsStep(s, depth);
    var v := ParseValue(s, depth);
    var next := SkipSpace(v.rest);
    var ws := Skipped(v.rest);
    Separated(v.rest);
    var d := FindValue(s, depth);
    assert next == [next[0]] + next[1..];
    if next[0] == COMMA {
      var lead := Skipped(next[1..]);
      var more := FindItems(SkipSpace(next[1..]), depth);
      items := NextItem(d, ws, lead, more);
    } else {
      items := LastItem(d, ws);
    }
  }

  lemma {:induction false} FindRecord(s: seq<byte>, depth: nat) returns (d: Syntax)
    requires Terminated(s) && s[0] == LBRACE && ParseObject(s, depth).Ok?
    ensures Found(d, s, Object(ParseObject(s, depth).value), ParseObject(s, depth).rest)
    decreases |s|, 0
  {
    hide SkipSpace, ParseMembers, WriteFields, FormedFields, FieldsMeaning, ReadableFields;
    var first := SkipSpace(s[1..]);
    var ws := Skipped(s[1..]);
    assert s == [LBRACE] + s[1..];
    if first[0] == RBRACE {
      assert first == [RBRACE] + first[1..];
      d := EmptyRecord(ws);
    } else {
      var fields := FindFields(first, depth + 1);
      d := Record(ws, fields);
    }
  }

  lemma FindLabel(s: seq<byte>) returns (l: Label)
    requires Terminated(s) && ParseKey(s).Ok?
    ensures FormedLabel(l) && JsonEscapes.Paired(l.spelling.pieces) && SpellingKey(l) == ParseKey(s).value
    ensures s == WriteLabel(l, ParseKey(s).rest)
  {
    hide SkipSpace, JsonString.ParseString, FormedSpelling, SpellingMeaning, Body, JsonEscapes.Paired;
    var rest := JsonString.ParseString(s).rest;
    var sp := FindString(s);
    var ws := Skipped(rest);
    var colon := SkipSpace(rest);
    assert colon == [COLON] + colon[1..];
    var lead := Skipped(colon[1..]);
    l := Label(sp, ws, lead);
  }

  lemma {:induction false} FindFields(s: seq<byte>, depth: nat) returns (fields: Fields)
    requires Terminated(s) && ParseMembers(s, depth).Ok?
    ensures FormedFields(fields) && ReadableFields(fields) && FieldsMeaning(fields) == ParseMembers(s, depth).value
    ensures s == WriteFields(fields, ParseMembers(s, depth).rest)
    decreases |s|, 2
  {
    hide SkipSpace, ParseMembers, ParseValue, ParseKey, FormedLabel, SpellingMeaning, WriteLabel, JsonEscapes.Paired;
    hide Formed, Readable, Meaning, Write;
    KeyRead(s, depth);
    MembersStep(s, depth);
    var k := ParseKey(s);
    var l := FindLabel(s);
    var v := ParseValue(k.rest, depth);
    var next := SkipSpace(v.rest);
    var ws := Skipped(v.rest);
    Separated(v.rest);
    var d := FindValue(k.rest, depth);
    assert next == [next[0]] + next[1..];
    if next[0] == COMMA {
      var lead := Skipped(next[1..]);
      var more := FindFields(SkipSpace(next[1..]), depth);
      fields := NextField(l, d, ws, lead, more);
    } else {
      fields := LastField(l, d, ws);
    }
  }

  lemma KeyRead(s: seq<byte>, depth: nat)
    requires Terminated(s) && ParseMembers(s, depth).Ok?
    ensures ParseKey(s).Ok?
  {}

  // ----- whole texts -----

  /** A value with the blanks around it. */
  datatype Document = Document(lead: seq<byte>, value: Syntax, ws: seq<byte>)

  function DocumentText(doc: Document): seq<byte> {
    doc.lead + Write(doc.value, doc.ws + [0])
  }

  predicate FormedDocument(doc: Document) {
    AllSpace(doc.lead) && Formed(doc.value) && AllSpace(doc.ws)
  }

  /**
   * cJSON_ParseWithOpts with the end check on any text with a syntax tree: it is accepted, as what it means, if and
   * only if its surrogates are paired, its numbers have at most 63 characters and at most 1000 containers nest.
   */
  lemma FormedExact(doc: Document)
    requires FormedDocument(doc)
    ensures Terminated(DocumentText(doc))
    ensures ParseText(DocumentText(doc), true)
         == if Readable(doc.value) && Nest(doc.value) <= 1000 then Ok(Meaning(doc.value), [0]) else Fail
  {
    hide SkipSpace, ParseValue, Formed, Write, Readable, Nest, Meaning;
    var s := Write(doc.value, doc.ws + [0]);
    BlankFollows(doc.ws, [0]);
    ReadValue(doc.value, 0, doc.ws + [0]);
    SkipTo(doc.lead, s);
    SkipTo(doc.ws, [0]);
    if ParseValue(s, 0).Ok? && IsNumberChar(ParseValue(s, 0).rest[0]) {
      SkipNone(ParseValue(s, 0).rest);
    }
  }

  /** `doc` is written as `s`, can be read and means `t`. */
  predicate Spells(doc: Document, s: seq<byte>, t: Value) {
    FormedDocument(doc) && s == DocumentText(doc)
    && Readable(doc.value) && Nest(doc.value) <= 1000 && Meaning(doc.value) == t
  }

  /** Every accepted text has a syntax tree. */
  lemma AcceptedIsSpelled(s: seq<byte>, t: Value) returns (doc: Document)
    requires Terminated(s) && ParseText(s, true) == Ok(t, [0])
    ensures Spells(doc, s, t)
  {
    hide SkipSpace, ParseValue, Formed, Write, Readable, Nest, Meaning;
    var start := SkipSpace(s);
    var lead := Skipped(s);
    var rest := ParseValue(start, 0).rest;
    var ws := Skipped(rest);
    Separated(rest);
    var d := FindValue(start, 0);
    doc := Document(lead, d, ws);
    FormedExact(doc);
  }

  /** cJSON_ParseWithOpts with the end check accepts exactly the readable texts of this grammar, as what they mean. */
  lemma AcceptsExactly(s: seq<byte>, t: Value)
    requires Terminated(s)
    ensures ParseText(s, true) == Ok(t, [0]) <==> exists doc :: Spells(doc, s, t)
  {
    hide ParseText, FormedDocument, DocumentText, Readable, Nest, Meaning;
    if ParseText(s, true) == Ok(t, [0]) {
      var doc := AcceptedIsSpelled(s, t);
    }
    if doc :| Spells(doc, s, t) {
      FormedExact(doc);
    }
  }

  /** A value with the blanks in front of it, when the text goes on with `rest`. */
  predicate Starts(lead: seq<byte>, d: Syntax, s: seq<byte>, t: Value, rest: seq<byte>) {
    AllSpace(lead) && Formed(d) && Readable(d) && Nest(d) <= 1000 && Meaning(d) == t && s == lead + Write(d, rest)
  }

  /** Without the end check, whatever follows the value is left as it is, unless it could go on with a number. */
  lemma PrefixExact(s: seq<byte>, t: Value, rest: seq<byte>)
    requires Terminated(s) && Follows(rest)
    ensures ParseText(s, false) == Ok(t, rest) <==> exists lead, d :: Starts(lead, d, s, t, rest)
  {
    hide ParseValue, SkipSpace, Formed, Write, Readable, Nest, Meaning, AllSpace, Follows;
    if ParseText(s, false) == Ok(t, rest) {
      var start := SkipSpace(s);
      var lead := Skipped(s);
      var d := FindValue(start, 0);
      ReadValue(d, 0, rest);
      StuckNot(rest);
      assert Starts(lead, d, s, t, rest);
    }
    if lead, d :| Starts(lead, d, s, t, rest) {
      ReadValue(d, 0, rest);
      SkipTo(lead, Write(d, rest));
    }
  }

  lemma StuckNot(rest: seq<byte>)
    requires Follows(rest)
    ensures rest != [] && !IsNumberChar(rest[0])
  {}
}
