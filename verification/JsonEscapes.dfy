/**
 * The ways to write a string literal, piece by piece: bytes as they are, one-letter escapes and \u units. With hex
 * digits in every unit these are the strings of section 7 of RFC 8259; parse_string reads exactly those whose
 * surrogate units are paired.
 */
module JsonEscapes {
  import opened Bytes
  import opened JsonString

  datatype Piece = Raw(b: byte) | Short(letter: byte) | Unit(hex: seq<byte>)

  predicate HexUnit(h: seq<byte>) {
    |h| == 4 && forall i :: 0 <= i < 4 ==> IsHex(h[i])
  }

  /** What pass two can meet: any byte but a backslash, a known letter, or four bytes of whatever kind. */
  predicate Loose(p: Piece) {
    match p
    case Raw(b) => b != BACKSLASH
    case Short(l) => ShortEscape(l).Some?
    case Unit(h) => |h| == 4
  }

  /** A piece that both passes see as one: no quote as it is, and hex digits in a unit. */
  predicate InStep(p: Piece) {
    match p
    case Raw(b) => b != QUOTE && b != BACKSLASH
    case Short(l) => ShortEscape(l).Some?
    case Unit(h) => HexUnit(h)
  }

  predicate AllLoose(ps: seq<Piece>) {
    forall i :: 0 <= i < |ps| ==> Loose(ps[i])
  }

  predicate AllInStep(ps: seq<Piece>) {
    forall i :: 0 <= i < |ps| ==> InStep(ps[i])
  }

  // ----- spelling and meaning -----

  function Spell(p: Piece): seq<byte> {
    match p
    case Raw(b) => [b]
    case Short(l) => [BACKSLASH, l]
    case Unit(h) => [BACKSLASH, LETTER_U] + h
  }

  function SpellAll(ps: seq<Piece>): seq<byte> {
    if ps == [] then [] else Spell(ps[0]) + SpellAll(ps[1..])
  }

  predicate HighUnit(p: Piece) { p.Unit? && |p.hex| == 4 && IsHigh(Hex4(p.hex)) }

  predicate LowUnit(p: Piece) { p.Unit? && |p.hex| == 4 && IsLow(Hex4(p.hex)) }

  /** Every high surrogate is followed by a low one, and there is no other low one. */
  predicate Paired(ps: seq<Piece>) {
    ps == []
    || (if HighUnit(ps[0]) then |ps| > 1 && LowUnit(ps[1]) && Paired(ps[2..])
        else !LowUnit(ps[0]) && Paired(ps[1..]))
  }

  /** What a piece stands for by itself; a unit with a bad digit stands for NUL. */
  function PieceMeaning(p: Piece): seq<byte>
    requires Loose(p)
  {
    match p
    case Raw(b) => [b]
    case Short(l) => [ShortEscape(l).value]
    case Unit(h) => Utf8(Hex4(h))
  }

  function Meaning(ps: seq<Piece>): seq<byte>
    requires AllLoose(ps) && Paired(ps)
  {
    if ps == [] then []
    else if HighUnit(ps[0]) then Utf8(PairCode(Hex4(ps[0].hex), Hex4(ps[1].hex))) + Meaning(ps[2..])
    else PieceMeaning(ps[0]) + Meaning(ps[1..])
  }

  lemma InStepIsLoose(ps: seq<Piece>)
    requires AllInStep(ps)
    ensures AllLoose(ps)
  {}

  lemma SpellStep(ps: seq<Piece>)
    ensures SpellAll(ps) == if ps == [] then [] else Spell(ps[0]) + SpellAll(ps[1..])
  {}

  // ----- pass one -----

  lemma {:induction false} CloseQuoteSkips(u: seq<byte>, rest: seq<byte>)
    requires forall i :: 0 <= i < |u| ==> u[i] != QUOTE && u[i] != BACKSLASH
    ensures CloseQuote(u + rest) == Shift(CloseQuote(rest), |u|)
  {
    if u == [] {
      assert u + rest == rest;
    } else {
      assert (u + rest)[1..] == u[1..] + rest;
      CloseQuoteSkips(u[1..], rest);
    }
  }

  lemma CloseQuoteUnit(h: seq<byte>, rest: seq<byte>)
    requires HexUnit(h)
    ensures CloseQuote([BACKSLASH, LETTER_U] + h + rest) == Shift(CloseQuote(rest), 6)
  {
    var s := [BACKSLASH, LETTER_U] + h + rest;
    assert s[2..] == h + rest;
    CloseQuoteSkips(h, rest);
  }

  lemma CloseQuotePiece(p: Piece, rest: seq<byte>)
    requires InStep(p)
    ensures CloseQuote(Spell(p) + rest) == Shift(CloseQuote(rest), |Spell(p)|)
  {
    match p
    case Raw(b) => CloseQuoteSkips([b], rest);
    case Short(l) => assert (Spell(p) + rest)[2..] == rest;
    case Unit(h) => CloseQuoteUnit(h, rest);
  }

  lemma {:induction false} PiecesScan(ps: seq<Piece>, rest: seq<byte>)
    requires AllInStep(ps)
    ensures CloseQuote(SpellAll(ps) + rest) == Shift(CloseQuote(rest), |SpellAll(ps)|)
  {
    hide SpellAll, CloseQuote, Spell, InStep;
    SpellStep(ps);
    if ps == [] {
      assert SpellAll(ps) + rest == rest;
    } else {
      var tail := SpellAll(ps[1..]);
      PiecesScan(ps[1..], rest);
      CloseQuotePiece(ps[0], tail + rest);
      Assoc(Spell(ps[0]), tail, rest);
    }
  }

  /** At the closing quote both passes stop. */
  lemma QuoteEnds(rest: seq<byte>)
    ensures CloseQuote([QUOTE] + rest) == Some(0) && Decode([QUOTE]) == Some([])
  {}

  // ----- pass two -----

  /** A low surrogate unit that a high one could pair with. */
  predicate LowNext(s: seq<byte>) {
    |s| >= 7 && s[0] == BACKSLASH && s[1] == LETTER_U && IsLow(Hex4(s[2..6]))
  }

  lemma DecodeOne(p: Piece, rest: seq<byte>)
    requires Loose(p) && !HighUnit(p) && !LowUnit(p) && rest != []
    ensures Decode(Spell(p) + rest) == Prepend(PieceMeaning(p), Decode(rest))
  {
    var s := Spell(p) + rest;
    assert s[|Spell(p)|..] == rest;
    assert p.Unit? ==> s[2..6] == p.hex;
  }

  lemma DecodePair(p: Piece, q: Piece, rest: seq<byte>)
    requires HighUnit(p) && LowUnit(q) && rest != []
    ensures Decode(Spell(p) + (Spell(q) + rest)) == Prepend(Utf8(PairCode(Hex4(p.hex), Hex4(q.hex))), Decode(rest))
  {
    var s := Spell(p) + (Spell(q) + rest);
    assert s[12..] == rest;
    assert s[2..6] == p.hex && s[8..12] == q.hex;
    assert s[6] == BACKSLASH && s[7] == LETTER_U;
  }

  lemma DecodeLow(p: Piece, rest: seq<byte>)
    requires LowUnit(p) && rest != []
    ensures Decode(Spell(p) + rest) == None
  {
    var s := Spell(p) + rest;
    assert s[2..6] == p.hex;
  }

  lemma DecodeHigh(p: Piece, rest: seq<byte>)
    requires HighUnit(p) && rest != [] && !LowNext(rest)
    ensures Decode(Spell(p) + rest) == None
  {
    var s := Spell(p) + rest;
    assert s[2..6] == p.hex;
    assert |rest| >= 7 ==> s[6] == rest[0] && s[7] == rest[1] && s[8..12] == rest[2..6];
  }

  /** What stands behind a high surrogate that the next piece does not pair. */
  lemma NotLowNext(ps: seq<Piece>, rest: seq<byte>)
    requires AllLoose(ps) && (ps == [] || !LowUnit(ps[0])) && (ps == [] ==> |rest| <= 2)
    ensures !LowNext(SpellAll(ps) + rest)
  {
    SpellStep(ps);
    if ps == [] {
      assert SpellAll(ps) + rest == rest;
    } else {
      var tail := SpellAll(ps[1..]) + rest;
      Assoc(Spell(ps[0]), SpellAll(ps[1..]), rest);
      hide SpellAll;
      var s := Spell(ps[0]) + tail;
      assert ps[0].Unit? ==> s[2..6] == ps[0].hex;
    }
  }

  /**
   * Pass two on any pieces: their meaning when surrogates are paired; otherwise, when no more than an escaped quote
   * follows, failure.
   */
  lemma {:induction false} PiecesDecode(ps: seq<Piece>, rest: seq<byte>)
    requires AllLoose(ps) && rest != []
    ensures Paired(ps) ==> Decode(SpellAll(ps) + rest) == Prepend(Meaning(ps), Decode(rest))
    ensures !Paired(ps) && |rest| <= 2 ==> Decode(SpellAll(ps) + rest) == None
    decreases |ps|, 1
  {
    hide SpellAll, Decode, Spell, Loose, HighUnit, LowUnit, PieceMeaning;
    SpellStep(ps);
    if ps == [] {
      assert SpellAll(ps) + rest == rest;
      assert Decode(rest).Some? ==> [] + Decode(rest).value == Decode(rest).value;
    } else {
      var tail := SpellAll(ps[1..]);
      Assoc(Spell(ps[0]), tail, rest);
      assert AllLoose(ps[1..]);
      if LowUnit(ps[0]) {
        LowIsNotHigh(ps[0]);
        DecodeLow(ps[0], tail + rest);
      } else if !HighUnit(ps[0]) {
        PiecesDecode(ps[1..], rest);
        DecodeOne(ps[0], tail + rest);
        PrependAll(PieceMeaning(ps[0]), ps[1..], rest);
      } else if |ps| > 1 && LowUnit(ps[1]) {
        PairsDecode(ps, rest);
      } else {
        assert ps[1..] != [] ==> ps[1..][0] == ps[1];
        if |rest| <= 2 {
          NotLowNext(ps[1..], rest);
          DecodeHigh(ps[0], tail + rest);
        }
      }
    }
  }

  lemma LowIsNotHigh(p: Piece)
    requires LowUnit(p)
    ensures !HighUnit(p)
  {}

  lemma PairsDecode(ps: seq<Piece>, rest: seq<byte>)
    requires AllLoose(ps) && rest != [] && |ps| > 1 && HighUnit(ps[0]) && LowUnit(ps[1])
    ensures Paired(ps) ==> Decode(SpellAll(ps) + rest) == Prepend(Meaning(ps), Decode(rest))
    ensures !Paired(ps) && |rest| <= 2 ==> Decode(SpellAll(ps) + rest) == None
    decreases |ps|, 0
  {
    hide SpellAll, Decode, Spell, Loose, HighUnit, LowUnit;
    var after := ps[2..];
    assert AllLoose(after);
    assert ps[1..][0] == ps[1] && ps[1..][1..] == after;
    SpellStep(ps);
    SpellStep(ps[1..]);
    var tail := SpellAll(after);
    Assoc(Spell(ps[0]), SpellAll(ps[1..]), rest);
    Assoc(Spell(ps[1]), tail, rest);
    PiecesDecode(after, rest);
    DecodePair(ps[0], ps[1], tail + rest);
    PrependAll(Utf8(PairCode(Hex4(ps[0].hex), Hex4(ps[1].hex))), after, rest) by { PairHex(ps[0], ps[1]); }
  }

  lemma PairHex(p: Piece, q: Piece)
    requires HighUnit(p) && LowUnit(q)
    ensures p.Unit? && q.Unit? && |p.hex| == 4 == |q.hex| && IsHigh(Hex4(p.hex)) && IsLow(Hex4(q.hex))
  {}

  /** Prepending in two steps. */
  lemma PrependAll(a: seq<byte>, ps: seq<Piece>, rest: seq<byte>)
    requires AllLoose(ps)
    ensures Paired(ps) ==> Prepend(a, Prepend(Meaning(ps), Decode(rest))) == Prepend(a + Meaning(ps), Decode(rest))
  {
    hide Meaning, Decode;
    if Paired(ps) && Decode(rest).Some? {
      Assoc(a, Meaning(ps), Decode(rest).value);
    }
  }

  // ----- literals -----

  /** A string literal written piece by piece. */
  function Literal(ps: seq<Piece>): seq<byte> {
    [QUOTE] + SpellAll(ps) + [QUOTE]
  }

  /**
   * A literal of pieces in step, and so every string of section 7 of RFC 8259, is read if and only if its surrogate
   * units are paired: as the bytes it means, up to the first NUL among them since the result is a C string, and no
   * more than the literal is consumed. Otherwise it is refused.
   */
  lemma LiteralExact(ps: seq<Piece>, rest: seq<byte>)
    requires AllInStep(ps) && Terminated(rest)
    ensures AllLoose(ps)
    ensures ParseString(Literal(ps) + rest) == if Paired(ps) then Ok(UpToNul(Meaning(ps)), rest) else Fail
  {
    hide CloseQuote, Decode, SpellAll, Meaning, Paired, AllInStep, AllLoose, UpToNul;
    InStepIsLoose(ps);
    var s := Literal(ps) + rest;
    var n := |SpellAll(ps)|;
    assert s[1..] == SpellAll(ps) + ([QUOTE] + rest);
    QuoteEnds(rest);
    PiecesScan(ps, [QUOTE] + rest);
    assert s[1..n + 2] == SpellAll(ps) + [QUOTE];
    PiecesDecode(ps, [QUOTE]);
    assert Paired(ps) ==> Meaning(ps) + [] == Meaning(ps);
    assert s[n + 2..] == rest;
  }

  // ----- code points -----

  /** A Unicode scalar value other than NUL. */
  predicate Scalar(cp: nat) {
    0 < cp <= 0x10FFFF && !(0xD800 <= cp <= 0xDFFF)
  }

  predicate AllScalar(cps: seq<nat>) {
    forall i :: 0 <= i < |cps| ==> Scalar(cps[i])
  }

  /** A \u escape whose four digits, of either case, stand for `u`. */
  ghost predicate UnitOf(p: Piece, u: nat) {
    p.Unit? && StandsFor(p.hex, u)
  }

  lemma UnitReads(p: Piece, u: nat)
    requires UnitOf(p, u)
    ensures p.Unit? && HexUnit(p.hex) && Hex4(p.hex) == u
  {
    hide StandsFor, IsHex, Hex4;
    FourDigits(p.hex, u);
    Hex4Exact(p.hex, u);
  }

  lemma FourDigits(h: seq<byte>, u: nat)
    requires StandsFor(h, u)
    ensures |h| == 4
  {}

  /** How section 2.2 of RFC 2781 and section 7 of RFC 8259 write code points with \u escapes: one unit each, or two. */
  ghost predicate Writes(ps: seq<Piece>, cps: seq<nat>)
    decreases |cps|
  {
    if cps == [] then ps == []
    else if cps[0] < 0x10000 then ps != [] && UnitOf(ps[0], cps[0]) && Writes(ps[1..], cps[1..])
    else
      |ps| > 1 && UnitOf(ps[0], 0xD800 + (cps[0] - 0x10000) / 0x400)
      && UnitOf(ps[1], 0xDC00 + (cps[0] - 0x10000) % 0x400) && Writes(ps[2..], cps[1..])
  }

  function Utf8All(cps: seq<nat>): (r: seq<byte>)
    requires AllScalar(cps)
    ensures NulFree(r)
  {
    if cps == [] then []
    else
      assert Scalar(cps[0]);
      NulFreeConcat(Utf8(cps[0]), Utf8All(cps[1..]));
      Utf8(cps[0]) + Utf8All(cps[1..])
  }

  lemma {:induction false} CodePointsMean(ps: seq<Piece>, cps: seq<nat>)
    requires AllScalar(cps) && Writes(ps, cps)
    ensures AllInStep(ps) && AllLoose(ps) && Paired(ps) && Meaning(ps) == Utf8All(cps)
    decreases |cps|
  {
    hide Utf8, Hex4, UnitOf;
    if cps != [] {
      assert Scalar(cps[0]);
      UnitReads(ps[0], if cps[0] < 0x10000 then cps[0] else 0xD800 + (cps[0] - 0x10000) / 0x400);
      if cps[0] >= 0x10000 {
        UnitReads(ps[1], 0xDC00 + (cps[0] - 0x10000) % 0x400);
      }
      var n := if cps[0] < 0x10000 then 1 else 2;
      CodePointsMean(ps[n..], cps[1..]);
      assert ps == ps[..n] + ps[n..];
      if n == 2 {
        PairOf(cps[0]);
      }
    }
  }

  lemma PairOf(cp: nat)
    requires 0x10000 <= cp <= 0x10FFFF
    ensures var hi, lo := 0xD800 + (cp - 0x10000) / 0x400, 0xDC00 + (cp - 0x10000) % 0x400;
      IsHigh(hi) && IsLow(lo) && PairCode(hi, lo) == cp
  {}

  /** Any sequence of non-zero code points, escaped in either hex case, is read as its UTF-8 encoding. */
  lemma CodePointsDecode(ps: seq<Piece>, cps: seq<nat>, rest: seq<byte>)
    requires AllScalar(cps) && Writes(ps, cps) && Terminated(rest)
    ensures ParseString(Literal(ps) + rest) == Ok(Utf8All(cps), rest)
  {
    hide ParseString, Meaning, Utf8All, UpToNul, Literal;
    CodePointsMean(ps, cps);
    LiteralExact(ps, rest);
    UpToNulIdentity(Utf8All(cps));
  }

  // ----- surrogates without a partner -----

  /** `u` starts with a \u escape of an unpaired surrogate: a low half, or a high half without a low half after it. */
  predicate Unpaired(u: seq<byte>) {
    |u| >= 6 && u[0] == BACKSLASH && u[1] == LETTER_U && HexUnit(u[2..6])
    && (IsLow(Hex4(u[2..6]))
        || (IsHigh(Hex4(u[2..6]))
            && !(|u| >= 12 && u[6] == BACKSLASH && u[7] == LETTER_U && HexUnit(u[8..12]) && IsLow(Hex4(u[8..12])))))
  }

  lemma UnpairedCut(u: seq<byte>, n: nat)
    requires Unpaired(u) && 6 <= n <= |u|
    ensures Unpaired(u[..n])
  {
    assert u[..n][2..6] == u[2..6];
    assert n >= 12 ==> u[..n][8..12] == u[8..12];
  }

  lemma UnpairedDecode(u: seq<byte>)
    requires Unpaired(u)
    ensures Decode(u) == None
  {
    assert EscapeAt(u) == None;
  }

  lemma UnpairedLiteral(u: seq<byte>)
    requires Unpaired(u) && CloseQuote(u).Some?
    ensures Decode(u[..CloseQuote(u).value + 1]) == None
  {
    var k := CloseQuote(u).value;
    CloseQuoteUnit(u[2..6], u[6..]);
    assert u == [BACKSLASH, LETTER_U] + u[2..6] + u[6..];
    UnpairedCut(u, k + 1);
    UnpairedDecode(u[..k + 1]);
  }

  /** A string with an unpaired surrogate escape after any well-formed beginning is rejected, whatever follows. */
  lemma UnpairedRejected(ps: seq<Piece>, u: seq<byte>)
    requires AllInStep(ps) && Paired(ps) && Unpaired(u) && Terminated(u)
    ensures ParseString([QUOTE] + SpellAll(ps) + u) == Fail
  {
    hide CloseQuote, Decode, Unpaired, AllInStep, AllLoose, Paired, SpellAll, Meaning, ParseString, UpToNul;
    InStepIsLoose(ps);
    var b := SpellAll(ps);
    StringCases([QUOTE] + b + u);
    assert ([QUOTE] + b + u)[1..] == b + u;
    PiecesScan(ps, u);
    if CloseQuote(u).Some? {
      var k := CloseQuote(u).value;
      UnpairedLiteral(u);
      PiecesDecode(ps, u[..k + 1]);
      LiteralSlice(b, u, k);
    }
  }

  lemma LiteralSlice(b: seq<byte>, u: seq<byte>, k: nat)
    requires k < |u|
    ensures ([QUOTE] + b + u)[1..|b| + k + 2] == b + u[..k + 1]
  {}
}
