/** JSON string literals: the two passes of parse_string over a literal and what the escapes mean. */
module JsonString {
  import opened Bytes

  // ----- parse_hex4 and utf16_literal_to_utf8 -----

  predicate IsHex(b: byte) {
    48 <= b <= 57 || 65 <= b <= 70 || 97 <= b <= 102
  }

  function HexDigit(b: byte): (d: nat)
    requires IsHex(b)
    ensures d < 16
  {
    if b <= 57 then b - 48 else if b <= 70 then b - 55 else b - 87
  }

  /** parse_hex4: any invalid digit makes the whole number 0. */
  function Hex4(h: seq<byte>): (v: nat)
    requires |h| == 4
    ensures v < 0x10000
  {
    if IsHex(h[0]) && IsHex(h[1]) && IsHex(h[2]) && IsHex(h[3])
    then 4096 * HexDigit(h[0]) + 256 * HexDigit(h[1]) + 16 * HexDigit(h[2]) + HexDigit(h[3])
    else 0
  }

  // ----- the written-out tables -----

  /** "0123456789ABCDEF" */
  const HEX_UPPER: seq<byte> := [48, 49, 50, 51, 52, 53, 54, 55, 56, 57, 65, 66, 67, 68, 69, 70]

  /** "0123456789abcdef" */
  const HEX_LOWER: seq<byte> := [48, 49, 50, 51, 52, 53, 54, 55, 56, 57, 97, 98, 99, 100, 101, 102]

  /** `b` is the hex digit `d` in one of the two cases. */
  predicate Stands(b: byte, d: nat) {
    d < 16 && (b == HEX_UPPER[d] || b == HEX_LOWER[d])
  }

  /** `h` are four hex digits of the number `u`, the most significant first. */
  ghost predicate StandsFor(h: seq<byte>, u: nat) {
    |h| == 4 && exists d0: nat, d1: nat, d2: nat, d3: nat ::
      Stands(h[0], d0) && Stands(h[1], d1) && Stands(h[2], d2) && Stands(h[3], d3)
      && u == 4096 * d0 + 256 * d1 + 16 * d2 + d3
  }

  lemma TableDigit(b: byte, d: nat)
    requires Stands(b, d)
    ensures IsHex(b) && HexDigit(b) == d
  {}

  lemma DigitInTable(b: byte)
    requires IsHex(b)
    ensures Stands(b, HexDigit(b))
  {}

  /** A byte is a hex digit exactly when it is in one of the tables, and its value is its place there. */
  lemma DigitStands(b: byte, d: nat)
    ensures IsHex(b) && HexDigit(b) == d <==> Stands(b, d)
  {
    hide Stands, IsHex, HexDigit;
    if Stands(b, d) {
      TableDigit(b, d);
    }
    if IsHex(b) {
      DigitInTable(b);
    }
  }

  /** parse_hex4 reads the number that its four digits stand for, and 0 when they stand for none. */
  lemma Hex4Exact(h: seq<byte>, u: nat)
    requires |h| == 4
    ensures StandsFor(h, u) ==> Hex4(h) == u && forall i :: 0 <= i < 4 ==> IsHex(h[i])
    ensures (forall i :: 0 <= i < 4 ==> IsHex(h[i])) ==> StandsFor(h, Hex4(h))
    ensures (exists i :: 0 <= i < 4 && !IsHex(h[i])) ==> Hex4(h) == 0
  {
    hide Stands, IsHex, HexDigit;
    hide StandsFor;
    if StandsFor(h, u) {
      Hex4Reads(h, u);
    }
    if IsHex(h[0]) && IsHex(h[1]) && IsHex(h[2]) && IsHex(h[3]) {
      Hex4Written(h);
    }
  }

  /** `u` is the number that `h` stands for, or 0 when it stands for none. */
  ghost predicate HexNumber(h: seq<byte>, u: nat) {
    StandsFor(h, u) || (u == 0 && forall v: nat :: !StandsFor(h, v))
  }

  lemma Hex4Means(h: seq<byte>)
    requires |h| == 4
    ensures HexNumber(h, Hex4(h))
  {
    hide StandsFor, IsHex, HexDigit;
    if v: nat :| StandsFor(h, v) {
      Hex4Reads(h, v);
    }
    if IsHex(h[0]) && IsHex(h[1]) && IsHex(h[2]) && IsHex(h[3]) {
      Hex4Written(h);
    }
  }

  lemma Hex4Reads(h: seq<byte>, u: nat)
    requires StandsFor(h, u)
    ensures Hex4(h) == u && forall i :: 0 <= i < 4 ==> IsHex(h[i])
  {
    hide Stands, IsHex, HexDigit;
    var d0: nat, d1: nat, d2: nat, d3: nat :|
      Stands(h[0], d0) && Stands(h[1], d1) && Stands(h[2], d2) && Stands(h[3], d3)
      && u == 4096 * d0 + 256 * d1 + 16 * d2 + d3;
    TableDigit(h[0], d0);
    TableDigit(h[1], d1);
    TableDigit(h[2], d2);
    TableDigit(h[3], d3);
  }

  lemma Hex4Written(h: seq<byte>)
    requires |h| == 4 && IsHex(h[0]) && IsHex(h[1]) && IsHex(h[2]) && IsHex(h[3])
    ensures StandsFor(h, Hex4(h))
  {
    hide Stands, IsHex, HexDigit;
    DigitInTable(h[0]);
    DigitInTable(h[1]);
    DigitInTable(h[2]);
    DigitInTable(h[3]);
  }

  predicate IsHigh(u: nat) { 0xD800 <= u <= 0xDBFF }

  predicate IsLow(u: nat) { 0xDC00 <= u <= 0xDFFF }

  /** The code point of a surrogate pair (section 2.2 of RFC 2781). */
  function PairCode(hi: nat, lo: nat): (cp: nat)
    requires IsHigh(hi) && IsLow(lo)
    ensures 0x10000 <= cp <= 0x10FFFF
  {
    0x10000 + (hi - 0xD800) * 0x400 + (lo - 0xDC00)
  }

  /** UTF-8 (section 3 of RFC 3629). */
  function Utf8(cp: nat): (r: seq<byte>)
    requires cp <= 0x10FFFF
    ensures 1 <= |r| <= 4
    ensures |r| == 4 <==> cp >= 0x10000
    ensures cp != 0 <==> NulFree(r)
  {
    if cp < 0x80 then assert [cp][0] == cp; [cp]
    else if cp < 0x800 then [0xC0 + cp / 64, 0x80 + cp % 64]
    else if cp < 0x10000 then [0xE0 + cp / 4096, 0x80 + cp / 64 % 64, 0x80 + cp % 64]
    else [0xF0 + cp / 262144, 0x80 + cp / 4096 % 64, 0x80 + cp / 64 % 64, 0x80 + cp % 64]
  }

  /** The payload bits of an encoding, as the table of section 3 of RFC 3629 lays them out. */
  lemma Utf8Table(cp: nat)
    requires cp <= 0x10FFFF
    ensures var r: seq<int> := Utf8(cp);
      && |r| == (if cp < 0x80 then 1 else if cp < 0x800 then 2 else if cp < 0x10000 then 3 else 4)
      && (forall i :: 0 < i < |r| ==> 0x80 <= r[i] <= 0xBF)
      && (|r| == 1 ==> r[0] == cp)
      && (|r| == 2 ==> 0xC0 <= r[0] <= 0xDF && cp == (r[0] - 0xC0) * 0x40 + (r[1] - 0x80))
      && (|r| == 3 ==> 0xE0 <= r[0] <= 0xEF && cp == (r[0] - 0xE0) * 0x1000 + (r[1] - 0x80) * 0x40 + (r[2] - 0x80))
      && (|r| == 4 ==>
            0xF0 <= r[0] <= 0xF7
            && cp == (r[0] - 0xF0) * 0x40000 + (r[1] - 0x80) * 0x1000 + (r[2] - 0x80) * 0x40 + (r[3] - 0x80))
  {
    SixBits(cp);
    SixBits(cp / 64);
    SixBits(cp / 64 / 64);
    DivideTwice(cp);
  }

  lemma SixBits(x: nat)
    ensures x == x / 64 * 64 + x % 64 && x % 64 < 64
  {}

  lemma DivideTwice(x: nat)
    ensures x / 4096 == x / 64 / 64 && x / 262144 == x / 64 / 64 / 64
  {}

  /** The bytes an escape stands for and how much input it covers. */
  datatype Escape = Escape(bytes: seq<byte>, length: nat)

  /** What utf16_literal_to_utf8 makes of `p`, the rest of the literal with its closing quote. */
  function Utf16Literal(p: seq<byte>): (r: Option<Escape>)
    ensures r.Some? ==> (r.value.length == 6 && |r.value.bytes| <= 3) || (r.value.length == 12 && |r.value.bytes| <= 4)
    ensures r.Some? ==> r.value.length < |p|
  {
    if |p| - 1 < 6 then None
    else
      var first := Hex4(p[2..6]);
      if IsLow(first) then None
      else if IsHigh(first) then
        if |p| - 7 < 6 then None
        else if p[6] != BACKSLASH || p[7] != LETTER_U then None
        else
          var second := Hex4(p[8..12]);
          if !IsLow(second) then None else Some(Escape(Utf8(PairCode(first, second)), 12))
      else Some(Escape(Utf8(first), 6))
  }

  /** The byte a one-letter escape stands for. */
  function ShortEscape(letter: byte): Option<byte> {
    if letter == LETTER_B then Some(BACKSPACE)
    else if letter == LETTER_F then Some(FORM_FEED)
    else if letter == LETTER_N then Some(NEWLINE)
    else if letter == LETTER_R then Some(RETURN)
    else if letter == LETTER_T then Some(TAB)
    else if letter == QUOTE || letter == BACKSLASH || letter == SLASH then Some(letter)
    else None
  }

  /** The one-letter escapes of section 7 of RFC 8259: quote, backslash, slash, b, f, n, r, t and nothing else. */
  lemma ShortTable(letter: byte)
    ensures ShortEscape(34) == Some(34) && ShortEscape(92) == Some(92) && ShortEscape(47) == Some(47)
    ensures ShortEscape(98) == Some(8) && ShortEscape(102) == Some(12) && ShortEscape(110) == Some(10)
    ensures ShortEscape(114) == Some(13) && ShortEscape(116) == Some(9)
    ensures ShortEscape(letter).Some? ==> letter in [34, 92, 47, 98, 102, 110, 114, 116]
  {}

  /** What a backslash at the start of `p` introduces. */
  function EscapeAt(p: seq<byte>): (r: Option<Escape>)
    requires |p| >= 2 && p[0] == BACKSLASH
    ensures r.Some? ==> r.value.length == 2 || r.value.length == 6 || r.value.length == 12
    ensures r.Some? ==> r.value.length <= |p| && 2 * |r.value.bytes| <= r.value.length
  {
    hide Utf16Literal, ShortEscape;
    if p[1] == LETTER_U then Utf16Literal(p) else ShortAt(ShortEscape(p[1]))
  }

  function ShortAt(b: Option<byte>): (r: Option<Escape>)
    ensures r.Some? ==> r.value.length == 2 && |r.value.bytes| == 1
  {
    if b.Some? then Some(Escape([b.value], 2)) else None
  }

  /** One round of pass two: a byte as it is, or an escape. */
  function StepAt(p: seq<byte>): (r: Option<Escape>)
    requires |p| >= 2
    ensures r.Some? ==> 1 <= r.value.length <= |p|
    ensures r.Some? && r.value.length == 1 ==> p[0] != BACKSLASH && |r.value.bytes| == 1
    ensures r.Some? && r.value.length > 1 ==> r.value.length % 2 == 0 && 2 * |r.value.bytes| <= r.value.length
  {
    if p[0] != BACKSLASH then Some(Escape([p[0]], 1)) else EscapeAt(p)
  }

  // ----- the two passes -----

  /** Pass one: the distance from `s` to the closing quote, treating backslash and next byte as a pair. */
  function CloseQuote(s: seq<byte>): (r: Option<nat>)
    ensures r.Some? ==> r.value < |s| && s[r.value] == QUOTE
    decreases |s|
  {
    if s == [] then None
    else if s[0] == QUOTE then Some(0)
    else
      var step := TokenLength(s);
      if |s| < step then None
      else Shift(CloseQuote(s[step..]), step)
  }

  function Shift(o: Option<nat>, n: nat): Option<nat> {
    if o.Some? then Some(n + o.value) else None
  }

  function Prepend(bs: seq<byte>, o: Option<seq<byte>>): Option<seq<byte>> {
    if o.Some? then Some(bs + o.value) else None
  }

  lemma CloseQuoteStep(s: seq<byte>)
    requires CloseQuote(s).Some?
    ensures s[0] == QUOTE <==> CloseQuote(s).value == 0
    ensures s[0] != QUOTE ==> CloseQuote(s).value >= TokenLength(s)
    ensures s[0] != QUOTE ==> CloseQuote(s[TokenLength(s)..]) == Some(CloseQuote(s).value - TokenLength(s))
  {}

  /** Pass two, over `p` = the rest of the literal with its closing quote as the last byte. */
  function Decode(p: seq<byte>): (r: Option<seq<byte>>)
    decreases |p|
  {
    if |p| <= 1 then Some([])
    else match StepAt(p)
      case None => None
      case Some(e) => Prepend(e.bytes, Decode(p[e.length..]))
  }

  /**
   * parse_string: pass one finds the closing quote, pass two decodes up to it, and the result is
   * kept as a C string, so it ends in front of a NUL that was escaped into it.
   */
  function ParseString(s: seq<byte>): (r: Parsed<seq<byte>>)
    requires Terminated(s)
    ensures r.Ok? ==> Terminated(r.rest) && |r.rest| < |s|
  {
    if s[0] != QUOTE then Fail
    else match CloseQuote(s[1..])
      case None => Fail
      case Some(k) =>
        match Decode(s[1..k + 2])
        case None => Fail
        case Some(bs) => Ok(UpToNul(bs), s[k + 2..])
  }

  lemma StringCases(s: seq<byte>)
    requires Terminated(s)
    ensures s[0] != QUOTE || CloseQuote(s[1..]).None? ==> ParseString(s) == Fail
    ensures s[0] == QUOTE && CloseQuote(s[1..]).Some? ==>
      var k := CloseQuote(s[1..]).value; var bs := Decode(s[1..k + 2]);
      ParseString(s) == if bs.Some? then Ok(UpToNul(bs.value), s[k + 2..]) else Fail
  {
    hide CloseQuote, Decode, UpToNul;
  }

  // ----- pass two stays inside what pass one reserved -----

  /** `p` is exactly what pass one scanned, closing quote included. */
  predicate Scanned(p: seq<byte>) {
    CloseQuote(p) == Some(|p| - 1)
  }

  /** Pass one's size estimate without the opening quote: one byte for every pair and every other byte. */
  function Tokens(p: seq<byte>): nat
    decreases |p|
  {
    if |p| <= 1 then 0
    else if p[0] == BACKSLASH then 1 + Tokens(p[2..])
    else 1 + Tokens(p[1..])
  }

  function TokenLength(p: seq<byte>): (n: nat)
    requires p != []
  {
    if p[0] == BACKSLASH then 2 else 1
  }

  lemma ScannedStep(p: seq<byte>)
    requires Scanned(p) && |p| > 1
    ensures p[0] != QUOTE && TokenLength(p) < |p|
    ensures Scanned(p[TokenLength(p)..])
    ensures Tokens(p) == 1 + Tokens(p[TokenLength(p)..])
  {}

  /** Pass one does not look behind the closing quote. */
  lemma {:induction false} ScannedMore(p: seq<byte>, rest: seq<byte>)
    requires Scanned(p)
    ensures CloseQuote(p + rest) == Some(|p| - 1)
    decreases |p|
  {
    if |p| > 1 {
      ScannedStep(p);
      var n := TokenLength(p);
      ScannedMore(p[n..], rest);
      assert (p + rest)[n..] == p[n..] + rest;
    }
  }

  /** What pass one scanned is scanned whole by itself. */
  lemma {:induction false} ClosedScan(t: seq<byte>)
    requires CloseQuote(t).Some?
    ensures Scanned(t[..CloseQuote(t).value + 1])
    decreases |t|
  {
    var k := CloseQuote(t).value;
    CloseQuoteStep(t);
    if t[0] != QUOTE {
      var n := TokenLength(t);
      ClosedScan(t[n..]);
      assert t[..k + 1][n..] == t[n..][..k - n + 1];
    }
  }

  /** `n` bytes further on, pass one is between tokens or one byte short of it, at least n / 2 tokens later. */
  lemma {:induction false} JumpTokens(p: seq<byte>, n: nat) returns (off: nat)
    requires Scanned(p) && n < |p|
    ensures off <= 1 && n + off <= |p| - 1
    ensures n == 0 || (n == 1 && p[0] != BACKSLASH) ==> off == 0
    ensures Scanned(p[n + off..])
    ensures 2 * Tokens(p) >= 2 * Tokens(p[n + off..]) + n + off
    decreases |p|
  {
    hide Scanned, Tokens;
    if n == 0 {
      off := 0;
      assert p[0..] == p;
      return;
    }
    var step := TokenLength(p);
    ScannedStep(p);
    if n < step {
      off := 1;
    } else {
      var q := p[step..];
      off := JumpTokens(q, n - step);
      assert q[n - step + off..] == p[n + off..];
    }
  }

  /**
   * One round of pass two, from a place in step with pass one's pairs (`off` is 0) or one byte out of step
   * (`off` is 1): unless it ends one byte past the closing quote, it ends in such a place again, and what it
   * writes is covered by the tokens it leaves behind.
   */
  lemma StepFits(p: seq<byte>, off: nat) returns (next: nat)
    requires off <= 1 && 1 < |p| && Scanned(p[off..]) && StepAt(p).Some?
    ensures var e := StepAt(p).value; |e.bytes| <= off + Tokens(p[off..])
    ensures var e := StepAt(p).value; e.length < |p| ==>
      next <= 1 && e.length + next < |p| && Scanned(p[e.length..][next..])
      && |e.bytes| + next + Tokens(p[e.length..][next..]) <= off + Tokens(p[off..])
  {
    hide Scanned, Tokens, StepAt;
    var e := StepAt(p).value;
    next := JumpFits(p, off, e.length, if e.length == 1 then 1 else e.length / 2);
  }

  /** The same for a round that covers `n` bytes and writes at most `w`. */
  lemma JumpFits(p: seq<byte>, off: nat, n: nat, w: nat) returns (next: nat)
    requires off <= 1 && 1 < |p| && Scanned(p[off..])
    requires 1 <= n <= |p| && (n == 2 * w || (n == 1 == w && p[0] != BACKSLASH))
    ensures w <= off + Tokens(p[off..])
    ensures n < |p| ==> next <= 1 && n + next < |p| && Scanned(p[n..][next..])
    ensures n < |p| ==> w + next + Tokens(p[n..][next..]) <= off + Tokens(p[off..])
  {
    hide Scanned, Tokens;
    var base := p[off..];
    if n == |p| {
      next := JumpTokens(base, n - 1 - off);
    } else {
      next := JumpTokens(base, n - off);
      SliceFrom(p, off, n - off + next);
      SliceFrom(p, n, next);
    }
  }

  /**
   * Whatever pass one accepts, and even when a bad \u escape puts pass two one byte out of step with
   * pass one's pairs, the decoded bytes fit in the size pass one computed.
   */
  lemma {:induction false} DecodeFits(p: seq<byte>, off: nat)
    requires off <= 1 && off < |p| && Scanned(p[off..])
    requires Decode(p).Some?
    ensures |Decode(p).value| <= off + Tokens(p[off..])
    decreases |p|
  {
    if |p| > 1 {
      var next := StepFits(p, off);
      var n := StepAt(p).value.length;
      if n < |p| {
        DecodeFits(p[n..], next);
      }
    }
  }

  /** Pass one's count of tokens up to the closing quote, as the scan meets them. */
  function TokenCount(s: seq<byte>): nat
    requires CloseQuote(s).Some?
    decreases |s|
  {
    if s[0] == QUOTE then 0 else 1 + TokenCount(s[TokenLength(s)..])
  }

  lemma {:induction false} LiteralScanned(s: seq<byte>)
    requires CloseQuote(s).Some?
    ensures var p := s[..CloseQuote(s).value + 1]; Scanned(p) && Tokens(p) == TokenCount(s)
    decreases |s|
  {
    var k := CloseQuote(s).value;
    if s[0] != QUOTE {
      var n := TokenLength(s);
      LiteralScanned(s[n..]);
      assert s[n..][..k - n + 1] == s[..k + 1][n..];
    }
  }
}
