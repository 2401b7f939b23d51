/** Numbers: parse_number over an exact strtod, and the decimal text "%1.15g" gives an integer. */
module JsonNumber {
  import opened Bytes

  predicate IsDigit(b: byte) { ZERO <= b <= NINE }

  /** The characters parse_number copies: digits, signs, exponent letters and the dot. */
  predicate IsNumberChar(b: byte) {
    IsDigit(b) || b == PLUS || b == MINUS || b == 101 || b == 69 || b == DOT
  }

  function DigitRun(t: seq<byte>): (n: nat)
    ensures n <= |t|
  {
    if t == [] || !IsDigit(t[0]) then 0 else 1 + DigitRun(t[1..])
  }

  lemma {:induction false} DigitRunDigits(t: seq<byte>)
    ensures AllDigits(t[..DigitRun(t)])
  {
    if t != [] && IsDigit(t[0]) {
      DigitRunDigits(t[1..]);
      assert t[..DigitRun(t)] == [t[0]] + t[1..][..DigitRun(t[1..])];
    }
  }

  lemma DigitsAt(t: seq<byte>, n: nat)
    requires n <= |t|
    ensures n + DigitRun(t[n..]) <= |t| && AllDigits(t[n..n + DigitRun(t[n..])])
  {
    DigitRunDigits(t[n..]);
    hide DigitRun, AllDigits;
    assert t[n..][..DigitRun(t[n..])] == t[n..n + DigitRun(t[n..])];
  }

  predicate AllDigits(t: seq<byte>) {
    forall i :: 0 <= i < |t| ==> IsDigit(t[i])
  }

  lemma AllDigitsConcat(a: seq<byte>, b: seq<byte>)
    requires AllDigits(a) && AllDigits(b)
    ensures AllDigits(a + b)
  {}

  function DigitsValue(t: seq<byte>): nat
    requires AllDigits(t)
  {
    if t == [] then 0 else 10 * DigitsValue(t[..|t| - 1]) + (t[|t| - 1] - 48)
  }

  function Pow10(k: nat): (r: real)
    ensures r > 0.0
  {
    if k == 0 then 1.0 else 10.0 * Pow10(k - 1)
  }

  function Scale(m: real, e: int): real {
    if e >= 0 then m * Pow10(e) else m / Pow10(-e)
  }

  function SignLength(t: seq<byte>): (n: nat)
    ensures n <= |t| && n <= 1
  {
    if t != [] && (t[0] == PLUS || t[0] == MINUS) then 1 else 0
  }

  datatype Exponent = Exponent(value: int, length: nat)

  /** An exponent counts only when it has a digit: of "1e" and "1e+" strtod reads the "1". */
  function ReadExponent(t: seq<byte>): (x: Exponent)
    ensures x.length <= |t|
  {
    if t == [] || (t[0] != 101 && t[0] != 69) then Exponent(0, 0)
    else
      var sign := SignLength(t[1..]);
      var n := DigitRun(t[1 + sign..]);
      if n == 0 then Exponent(0, 0)
      else
        DigitsAt(t, 1 + sign);
        var v: int := DigitsValue(t[1 + sign..1 + sign + n]);
        Exponent(if t[1] == MINUS then -v else v, 1 + sign + n)
  }

  datatype Scan = Scan(value: real, length: nat)

  /** strtod in the C locale on a text of number characters; None when it reads nothing. */
  function Strtod(t: seq<byte>): (r: Option<Scan>)
    ensures r.Some? ==> 1 <= r.value.length <= |t|
  {
    var sign := SignLength(t);
    var whole := DigitRun(t[sign..]);
    var point := sign + whole;
    var dotted := point < |t| && t[point] == DOT;
    var fraction := if dotted then DigitRun(t[point + 1..]) else 0;
    if whole + fraction == 0 then None
    else
      var after := if dotted then t[point + 1..point + 1 + fraction] else [];
      var digits := t[sign..point] + after;
      DigitsAt(t, sign);
      DigitsAt(t, if dotted then point + 1 else point);
      AllDigitsConcat(t[sign..point], after);
      var end := if dotted then point + 1 + fraction else point;
      var x := ReadExponent(t[end..]);
      var magnitude := Scale(DigitsValue(digits) as real, x.value - fraction);
      Some(Scan(if t[0] == MINUS then -magnitude else magnitude, end + x.length))
  }

  /** How many number characters parse_number copies: the 64-byte temporary holds 63 and a NUL. */
  function RunLength(s: seq<byte>, limit: nat): (n: nat)
    ensures n <= limit && n <= |s|
    ensures forall i :: 0 <= i < n ==> IsNumberChar(s[i])
    ensures n < limit && n < |s| ==> !IsNumberChar(s[n])
  {
    if limit == 0 || s == [] || !IsNumberChar(s[0]) then 0 else 1 + RunLength(s[1..], limit - 1)
  }

  lemma RunLengthAt(s: seq<byte>, i: nat, limit: nat)
    requires i < |s|
    ensures limit == 0 || !IsNumberChar(s[i]) ==> RunLength(s[i..], limit) == 0
    ensures limit > 0 && IsNumberChar(s[i]) ==> RunLength(s[i..], limit) == 1 + RunLength(s[i + 1..], limit - 1)
  {
    assert s[i..][0] == s[i] && s[i..][1..] == s[i + 1..];
  }

  const NUMBER_LIMIT: nat := 63

  function ParseNumber(s: seq<byte>): (r: Parsed<real>)
    requires Terminated(s)
    ensures r.Ok? ==> Terminated(r.rest) && |r.rest| < |s|
  {
    match Strtod(s[..RunLength(s, NUMBER_LIMIT)])
    case None => Fail
    case Some(x) => Ok(x.value, s[x.length..])
  }

  // ----- printed integers -----

  /** Integers that "%1.15g" writes in plain decimal. */
  const PRINT_LIMIT: int := 1_000_000_000_000_000

  function DecimalNat(n: nat): (r: seq<byte>)
    ensures r != [] && AllDigits(r) && DigitsValue(r) == n
  {
    if n < 10 then
      var r := [48 + n];
      assert r[..0] == [];
      r
    else
      var q := DecimalNat(n / 10);
      var r := q + [48 + n % 10];
      assert r[..|r| - 1] == q;
      r
  }

  function Decimal(n: int): (r: seq<byte>)
    ensures r != []
  {
    if n < 0 then [MINUS] + DecimalNat(-n) else DecimalNat(n)
  }

  function IntPow10(k: nat): (r: nat)
    ensures r > 0
  {
    if k == 0 then 1 else 10 * IntPow10(k - 1)
  }

  lemma {:induction false} DecimalLength(n: nat, k: nat)
    requires k > 0 && n < IntPow10(k)
    ensures |DecimalNat(n)| <= k
  {
    if n >= 10 {
      assert k > 1;
      DecimalLength(n / 10, k - 1);
    }
  }

  lemma PrintedLength(n: int)
    requires -PRINT_LIMIT < n < PRINT_LIMIT
    ensures |Decimal(n)| <= 16
  {
    assert IntPow10(5) == 100000;
    assert IntPow10(10) == 100000 * IntPow10(5);
    assert IntPow10(15) == 100000 * IntPow10(10);
    DecimalLength(if n < 0 then -n else n, 15);
  }

  lemma {:induction false} DigitRunAll(t: seq<byte>)
    requires AllDigits(t)
    ensures DigitRun(t) == |t|
  {
    if t != [] {
      DigitRunAll(t[1..]);
    }
  }

  lemma {:induction false} RunLengthAll(t: seq<byte>, rest: seq<byte>, limit: nat)
    requires forall i :: 0 <= i < |t| ==> IsNumberChar(t[i])
    requires |t| <= limit && rest != [] && !IsNumberChar(rest[0])
    ensures RunLength(t + rest, limit) == |t|
  {
    if t != [] {
      assert (t + rest)[1..] == t[1..] + rest;
      RunLengthAll(t[1..], rest, limit - 1);
    }
  }

  /** strtod reads back all of a printed integer. */
  lemma StrtodDecimal(n: int)
    ensures Strtod(Decimal(n)) == Some(Scan(n as real, |Decimal(n)|))
  {
    var t := Decimal(n);
    var sign := SignLength(t);
    var m := if n < 0 then -n else n;
    assert t[sign..] == DecimalNat(m);
    DigitRunAll(DecimalNat(m));
    assert t[sign..|t|] + [] == DecimalNat(m);
    assert Scale(m as real, 0) == m as real;
  }

  lemma ParsePrinted(n: int, rest: seq<byte>)
    requires -PRINT_LIMIT < n < PRINT_LIMIT
    requires Terminated(rest) && !IsNumberChar(rest[0])
    ensures ParseNumber(Decimal(n) + rest) == Ok(n as real, rest)
  {
    var t := Decimal(n);
    PrintedLength(n);
    RunLengthAll(t, rest, NUMBER_LIMIT);
    assert (t + rest)[..|t|] == t;
    StrtodDecimal(n);
    assert (t + rest)[|t|..] == rest;
  }
}
