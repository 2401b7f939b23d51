/** What the digits, the point and the exponent of a number are worth, and how much of a text strtod takes for one. */
module JsonFigureLaws {
  import opened Bytes
  import opened JsonNumber
  import opened JsonFigures

  // ----- digits -----

  /** A digit is worth its place among "0123456789". */
  lemma OneDigit(d: nat)
    requires d < 10
    ensures var t: seq<byte> := [48, 49, 50, 51, 52, 53, 54, 55, 56, 57];
      AllDigits([t[d]]) && DigitsValue([t[d]]) == d
  {
    var t: seq<byte> := [48, 49, 50, 51, 52, 53, 54, 55, 56, 57];
    assert [t[d]][..0] == [];
  }

  /** Digits in front of `k` others are worth ten to the `k` times as much. */
  lemma {:induction false} DigitsSplit(a: seq<byte>, b: seq<byte>)
    requires AllDigits(a) && AllDigits(b)
    ensures AllDigits(a + b) && DigitsValue(a + b) == DigitsValue(a) * IntPow10(|b|) + DigitsValue(b)
    decreases |b|
  {
    AllDigitsConcat(a, b);
    if b == [] {
      assert a + b == a;
    } else {
      var c := b[..|b| - 1];
      var ab := a + b;
      assert ab[..|ab| - 1] == a + c;
      DigitsSplit(a, c);
      hide AllDigits;
      Shifted(DigitsValue(a), IntPow10(|c|), DigitsValue(c), b[|b| - 1] - 48);
    }
  }

  lemma Shifted(a: nat, p: nat, c: nat, d: int)
    ensures 10 * (a * p + c) + d == a * (10 * p) + (10 * c + d)
  {}

  // ----- scaling -----

  lemma {:induction false} PowersAgree(k: nat)
    ensures Pow10(k) == IntPow10(k) as real
  {
    if k > 0 {
      PowersAgree(k - 1);
    }
  }

  lemma ScaleUp(m: real, e: nat)
    ensures Scale(m, e) == m * IntPow10(e) as real
  {
    PowersAgree(e);
  }

  lemma ScaleDown(m: real, e: int)
    requires e >= 0
    ensures Scale(m, -e) * IntPow10(e) as real == m
  {
    PowersAgree(e);
  }

  lemma ScaleStep(m: real, e: int)
    ensures Scale(m, e + 1) == 10.0 * Scale(m, e)
  {
    if e < 0 {
      assert Pow10(-e) == 10.0 * Pow10(-e - 1);
      TenTimes(m, Pow10(-e - 1));
    }
  }

  lemma TenTimes(m: real, p: real)
    requires p > 0.0
    ensures m / p == 10.0 * (m / (10.0 * p))
  {}

  lemma {:induction false} ScaleSum(m: real, e: int, k: nat)
    ensures Scale(m, e) == Scale(m, e - k) * IntPow10(k) as real
  {
    hide Scale;
    if k > 0 {
      ScaleSum(m, e, k - 1);
      ScaleStep(m, e - k);
      Regroup(Scale(m, e - k), IntPow10(k - 1));
    }
  }

  lemma Regroup(x: real, p: nat)
    ensures 10.0 * x * p as real == x * (10 * p) as real
  {}

  // ----- figures -----

  function Signed(negative: bool, x: real): real {
    if negative then -x else x
  }

  /** The digits of a figure read as one whole number, its point left out. */
  function Digits(f: Figure): nat
    requires ValidFigure(f)
  {
    DigitsValue(f.whole) * IntPow10(|f.fraction|) + DigitsValue(f.fraction)
  }

  lemma ValueScaled(f: Figure)
    requires ValidFigure(f)
    ensures FigureValue(f) * IntPow10(|f.fraction|) as real
         == Signed(f.negative, Scale(Digits(f) as real, ExponentValue(f.exponent)))
  {
    hide Scale, DigitsValue, ExponentValue, AllDigits;
    DigitsSplit(f.whole, f.fraction);
    ScaleSum(Digits(f) as real, ExponentValue(f.exponent), |f.fraction|);
  }

  /**
   * `x` is what `f` is worth, said without a division: ten times as often as the fraction has digits, it is the digits
   * without the point times ten to the exponent; with a negative exponent, that much more of it is the digits.
   */
  predicate Worth(f: Figure, x: real)
    requires ValidFigure(f)
  {
    var v, n := x * IntPow10(|f.fraction|) as real, Signed(f.negative, Digits(f) as real);
    match f.exponent
    case None => v == n
    case Some(p) =>
      if p.sign == [45] then v * IntPow10(DigitsValue(p.digits)) as real == n
      else v == n * IntPow10(DigitsValue(p.digits)) as real
  }

  /** The value strtod gives. */
  lemma ValueExact(f: Figure)
    requires ValidFigure(f)
    ensures Strtod(FigureText(f)).Some? && Strtod(FigureText(f)).value.length == |FigureText(f)|
    ensures Worth(f, Strtod(FigureText(f)).value.value)
  {
    hide Strtod, FigureText, DigitsValue, Digits, AllDigits, IntPow10, FigureValue, Worth;
    ReadFigure(f);
    ValueScaled(f);
    if f.exponent.None? {
      PlainWorth(f, FigureValue(f));
    } else {
      PowerWorth(f, f.exponent.value, FigureValue(f));
    }
  }

  lemma PlainWorth(f: Figure, x: real)
    requires ValidFigure(f) && f.exponent.None?
    requires x * IntPow10(|f.fraction|) as real == Signed(f.negative, Scale(Digits(f) as real, 0))
    ensures Worth(f, x)
  {
    hide DigitsValue, Digits, AllDigits;
    ScaleUp(Digits(f) as real, 0);
  }

  lemma PowerWorth(f: Figure, p: Power, x: real)
    requires ValidFigure(f) && f.exponent == Some(p)
    requires x * IntPow10(|f.fraction|) as real == Signed(f.negative, Scale(Digits(f) as real, PowerValue(p)))
    ensures Worth(f, x)
  {
    hide DigitsValue, Digits, AllDigits, IntPow10, Scale, Signed;
    var m, k: int := Digits(f) as real, DigitsValue(p.digits);
    var q, w := IntPow10(k) as real, x * IntPow10(|f.fraction|) as real;
    if p.sign == [45] {
      ScaleDown(m, k);
      SignedDown(f.negative, w, Scale(m, -k), m, q);
    } else {
      ScaleUp(m, k);
      SignedUp(f.negative, w, Scale(m, k), m, q);
    }
  }

  lemma SignedDown(negative: bool, w: real, s: real, m: real, q: real)
    requires w == Signed(negative, s) && s * q == m
    ensures w * q == Signed(negative, m)
  {}

  lemma SignedUp(negative: bool, w: real, s: real, m: real, q: real)
    requires w == Signed(negative, s) && s == m * q
    ensures w == Signed(negative, m) * q
  {}

  /** One more in the exponent, below zero too, is ten times the value; an exponent of zero changes nothing. */
  lemma ExponentStep(f: Figure, g: Figure)
    requires ValidFigure(f) && ValidFigure(g) && g == f.(exponent := g.exponent)
    ensures ExponentValue(g.exponent) == ExponentValue(f.exponent) + 1 ==> FigureValue(g) == 10.0 * FigureValue(f)
    ensures ExponentValue(g.exponent) == ExponentValue(f.exponent) ==> FigureValue(g) == FigureValue(f)
  {
    hide Scale, DigitsValue, ExponentValue, AllDigits;
    AllDigitsConcat(f.whole, f.fraction);
    ScaleStep(DigitsValue(f.whole + f.fraction) as real, ExponentValue(f.exponent) - |f.fraction|);
  }

  /** A figure with one digit in front, as many behind the point and in the exponent as there are, and its value. */
  lemma Instance(f: Figure, v: real, p: nat, q: nat)
    requires ValidFigure(f) && p == IntPow10(|f.fraction|)
    requires q == if f.exponent.Some? then IntPow10(DigitsValue(f.exponent.value.digits)) else 1
    requires var m := Signed(f.negative, Digits(f) as real); var w := v * p as real;
      if f.exponent.Some? && f.exponent.value.sign == [45] then w * q as real == m else w == m * q as real
    ensures Strtod(FigureText(f)) == Some(Scan(v, |FigureText(f)|))
  {
    hide Strtod, FigureText, DigitsValue, IntPow10, Digits, AllDigits;
    ValueExact(f);
    var x := Strtod(FigureText(f)).value.value;
    if f.exponent.Some? && f.exponent.value.sign == [45] {
      Cancel(x * p as real, v * p as real, q as real);
    }
    Cancel(x, v, p as real);
  }

  lemma Cancel(x: real, y: real, p: real)
    requires p > 0.0
    ensures x * p == y * p ==> x == y
  {
    if x < y {
      assert (y - x) * p > 0.0;
    } else if x > y {
      assert (x - y) * p > 0.0;
    }
  }

  /** "1.5" */
  lemma OnePointFive()
    ensures Strtod([49, 46, 53]) == Some(Scan(1.5, 3))
  {
    var f := Figure(false, [49], true, [53], None);
    assert FigureText(f) == [49, 46, 53];
    SmallDigits();
    assert IntPow10(1) == 10;
    hide Strtod, FigureText, DigitsValue, IntPow10;
    Instance(f, 1.5, 10, 1);
  }

  /** "2e3" */
  lemma TwoThousand()
    ensures Strtod([50, 101, 51]) == Some(Scan(2000.0, 3))
  {
    var f := Figure(false, [50], false, [], Some(Power(101, [], [51])));
    assert FigureText(f) == [50, 101, 51];
    SmallDigits();
    assert IntPow10(0) == 1 && IntPow10(3) == 1000;
    hide Strtod, FigureText, DigitsValue, IntPow10;
    Instance(f, 2000.0, 1, 1000);
  }

  /** "-5E-1" */
  lemma MinusHalf()
    ensures Strtod([45, 53, 69, 45, 49]) == Some(Scan(-0.5, 5))
  {
    var f := Figure(true, [53], false, [], Some(Power(69, [45], [49])));
    assert FigureText(f) == [45, 53, 69, 45, 49];
    SmallDigits();
    assert IntPow10(0) == 1 && IntPow10(1) == 10;
    hide Strtod, FigureText, DigitsValue, IntPow10;
    Instance(f, -0.5, 1, 10);
  }

  lemma SmallDigits()
    ensures AllDigits([]) && DigitsValue([]) == 0
    ensures forall d: byte :: 48 <= d <= 57 ==> AllDigits([d]) && DigitsValue([d]) == d - 48
  {
    forall d: byte | 48 <= d <= 57
      ensures AllDigits([d]) && DigitsValue([d]) == d - 48
    {
      assert [d][..0] == [];
    }
  }

  // ----- printed integers -----

  lemma {:induction false} NoLeadingZero(n: nat)
    ensures DecimalNat(n)[0] == 48 ==> n == 0 && |DecimalNat(n)| == 1
  {
    if n >= 10 {
      NoLeadingZero(n / 10);
    }
  }

  /** An integer is printed as its digits, behind a minus if negative; only a single digit is a leading zero. */
  lemma DecimalCanonical(n: int)
    ensures var r := Decimal(n);
      var d := if n < 0 then r[1..] else r;
      && (n < 0 ==> r[0] == 45)
      && d != [] && AllDigits(d) && DigitsValue(d) == (if n < 0 then -n else n)
      && (d[0] == 48 ==> n == 0 && |d| == 1)
  {
    var m := if n < 0 then -n else n;
    NoLeadingZero(m);
    hide DecimalNat, DigitsValue, AllDigits;
    assert n < 0 ==> Decimal(n)[1..] == DecimalNat(m);
  }

  // ----- how far strtod reads -----

  lemma {:induction false} DigitRunMore(t: seq<byte>, rest: seq<byte>)
    requires AllDigits(t)
    ensures DigitRun(t + rest) >= |t|
  {
    if t != [] {
      assert (t + rest)[1..] == t[1..] + rest;
      DigitRunMore(t[1..], rest);
    }
  }

  lemma PowerMore(p: Power, rest: seq<byte>)
    requires ValidPower(p)
    ensures ReadExponent(PowerText(p) + rest).length >= |PowerText(p)|
  {
    hide DigitsValue, DigitRun, AllDigits;
    var t := PowerText(p) + rest;
    assert t[1..] == p.sign + (p.digits + rest);
    assert p.sign == [] ==> t[1] == p.digits[0] && IsDigit(p.digits[0]) by { FirstDigit(p.digits); }
    assert SignLength(t[1..]) == |p.sign|;
    assert t[1 + |p.sign|..] == p.digits + rest;
    DigitRunMore(p.digits, rest);
  }

  lemma FirstDigit(t: seq<byte>)
    requires AllDigits(t) && t != []
    ensures IsDigit(t[0])
  {}

  /** The parts that strtod goes through, when there is a digit among them. */
  lemma Reads(t: seq<byte>, n: nat, point: nat, dotted: bool, end: nat)
    requires n == SignLength(t) && point == n + DigitRun(t[n..])
    requires dotted <==> point < |t| && t[point] == DOT
    requires end == if dotted then point + 1 + DigitRun(t[point + 1..]) else point
    requires point > n || (dotted && end > point + 1)
    ensures end <= |t| && Strtod(t).Some? && Strtod(t).value.length == end + ReadExponent(t[end..]).length
  {
    hide DigitsValue, Scale, ReadExponent, DigitRun, SignLength;
  }

  /** A run of digits and an exponent, from place `at` of a longer text. */
  lemma TailBound(t: seq<byte>, at: nat, digits: seq<byte>, e: Option<Power>, rest: seq<byte>)
    requires AllDigits(digits) && (e.Some? ==> ValidPower(e.value))
    requires at <= |t| && t[at..] == digits + (ExponentText(e) + rest)
    ensures var k := DigitRun(t[at..]); at + k <= |t| && k >= |digits|
    ensures e.None? ==> |ExponentText(e)| == 0
    ensures e.Some? ==>
      && DigitRun(t[at..]) == |digits| && at + |digits| < |t| && t[at + |digits|] == e.value.letter
      && ReadExponent(t[at + |digits|..]).length >= |ExponentText(e)|
  {
    hide DigitsValue, DigitRun, AllDigits, ReadExponent;
    var tail := ExponentText(e) + rest;
    DigitRunMore(digits, tail);
    if e.Some? {
      DigitRunStop(digits, tail);
      PowerMore(e.value, rest);
      assert t[at + |digits|..] == t[at..][|digits|..] == tail;
      assert t[at + |digits|] == tail[0];
    }
  }

  lemma HeadAgrees(u: seq<byte>, rest: seq<byte>)
    requires u != []
    ensures SignLength(u + rest) == SignLength(u)
  {}

  lemma PlainBound(t: seq<byte>, n: nat, digits: seq<byte>, e: Option<Power>, rest: seq<byte>)
    requires n == SignLength(t) && digits != [] && AllDigits(digits) && (e.Some? ==> ValidPower(e.value))
    requires t[n..] == digits + (ExponentText(e) + rest)
    ensures Strtod(t).Some? && Strtod(t).value.length >= n + |digits| + |ExponentText(e)|
  {
    hide DigitsValue, DigitRun, AllDigits, Strtod, ReadExponent, SignLength;
    TailBound(t, n, digits, e, rest);
    var point := n + DigitRun(t[n..]);
    var dotted := point < |t| && t[point] == DOT;
    Reads(t, n, point, dotted, if dotted then point + 1 + DigitRun(t[point + 1..]) else point);
  }

  lemma DottedBound(
    t: seq<byte>, n: nat, whole: seq<byte>, fraction: seq<byte>, e: Option<Power>, rest: seq<byte>)
    requires n == SignLength(t) && AllDigits(whole) && AllDigits(fraction) && |whole| + |fraction| > 0
    requires (e.Some? ==> ValidPower(e.value)) && t[n..] == whole + ([DOT] + (fraction + (ExponentText(e) + rest)))
    ensures Strtod(t).Some?
    ensures Strtod(t).value.length >= n + |whole| + 1 + |fraction| + |ExponentText(e)|
  {
    hide DigitsValue, DigitRun, AllDigits, Strtod, ReadExponent, SignLength, ExponentText, ValidPower;
    var tail := fraction + (ExponentText(e) + rest);
    var point := n + |whole|;
    DigitRunDot(whole, tail);
    assert t[point..] == t[n..][|whole|..] == [DOT] + tail;
    assert t[point] == t[point..][0] && t[point + 1..] == t[point..][1..] == tail;
    TailBound(t, point + 1, fraction, e, rest);
    Reads(t, n, point, true, point + 1 + DigitRun(t[point + 1..]));
  }

  lemma Assoc5(a: seq<byte>, b: seq<byte>, c: seq<byte>, d: seq<byte>, e: seq<byte>)
    ensures a + (b + (c + d)) + e == a + (b + (c + (d + e)))
  {
    Assoc(a, b + (c + d), e);
    Assoc(b, c + d, e);
    Assoc(c, d, e);
  }

  /** strtod reads at least as far as any figure at the start of the text goes. */
  lemma FigureBound(f: Figure, rest: seq<byte>)
    requires ValidFigure(f)
    ensures Strtod(FigureText(f) + rest).Some?
    ensures Strtod(FigureText(f) + rest).value.length >= |FigureText(f)|
  {
    hide AllDigits, Strtod, SignLength, SignText, ExponentText, FigureText, ValidPower;
    FigureHead(f);
    FigureTail(f);
    var u := FigureText(f);
    var n, e := |SignText(f.negative)|, ExponentText(f.exponent);
    HeadAgrees(u, rest);
    assert (u + rest)[n..] == u[n..] + rest;
    if f.dotted {
      Assoc5(f.whole, [DOT], f.fraction, e, rest);
      DottedBound(u + rest, n, f.whole, f.fraction, f.exponent, rest);
    } else {
      Assoc(f.whole, e, rest);
      PlainBound(u + rest, n, f.whole, f.exponent, rest);
    }
  }

  /** What follows the part that strtod reads makes no difference. */
  lemma ExponentPrefix(t: seq<byte>, n: nat)
    requires n == ReadExponent(t).length
    ensures ReadExponent(t[..n]) == ReadExponent(t)
  {
    hide DigitsValue, DigitRun, AllDigits;
    if n > 0 {
      var sign := SignLength(t[1..]);
      var k := DigitRun(t[1 + sign..]);
      DigitsAt(t, 1 + sign);
      var u := t[..n];
      assert u[1 + sign..] == t[1 + sign..n];
      DigitRunAll(u[1 + sign..]);
      assert SignLength(u[1..]) == sign;
      assert u[1 + sign..1 + sign + k] == t[1 + sign..1 + sign + k];
    } else {
      assert t[..0] == [];
    }
  }

  lemma {:induction false} DigitRunPrefix(t: seq<byte>, n: nat)
    requires DigitRun(t) <= n <= |t|
    ensures DigitRun(t[..n]) == DigitRun(t)
  {
    if t != [] && IsDigit(t[0]) {
      DigitRunPrefix(t[1..], n - 1);
      assert t[..n][1..] == t[1..][..n - 1];
    }
  }

  lemma DigitRunCut(t: seq<byte>, from: nat, n: nat)
    requires from <= n <= |t| && from + DigitRun(t[from..]) <= n
    ensures DigitRun(t[..n][from..]) == DigitRun(t[from..])
  {
    DigitRunPrefix(t[from..], n - from);
    assert t[..n][from..] == t[from..][..n - from];
  }

  lemma StrtodPrefix(t: seq<byte>)
    requires Strtod(t).Some?
    ensures Strtod(t[..Strtod(t).value.length]) == Strtod(t)
  {
    hide DigitsValue, DigitRun, AllDigits, Strtod, ReadExponent, SignLength, Scale;
    var n := SignLength(t);
    var point := n + DigitRun(t[n..]);
    var dotted := point < |t| && t[point] == DOT;
    var end := if dotted then point + 1 + DigitRun(t[point + 1..]) else point;
    StrtodEnd(t, n, point, dotted, end);
    var x := ReadExponent(t[end..]);
    var len := end + x.length;
    var u := t[..len];
    SignCut(t, len);
    ExponentPrefix(t[end..], x.length);
    assert u[end..] == t[end..][..x.length];
    DigitRunCut(t, n, len);
    DigitsAt(t, n);
    assert u[n..point] == t[n..point];
    if dotted {
      DigitRunCut(t, point + 1, len);
      DigitsAt(t, point + 1);
      assert u[point + 1..end] == t[point + 1..end];
      AllDigitsConcat(t[n..point], t[point + 1..end]);
      StrtodPoint(t, n, t[n..point], t[point + 1..end], point, end, x);
      StrtodPoint(u, n, t[n..point], t[point + 1..end], point, end, x);
    } else {
      StrtodWhole(t, n, t[n..point], point, x);
      StrtodWhole(u, n, t[n..point], point, x);
    }
  }

  lemma SignCut(t: seq<byte>, n: nat)
    requires 0 < n <= |t|
    ensures SignLength(t[..n]) == SignLength(t)
  {}

  /**
   * strtod takes the longest figure at the start of the text for the number, and reads nothing when there is none: of
   * "1e" and "1e+" it reads the "1".
   */
  lemma LongestFigure(t: seq<byte>, g: Figure)
    requires t != [] && (t[0] == MINUS || IsDigit(t[0])) && ValidFigure(g)
    ensures FigureText(g) <= t ==> Strtod(t).Some? && |FigureText(g)| <= Strtod(t).value.length
    ensures Strtod(t).Some? ==>
      exists f :: ValidFigure(f) && FigureText(f) == t[..Strtod(t).value.length]
        && FigureValue(f) == Strtod(t).value.value
  {
    hide Strtod, ValidFigure, FigureText, FigureValue;
    var u := FigureText(g);
    if u <= t {
      FigureBound(g, t[|u|..]);
      assert u + t[|u|..] == t;
    }
    if Strtod(t).Some? {
      var len := Strtod(t).value.length;
      StrtodPrefix(t);
      var f := FindFigure(t[..len]);
      ReadFigure(f);
    }
  }
}
