/** Numbers as they are written: sign, digits, point and exponent, the value they have, and strtod's agreement. */
module JsonFigures {
  import opened Bytes
  import opened JsonNumber

  const EXPONENT_LOWER: byte := 101
  const EXPONENT_UPPER: byte := 69

  /** An absent exponent is None; without a point there is no fraction. */
  datatype Figure = Figure(negative: bool, whole: seq<byte>, dotted: bool, fraction: seq<byte>, exponent: Option<Power>)

  datatype Power = Power(letter: byte, sign: seq<byte>, digits: seq<byte>)

  predicate ValidPower(p: Power) {
    (p.letter == EXPONENT_LOWER || p.letter == EXPONENT_UPPER)
    && (p.sign == [] || p.sign == [PLUS] || p.sign == [MINUS])
    && p.digits != [] && AllDigits(p.digits)
  }

  /** A digit somewhere, and in front unless there is a minus: "007", "1." and "-.5" are figures. */
  predicate ValidFigure(f: Figure) {
    AllDigits(f.whole) && AllDigits(f.fraction) && (f.dotted || f.fraction == [])
    && (f.whole != [] || (f.negative && f.fraction != []))
    && (f.exponent.Some? ==> ValidPower(f.exponent.value))
  }

  // ----- text and value -----

  function PowerText(p: Power): seq<byte> {
    [p.letter] + (p.sign + p.digits)
  }

  function ExponentText(e: Option<Power>): seq<byte> {
    if e.Some? then PowerText(e.value) else []
  }

  function PointText(dotted: bool, fraction: seq<byte>): seq<byte> {
    if dotted then [DOT] + fraction else []
  }

  function SignText(negative: bool): seq<byte> {
    if negative then [MINUS] else []
  }

  function FigureText(f: Figure): seq<byte> {
    SignText(f.negative) + (f.whole + (PointText(f.dotted, f.fraction) + ExponentText(f.exponent)))
  }

  function PowerValue(p: Power): int
    requires ValidPower(p)
  {
    var v: int := DigitsValue(p.digits);
    if p.sign == [MINUS] then -v else v
  }

  function ExponentValue(e: Option<Power>): int
    requires e.Some? ==> ValidPower(e.value)
  {
    if e.Some? then PowerValue(e.value) else 0
  }

  /** The digits without the point, moved by the exponent less the length of the fraction. */
  function FigureValue(f: Figure): real
    requires ValidFigure(f)
  {
    AllDigitsConcat(f.whole, f.fraction);
    var magnitude := Scale(DigitsValue(f.whole + f.fraction) as real, ExponentValue(f.exponent) - |f.fraction|);
    if f.negative then -magnitude else magnitude
  }

  // ----- strtod reads all of a figure -----

  lemma {:induction false} DigitRunStop(t: seq<byte>, rest: seq<byte>)
    requires AllDigits(t) && (rest != [] ==> !IsDigit(rest[0]))
    ensures DigitRun(t + rest) == |t|
  {
    if t == [] {
      assert t + rest == rest;
    } else {
      assert (t + rest)[1..] == t[1..] + rest;
      DigitRunStop(t[1..], rest);
    }
  }

  lemma DigitRunDot(t: seq<byte>, rest: seq<byte>)
    requires AllDigits(t)
    ensures DigitRun(t + ([DOT] + rest)) == |t|
  {
    hide DigitRun, AllDigits;
    DigitRunStop(t, [DOT] + rest);
  }

  lemma ReadPower(e: Option<Power>)
    requires e.Some? ==> ValidPower(e.value)
    ensures ReadExponent(ExponentText(e)) == Exponent(ExponentValue(e), |ExponentText(e)|)
  {
    if e.Some? {
      var p, t := e.value, PowerText(e.value);
      assert t[1..] == p.sign + p.digits;
      assert SignLength(t[1..]) == |p.sign|;
      assert t[1 + |p.sign|..] == p.digits;
      DigitRunAll(p.digits);
      assert t[1 + |p.sign|..1 + |p.sign| + |p.digits|] == p.digits;
      hide DigitsValue, DigitRun;
      assert t[1] == MINUS <==> p.sign == [MINUS];
    }
  }

  lemma ExponentHead(e: Option<Power>)
    requires e.Some? ==> ValidPower(e.value)
    ensures ExponentText(e) != [] ==> !IsDigit(ExponentText(e)[0]) && ExponentText(e)[0] != DOT
  {}

  /** Where strtod finds the parts. */
  lemma FigureParts(sign: seq<byte>, whole: seq<byte>, tail: seq<byte>)
    ensures var t := sign + (whole + tail); var point := |sign| + |whole|;
      t[|sign|..] == whole + tail && t[point..] == tail && t[|sign|..point] == whole
  {
    var t := sign + (whole + tail);
    assert t[|sign|..] == whole + tail;
  }

  lemma FigureTail(f: Figure)
    ensures var t := FigureText(f); var n := |SignText(f.negative)|; var e := ExponentText(f.exponent);
      var tail := if f.dotted then [DOT] + (f.fraction + e) else e;
      n + |f.whole| <= |t| && t[n..] == f.whole + tail && t[n + |f.whole|..] == tail && t[n..n + |f.whole|] == f.whole
  {
    hide SignText, ExponentText;
    var e := ExponentText(f.exponent);
    var tail := PointText(f.dotted, f.fraction) + e;
    Assoc([DOT], f.fraction, e);
    assert [] + e == e;
    FigureParts(SignText(f.negative), f.whole, tail);
  }

  lemma FigureHead(f: Figure)
    requires ValidFigure(f)
    ensures var t := FigureText(f);
      && t != [] && SignLength(t) == |SignText(f.negative)| && (t[0] == MINUS <==> f.negative)
      && (t[0] == MINUS || IsDigit(t[0]))
      && |t| == |SignText(f.negative)| + |f.whole| + |PointText(f.dotted, f.fraction)| + |ExponentText(f.exponent)|
  {}

  /** What strtod makes of a text without a point whose parts are known. */
  lemma StrtodWhole(t: seq<byte>, n: nat, whole: seq<byte>, point: nat, x: Exponent)
    requires whole != [] && AllDigits(whole) && point == n + |whole| <= |t|
    requires SignLength(t) == n && DigitRun(t[n..]) == |whole| && t[n..point] == whole
    requires point < |t| ==> t[point] != DOT
    requires ReadExponent(t[point..]) == x
    ensures var m := Scale(DigitsValue(whole) as real, x.value);
      Strtod(t) == Some(Scan(if t[0] == MINUS then -m else m, point + x.length))
  {
    hide DigitsValue, DigitRun, ReadExponent, Scale, SignLength, AllDigits;
    assert whole + [] == whole;
  }

  /** The same with a point. */
  lemma StrtodPoint(t: seq<byte>, n: nat, whole: seq<byte>, fraction: seq<byte>, point: nat, end: nat, x: Exponent)
    requires |whole| + |fraction| > 0 && AllDigits(whole + fraction)
    requires point == n + |whole| && end == point + 1 + |fraction| <= |t|
    requires SignLength(t) == n && DigitRun(t[n..]) == |whole| && t[n..point] == whole && t[point] == DOT
    requires DigitRun(t[point + 1..]) == |fraction| && t[point + 1..end] == fraction
    requires ReadExponent(t[end..]) == x
    ensures var m := Scale(DigitsValue(whole + fraction) as real, x.value - |fraction|);
      Strtod(t) == Some(Scan(if t[0] == MINUS then -m else m, end + x.length))
  {
    hide DigitsValue, DigitRun, ReadExponent, Scale, SignLength, AllDigits;
  }

  lemma ReadPlain(t: seq<byte>, n: nat, whole: seq<byte>, e: seq<byte>, x: Exponent)
    requires whole != [] && AllDigits(whole) && SignLength(t) == n && n + |whole| <= |t|
    requires t[n..] == whole + e && t[n + |whole|..] == e && t[n..n + |whole|] == whole
    requires e != [] ==> !IsDigit(e[0]) && e[0] != DOT
    requires ReadExponent(e) == x
    ensures var m := Scale(DigitsValue(whole) as real, x.value);
      Strtod(t) == Some(Scan(if t[0] == MINUS then -m else m, n + |whole| + x.length))
  {
    hide DigitsValue, DigitRun, ReadExponent, Scale, Strtod, SignLength, AllDigits, IsDigit;
    DigitRunStop(whole, e);
    NoPoint(t, n + |whole|, e);
    StrtodWhole(t, n, whole, n + |whole|, x);
  }

  lemma NoPoint(t: seq<byte>, point: nat, e: seq<byte>)
    requires point <= |t| && t[point..] == e && (e != [] ==> e[0] != DOT)
    ensures point < |t| ==> t[point] != DOT
  {
    assert point < |t| ==> t[point] == t[point..][0];
  }

  lemma ReadDotted(t: seq<byte>, n: nat, whole: seq<byte>, fraction: seq<byte>, e: seq<byte>, x: Exponent)
    requires |whole| + |fraction| > 0 && AllDigits(whole) && AllDigits(fraction) && AllDigits(whole + fraction)
    requires SignLength(t) == n && n + |whole| + 1 + |fraction| <= |t| && t[n..n + |whole|] == whole
    requires var tail := [DOT] + (fraction + e); t[n..] == whole + tail && t[n + |whole|..] == tail
    requires (e != [] ==> !IsDigit(e[0])) && ReadExponent(e) == x
    ensures var m := Scale(DigitsValue(whole + fraction) as real, x.value - |fraction|);
      Strtod(t) == Some(Scan(if t[0] == MINUS then -m else m, n + |whole| + 1 + |fraction| + x.length))
  {
    hide DigitsValue, DigitRun, ReadExponent, Scale, Strtod, SignLength, AllDigits, IsDigit;
    var point := n + |whole|;
    DottedParts(t, point, fraction, e);
    DigitRunDot(whole, fraction + e);
    DigitRunStop(fraction, e);
    StrtodPoint(t, n, whole, fraction, point, point + 1 + |fraction|, x);
  }

  lemma DottedParts(t: seq<byte>, point: nat, fraction: seq<byte>, e: seq<byte>)
    requires point < |t| && t[point..] == [DOT] + (fraction + e)
    ensures t[point] == DOT && t[point + 1..] == fraction + e && point + 1 + |fraction| <= |t|
    ensures t[point + 1..point + 1 + |fraction|] == fraction && t[point + 1 + |fraction|..] == e
  {
    var tail := t[point..];
    assert t[point] == tail[0] && t[point + 1..] == tail[1..];
    assert t[point + 1..] == fraction + e;
    assert t[point + 1 + |fraction|..] == (fraction + e)[|fraction|..];
  }

  lemma PlainFigure(f: Figure, x: Exponent)
    requires ValidFigure(f) && !f.dotted && ReadExponent(ExponentText(f.exponent)) == x
    ensures var t := FigureText(f); var m := Scale(DigitsValue(f.whole) as real, x.value);
      t != [] && Strtod(t) == Some(Scan(if t[0] == MINUS then -m else m, |SignText(f.negative)| + |f.whole| + x.length))
  {
    hide DigitsValue, DigitRun, ReadExponent, Scale, Strtod, ExponentText, SignText, SignLength, AllDigits, FigureText;
    FigureHead(f);
    FigureTail(f);
    ExponentHead(f.exponent);
    ReadPlain(FigureText(f), |SignText(f.negative)|, f.whole, ExponentText(f.exponent), x);
  }

  lemma DottedFigure(f: Figure, x: Exponent)
    requires ValidFigure(f) && f.dotted && AllDigits(f.whole + f.fraction)
    requires ReadExponent(ExponentText(f.exponent)) == x
    ensures var t := FigureText(f); var end := |SignText(f.negative)| + |f.whole| + 1 + |f.fraction|;
      var m := Scale(DigitsValue(f.whole + f.fraction) as real, x.value - |f.fraction|);
      t != [] && Strtod(t) == Some(Scan(if t[0] == MINUS then -m else m, end + x.length))
  {
    hide DigitsValue, DigitRun, ReadExponent, Scale, Strtod, ExponentText, SignText, SignLength, AllDigits, FigureText;
    FigureHead(f);
    FigureTail(f);
    ExponentHead(f.exponent);
    ReadDotted(FigureText(f), |SignText(f.negative)|, f.whole, f.fraction, ExponentText(f.exponent), x);
  }

  /** strtod reads all of a figure and gives its value. */
  lemma ReadFigure(f: Figure)
    requires ValidFigure(f)
    ensures Strtod(FigureText(f)) == Some(Scan(FigureValue(f), |FigureText(f)|))
  {
    hide DigitsValue, DigitRun, ReadExponent, Scale, Strtod, ExponentText, SignText, SignLength, AllDigits, FigureText;
    hide ValidPower, ExponentValue;
    var x := ReadExponent(ExponentText(f.exponent));
    ReadPower(f.exponent);
    AllDigitsConcat(f.whole, f.fraction);
    FigureHead(f);
    if f.dotted {
      DottedFigure(f, x);
    } else {
      assert f.whole + f.fraction == f.whole;
      PlainFigure(f, x);
    }
  }

  lemma FigureChars(f: Figure)
    requires ValidFigure(f)
    ensures forall i :: 0 <= i < |FigureText(f)| ==> IsNumberChar(FigureText(f)[i])
  {
    assert forall b :: b in SignText(f.negative) ==> IsNumberChar(b);
    assert forall b :: b in f.whole ==> IsNumberChar(b);
    assert forall b :: b in PointText(f.dotted, f.fraction) ==> IsNumberChar(b);
    PowerChars(f.exponent);
    hide SignText, PointText, ExponentText;
    assert forall b :: b in FigureText(f) ==> IsNumberChar(b);
  }

  lemma PowerChars(e: Option<Power>)
    requires e.Some? ==> ValidPower(e.value)
    ensures forall b :: b in ExponentText(e) ==> IsNumberChar(b)
  {
    if e.Some? {
      var p := e.value;
      assert forall b :: b in p.sign ==> IsNumberChar(b);
      assert forall b :: b in p.digits ==> IsNumberChar(b);
      assert forall b :: b in PowerText(p) ==> b == p.letter || b in p.sign || b in p.digits;
    }
  }

  // ----- whatever strtod reads whole is a figure -----

  lemma FindPower(t: seq<byte>) returns (e: Option<Power>)
    requires ReadExponent(t).length == |t|
    ensures (e.Some? ==> ValidPower(e.value)) && ExponentText(e) == t
  {
    hide DigitsValue, DigitRun, AllDigits;
    if t == [] {
      e := None;
    } else {
      var n := SignLength(t[1..]);
      DigitsAt(t, 1 + n);
      var sign, digits := t[1..1 + n], t[1 + n..];
      assert 1 + n + DigitRun(t[1 + n..]) == |t|;
      assert digits == t[1 + n..1 + n + DigitRun(t[1 + n..])];
      assert n == 1 ==> sign == [t[1]];
      assert n == 0 ==> sign == [];
      assert t == [t[0]] + (sign + digits);
      e := Some(Power(t[0], sign, digits));
    }
  }

  /** The parts that strtod goes through. */
  lemma StrtodEnd(t: seq<byte>, n: nat, point: nat, dotted: bool, end: nat)
    requires Strtod(t).Some? && n == SignLength(t) && point == n + DigitRun(t[n..])
    requires dotted <==> point < |t| && t[point] == DOT
    requires end == if dotted then point + 1 + DigitRun(t[point + 1..]) else point
    ensures end <= |t| && Strtod(t).value.length == end + ReadExponent(t[end..]).length
    ensures point > n || (dotted && end > point + 1)
  {
    hide DigitsValue, Scale, ReadExponent, DigitRun, SignLength;
  }

  lemma Reassemble(t: seq<byte>, n: nat, point: nat, dotted: bool, end: nat)
    requires n <= point <= end <= |t| && (if dotted then point < end && t[point] == DOT else end == point)
    ensures var fraction := if dotted then t[point + 1..end] else [];
      t == t[..n] + (t[n..point] + (PointText(dotted, fraction) + t[end..]))
  {
    if dotted {
      assert t[point..] == [DOT] + t[point + 1..end] + t[end..];
    }
    assert t[n..] == t[n..point] + t[point..];
  }

  lemma SignAt(t: seq<byte>, n: nat)
    requires t != [] && (t[0] == MINUS || IsDigit(t[0])) && n == SignLength(t)
    ensures t[..n] == SignText(n == 1) && (n == 0 ==> DigitRun(t[n..]) > 0)
  {
    assert t[0..] == t;
  }

  /** The figure with these parts. */
  lemma Assemble(t: seq<byte>, n: nat, point: nat, dotted: bool, end: nat, e: Option<Power>) returns (f: Figure)
    requires n <= point <= end <= |t| && (if dotted then point < end && t[point] == DOT else end == point)
    requires n <= 1 && t[..n] == SignText(n == 1) && AllDigits(t[n..point]) && (dotted ==> AllDigits(t[point + 1..end]))
    requires (point > n || (dotted && end > point + 1)) && (n == 0 ==> point > n)
    requires (e.Some? ==> ValidPower(e.value)) && ExponentText(e) == t[end..]
    ensures ValidFigure(f) && FigureText(f) == t
  {
    hide ValidPower, ExponentText, PointText, SignText;
    Reassemble(t, n, point, dotted, end);
    f := Figure(n == 1, t[n..point], dotted, if dotted then t[point + 1..end] else [], e);
  }

  lemma FindFigure(t: seq<byte>) returns (f: Figure)
    requires t != [] && (t[0] == MINUS || IsDigit(t[0])) && Strtod(t).Some? && Strtod(t).value.length == |t|
    ensures ValidFigure(f) && FigureText(f) == t
  {
    hide DigitsValue, Scale, ReadExponent, Strtod, DigitRun, SignLength, AllDigits, SignText, ValidPower, ExponentText;
    hide ValidFigure, FigureText;
    var n := SignLength(t);
    SignAt(t, n);
    var point := n + DigitRun(t[n..]);
    var dotted := point < |t| && t[point] == DOT;
    DigitsAt(t, n);
    if dotted {
      DigitsAt(t, point + 1);
    }
    var end := if dotted then point + 1 + DigitRun(t[point + 1..]) else point;
    StrtodEnd(t, n, point, dotted, end);
    var e := FindPower(t[end..]);
    f := Assemble(t, n, point, dotted, end, e);
  }
}
