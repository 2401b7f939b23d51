/** The LED strip's pixel bytes and brightness: 8-bit scaling on writes, a 16-bit rescale when the level changes. */
module NeoPixels {
  import opened Bytes

  /** The strip's bytes, its stored brightness and its colour order. */
  datatype Strip = Strip(bytes: seq<byte>, brightness: byte, grb: bool)

  /** The largest byte a stored brightness allows: one less, so that 0 stands for full brightness. */
  function Level(brightness: byte): byte {
    if brightness == 0 then 255 else brightness - 1
  }

  ghost predicate Bounded(s: Strip) {
    forall i :: 0 <= i < |s.bytes| ==> s.bytes[i] <= Level(s.brightness)
  }

  // ----- arithmetic -----

  /** The scaling of one colour component. */
  function Scaled(c: byte, brightness: byte): (r: byte)
    ensures r <= c && r <= Level(brightness)
  {
    if brightness == 0 then c
    else
      ScaledBound(c, brightness);
      c * brightness / 256
  }

  lemma ScaledBound(c: byte, brightness: byte)
    requires brightness > 0
    ensures c * brightness / 256 <= c && c * brightness / 256 <= brightness - 1
  {
    Ordered(c, 255, brightness);
    Ordered(brightness, 255, c);
    Commutes(brightness, c);
    var p := c * brightness;
    assert p <= 255 * brightness && p <= 255 * c;
  }

  /** The 16-bit factor from the old level to the requested one. */
  function Factor(level: byte, b: byte): (scale: nat)
    ensures scale <= 0xFFFF && scale * level <= 256 * b + 255
  {
    if level == 0 then 0
    else
      var top := if b == 255 then 65535 else (b + 1) * 256 - 1;
      DivBound(top, level);
      top / level
  }

  lemma Commutes(x: nat, y: nat)
    ensures x * y == y * x
  {}

  lemma DivBound(a: nat, d: nat)
    requires d > 0
    ensures a / d <= a && a / d * d <= a < a / d * d + d
  {
    assert a == a / d * d + a % d;
    if a / d > a {
      Grows(a / d, d);
    }
  }

  lemma Grows(x: nat, y: nat)
    requires y > 0
    ensures x * y >= x
  {}

  /** A byte after the rescale; the product is taken in 16 bits. */
  function Rescaled(c: byte, scale: nat): byte {
    c * scale % 0x1_0000 / 256
  }

  /** No byte within the old level makes the 16-bit product wrap, and all land within the requested level. */
  lemma RescaledBound(c: byte, level: byte, b: byte)
    requires c <= level
    ensures c * Factor(level, b) <= 0xFFFF
    ensures Rescaled(c, Factor(level, b)) == c * Factor(level, b) / 256 <= b
  {
    hide Factor;
    var scale := Factor(level, b);
    Ordered(c, level, scale);
    Commutes(level, scale);
    var p := c * scale;
    assert p <= 256 * b + 255;
    assert Rescaled(c, scale) == p / 256;
  }

  lemma Ordered(x: nat, y: nat, k: nat)
    requires x <= y
    ensures x * k <= y * k
  {}

  /** Rescaling keeps the order of the bytes and takes the old maximum to the requested level exactly. */
  lemma RescaledOrder(c: byte, d: byte, level: byte, b: byte)
    requires c <= d <= level
    ensures Rescaled(c, Factor(level, b)) <= Rescaled(d, Factor(level, b))
    ensures level > 0 ==> Rescaled(level, Factor(level, b)) == b
    ensures Rescaled(0, Factor(level, b)) == 0
  {
    var scale := Factor(level, b);
    RescaledBound(c, level, b);
    RescaledBound(d, level, b);
    RescaledBound(level, level, b);
    Ordered(c, d, scale);
    if level > 0 {
      var top := (b + 1) * 256 - 1;
      DivBound(top, level);
      assert scale == top / level;
      assert scale * level == level * scale;
      assert 256 * b <= level * scale;
    }
  }

  // ----- the calls on the bytes -----

  /** The three bytes of one pixel, in the strip's order. */
  function Wired(r: byte, g: byte, b: byte, grb: bool): seq<byte> {
    if grb then [g, r, b] else [r, g, b]
  }

  function SetPixel(s: Strip, n: nat, r: byte, g: byte, b: byte): (t: Strip)
    ensures |t.bytes| == |s.bytes|
  {
    if 3 * n + 3 > |s.bytes| then s
    else
      var px := Wired(Scaled(r, s.brightness), Scaled(g, s.brightness), Scaled(b, s.brightness), s.grb);
      s.(bytes := s.bytes[..3 * n] + px + s.bytes[3 * n + 3..])
  }

  function Byte(c: nat, shift: nat): byte
    requires shift > 0
  {
    c / shift % 256
  }

  function SetPacked(s: Strip, n: nat, c: nat): Strip {
    SetPixel(s, n, Byte(c, 65536), Byte(c, 256), Byte(c, 1))
  }

  function Pack(r: byte, g: byte, b: byte): nat {
    r * 65536 + g * 256 + b
  }

  function GetPixel(s: Strip, n: nat): nat {
    if 3 * n + 3 > |s.bytes| then 0
    else if s.grb then Pack(s.bytes[3 * n + 1], s.bytes[3 * n], s.bytes[3 * n + 2])
    else Pack(s.bytes[3 * n], s.bytes[3 * n + 1], s.bytes[3 * n + 2])
  }

  function SetLevel(s: Strip, b: byte): Strip {
    var stored := (b + 1) % 256;
    if stored == s.brightness then s
    else s.(bytes := RescaledAll(s.bytes, Factor(Level(s.brightness), b)), brightness := stored)
  }

  function RescaledAll(bytes: seq<byte>, scale: nat): (r: seq<byte>)
    ensures |r| == |bytes| && forall i :: 0 <= i < |r| ==> r[i] == Rescaled(bytes[i], scale)
  {
    seq(|bytes|, i requires 0 <= i < |bytes| => Rescaled(bytes[i], scale))
  }

  // ----- what the calls keep -----

  lemma SetPixelBounded(s: Strip, n: nat, r: byte, g: byte, b: byte)
    requires Bounded(s)
    ensures Bounded(SetPixel(s, n, r, g, b))
  {
    hide Scaled;
  }

  lemma SetLevelBounded(s: Strip, b: byte)
    requires Bounded(s)
    ensures Bounded(SetLevel(s, b)) && Level(SetLevel(s, b).brightness) == b
  {
    var t, level := SetLevel(s, b), Level(s.brightness);
    if (b + 1) % 256 != s.brightness {
      forall i | 0 <= i < |s.bytes| ensures t.bytes[i] <= b {
        RescaledBound(s.bytes[i], level, b);
      }
    }
  }

  /** What is read back is what was written, scaled; the other pixels keep their colours. */
  lemma ReadBack(s: Strip, n: nat, m: nat, r: byte, g: byte, b: byte)
    requires 3 * n + 3 <= |s.bytes|
    ensures GetPixel(SetPixel(s, n, r, g, b), m) ==
      if m == n then Pack(Scaled(r, s.brightness), Scaled(g, s.brightness), Scaled(b, s.brightness)) else GetPixel(s, m)
  {
    hide Scaled, Pack;
    var t := SetPixel(s, n, r, g, b);
    if m < n {
      assert t.bytes[3 * m] == s.bytes[3 * m] && t.bytes[3 * m + 1] == s.bytes[3 * m + 1];
      assert t.bytes[3 * m + 2] == s.bytes[3 * m + 2];
    }
  }

  /** At full brightness a packed colour survives the round trip, in either colour order. */
  lemma PackedRoundTrip(s: Strip, n: nat, c: nat)
    requires s.brightness == 0 && 3 * n + 3 <= |s.bytes| && c < 0x1_0000_0000
    ensures GetPixel(SetPacked(s, n, c), n) == c % 0x100_0000
  {
    var r, g, b := Byte(c, 65536), Byte(c, 256), Byte(c, 1);
    assert Scaled(r, 0) == r && Scaled(g, 0) == g && Scaled(b, 0) == b;
    PackBytes(c);
    hide Pack, Byte, GetPixel, SetPixel, Scaled;
    ReadBack(s, n, n, r, g, b);
  }

  lemma Quotient65536(c: nat, q: nat, r: nat)
    requires c == q * 65536 + r && r < 65536
    ensures c / 65536 == q
  {}

  lemma Remainder24(c: nat, q: nat, r: nat)
    requires c == q * 0x100_0000 + r && r < 0x100_0000
    ensures c % 0x100_0000 == r
  {}

  lemma PackBytes(c: nat)
    ensures Pack(Byte(c, 65536), Byte(c, 256), Byte(c, 1)) == c % 0x100_0000
  {
    var c1, b0 := c / 256, c % 256;
    var c2, b1 := c1 / 256, c1 % 256;
    var c3, b2 := c2 / 256, c2 % 256;
    assert c == c1 * 256 + b0 && c1 == c2 * 256 + b1 && c2 == c3 * 256 + b2;
    Quotient65536(c, c2, b1 * 256 + b0);
    Remainder24(c, c3, b2 * 65536 + b1 * 256 + b0);
    assert c / 1 == c;
  }

  // ----- what the bytes are -----

  /** `x` is the component `c` at a stored brightness, in 256ths and rounded down; 0 stands for 256. */
  predicate Dimmed(x: byte, c: byte, brightness: byte) {
    if brightness == 0 then x == c else Rounded(x, c * brightness)
  }

  /** `x` is `p` in 256ths, rounded down. */
  predicate Rounded(x: int, p: int) { 256 * x <= p < 256 * x + 256 }

  /** `x` and `y` differ by less than twice `unit`, and `x` is the smaller. */
  predicate InProportion(x: int, y: int, unit: int) { x <= y < x + 2 * unit }

  lemma ScaledExact(c: byte, brightness: byte)
    ensures Dimmed(Scaled(c, brightness), c, brightness)
  {
    if brightness != 0 {
      var p := c * brightness;
      DivBound(p, 256);
    }
  }

  /** The wire order: green, red, blue or red, green, blue, and no other byte changes. */
  lemma WireOrder(s: Strip, n: nat, r: byte, g: byte, b: byte, j: nat)
    requires 3 * n + 3 <= |s.bytes| && j < |s.bytes|
    ensures var t := SetPixel(s, n, r, g, b);
      && t.brightness == s.brightness && t.grb == s.grb
      && Dimmed(t.bytes[3 * n], if s.grb then g else r, s.brightness)
      && Dimmed(t.bytes[3 * n + 1], if s.grb then r else g, s.brightness)
      && Dimmed(t.bytes[3 * n + 2], b, s.brightness)
      && (j < 3 * n || j >= 3 * n + 3 ==> t.bytes[j] == s.bytes[j])
  {
    hide Scaled, Dimmed;
    ScaledExact(r, s.brightness);
    ScaledExact(g, s.brightness);
    ScaledExact(b, s.brightness);
  }

  /**
   * A byte after the brightness was set to `b`, from the old level `level` above 0: with the largest `scale` such that
   * the level times it is at most 256 * b + 255, it is the old byte times `scale` in 256ths, rounded down.
   */
  lemma LevelExact(s: Strip, b: byte, i: nat, level: nat, scale: nat)
    requires Bounded(s) && i < |s.bytes| && level == (if s.brightness == 0 then 255 else s.brightness - 1) && level > 0
    requires b != level && level * scale <= 256 * b + 255 < level * scale + level
    ensures var t := SetLevel(s, b);
      && t.brightness == (if b == 255 then 0 else b + 1) && t.grb == s.grb && |t.bytes| == |s.bytes|
      && Rounded(t.bytes[i], s.bytes[i] * scale)
  {
    var c := s.bytes[i];
    FactorExact(level, b, scale);
    hide Factor, RescaledAll;
    RescaledBound(c, level, b);
    hide Rescaled;
    var p := c * scale;
    DivBound(p, 256);
  }

  lemma FactorExact(level: byte, b: byte, scale: nat)
    requires level > 0 && level * scale <= 256 * b + 255 < level * scale + level
    ensures Factor(level, b) == scale
  {
    var top := 256 * b + 255;
    DivUnique(top, level, scale);
    assert b != 255 ==> (b + 1) * 256 - 1 == top;
  }

  lemma DivUnique(a: nat, d: nat, q: nat)
    requires d > 0 && d * q <= a < d * q + d
    ensures a / d == q
  {
    DivBound(a, d);
    var k := a / d;
    if k < q {
      Ordered(k + 1, q, d);
    } else if k > q {
      Ordered(q + 1, k, d);
    }
  }

  /** So every byte stays in proportion, to less than two: times the old level it is the old byte times `b` + 1. */
  lemma LevelClose(s: Strip, b: byte, i: nat, level: nat)
    requires Bounded(s) && i < |s.bytes| && level == (if s.brightness == 0 then 255 else s.brightness - 1) && level > 0
    requires b != level
    ensures |SetLevel(s, b).bytes| == |s.bytes|
    ensures InProportion(level * SetLevel(s, b).bytes[i], s.bytes[i] * (b + 1), level)
  {
    var scale := (256 * b + 255) / level;
    DivBound(256 * b + 255, level);
    Commutes(scale, level);
    LevelExact(s, b, i, level, scale);
    hide SetLevel;
    Proportion(s.bytes[i], SetLevel(s, b).bytes[i], level, b, scale);
  }

  lemma Proportion(c: nat, x: nat, level: nat, b: nat, scale: nat)
    requires c <= level && 0 < level <= 255 && Rounded(x, c * scale)
    requires level * scale <= 256 * b + 255 < level * scale + level
    ensures InProportion(level * x, c * (b + 1), level)
  {
    var a, d := c * scale, level * scale;
    Regroup(level, c, scale);
    Ordered(256 * x, a, level);
    Ordered(a, 256 * x + 255, level);
    Ordered(d, 256 * b + 255, c);
    Ordered(256 * b + 256, d + level, c);
    Ordered(c, 255, level);
    Linear(level, x, 255);
    Linear(c, b, 255);
    Linear(c, b, 256);
    Distribute(c, d, level);
    Distribute(c, b, 1);
  }

  lemma Regroup(x: nat, y: nat, z: nat)
    ensures y * z * x == x * z * y
  {}

  lemma Linear(x: nat, y: nat, k: nat)
    ensures 256 * y * x == 256 * (x * y) && (256 * y + k) * x == 256 * (x * y) + k * x
  {}

  lemma Distribute(x: nat, y: nat, z: nat)
    ensures (y + z) * x == y * x + z * x && x * (y + z) == x * y + x * z && x * y == y * x && x * z == z * x
  {}

  /** At level 0 every byte is 0 and stays so; setting the level a strip has changes nothing. */
  lemma LevelKept(s: Strip, b: byte)
    requires Bounded(s)
    ensures s.brightness == 1 ==> SetLevel(s, b) == s.(brightness := if b == 255 then 0 else b + 1)
    ensures s.brightness == (if b == 255 then 0 else b + 1) ==> SetLevel(s, b) == s
  {
    if s.brightness == 1 {
      assert RescaledAll(s.bytes, 0) == s.bytes;
    }
  }

  // ----- whole runs -----

  datatype Op =
    | SetPixelColor(n: nat, r: byte, g: byte, b: byte)
    | SetPackedColor(n: nat, c: nat)
    | SetBrightness(b: byte)

  function Step(s: Strip, op: Op): Strip {
    match op
    case SetPixelColor(n, r, g, b) => SetPixel(s, n, r, g, b)
    case SetPackedColor(n, c) => SetPacked(s, n, c)
    case SetBrightness(b) => SetLevel(s, b)
  }

  function Run(s: Strip, ops: seq<Op>): Strip
    decreases |ops|
  {
    if ops == [] then s else Run(Step(s, ops[0]), ops[1..])
  }

  /** Over every run of calls from a bounded strip, no byte exceeds the level; so no rescale ever wraps. */
  lemma {:induction false} RunBounded(s: Strip, ops: seq<Op>)
    requires Bounded(s)
    ensures Bounded(Run(s, ops))
    ensures forall i, b: byte :: 0 <= i < |Run(s, ops).bytes| ==>
      Run(s, ops).bytes[i] * Factor(Level(Run(s, ops).brightness), b) <= 0xFFFF
    decreases |ops|
  {
    if ops == [] {
      forall i, b: byte | 0 <= i < |s.bytes| ensures s.bytes[i] * Factor(Level(s.brightness), b) <= 0xFFFF {
        RescaledBound(s.bytes[i], Level(s.brightness), b);
      }
    } else {
      match ops[0] {
        case SetPixelColor(n, r, g, b) => SetPixelBounded(s, n, r, g, b);
        case SetPackedColor(n, c) => SetPixelBounded(s, n, Byte(c, 65536), Byte(c, 256), Byte(c, 1));
        case SetBrightness(b) => SetLevelBounded(s, b);
      }
      RunBounded(Step(s, ops[0]), ops[1..]);
    }
  }

  // ----- the strip -----

  class NeoPixel {
    const numLeds: nat
    const grb: bool
    const pixels: array<byte>
    var brightness: byte

    ghost predicate Valid()
      reads this, pixels
    {
      pixels.Length == 3 * numLeds <= 0xFFFF && Bounded(View())
    }

    ghost function View(): Strip
      reads this, pixels
    {
      Strip(pixels[..], brightness, grb)
    }

    constructor (n: nat, grb: bool)
      requires 3 * n <= 0xFFFF
      ensures Valid() && numLeds == n && this.grb == grb && brightness == 0 && fresh(pixels)
      ensures forall i :: 0 <= i < pixels.Length ==> pixels[i] == 0
    {
      numLeds, this.grb, brightness := n, grb, 0;
      pixels := new byte[3 * n](_ => 0);
    }

    /** setPixelColor from components. */
    method SetPixelColor(n: nat, r: byte, g: byte, b: byte)
      requires Valid() && n <= 0xFFFF
      modifies pixels
      ensures Valid() && View() == SetPixel(old(View()), n, r, g, b)
    {
      hide Bounded;
      ghost var s := View();
      SetPixelBounded(s, n, r, g, b);
      if n < numLeds {
        var red, green, blue := r, g, b;
        if brightness != 0 {
          ScaledBound(r, brightness);
          ScaledBound(g, brightness);
          ScaledBound(b, brightness);
          red := r * brightness / 256;
          green := g * brightness / 256;
          blue := b * brightness / 256;
        }
        var p := n * 3;
        if grb {
          pixels[p], pixels[p + 1] := green, red;
        } else {
          pixels[p], pixels[p + 1] := red, green;
        }
        pixels[p + 2] := blue;
        assert pixels[..] == s.bytes[..p] + Wired(red, green, blue, grb) + s.bytes[p + 3..];
      }
    }

    /** setPixelColor from a packed colour. */
    method SetPackedColor(n: nat, c: nat)
      requires Valid() && n <= 0xFFFF && c < 0x1_0000_0000
      modifies pixels
      ensures Valid() && View() == SetPacked(old(View()), n, c)
    {
      SetPixelColor(n, Byte(c, 65536), Byte(c, 256), Byte(c, 1));
    }

    /** getPixelColor */
    method GetPixelColor(n: nat) returns (c: nat)
      requires Valid() && n <= 0xFFFF
      ensures c == GetPixel(View(), n) && c < 0x100_0000
    {
      if n < numLeds {
        var p := n * 3;
        var x: int, y: int, z: int := pixels[p], pixels[p + 1], pixels[p + 2];
        c := z + if grb then x * 256 + y * 65536 else x * 65536 + y * 256;
      } else {
        c := 0;
      }
    }

    /** setBrightness */
    method SetBrightness(b: byte)
      requires Valid()
      modifies this`brightness, pixels
      ensures Valid() && View() == SetLevel(old(View()), b) && Level(brightness) == b
    {
      hide Bounded, Rescaled, RescaledAll, Factor;
      SetLevelBounded(View(), b);
      var stored := (b + 1) % 256;
      if stored != brightness {
        var level := if brightness == 0 then 255 else brightness - 1;
        RescaleBytes(Factor(level, b));
        brightness := stored;
      }
    }

    /** The rescaling loop. */
    method RescaleBytes(scale: nat)
      modifies pixels
      ensures pixels[..] == RescaledAll(old(pixels[..]), scale)
    {
      hide Rescaled;
      ghost var s := pixels[..];
      var i := 0;
      while i < pixels.Length
        invariant 0 <= i <= pixels.Length
        invariant forall j :: 0 <= j < i ==> pixels[j] == Rescaled(s[j], scale)
        invariant forall j :: i <= j < pixels.Length ==> pixels[j] == s[j]
      {
        pixels[i] := Rescaled(pixels[i], scale);
        i := i + 1;
      }
    }
  }
}
