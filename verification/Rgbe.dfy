/**
 The shared-exponent pixels of the Radiance picture format: three mantissa bytes and one exponent.
 The float operations of the source scale by powers of two and truncate; over the reals they are
 what is written here.
 */
module Rgbe {
  import opened Arithmetic
  import opened Bytes

  datatype Color = Color(r: real, g: real, b: real) {
    function Get(k: nat): real
      requires k < 3
    {
      if k == 0 then r else if k == 1 then g else b
    }

    function Max(): (m: real)
      ensures r <= m && g <= m && b <= m
      ensures m == r || m == g || m == b
    {
      var rg := if r < g then g else r;
      if rg < b then b else rg
    }
  }

  // --- powers of two -----------------------------------------------------------------------------

  function Pow2(e: int): (p: real)
    ensures p > 0.0
    decreases if e < 0 then -e else e
  {
    if e == 0 then 1.0 else if e > 0 then 2.0 * Pow2(e - 1) else Pow2(e + 1) / 2.0
  }

  lemma Pow2Next(e: int)
    ensures Pow2(e + 1) == 2.0 * Pow2(e)
  {
  }

  lemma DoubleRight(x: real, y: real)
    ensures Product(x, 2.0 * y) == 2.0 * Product(x, y)
    ensures Product(x, 1.0) == x
  {
  }

  lemma {:induction false} Pow2Add(a: int, n: nat)
    ensures Pow2(a + n) == Product(Pow2(a), Pow2(n))
  {
    DoubleRight(Pow2(a), if n > 0 then Pow2(n - 1) else 1.0);
    assert Pow2(0) == 1.0;
    if n == 0 {
    } else {
      Pow2Next(n - 1);
      hide Pow2, Product;
      Pow2Add(a, n - 1);
      Pow2Next(a + n - 1);
    }
  }

  lemma {:induction false} Pow2Monotone(a: int, b: int)
    requires a <= b
    ensures Pow2(a) <= Pow2(b)
    ensures a < b ==> 2.0 * Pow2(a) <= Pow2(b)
    decreases b - a
  {
    if a == b {
    } else {
      Pow2Monotone(a, b - 1);
      Pow2Next(b - 1);
    }
  }

  /** Powers whose exponents add up. */
  lemma Pow2Product(a: int, b: int)
    ensures Product(Pow2(a), Pow2(b)) == Pow2(a + b)
  {
    assert Pow2(0) == 1.0;
    hide Pow2, Product;
    if b >= 0 {
      Pow2Add(a, b);
    } else {
      Pow2Add(a + b, -b);
      Pow2Add(b, -b);
      MultiplyBack(Pow2(a + b), Pow2(b), Pow2(-b));
    }
  }

  lemma MultiplyBack(x: real, y: real, z: real)
    requires Product(y, z) == 1.0
    ensures Product(Product(x, z), y) == x
  {
    assert (x * z) * y == x * (y * z);
  }

  /** The exponent `frexp` returns. */
  function Exponent(m: real): (e: int)
    requires m > 0.0
    ensures Pow2(e - 1) <= m < Pow2(e)
    decreases if m >= 1.0 then m.Floor else (1.0 / m).Floor
  {
    assert Pow2(-2) == 0.25 && Pow2(-1) == 0.5 && Pow2(0) == 1.0 && Pow2(1) == 2.0;
    if m >= 2.0 then
      var e := Exponent(m / 2.0);
      Pow2Next(e - 1);
      Pow2Next(e);
      e + 1
    else if m >= 1.0 then 1
    else if m >= 0.5 then 0
    else if m >= 0.25 then -1
    else
      ReciprocalShrinks(m);
      var e := Exponent(2.0 * m);
      Pow2Next(e - 2);
      Pow2Next(e - 1);
      e - 1
  }

  lemma ReciprocalShrinks(m: real)
    requires 0.0 < m < 0.25
    ensures 0 <= (1.0 / (2.0 * m)).Floor < (1.0 / m).Floor
  {
    var x := 1.0 / m;
    assert x * m == 1.0;
    assert (x - 4.0) * m == 1.0 - 4.0 * m;
    assert x > 4.0;
    assert 1.0 / (2.0 * m) == x / 2.0;
  }

  lemma ExponentIsUnique(m: real, e: int)
    requires m > 0.0 && Pow2(e - 1) <= m < Pow2(e)
    ensures Exponent(m) == e
  {
    hide Pow2;
    var x := Exponent(m);
    if x < e {
      Pow2Monotone(x, e - 1);
    } else if e < x {
      Pow2Monotone(e, x - 1);
    }
  }

  // --- the quantiser -----------------------------------------------------------------------------

  const THRESHOLD := 0.00000000000000000000000000000001 // 1e-32

  function Clamp(x: real, low: real, high: real): real {
    if x < low then low else if x > high then high else x
  }

  /** One component in units of the last mantissa place. */
  function Normalized(c: real, m: real): real
    requires m > 0.0
  {
    var mantissa := m / Pow2(Exponent(m));
    c * (256.0 * mantissa / m)
  }

  function Mantissa(normalized: real): (b: byte) {
    Clamp(normalized, 0.0, 255.0).Floor
  }

  function ExponentByte(e: int): (b: byte) {
    if e + 128 < 0 then 0 else if e + 128 > 255 then 255 else e + 128
  }

  /** One pixel of `saveRadianceHdr`. */
  function Encode(p: Color): Bytes4 {
    var m := p.Max();
    if m < THRESHOLD then ZERO4
    else Bytes4(Mantissa(Normalized(p.r, m)), Mantissa(Normalized(p.g, m)), Mantissa(Normalized(p.b, m)),
                ExponentByte(Exponent(m)))
  }

  /** The table `exponents` of the loader. */
  function ExponentValue(b: byte): real {
    if b == 0 then 0.0 else Pow2(b - 128 - 8)
  }

  function Scaled(b: byte, correction: real, exponent: byte): real {
    b as real * correction * ExponentValue(exponent)
  }

  /** One pixel of `openRadianceHdr`; header corrections of 1 leave the corrections at 1. */
  function Decode(b: Bytes4, corrections: Color): Color {
    Color(Scaled(b.b0, corrections.r, b.b3), Scaled(b.b1, corrections.g, b.b3), Scaled(b.b2, corrections.b, b.b3))
  }

  const NO_CORRECTION := Color(1.0, 1.0, 1.0)

  // --- scaling by powers of two ------------------------------------------------------------------

  /** The scale factor of the source is a power of two. */
  lemma NormalizedIsScaled(c: real, m: real)
    requires m > 0.0
    ensures Normalized(c, m) == Product(c, Pow2(8 - Exponent(m)))
  {
    var e := Exponent(m);
    assert Pow2(0) == 1.0;
    assert Pow2(8) == 256.0 by {
      assert Pow2(4) == 16.0;
      Pow2Add(4, 4);
    }
    hide Pow2, Exponent;
    Pow2Product(8, -e);
    Pow2Product(e, -e);
    FactorIsReciprocal(m, Pow2(e), Pow2(-e));
  }

  lemma FactorIsReciprocal(m: real, p: real, q: real)
    requires m > 0.0 && p > 0.0 && Product(p, q) == 1.0
    ensures 256.0 * (m / p) / m == Product(256.0, q)
  {
    assert m / p == m * q by {
      assert (m * q) * p == m * (p * q);
    }
    assert 256.0 * (m * q) == (256.0 * q) * m;
  }

  lemma Pow2At114()
    ensures Pow2(-114) * 20769187434139310514121985316880384.0 == 1.0
  {
    assert Pow2(0) == 1.0;
    assert Pow2(3) == 8.0;
    Pow2Add(3, 4);
    assert Pow2(4) == 16.0;
    assert Pow2(7) == 128.0;
    Pow2Add(7, 7);
    Pow2Add(14, 14);
    Pow2Add(28, 28);
    Pow2Add(1, 56);
    Pow2Add(57, 57);
    Pow2Product(-114, 114);
  }

  /** 1e-32 lies between 207 and 208 times 2^-114. */
  lemma ThresholdInUnits()
    ensures 207.0 * Pow2(-114) < THRESHOLD < 208.0 * Pow2(-114)
    ensures Pow2(-107) < THRESHOLD < Pow2(-106)
  {
    Pow2At114();
    assert Pow2(8) == 256.0 && Pow2(7) == 128.0 by {
      assert Pow2(4) == 16.0 && Pow2(3) == 8.0;
      Pow2Add(4, 4);
      Pow2Add(4, 3);
    }
    Pow2Product(-114, 8);
    Pow2Product(-114, 7);
  }

  lemma ProductMonotone(x: real, y: real, z: real)
    requires z > 0.0
    ensures x <= y <==> Product(x, z) <= Product(y, z)
    ensures Product(x, z) >= 0.0 <==> x >= 0.0
  {
    assert y * z - x * z == (y - x) * z;
  }

  /** Scaling up and down again. */
  lemma ScaleBack(x: real, a: int)
    ensures Product(Product(x, Pow2(a)), Pow2(-a)) == x
  {
    assert Pow2(0) == 1.0;
    hide Pow2;
    Pow2Product(-a, a);
    MultiplyBack(x, Pow2(-a), Pow2(a));
  }

  lemma SmallPowers()
    ensures Pow2(0) == 1.0 && Pow2(7) == 128.0 && Pow2(8) == 256.0
  {
    assert Pow2(4) == 16.0 && Pow2(3) == 8.0;
    Pow2Add(4, 4);
    Pow2Add(4, 3);
  }

  // --- what is encoded ---------------------------------------------------------------------------

  /** The exponents of pixels that are not black. */
  lemma ExponentRange(m: real)
    requires m >= THRESHOLD
    ensures Exponent(m) >= -106
    ensures m < Pow2(127) <==> Exponent(m) <= 127
  {
    hide Pow2, Exponent;
    ThresholdInUnits();
    var e := Exponent(m);
    if e <= -107 {
      Pow2Monotone(e, -107);
    }
    if e <= 127 {
      Pow2Monotone(e, 127);
    } else {
      Pow2Monotone(127, e - 1);
    }
  }

  /** The largest component fills the mantissa: 128 to 255. */
  lemma LargestInUnits(m: real)
    requires m > 0.0
    ensures 128.0 <= Product(m, Pow2(8 - Exponent(m))) < 256.0
  {
    SmallPowers();
    hide Pow2, Exponent, Product;
    var e := Exponent(m);
    Pow2Product(e - 1, 8 - e);
    Pow2Product(e, 8 - e);
    ProductMonotone(Pow2(e - 1), m, Pow2(8 - e));
    ProductMonotone(Pow2(e), m, Pow2(8 - e));
  }

  /** Mantissas are truncated, never rounded up. */
  lemma MantissaTruncates(n: real)
    requires n < 256.0
    ensures n >= 0.0 ==> Mantissa(n) as real <= n < Mantissa(n) as real + 1.0
    ensures n < 0.0 ==> Mantissa(n) == 0
  {
  }

  function Quantised(c: real, m: real): byte
    requires m > 0.0
  {
    Mantissa(Product(c, Pow2(8 - Exponent(m))))
  }

  /** The encoded pixel, component by component. */
  lemma EncodedBytes(p: Color, k: nat)
    requires k < 3 && p.Max() >= THRESHOLD
    ensures Encode(p).Get(k) == Quantised(p.Get(k), p.Max())
    ensures Encode(p).b3 == ExponentByte(Exponent(p.Max())) >= 22
  {
    hide Pow2, Exponent, Normalized, Mantissa;
    ExponentRange(p.Max());
    NormalizedIsScaled(p.r, p.Max());
    NormalizedIsScaled(p.g, p.Max());
    NormalizedIsScaled(p.b, p.Max());
  }

  lemma DecodedValue(b: Bytes4, k: nat)
    requires k < 3 && b.b3 > 0
    ensures Decode(b, NO_CORRECTION).Get(k) == Product(b.Get(k) as real, Pow2(b.b3 - 136))
  {
    hide Pow2;
    DropCorrection(b.Get(k) as real, Pow2(b.b3 - 136));
  }

  lemma DropCorrection(x: real, y: real)
    ensures x * 1.0 * y == Product(x, y)
  {
  }

  // --- the error bound ---------------------------------------------------------------------------

  /** Truncation in units of the last place, brought back to scale. */
  lemma TruncationError(c: real, e: int, b: byte)
    requires b as real <= Product(c, Pow2(8 - e)) < b as real + 1.0
    ensures Product(b as real, Pow2(e - 8)) <= c < Product(b as real, Pow2(e - 8)) + Pow2(e - 8)
  {
    hide Pow2;
    var n := Product(c, Pow2(8 - e));
    ScaleBack(c, 8 - e);
    ProductMonotone(b as real, n, Pow2(e - 8));
    ProductMonotone(b as real + 1.0, n, Pow2(e - 8));
    OneMore(b as real, Pow2(e - 8));
  }

  lemma OneMore(x: real, y: real)
    ensures Product(x + 1.0, y) == Product(x, y) + y
  {
  }

  /**
   A component that is not negative comes back too small by less than 2^(e - 8), which is at most
   1/128 of the largest component, as long as that is at least 1e-32 and below 2^127.
   */
  lemma ErrorBound(p: Color, k: nat)
    requires k < 3 && p.Get(k) >= 0.0 && THRESHOLD <= p.Max() < Pow2(127)
    ensures var d, c, e := Decode(Encode(p), NO_CORRECTION).Get(k), p.Get(k), Exponent(p.Max());
      0.0 <= d <= c < d + Pow2(e - 8) && 128.0 * Pow2(e - 8) <= p.Max()
  {
    SmallPowers();
    hide Pow2, Exponent, Mantissa, Product, Encode, Decode;
    var m, c := p.Max(), p.Get(k);
    var e := Exponent(m);
    ExponentRange(m);
    EncodedBytes(p, k);
    DecodedValue(Encode(p), k);
    LargestInUnits(m);
    ProductMonotone(c, m, Pow2(8 - e));
    MantissaTruncates(Product(c, Pow2(8 - e)));
    TruncationError(c, e, Encode(p).Get(k));
    ProductMonotone(Encode(p).Get(k) as real, 0.0, Pow2(e - 8));
    Pow2Product(7, e - 8);
    ProductIsTimes(128.0, Pow2(e - 8));
  }

  lemma ProductIsTimes(x: real, y: real)
    ensures Product(x, y) == x * y
  {
  }

  /** Every component comes back too small by at most 1/128 of the largest. */
  ghost predicate Accurate(p: Color) {
    forall k :: 0 <= k < 3 ==>
      var d := Decode(Encode(p), NO_CORRECTION).Get(k);
      d <= p.Get(k) && 128.0 * (p.Get(k) - d) <= p.Max()
  }

  lemma IndexOfMax(p: Color) returns (k: nat)
    ensures k < 3 && p.Get(k) == p.Max()
  {
    k := if p.r == p.Max() then 0 else if p.g == p.Max() then 1 else 2;
  }

  lemma BlackDecodes(k: nat)
    requires k < 3
    ensures Decode(ZERO4, NO_CORRECTION).Get(k) == 0.0
  {
  }

  /** From 2^127 on the exponent byte saturates, and at least half of the largest component is lost. */
  lemma SaturationLosesHalf(p: Color, k: nat)
    requires k < 3 && p.Get(k) == p.Max() >= Pow2(127)
    ensures p.Max() >= THRESHOLD
    ensures 2.0 * Decode(Encode(p), NO_CORRECTION).Get(k) <= p.Max()
  {
    assert Pow2(127) >= 1.0 by {
      Pow2Monotone(0, 127);
    }
    hide Pow2, Exponent, Mantissa, Product, Encode, Decode;
    var m := p.Max();
    var e := Exponent(m);
    ExponentRange(m);
    EncodedBytes(p, k);
    var b := Encode(p).Get(k);
    DecodedValue(Encode(p), k);
    LargestInUnits(m);
    var n := Product(m, Pow2(8 - e));
    MantissaTruncates(n);
    hide Color.Max, Color.Get, Bytes4.Get;
    HalfAtMost(b as real, m, e);
  }

  /** A mantissa scaled as if the exponent were 127 instead of 128 or more. */
  lemma HalfAtMost(b: real, m: real, e: int)
    requires e >= 128 && 0.0 <= b <= Product(m, Pow2(8 - e))
    ensures 2.0 * Product(b, Pow2(119)) <= m
  {
    hide Pow2, Product;
    var n := Product(m, Pow2(8 - e));
    ProductMonotone(b, n, Pow2(e - 9));
    Pow2Monotone(119, e - 9);
    ProductMonotoneRight(b, Pow2(119), Pow2(e - 9));
    ScaleBack(m, 8 - e);
    Pow2Next(e - 9);
    DoubleRight(n, Pow2(e - 9));
  }

  lemma ProductMonotoneRight(x: real, y: real, z: real)
    requires x >= 0.0 && y <= z
    ensures Product(x, y) <= Product(x, z)
  {
    assert x * z - x * y == x * (z - y);
  }

  /** Exactly which non-negative pixels survive with an error of at most 1/128 of the largest component. */
  lemma AccurateExactly(p: Color)
    requires p.r >= 0.0 && p.g >= 0.0 && p.b >= 0.0
    ensures Accurate(p) <==> p.Max() == 0.0 || THRESHOLD <= p.Max() < Pow2(127)
  {
    hide Pow2, Exponent, Decode, Normalized;
    var m := p.Max();
    var k := IndexOfMax(p);
    if m < THRESHOLD {
      forall j: nat | j < 3
        ensures Decode(Encode(p), NO_CORRECTION).Get(j) == 0.0
      {
        BlackDecodes(j);
      }
    } else if m < Pow2(127) {
      hide Encode;
      forall j | 0 <= j < 3
        ensures var d := Decode(Encode(p), NO_CORRECTION).Get(j);
          d <= p.Get(j) && 128.0 * (p.Get(j) - d) <= m
      {
        ErrorBound(p, j);
      }
    } else {
      hide Encode;
      SaturationLosesHalf(p, k);
    }
  }

  // --- stability ---------------------------------------------------------------------------------

  lemma MantissaMonotone(x: real, y: real)
    requires x <= y
    ensures Mantissa(x) <= Mantissa(y)
  {
  }

  /** The largest component stays the largest. */
  lemma DecodedMax(p: Color)
    requires p.Max() >= THRESHOLD
    ensures var b := Encode(p);
      Decode(b, NO_CORRECTION).Max() == Product(Quantised(p.Max(), p.Max()) as real, Pow2(b.b3 - 136))
  {
    hide Pow2, Exponent, Mantissa, Product, Encode, Decode;
    var m := p.Max();
    var b, scale := Encode(p), 8 - Exponent(m);
    forall k: nat | k < 3
      ensures Decode(b, NO_CORRECTION).Get(k) == Product(Quantised(p.Get(k), m) as real, Pow2(b.b3 - 136))
      ensures Decode(b, NO_CORRECTION).Get(k) <= Product(Quantised(m, m) as real, Pow2(b.b3 - 136))
    {
      EncodedBytes(p, k);
      DecodedValue(b, k);
      ProductMonotone(p.Get(k), m, Pow2(scale));
      MantissaMonotone(Product(p.Get(k), Pow2(scale)), Product(m, Pow2(scale)));
      ProductMonotone(Quantised(p.Get(k), m) as real, Quantised(m, m) as real, Pow2(b.b3 - 136));
    }
    var k := IndexOfMax(p);
    var q := Decode(b, NO_CORRECTION);
    assert q.Get(k) == Product(Quantised(m, m) as real, Pow2(b.b3 - 136));
    MaxOfThree(q, k);
  }

  lemma MaxOfThree(q: Color, k: nat)
    requires k < 3 && forall j: nat :: j < 3 ==> q.Get(j) <= q.Get(k)
    ensures q.Max() == q.Get(k)
  {
    assert q.Get(0) == q.r && q.Get(1) == q.g && q.Get(2) == q.b;
  }

  /** The decoded pixel has the exponent that was stored. */
  lemma DecodedExponent(p: Color)
    requires p.Max() >= THRESHOLD
    ensures var q := Decode(Encode(p), NO_CORRECTION);
      q.Max() > 0.0 && Exponent(q.Max()) == Encode(p).b3 - 128
  {
    SmallPowers();
    hide Pow2, Exponent, Mantissa, Product, Encode, Decode;
    var m := p.Max();
    DecodedMax(p);
    LargestInUnits(m);
    MantissaTruncates(Product(m, Pow2(8 - Exponent(m))));
    var b, t := Quantised(m, m), Encode(p).b3 - 136;
    assert 128 <= b <= 255 by { FullMantissa(Product(m, Pow2(8 - Exponent(m)))); }
    Pow2Product(7, t);
    Pow2Product(8, t);
    ProductMonotone(128.0, b as real, Pow2(t));
    ProductMonotone(256.0, b as real, Pow2(t));
    ExponentIsUnique(Product(b as real, Pow2(t)), t + 8);
  }

  lemma FullMantissa(n: real)
    requires 128.0 <= n < 256.0
    ensures 128 <= Mantissa(n) <= 255
  {
  }

  lemma MantissaOfByte(b: byte)
    ensures Mantissa(b as real) == b
  {
  }

  /** Whether a decoded pixel is still bright enough not to be taken for black. */
  lemma DecodedBrightness(p: Color)
    requires p.Max() >= THRESHOLD
    ensures Decode(Encode(p), NO_CORRECTION).Max() >= THRESHOLD <==> p.Max() >= 208.0 * Pow2(-114)
  {
    SmallPowers();
    hide Pow2, Exponent, Mantissa, Product, Encode, Decode;
    var m := p.Max();
    var e := Exponent(m);
    var q := Decode(Encode(p), NO_CORRECTION).Max();
    ThresholdInUnits();
    ExponentRange(m);
    var k := IndexOfMax(p);
    EncodedBytes(p, k);
    DecodedMax(p);
    DecodedExponent(p);
    Pow2Product(8, -114);
    ProductIsTimes(256.0, Pow2(-114));
    if e >= -105 {
      Pow2Monotone(-106, e - 1);
      Pow2Monotone(-106, Encode(p).b3 - 129);
    } else {
      LastMantissa(m, Quantised(m, m));
    }
  }

  /** In the lowest exponent, mantissa 207 is below the threshold and 208 above. */
  lemma LastMantissa(m: real, b: byte)
    requires m > 0.0 && Exponent(m) == -106 && b == Quantised(m, m)
    ensures Product(b as real, Pow2(-114)) >= THRESHOLD <==> m >= 208.0 * Pow2(-114)
  {
    hide Pow2, Exponent, Mantissa, Product;
    ThresholdInUnits();
    LargestInUnits(m);
    var n := Product(m, Pow2(114));
    MantissaTruncates(n);
    ScaleBack(m, 114);
    ProductIsTimes(207.0, Pow2(-114));
    ProductIsTimes(208.0, Pow2(-114));
    ProductMonotone(b as real, 207.0, Pow2(-114));
    ProductMonotone(208.0, b as real, Pow2(-114));
    ProductMonotone(208.0, n, Pow2(-114));
  }

  lemma EqualBytes(a: Bytes4, b: Bytes4)
    requires a.b3 == b.b3 && forall k: nat :: k < 3 ==> a.Get(k) == b.Get(k)
    ensures a == b
  {
    assert a.Get(0) == a.b0 && a.Get(1) == a.b1 && a.Get(2) == a.b2;
    assert b.Get(0) == b.b0 && b.Get(1) == b.b1 && b.Get(2) == b.b2;
  }

  /**
   Encoding a decoded pixel gives the same four bytes, if and only if the pixel was taken for black
   or its largest component is at least 208 * 2^-114 (between 1e-32 and that it decodes to less
   than 1e-32 and turns black the second time).
   */
  lemma StableExactly(p: Color)
    ensures Encode(Decode(Encode(p), NO_CORRECTION)) == Encode(p) <==>
      p.Max() < THRESHOLD || p.Max() >= 208.0 * Pow2(-114)
  {
    hide Pow2, Exponent, Mantissa, Product, Decode, Normalized;
    var b := Encode(p);
    var q := Decode(b, NO_CORRECTION);
    ThresholdInUnits();
    if p.Max() < THRESHOLD {
      BlackDecodes(0);
      BlackDecodes(1);
      BlackDecodes(2);
      assert q.r == q.Get(0) && q.g == q.Get(1) && q.b == q.Get(2);
    } else {
      var k := IndexOfMax(p);
      EncodedBytes(p, k);
      DecodedBrightness(p);
      if q.Max() >= THRESHOLD {
        hide Encode;
        DecodedExponent(p);
        forall k: nat | k < 3
          ensures Encode(q).Get(k) == b.Get(k)
          ensures Encode(q).b3 == b.b3
        {
          EncodedBytes(q, k);
          EncodedBytes(p, k);
          DecodedValue(b, k);
          ScaleBack(b.Get(k) as real, b.b3 - 136);
          MantissaOfByte(b.Get(k));
        }
        assert Encode(q).Get(0) == b.Get(0);
        EqualBytes(Encode(q), b);
      }
    }
  }
}
