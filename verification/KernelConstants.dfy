/** Constants of the integer kernel: `to_double() as i64` (fuser.rs). */
module KernelConstants {
  import opened Words
  import opened BitOps
  import opened DataTypes
  import opened DoubleInt
  import opened FloatCodec
  import opened FloatValues

  /** The conversion of a double to a 64-bit integer saturates. */
  function Saturated(n: int): (r: int)
    ensures -TWO_63 <= r < TWO_63
  {
    if n > I64_MAX then I64_MAX else if n < -TWO_63 then -TWO_63 else n
  }

  /** Towards zero on the bits of a double; what is not a number becomes 0. */
  function PatternInt(p: u64): (n: int)
    ensures -TWO_63 <= n < TWO_63
  {
    var neg, exp, frac := p >= TWO_63, p / TWO_52 % 2048, p % TWO_52;
    if exp == 2047 then
      if frac != 0 then 0 else if neg then -TWO_63 else I64_MAX
    else if exp < 1023 then 0
    else
      var m := TWO_52 + frac;
      DivNat(m, Pow2(if exp >= 1075 then 0 else 1075 - exp));
      MulNat(m, Pow2(if exp >= 1075 then exp - 1075 else 0));
      var magnitude := if exp >= 1075 then m * Pow2(exp - 1075) else m / Pow2(1075 - exp);
      Saturated(if neg then 0 - magnitude else magnitude)
  }

  /** Integers within 64 bits, and the three kinds of float constants. */
  predicate KernelConstant(c: Scalar) {
    c.FloatConst? || c.DynamicFloatConst? || c.ScalableFloatConst?
    || ((c.IntConst? || c.ScalableIntConst?) && -TWO_63 <= c.int_ < TWO_63)
  }

  /** What the kernel receives for a constant. */
  function KernelInt(c: Scalar): int
    requires KernelConstant(c)
  {
    match c
    case IntConst(n, _) => ThroughDouble(n)
    case ScalableIntConst(n, _) => ThroughDouble(n)
    case FloatConst(p, _) => PatternInt(p)
    case DynamicFloatConst(p) => PatternInt(p)
    case ScalableFloatConst(p, _, _) => PatternInt(p)
  }

  // --------------------------------------------------- what a pattern becomes

  /** `n` is x / p rounded towards zero. */
  predicate Truncates(n: int, x: int, p: nat) {
    if x >= 0 then 0 <= n * p <= x < (n + 1) * p else (n - 1) * p < x <= n * p <= 0
  }

  lemma PatternFields(p: u64, d: Double)
    requires Denotes(p, d) && d.Normal?
    ensures p / TWO_52 % 2048 == d.exp + 1023 && p % TWO_52 == d.frac && (p >= TWO_63 <==> d.neg)
  {
    hide Pow2;
    Pow2Ieee();
    var high := (if d.neg then 2048 else 0) + d.exp + 1023;
    assert p == TWO_52 * high + d.frac;
    DivUnique(p, TWO_52, high, d.frac);
    DivUnique(high, 2048, if d.neg then 1 else 0, d.exp + 1023);
  }

  /** The whole part of (2^52 + frac) * 2^(exp - 52). */
  function WholePart(exp: int, frac: nat): nat {
    DivNat(TWO_52 + frac, Pow2(if exp >= 52 then 0 else 52 - exp));
    MulNat(TWO_52 + frac, Pow2(if exp >= 52 then exp - 52 else 0));
    if exp < 0 then 0
    else if exp >= 52 then (TWO_52 + frac) * Pow2(exp - 52)
    else (TWO_52 + frac) / Pow2(52 - exp)
  }

  lemma WholePartIs(exp: int, frac: nat)
    requires -1022 <= exp <= 1023 && frac < Pow2(52)
    ensures 0 <= WholePart(exp, frac) * Pow2(1075) <= Magnitude(exp, frac) < (WholePart(exp, frac) + 1) * Pow2(1075)
  {
    hide Pow2;
    Pow2Ieee();
    var m, p, w := TWO_52 + frac, Pow2(1075), Pow2(exp + 1023);
    if exp < 0 {
      Octave(exp, frac);
      Pow2Monotone(exp + 1024, 1023);
      LeTimes(Pow2(52), Pow2(exp + 1024), Pow2(1023));
      Pow2Sum(52, 1023, 1075);
    } else if exp >= 52 {
      Pow2Sum(exp - 52, 1075, exp + 1023);
      assert m * Pow2(exp - 52) * p == m * (Pow2(exp - 52) * p);
      LessScaled(WholePart(exp, frac), WholePart(exp, frac) + 1, p);
    } else {
      Pow2Sum(52 - exp, exp + 1023, 1075);
      Quotient(m, Pow2(52 - exp), w, p);
    }
  }

  lemma Quotient(m: nat, u: nat, w: nat, p: nat)
    requires u > 0 && w > 0 && p == u * w
    ensures 0 <= m / u * p <= m * w < (m / u + 1) * p
  {
    DivNat(m, u);
    var q, r := m / u, m % u;
    assert m == u * q + r;
    LessScaled(r, u, w);
    assert (u * q + r) * w == u * q * w + r * w;
    assert u * q * w == q * (u * w);
    assert (q + 1) * p == q * p + p;
  }

  /** A double is rounded towards zero, and saturates beyond 64 bits. */
  lemma PatternTruncates(p: u64, d: Double)
    requires Denotes(p, d)
    ensures exists n: int :: Truncates(n, Scaled(d), Pow2(1075)) && PatternInt(p) == Saturated(n)
  {
    hide Pow2, Saturated, Magnitude, WholePart;
    if d.Zero? {
      ZeroTruncates(Pow2(1075));
      ZeroPattern(p);
    } else {
      PatternFields(p, d);
      WholePartIs(d.exp, d.frac);
      var whole: int := WholePart(d.exp, d.frac);
      Negated(whole, Magnitude(d.exp, d.frac), Pow2(1075));
      PatternIntIs(p, d);
      if d.neg {
        assert Truncates(0 - whole, Scaled(d), Pow2(1075));
      } else {
        assert Truncates(whole, Scaled(d), Pow2(1075));
      }
    }
  }

  lemma ZeroTruncates(p: nat)
    requires p > 0
    ensures Truncates(0, 0, p)
  {
  }

  lemma Negated(n: nat, x: nat, p: nat)
    requires 0 <= n * p <= x < (n + 1) * p && x > 0
    ensures Truncates(n, x, p) && Truncates(0 - n, 0 - x, p)
  {
    assert (0 - n) * p == 0 - n * p;
    assert (0 - n - 1) * p == 0 - (n + 1) * p;
  }

  lemma ZeroPattern(p: u64)
    requires p == 0 || p == TWO_63
    ensures PatternInt(p) == Saturated(0)
  {
    hide Pow2;
  }

  lemma PatternIntIs(p: u64, d: Double)
    requires Denotes(p, d) && d.Normal?
    ensures PatternInt(p) == Saturated(if d.neg then 0 - WholePart(d.exp, d.frac) else WholePart(d.exp, d.frac))
  {
    hide Pow2, Saturated;
    PatternFields(p, d);
    assert Saturated(0) == 0 by { InRangeStays(0); }
  }

  lemma InRangeStays(n: int)
    requires -TWO_63 <= n < TWO_63
    ensures Saturated(n) == n
  {
  }

  /** A float constant that is a whole number of 64 bits reaches the kernel as that number. */
  lemma WholeConstant(p: u64, n: int)
    requires Reads(p, n as real) && -TWO_63 <= n < TWO_63
    ensures PatternInt(p) == n
  {
    hide Pow2, PatternInt, Value, Truncates;
    var d :| Denotes(p, d) && Value(d) == n as real;
    PatternTruncates(p, d);
    var k: int :| Truncates(k, Scaled(d), Pow2(1075)) && PatternInt(p) == Saturated(k);
    ValueScaled(d, n);
    TruncatesOne(k, n, Pow2(1075));
    InRangeStays(n);
  }

  lemma ValueScaled(d: Double, n: int)
    requires Finite(d) && Value(d) == n as real
    ensures Scaled(d) == n * Pow2(1075)
  {
    hide Pow2, Scaled;
    var p := Pow2(1075);
    assert Scaled(d) as real == n as real * p as real;
    assert (n * p) as real == n as real * p as real;
  }

  lemma TruncatesOne(k: int, n: int, p: nat)
    requires p > 0 && Truncates(k, n * p, p)
    ensures k == n
  {
  }

  /** Infinities saturate, and what is not a number becomes 0. */
  lemma SpecialPatterns()
    ensures PatternInt(0x7FF0_0000_0000_0000) == 0x7FFF_FFFF_FFFF_FFFF && PatternInt(0xFFF0_0000_0000_0000) == -0x8000_0000_0000_0000
    ensures PatternInt(0x7FF8_0000_0000_0000) == 0
  {
    hide Pow2;
    assert 0x7FF0_0000_0000_0000 == 2047 * TWO_52 && 0xFFF0_0000_0000_0000 == 4095 * TWO_52;
  }

  /** 1.5 reaches the kernel as 1. */
  lemma HalfIsCut()
    ensures Reads(0x3FF8_0000_0000_0000, 1.5) && PatternInt(0x3FF8_0000_0000_0000) == 1
  {
    hide Pow2, PatternInt;
    var d := Normal(false, 0, 0x8_0000_0000_0000);
    Pow2Ieee();
    assert 0x3FF8_0000_0000_0000 == 1023 * TWO_52 + 0x8_0000_0000_0000;
    assert Denotes(0x3FF8_0000_0000_0000, d);
    Pow2Sum(1, 1074, 1075);
    Pow2Small();
    Pow2Sum(51, 1023, 1074);
    Pow2Sum(1, 51, 52);
    assert (Pow2(52) + 0x8_0000_0000_0000) * Pow2(0 + 1023) == 3 * (Pow2(51) * Pow2(1023));
    ThreeHalves(Scaled(d), Pow2(1074), Pow2(1075));
    PatternIntIs(0x3FF8_0000_0000_0000, d);
    InRangeStays(1);
  }

  lemma ThreeHalves(x: int, h: nat, p: nat)
    requires h > 0 && p == 2 * h && x == 3 * h
    ensures x as real / p as real == 1.5
  {
    assert x as real == 1.5 * p as real;
  }
}
