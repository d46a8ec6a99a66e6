/** The numbers constants stand for, and the doubles they become (types.rs, to_double). */
module Constants {
  import opened Words
  import opened BitOps
  import opened DataTypes
  import opened Packing
  import opened TwosComplement
  import opened Limbs
  import opened FloatCodec
  import opened FloatValues

  function Pow10(k: nat): (p: nat)
    ensures p >= 1
  {
    if k == 0 then 1 else 10 * Pow10(k - 1)
  }

  function SignedLimbs(limbs: seq<u64>, bits: nat): int
    requires bits >= 1
  {
    ModBounds(LimbValue(limbs), Pow2(bits));
    Signed(LimbValue(limbs) % Pow2(bits), bits)
  }

  /** The number a constant stands for: that of its pattern, itself, a decimal fraction, or the signed value of its limbs. */
  ghost predicate StandsFor(s: Scalar, x: real) {
    match s
    case FloatConst(p, _) => Reads(p, x)
    case IntConst(n, _) => x == n as real
    case DynamicFloatConst(p) => Reads(p, x)
    case FloatingIntConst(n, scale) => x == n as real / Pow10(scale) as real
    case ScalableIntConst(n, _) => x == n as real
    case ScalableFloatConst(p, _, _) => Reads(p, x)
    case IntLimbsConst(limbs, b) => b >= 1 && x == SignedLimbs(limbs, b) as real
    case ScalableIntLimbsConst(limbs, b) => b >= 1 && x == SignedLimbs(limbs, b) as real
  }

  lemma StandsForOne(s: Scalar, x: real, y: real)
    requires StandsFor(s, x) && StandsFor(s, y)
    ensures x == y
  {
    hide Reads;
    if s.FloatConst? || s.DynamicFloatConst? || s.ScalableFloatConst? {
      ReadsOne(s.val, x, y);
    }
  }

  /** The number, for constants that stand for one. */
  ghost function Number(s: Scalar): real {
    if exists x :: StandsFor(s, x) then var x :| StandsFor(s, x); x else 0.0
  }

  lemma NumberOf(s: Scalar, x: real)
    requires StandsFor(s, x)
    ensures Number(s) == x
  {
    hide StandsFor;
    StandsForOne(s, x, Number(s));
  }

  // ------------------------------------------------------------- IEEE arithmetic

  /** The least and the greatest positive normal double. */
  const LEAST := Normal(false, -1022, 0)

  function Greatest(): Double { Normal(false, 1023, Pow2(52) - 1) }

  /** Neither too large for a double nor below the normal ones. */
  predicate NormalRange(x: real) {
    x == 0.0 || Value(LEAST) <= RealAbs(x) <= Value(Greatest())
  }

  ghost predicate Correct(p: u64, x: real) { NormalRange(x) ==> Rounds(p, x) }

  /** Limbs without bits above their width that hold at most 2^53 either way. */
  predicate FewLimbs(limbs: seq<u64>, bits: nat) {
    && bits >= 1 && |limbs| == LimbsFor(bits) <= 16 && LimbValue(limbs) < Pow2(bits)
    && 0 - Pow2(53) <= SignedLimbs(limbs, bits) <= Pow2(53)
  }

  /**
   * Conversions and operations round to nearest (section 4.3.1 of IEEE
   * 754-2019): 64-bit integers, powers of ten up to 10^22, limbs of small
   * numbers, and results in the normal range; single precision is widened
   * exactly, and back.
   */
  ghost predicate Ieee(fpu: Fpu) {
    && (forall n: int :: -TWO_63 <= n < TWO_63 ==> Rounds(fpu.fromInt(n), n as real))
    && (forall k: nat :: k <= 22 ==> Rounds(fpu.pow10(k), Pow10(k) as real))
    && (forall limbs: seq<u64>, b: nat :: FewLimbs(limbs, b) ==> Rounds(fpu.fromLimbs(limbs, b), SignedLimbs(limbs, b) as real))
    && (forall a: u64, b: u64, x: real, y: real :: Reads(a, x) && Reads(b, y) ==> IeeeOps(fpu, a, b, x, y))
    && (forall p: u32, x: real :: ReadsSingle(p, x) ==> Reads(fpu.widen(p), x))
    && (forall a: u64, x: real :: Reads(a, x) && IsSingle(x) ==> ReadsSingle(fpu.narrow(a), x))
  }

  ghost predicate IeeeOps(fpu: Fpu, a: u64, b: u64, x: real, y: real) {
    && Correct(fpu.add(a, b), x + y)
    && Correct(fpu.sub(a, b), x - y)
    && Correct(fpu.mul(a, b), x * y)
    && (y != 0.0 ==> Correct(fpu.div(a, b), x / y))
  }

  /** Integers of 64 bits; decimal fractions of a double and at most 22 digits; limbs as above. */
  ghost predicate InReach(s: Scalar) {
    match s
    case FloatConst(_, _) => true
    case IntConst(n, _) => -TWO_63 <= n < TWO_63
    case DynamicFloatConst(_) => true
    case FloatingIntConst(n, scale) => -TWO_63 <= n < TWO_63 && IsDouble(n as real) && scale <= 22
    case ScalableIntConst(n, _) => -TWO_63 <= n < TWO_63
    case ScalableFloatConst(_, _, _) => true
    case IntLimbsConst(limbs, b) => FewLimbs(limbs, b)
    case ScalableIntLimbsConst(limbs, b) => FewLimbs(limbs, b)
  }

  /** The double of a constant is nearest to the number it stands for. */
  lemma ToDoubleRounds(fpu: Fpu, s: Scalar, x: real)
    requires Ieee(fpu) && StandsFor(s, x) && InReach(s)
    ensures Rounds(s.ToDouble(fpu), x)
  {
    hide Reads, Rounds, IsDouble, NormalRange, Pow10;
    match s
    case FloatConst(p, _) => ReadsRounds(p, x);
    case DynamicFloatConst(p) => ReadsRounds(p, x);
    case ScalableFloatConst(p, _, _) => ReadsRounds(p, x);
    case FloatingIntConst(n, scale) => DecimalRounds(fpu, n, scale);
    case _ =>
  }

  lemma DecimalRounds(fpu: Fpu, n: int, scale: nat)
    requires Ieee(fpu) && -TWO_63 <= n < TWO_63 && IsDouble(n as real) && scale <= 22
    ensures Rounds(fpu.div(fpu.fromInt(n), fpu.pow10(scale)), n as real / Pow10(scale) as real)
  {
    hide Reads, Rounds, IsDouble, NormalRange, Pow10;
    var a, b := fpu.fromInt(n), fpu.pow10(scale);
    RoundsExactly(a, n as real);
    PowerOfTen(scale);
    RoundsExactly(b, Pow10(scale) as real);
    QuotientInRange(n, scale);
    assert IeeeOps(fpu, a, b, n as real, Pow10(scale) as real);
  }

  // ------------------------------------------------------------- powers of ten

  function Pow5(k: nat): (p: nat)
    ensures p >= 1
  {
    if k == 0 then 1 else 5 * Pow5(k - 1)
  }

  lemma {:induction false} TenIsTwoFives(k: nat)
    ensures Pow10(k) == Pow5(k) * Pow2(k)
  {
    if k > 0 {
      TenIsTwoFives(k - 1);
      assert 10 * (Pow5(k - 1) * Pow2(k - 1)) == 5 * Pow5(k - 1) * (2 * Pow2(k - 1));
    }
  }

  lemma {:induction false} FivesGrow(a: nat, b: nat)
    requires a <= b
    ensures Pow5(a) <= Pow5(b)
    decreases b - a
  {
    if a < b {
      FivesGrow(a + 1, b);
    }
  }

  lemma FivesSmall()
    ensures Pow5(22) == 2384185791015625
  {
    assert Pow5(6) == 15625;
    assert Pow5(12) == 244140625;
    assert Pow5(18) == 3814697265625;
  }

  /** 10^k is a double up to k = 22. */
  lemma PowerOfTen(k: nat)
    requires k <= 22
    ensures IsDouble(Pow10(k) as real)
  {
    hide Pow2, Pow5, Pow10;
    TenIsTwoFives(k);
    FivesGrow(k, 22);
    FivesSmall();
    BelowTwo53();
    var d := WholeIsDouble(Pow5(k), k, false);
  }

  lemma BelowTwo53()
    ensures Pow2(53) == 0x20_0000_0000_0000
  {
    hide Pow2;
    Pow2Words();
    Pow2Sum(32, 16, 48);
    Pow2Small();
    Pow2Sum(48, 5, 53);
    Pow2Sum(3, 2, 5);
    Pow2Sum(1, 1, 2);
  }

  lemma QuotientBounds(n: real, t: real, low: real, high: real)
    requires 1.0 <= n <= high && 1.0 <= t <= low
    ensures 1.0 / low <= n / t <= high
  {
    AtLeast(n / t, 1.0 / low, n, t, low);
    AtMost(n / t, n, t, high);
  }

  lemma AtLeast(q: real, r: real, n: real, t: real, low: real)
    requires q * t == n && r * low == 1.0 && 1.0 <= n && 1.0 <= t <= low
    ensures r <= q
  {
    if q < r && r > 0.0 {
      RealTimes(q, r, t);
      RealTimes(t, low, r);
    }
  }

  lemma AtMost(q: real, n: real, t: real, high: real)
    requires q * t == n && 1.0 <= n <= high && 1.0 <= t
    ensures q <= high
  {
    if q > high {
      RealTimes(high, q, t);
      RealTimes(1.0, t, high);
    }
  }

  lemma RealTimes(x: real, y: real, z: real)
    requires x <= y && z > 0.0
    ensures x * z <= y * z && z * x <= z * y && (x < y ==> x * z < y * z)
  {
    assert (y - x) * z == y * z - x * z;
    if x < y {
      RealPositive(y - x, z);
    }
  }

  lemma RealPositive(x: real, y: real)
    requires x > 0.0 && y > 0.0
    ensures x * y > 0.0
  {
  }

  lemma QuotientInRange(n: int, scale: nat)
    requires -TWO_63 <= n < TWO_63 && scale <= 22
    ensures NormalRange(n as real / Pow10(scale) as real)
  {
    hide Pow2, Pow5, Pow10, Value, Greatest;
    if n != 0 {
      var m := if n < 0 then -n else n;
      TenBelow(scale);
      Pow2Words();
      Pow2Monotone(63, 1023);
      LeastBelow();
      GreatestAbove();
      QuotientBounds(m as real, Pow10(scale) as real, Pow2(1022) as real, Pow2(1023) as real);
      if n < 0 {
        NegatedQuotient(m as real, Pow10(scale) as real);
      }
    } else {
      ZeroQuotient(Pow10(scale) as real);
    }
  }

  lemma LeastBelow()
    ensures Value(LEAST) == 1.0 / Pow2(1022) as real
  {
    hide Pow2;
    Pow2Small();
    Doubles53();
    Pow2Sum(53, 1022, 1075);
    assert Scaled(LEAST) == Pow2(53) by { assert (Pow2(52) + 0) * Pow2(-1022 + 1023) == 2 * Pow2(52); }
    Reciprocal(Pow2(53) as real, Pow2(1022) as real, Pow2(1075) as real);
  }

  lemma Reciprocal(a: real, b: real, c: real)
    requires a > 0.0 && b > 0.0 && c == a * b
    ensures c > 0.0 && a / c == 1.0 / b
  {
    RealPositive(a, b);
    var x, y := a / c, 1.0 / b;
    assert x * c == a && y * b == 1.0;
    assert y * c == a * (y * b);
    if x < y { RealTimes(x, y, c); }
    if y < x { RealTimes(y, x, c); }
  }

  lemma GreatestAbove()
    ensures Value(Greatest()) >= Pow2(1023) as real
  {
    hide Pow2;
    var g := Greatest();
    Octave(1023, g.frac);
    Pow2Sum(52, 2046, 2098);
    Pow2Sum(1023, 1075, 2098);
    RealQuotient(Pow2(2098), Pow2(1023), Pow2(1075));
    QuotientGrows(Pow2(2098) as real, Scaled(g) as real, Pow2(1075) as real);
  }

  lemma QuotientGrows(x: real, y: real, p: real)
    requires x <= y && p > 0.0
    ensures x / p <= y / p
  {
    var a, b := x / p, y / p;
    assert a * p == x && b * p == y;
    if b < a { RealTimes(b, a, p); }
  }

  /** Every double but zero lies in the normal range. */
  lemma DoublesNormal(x: real)
    requires IsDouble(x)
    ensures NormalRange(x)
  {
    hide Pow2, Magnitude;
    var d: Double :| d.Valid() && !d.Infinite? && Value(d) == x;
    if d.Normal? {
      var m := d.(neg := false);
      MagnitudeBounds(d.exp, d.frac);
      QuotientGrows(Scaled(LEAST) as real, Scaled(m) as real, Pow2(1075) as real);
      QuotientGrows(Scaled(m) as real, Scaled(Greatest()) as real, Pow2(1075) as real);
      if d.neg {
        NegatedQuotient(Scaled(m) as real, Pow2(1075) as real);
      }
      LeastBelow();
    } else {
      ZeroQuotient(Pow2(1075) as real);
    }
  }

  lemma MagnitudeBounds(exp: int, frac: nat)
    requires -1022 <= exp <= 1023 && frac < Pow2(52)
    ensures Magnitude(-1022, 0) <= Magnitude(exp, frac) <= Magnitude(1023, Pow2(52) - 1)
  {
    hide Pow2;
    Octave(exp, frac);
    Octave(-1022, 0);
    Octave(1023, Pow2(52) - 1);
    Pow2Monotone(-1022 + 1023, exp + 1023);
    LeTimes(Pow2(52), Pow2(-1022 + 1023), Pow2(exp + 1023));
    if exp < 1023 {
      Pow2Monotone(exp + 1024, 2046);
      LeTimes(Pow2(52), Pow2(exp + 1024), Pow2(2046));
    } else {
      ScaledLe(frac, Pow2(52) - 1, Pow2(2046));
    }
  }

  lemma ZeroQuotient(t: real)
    requires t >= 1.0
    ensures 0.0 / t == 0.0
  {
  }

  lemma NegatedQuotient(x: real, t: real)
    requires t >= 1.0
    ensures (0.0 - x) / t == 0.0 - x / t
  {
    var a, b := (0.0 - x) / t, x / t;
    assert a * t == 0.0 - x && b * t == x;
    assert (a + b) * t == a * t + b * t;
    if a + b != 0.0 {
      RealTimes(0.0, RealAbs(a + b), t);
    }
  }

  lemma TenBelow(k: nat)
    requires k <= 22
    ensures Pow10(k) <= Pow2(1022)
  {
    hide Pow2, Pow5, Pow10;
    TenIsTwoFives(k);
    FivesGrow(k, 22);
    FivesSmall();
    BelowTwo53();
    Pow2Sum(53, k, 53 + k);
    Pow2Monotone(53 + k, 1022);
    ScaledLe(Pow5(k), Pow2(53), Pow2(k));
  }

  // ------------------------------------------------------------- whole numbers

  /** Whole numbers of up to 2^53 either way are doubles. */
  lemma SmallIsDouble(n: int)
    requires 0 - Pow2(53) <= n <= Pow2(53)
    ensures IsDouble(n as real)
  {
    hide Pow2;
    var m := if n < 0 then -n else n;
    Doubles53();
    if m == Pow2(53) {
      var d := WholeIsDouble(Pow2(52), 1, n < 0);
      assert Pow2(52) * 2 == Pow2(53);
    } else {
      var d := WholeIsDouble(m, 0, n < 0);
      TimesOne(m);
    }
  }

  lemma TimesOne(m: nat)
    ensures m * Pow2(0) == m
  {
  }

  lemma Doubles53()
    ensures Pow2(53) == 2 * Pow2(52) && Pow2(1) == 2
  {
    hide Pow2;
    Pow2Small();
    Pow2Sum(1, 52, 53);
  }

  /** Constants whose number is always a double. */
  predicate HoldsDouble(s: Scalar) {
    match s
    case IntConst(n, _) => 0 - Pow2(53) <= n <= Pow2(53)
    case ScalableIntConst(n, _) => 0 - Pow2(53) <= n <= Pow2(53)
    case FloatingIntConst(_, _) => false
    case _ => true
  }

  /** A constant whose number is a double becomes that double: every pattern, and whole numbers of up to 2^53. */
  lemma ToDoubleExact(fpu: Fpu, s: Scalar, x: real)
    requires Ieee(fpu) && StandsFor(s, x) && InReach(s)
    ensures IsDouble(x) ==> Reads(s.ToDouble(fpu), x)
    ensures HoldsDouble(s) ==> IsDouble(x)
  {
    hide Reads, Rounds, IsDouble, Pow2, Ieee;
    ToDoubleRounds(fpu, s, x);
    if IsDouble(x) {
      RoundsExactly(s.ToDouble(fpu), x);
    }
    match s
    case FloatConst(p, _) => ReadsRounds(p, x);
    case DynamicFloatConst(p) => ReadsRounds(p, x);
    case ScalableFloatConst(p, _, _) => ReadsRounds(p, x);
    case IntLimbsConst(limbs, b) => SmallIsDouble(SignedLimbs(limbs, b));
    case ScalableIntLimbsConst(limbs, b) => SmallIsDouble(SignedLimbs(limbs, b));
    case FloatingIntConst(_, _) =>
    case _ =>
      if HoldsDouble(s) {
        SmallIsDouble(s.int_);
      }
  }

  /** The patterns of 1.0 and 0.0. */
  lemma OneAndZero()
    ensures StandsFor(FloatConst(0x3FF0_0000_0000_0000, 32), 1.0) && StandsFor(FloatConst(0, 32), 0.0)
  {
    hide Pow2;
    Pow2Ieee();
    PowZero();
    Pow2Sum(52, 1023, 1075);
    var one := Normal(false, 0, 0);
    assert (Pow2(52) + 0) * Pow2(0 + 1023) == Pow2(1075);
    RealQuotient(Scaled(one), 1, Pow2(1075));
    RealQuotient(0, 0, Pow2(1075));
    assert Denotes(0x3FF0_0000_0000_0000, one) && Value(one) == 1.0;
    assert Denotes(0, Zero) && Value(Zero) == 0.0;
  }
}
