/**
 * Floating-point numbers with an arbitrary split of their bits, up to 64
 * (types.rs): what is encoded, what comes back, and how the split is chosen for
 * an array.
 */
module FloatCodec {
  import opened Words
  import opened BitOps
  import opened DoubleInt

  /** A double: zero, (2^52 + frac) * 2^(exp - 52) with a sign, or an infinity. Subnormals and NaNs are not modelled. */
  datatype Double = Zero | Normal(neg: bool, exp: int, frac: nat) | Infinite(neg: bool)
  {
    ghost predicate Valid() { Normal? ==> -1022 <= exp <= 1023 && frac < Pow2(52) }
  }

  /** The widths of a format: exponent, and what the sign leaves of the rest; a stolen sign bit goes to the mantissa. */
  predicate Format(bits: nat, e: nat, steal: bool) {
    2 <= e <= 11 && bits <= 64 && e + (if steal then 0 else 1) <= bits
  }

  function MBits(bits: nat, e: nat, steal: bool): nat
    requires Format(bits, e, steal)
  {
    bits - e - if steal then 0 else 1
  }

  function Bias(e: nat): nat
    requires e >= 1
  {
    Pow2(e - 1) - 1
  }

  /** round(fraction * 2^m) for fraction = frac / 2^52; halves go upward. */
  function RoundedMantissa(frac: nat, m: nat): nat {
    if m >= 52 then frac * Pow2(m - 52)
    else
      DivNat(frac + Pow2(51 - m), Pow2(52 - m));
      (frac + Pow2(51 - m)) / Pow2(52 - m)
  }

  /** ... and no more than 2^m - 1. */
  function EncodeMantissa(frac: nat, m: nat): nat {
    if RoundedMantissa(frac, m) <= Pow2(m) - 1 then RoundedMantissa(frac, m) else Pow2(m) - 1
  }

  function SignPart(neg: bool, bits: nat, steal: bool): nat
    requires bits >= 1
  {
    if neg && !steal then Pow2(bits - 1) else 0
  }

  function Encode(v: Double, bits: nat, e: nat, steal: bool): nat
    requires Format(bits, e, steal)
  {
    var m := MBits(bits, e, steal);
    match v
    case Zero => 0
    case Infinite(neg) => Or(SignPart(neg, bits, steal), Shl(Pow2(e) - 1, m))
    case Normal(neg, exp, frac) =>
      var exponent := exp + Bias(e);
      if exponent >= Pow2(e) - 1 then Or(SignPart(neg, bits, steal), Shl(Pow2(e) - 1, m))
      else if exponent <= 0 then 0
      else Or(Or(SignPart(neg, bits, steal), Shl(exponent, m)), EncodeMantissa(frac, m))
  }

  /** mantissa_bits / 2^m added to 1.0, as a 52-bit fraction; 2^52 if that rounds up to 2.0. */
  function DecodeMantissa(mantissa: nat, m: nat): nat {
    if m <= 52 then mantissa * Pow2(52 - m)
    else
      DivNat(Nearest(Round53(mantissa), Pow2(m - 52)), Pow2(m - 52));
      Nearest(Round53(mantissa), Pow2(m - 52)) / Pow2(m - 52)
  }

  function ExponentField(val: nat, m: nat, e: nat): nat {
    ModBounds(Shr(val, m), Pow2(e));
    Shr(val, m) % Pow2(e)
  }

  function Decode(val: nat, bits: nat, e: nat, steal: bool): Double
    requires Format(bits, e, steal)
  {
    if val == 0 then Zero
    else
      var m := MBits(bits, e, steal);
      ModBounds(val, Pow2(m));
      var neg := !steal && Bit(val, bits - 1) == 1;
      var field := ExponentField(val, m, e);
      if field == Pow2(e) - 1 then Infinite(neg)
      else
        var k := DecodeMantissa(val % Pow2(m), m);
        var exp := field - Bias(e);
        if k < Pow2(52) then Normal(neg, exp, k)
        else if exp + 1 > 1023 then Infinite(neg)
        else Normal(neg, exp + 1, 0)
  }

  // ----------------------------------------------------------------- the fields

  /** The three fields laid side by side. */
  function Fields(neg: bool, field: nat, mantissa: nat, bits: nat, e: nat, steal: bool): nat
    requires Format(bits, e, steal)
  {
    SignPart(neg, bits, steal) + Shl(field, MBits(bits, e, steal)) + mantissa
  }

  /** The sign part is a multiple of the exponent's place. */
  lemma SignAbove(neg: bool, bits: nat, e: nat, steal: bool)
    requires Format(bits, e, steal)
    ensures SignPart(neg, bits, steal) == (if neg && !steal then Pow2(e) else 0) * Pow2(MBits(bits, e, steal))
  {
    if neg && !steal {
      Pow2Sum(e, MBits(bits, e, steal), bits - 1);
    }
  }

  lemma OrIsFields(neg: bool, field: nat, mantissa: nat, bits: nat, e: nat, steal: bool)
    requires Format(bits, e, steal) && field < Pow2(e) && mantissa < Pow2(MBits(bits, e, steal))
    ensures Or(Or(SignPart(neg, bits, steal), Shl(field, MBits(bits, e, steal))), mantissa) == Fields(neg, field, mantissa, bits, e, steal)
  {
    hide Or, Pow2;
    var m := MBits(bits, e, steal);
    var p := Pow2(m);
    var high := if neg && !steal then Pow2(e) else 0;
    SignAbove(neg, bits, e, steal);
    if neg && !steal {
      LessScaled(field, Pow2(e), p);
      Pow2Sum(e, m, bits - 1);
      assert 1 * Pow2(bits - 1) == Pow2(bits - 1);
      OrShifted(field * p, 1, bits - 1);
    } else {
      OrZeroLeft(field * p);
    }
    assert high * p + field * p == (high + field) * p;
    OrShifted(mantissa, high + field, m);
  }

  lemma {:induction false} OrZeroLeft(x: nat)
    ensures Or(0, x) == x
  {
    if x > 0 {
      OrZeroLeft(x / 2);
    }
  }

  /** The fields are read back from the pattern, and every pattern is made of its fields. */
  lemma FieldsReadBack(neg: bool, field: nat, mantissa: nat, bits: nat, e: nat, steal: bool)
    requires Format(bits, e, steal) && field < Pow2(e) && mantissa < Pow2(MBits(bits, e, steal)) && (neg ==> !steal)
    ensures var val := Fields(neg, field, mantissa, bits, e, steal);
            var m := MBits(bits, e, steal);
            val % Pow2(m) == mantissa && ExponentField(val, m, e) == field && (!steal ==> (Bit(val, bits - 1) == 1) == neg)
  {
    hide Pow2;
    var val := Fields(neg, field, mantissa, bits, e, steal);
    var m := MBits(bits, e, steal);
    var high := if neg && !steal then Pow2(e) else 0;
    SignAbove(neg, bits, e, steal);
    assert high * Pow2(m) + field * Pow2(m) == Pow2(m) * (high + field);
    DivUnique(val, Pow2(m), high + field, mantissa);
    DivUnique(high + field, Pow2(e), if neg then 1 else 0, field);
    if !steal {
      LessScaled(field, Pow2(e), Pow2(m));
      BelowNext(field, Pow2(e), Pow2(m), mantissa);
      Pow2Sum(e, m, bits - 1);
      DivUnique(val, Pow2(bits - 1), if neg then 1 else 0, field * Pow2(m) + mantissa);
    }
  }

  lemma BelowNext(x: nat, y: nat, p: nat, r: nat)
    requires x < y && r < p
    ensures 0 <= x * p + r < y * p
  {
    MulStep(x, y, p);
  }

  lemma PatternIsFields(val: nat, bits: nat, e: nat, steal: bool)
    requires Format(bits, e, steal) && val < Pow2(bits)
    ensures var m := MBits(bits, e, steal);
            var neg := !steal && Bit(val, bits - 1) == 1;
            val % Pow2(m) >= 0 && val == Fields(neg, ExponentField(val, m, e), val % Pow2(m), bits, e, steal)
  {
    hide Pow2;
    var m := MBits(bits, e, steal);
    if steal {
      Pow2Sum(e, m, bits);
      LowHalf(val, Pow2(m), Pow2(e));
    } else {
      Pow2Sum(e, m, bits - 1);
      Pow2Sum(1, bits - 1, bits);
      Pow2Small();
      HighHalf(val, Pow2(m), Pow2(e), Pow2(bits - 1));
    }
  }

  lemma LowHalf(val: nat, p: nat, s: nat)
    requires p > 0 && s > 0 && val < s * p
    ensures val % p >= 0 && val / p % s >= 0 && val == val / p % s * p + val % p
  {
    DivNat(val, p);
    QuotientBelow(val, s, p);
    DivUnique(val / p, s, 0, val / p);
    assert val == p * (val / p) + val % p;
  }

  lemma HighHalf(val: nat, p: nat, s: nat, top: nat)
    requires p > 0 && s > 0 && top == s * p && val < 2 * top
    ensures val % p >= 0 && val / p % s >= 0 && 0 <= val / top <= 1
    ensures val == (if val / top % 2 == 1 then top else 0) + val / p % s * p + val % p
  {
    DivNat(val, p);
    var q := val / p;
    DivNat(q, s);
    HighParts(val, p, s, top, q, val % p, q / s, q % s);
  }

  lemma HighParts(val: nat, p: nat, s: nat, top: nat, q: nat, r: nat, h: nat, f: nat)
    requires val == p * q + r && q == s * h + f && f < s && r < p && top == s * p && val < 2 * top
    ensures top > 0 && val / top == h <= 1 && val == h * top + f * p + r
  {
    Expanded(p, s, h, f);
    BelowNext(f, s, p, r);
    HighDigit(val, top, h, f * p + r);
  }

  lemma Expanded(p: nat, s: nat, h: nat, f: nat)
    ensures p * (s * h + f) == s * p * h + f * p
  {
    assert p * (s * h + f) == p * (s * h) + p * f;
    assert p * (s * h) == p * s * h;
  }

  lemma HighDigit(val: nat, top: nat, h: nat, low: nat)
    requires val == top * h + low && low < top && val < 2 * top
    ensures top > 0 && val / top == h <= 1
  {
    DivUnique(val, top, h, low);
    if h >= 2 {
      LeTimes(top, 2, h);
    }
  }

  // ------------------------------------------------------------ encode after decode

  /** What the 52 fraction bits of a double cannot hold of a longer mantissa. */
  predicate MantissaFits(mantissa: nat, m: nat) { m <= 52 || mantissa % Pow2(m - 52) == 0 }

  lemma MantissaReturns(mantissa: nat, m: nat)
    requires mantissa < Pow2(m) && m <= 64 && MantissaFits(mantissa, m)
    ensures DecodeMantissa(mantissa, m) < Pow2(52) && EncodeMantissa(DecodeMantissa(mantissa, m), m) == mantissa
  {
    hide Pow2, Round53, Nearest, RoundedMantissa;
    if m < 52 {
      ShortMantissaReturns(mantissa, m, Pow2(52 - m));
    } else if m == 52 {
      PowZero();
      assert mantissa * Pow2(0) == mantissa;
      RoundedLong(mantissa, 52, 1);
    } else {
      LongMantissaReturns(mantissa, m, Pow2(m - 52));
    }
  }

  lemma LongMantissaReturns(mantissa: nat, m: nat, unit: nat)
    requires 52 < m <= 64 && mantissa < Pow2(m) && unit == Pow2(m - 52) && mantissa % unit == 0
    ensures DecodeMantissa(mantissa, m) < Pow2(52) && RoundedMantissa(DecodeMantissa(mantissa, m), m) == mantissa
  {
    hide Pow2, Round53, Nearest, RoundedMantissa;
    Pow2Sum(52, m - 52, m);
    QuotientBelow(mantissa, Pow2(52), unit);
    LongMantissaExact(mantissa, m);
    NearestExact(mantissa, unit);
    var k := DecodeMantissa(mantissa, m);
    assert k == mantissa / unit && mantissa == unit * k;
    RoundedLong(k, m, unit);
  }

  lemma RoundedLong(frac: nat, m: nat, unit: nat)
    requires m >= 52 && unit == Pow2(m - 52)
    ensures RoundedMantissa(frac, m) == frac * unit
  {
  }

  lemma ShortMantissaReturns(mantissa: nat, m: nat, p: nat)
    requires mantissa < Pow2(m) && m < 52 && p == Pow2(52 - m)
    ensures 0 <= mantissa * p < Pow2(52) && RoundedMantissa(mantissa * p, m) == mantissa
  {
    hide Pow2;
    Pow2Sum(m, 52 - m, 52);
    LessScaled(mantissa, Pow2(m), p);
    Pow2Sum(1, 51 - m, 52 - m);
    Pow2Small();
    assert mantissa * p == p * mantissa;
    DivUnique(mantissa * p + Pow2(51 - m), p, mantissa, Pow2(51 - m));
  }

  lemma PowZero()
    ensures Pow2(0) == 1
  {
  }

  /** A mantissa that fits survives the conversion to a double. */
  lemma LongMantissaExact(mantissa: nat, m: nat)
    requires 52 < m <= 64 && mantissa < Pow2(m) && mantissa % Pow2(m - 52) == 0
    ensures Round53(mantissa) == mantissa
  {
    hide Pow2, Nearest, BitLength;
    var len := BitLength(mantissa);
    if len > 53 {
      LengthAtMost(mantissa, m);
      Pow2Sum(len - 53, m - 52 - (len - 53), m - 52);
      DividesBoth(mantissa, Pow2(len - 53), Pow2(m - 52 - (len - 53)), Pow2(m - 52));
    }
    NearestExact(mantissa, Unit(mantissa));
  }

  lemma LengthAtMost(n: nat, m: nat)
    requires n < Pow2(m)
    ensures BitLength(n) <= m
  {
    hide Pow2, BitLength;
    if n != 0 && BitLength(n) > m {
      Pow2Monotone(m, BitLength(n) - 1);
    }
  }

  lemma DividesBoth(n: nat, a: nat, b: nat, c: nat)
    requires a > 0 && c > 0 && c == a * b && n % c == 0
    ensures n % a == 0
  {
    var k := n / c;
    assert n == c * k;
    assert n == a * (b * k) by {
      assert a * b * k == a * (b * k);
    }
    DivUnique(n, a, b * k, 0);
  }

  /** Encoding a long mantissa leaves its lowest bits zero. */
  lemma LongMantissaAligned(frac: nat, m: nat)
    requires m > 52 && frac < Pow2(52)
    ensures EncodeMantissa(frac, m) % Pow2(m - 52) == 0
  {
    hide Pow2;
    Pow2Sum(52, m - 52, m);
    LessScaled(frac, Pow2(52), Pow2(m - 52));
    DivUnique(frac * Pow2(m - 52), Pow2(m - 52), frac, 0);
  }

  /**
   * A pattern with an ordinary exponent field comes back from decoding and
   * encoding exactly when its mantissa fits the 52 fraction bits of a double:
   * always with mantissas of up to 52 bits.
   */
  lemma EncodeDecode(val: nat, bits: nat, e: nat, steal: bool)
    requires Format(bits, e, steal) && val < Pow2(bits)
    requires 1 <= ExponentField(val, MBits(bits, e, steal), e) <= Pow2(e) - 2
    ensures val % Pow2(MBits(bits, e, steal)) >= 0
    ensures Encode(Decode(val, bits, e, steal), bits, e, steal) == val
       <==> MantissaFits(val % Pow2(MBits(bits, e, steal)), MBits(bits, e, steal))
  {
    hide Pow2, DecodeMantissa, EncodeMantissa, Or, Shr;
    var m := MBits(bits, e, steal);
    var field := ExponentField(val, m, e);
    var neg := !steal && Bit(val, bits - 1) == 1;
    PatternIsFields(val, bits, e, steal);
    ModBounds(val, Pow2(m));
    var mantissa := val % Pow2(m);
    NotZero(neg, field, mantissa, bits, e, steal);
    var k := DecodeMantissa(mantissa, m);
    if MantissaFits(mantissa, m) {
      MantissaReturns(mantissa, m);
      OrIsFields(neg, field, mantissa, bits, e, steal);
    } else {
      var v := Decode(val, bits, e, steal);
      EncodedAligned(v, bits, e, steal, mantissa, val);
    }
  }

  /** With a stolen sign a 64-bit float has 53 mantissa bits; the pattern with exponent 1 and only the lowest of them set is lost. */
  lemma StolenSignGoesWrong(val: nat)
    requires val == Pow2(53) + 1
    ensures Format(64, 11, true) && MBits(64, 11, true) == 53 && val < Pow2(64)
    ensures 1 <= ExponentField(val, 53, 11) <= Pow2(11) - 2 && val % Pow2(53) == 1
    ensures Encode(Decode(val, 64, 11, true), 64, 11, true) != val
  {
    hide Pow2, Encode, Decode;
    Pow2Words();
    Pow2Small();
    Pow2Sum(8, 3, 11);
    Pow2Sum(53, 11, 64);
    DivUnique(val, Pow2(53), 1, 1);
    DivUnique(1, Pow2(11), 0, 1);
    EncodeDecode(val, 64, 11, true);
  }

  lemma NotZero(neg: bool, field: nat, mantissa: nat, bits: nat, e: nat, steal: bool)
    requires Format(bits, e, steal) && field >= 1
    ensures Fields(neg, field, mantissa, bits, e, steal) > 0
  {
    hide Pow2;
    LessScaled(0, field, Pow2(MBits(bits, e, steal)));
  }

  /** No double is encoded as a pattern whose long mantissa has low bits set. */
  lemma EncodedAligned(v: Double, bits: nat, e: nat, steal: bool, mantissa: nat, val: nat)
    requires Format(bits, e, steal) && (v.Normal? ==> v.frac < Pow2(52))
    requires mantissa == val % Pow2(MBits(bits, e, steal)) && MBits(bits, e, steal) > 52
    requires mantissa % Pow2(MBits(bits, e, steal) - 52) != 0
    ensures Encode(v, bits, e, steal) != val
  {
    hide Pow2, EncodeMantissa, Or;
    var m := MBits(bits, e, steal);
    var r := Encode(v, bits, e, steal);
    PowerAbove(e);
    if v.Normal? && 0 < v.exp + Bias(e) < Pow2(e) - 1 {
      var field := v.exp + Bias(e);
      LongMantissaAligned(v.frac, m);
      MantissaBelow(v.frac, m);
      OrIsFields(v.neg, field, EncodeMantissa(v.frac, m), bits, e, steal);
      FieldsReadBack(v.neg && !steal, field, EncodeMantissa(v.frac, m), bits, e, steal);
    } else if r != 0 {
      var neg := if v.Normal? then v.neg else v.neg;
      LessThanPower(e);
      OrZero(Or(SignPart(neg, bits, steal), Shl(Pow2(e) - 1, m)));
      OrIsFields(neg, Pow2(e) - 1, 0, bits, e, steal);
      FieldsReadBack(neg && !steal, Pow2(e) - 1, 0, bits, e, steal);
      ZeroMod(Pow2(m - 52));
    } else {
      ZeroMod(Pow2(m));
      ZeroMod(Pow2(m - 52));
    }
  }

  lemma ZeroMod(d: nat)
    requires d > 0
    ensures 0 % d == 0
  {
  }

  lemma PowerAbove(e: nat)
    requires e >= 2
    ensures Pow2(e) >= 4
  {
    Pow2Monotone(2, e);
    assert Pow2(2) == 4;
  }

  lemma LessThanPower(e: nat)
    ensures Pow2(e) - 1 >= 0
  {
  }

  lemma MantissaBelow(frac: nat, m: nat)
    ensures EncodeMantissa(frac, m) < Pow2(m)
  {
  }

  // ------------------------------------------------------------ decode after encode

  /** An ordinary exponent field. */
  predicate HasExponent(exp: int, e: nat)
    requires e >= 1
  {
    1 <= exp + Bias(e) <= Pow2(e) - 2
  }

  /** The exponent of a normal value has an ordinary field. */
  predicate InRange(v: Double, e: nat)
    requires v.Normal? && e >= 1
  {
    HasExponent(v.exp, e)
  }

  /** The fraction lies more than halfway from the last mantissa to the next power of two, or just halfway. */
  predicate Clamps(frac: nat, m: nat)
    requires m <= 52
  {
    2 * frac >= 2 * Pow2(52) - Pow2(52 - m)
  }

  /**
   * `k` is `frac` in units of the mantissa's last place: the nearest multiple,
   * the upper one of two, and the last one below 2^52 where that would be 2^52.
   */
  ghost predicate RoundedTo(k: int, frac: nat, m: nat)
    requires m <= 52
  {
    && 0 <= k < Pow2(52) && k % Pow2(52 - m) == 0
    && if Clamps(frac, m) then k == Pow2(52) - Pow2(52 - m) else 0 - Pow2(52 - m) < 2 * (k - frac) <= Pow2(52 - m)
  }

  /** Rounding, then clamping, is to the nearest, halves upward, and always less than one unit away. */
  lemma MantissaError(frac: nat, m: nat)
    requires frac < Pow2(52) && m <= 52
    ensures 0 <= EncodeMantissa(frac, m) * Pow2(52 - m) < Pow2(52)
    ensures RoundedTo(EncodeMantissa(frac, m) * Pow2(52 - m), frac, m)
    ensures 0 - Pow2(52 - m) < EncodeMantissa(frac, m) * Pow2(52 - m) - frac < Pow2(52 - m)
  {
    hide Pow2;
    Pow2Sum(m, 52 - m, 52);
    var k := EncodeMantissa(frac, m);
    DivUnique(k * Pow2(52 - m), Pow2(52 - m), k, 0);
    if m == 52 {
      PowZero();
    } else {
      Pow2Sum(1, 51 - m, 52 - m);
      Pow2Small();
      RoundingError(frac, Pow2(m), Pow2(52 - m), Pow2(51 - m), (frac + Pow2(51 - m)) / Pow2(52 - m));
    }
  }

  lemma RoundingError(frac: nat, top: nat, unit: nat, half: nat, q: int)
    requires unit == 2 * half && half > 0 && top > 0 && frac < top * unit && q == (frac + half) / unit
    ensures var r := if q <= top - 1 then q else top - 1;
            && 0 <= r * unit < top * unit && 0 - unit < r * unit - frac < unit
            && if 2 * frac >= 2 * (top * unit) - unit then r * unit == top * unit - unit else 0 - unit < 2 * (r * unit - frac) <= unit
  {
    DivNat(frac + half, unit);
    assert frac + half == unit * q + (frac + half) % unit;
    Clamped(frac, top, unit, half, q, (frac + half) % unit, q * unit, top * unit);
  }

  lemma Clamped(frac: nat, top: nat, unit: nat, half: nat, q: nat, rest: nat, qu: nat, tu: nat)
    requires unit == 2 * half && half > 0 && top > 0 && frac < tu && frac + half == qu + rest && rest < unit
    requires qu == q * unit && tu == top * unit
    ensures var r := if q <= top - 1 then q else top - 1;
            && 0 <= r * unit < tu && 0 - unit < r * unit - frac < unit
            && if 2 * frac >= 2 * tu - unit then r * unit == tu - unit else 0 - unit < 2 * (r * unit - frac) <= unit
  {
    assert (top - 1) * unit == tu - unit;
    if q <= top - 1 {
      LessScaled(q, top, unit);
      MulStep(q, top, unit);
    } else {
      LeTimes(unit, top, q);
      assert unit * top == tu && unit * q == qu;
    }
  }

  /** Multiplying both sides by 2^m. */
  lemma RelativeBound(d: int, m: nat, frac: nat)
    requires m <= 52 && 0 - Pow2(52 - m) < d < Pow2(52 - m)
    ensures 0 - (Pow2(52) + frac) < d * Pow2(m) < Pow2(52) + frac
  {
    hide Pow2;
    Pow2Sum(52 - m, m, 52);
    var p := Pow2(m);
    if d >= 0 {
      LessScaled(d, Pow2(52 - m), p);
    } else {
      LessScaled(-d, Pow2(52 - m), p);
      assert (-d) * p == -(d * p);
    }
  }

  /**
   * A normal value in range keeps its exponent and (unless its bit is stolen)
   * its sign, and its fraction is rounded to the mantissa's last place, so that
   * its significand 2^52 + frac moves by less than the 2^m-th part of itself;
   * from 52 mantissa bits on it does not move.
   */
  lemma DecodeEncode(v: Double, bits: nat, e: nat, steal: bool)
    requires Format(bits, e, steal) && v.Normal? && v.frac < Pow2(52) && InRange(v, e)
    ensures var m := MBits(bits, e, steal);
            var w := Decode(Encode(v, bits, e, steal), bits, e, steal);
            && w.Normal? && w.exp == v.exp && w.neg == (v.neg && !steal)
            && (m <= 52 ==> RoundedTo(w.frac, v.frac, m))
            && (m <= 52 ==> 0 - (Pow2(52) + v.frac) < (w.frac - v.frac) * Pow2(m) < Pow2(52) + v.frac)
            && (m >= 52 ==> w.frac == v.frac)
  {
    hide Pow2, DecodeMantissa, EncodeMantissa, Or, Shr, RoundedTo;
    var m := MBits(bits, e, steal);
    var field := v.exp + Bias(e);
    var mantissa := EncodeMantissa(v.frac, m);
    var neg := v.neg && !steal;
    MantissaBelow(v.frac, m);
    OrIsFields(v.neg, field, mantissa, bits, e, steal);
    FieldsReadBack(neg, field, mantissa, bits, e, steal);
    NotZero(v.neg, field, mantissa, bits, e, steal);
    MantissaKept(v.frac, m);
    if m <= 52 {
      RelativeBound(DecodeMantissa(mantissa, m) - v.frac, m, v.frac);
    }
  }

  lemma MantissaKept(frac: nat, m: nat)
    requires frac < Pow2(52) && m <= 64
    ensures var k := DecodeMantissa(EncodeMantissa(frac, m), m);
            && k < Pow2(52)
            && (m <= 52 ==> RoundedTo(k, frac, m))
            && (m <= 52 ==> 0 - Pow2(52 - m) < k - frac < Pow2(52 - m))
            && (m >= 52 ==> k == frac)
  {
    hide Pow2, Round53, Nearest;
    if m <= 52 {
      MantissaError(frac, m);
      if m == 52 {
        PowZero();
      }
    } else {
      var unit := Pow2(m - 52);
      LongMantissaAligned(frac, m);
      MantissaBelow(frac, m);
      Pow2Sum(52, m - 52, m);
      LessScaled(frac, Pow2(52), unit);
      assert EncodeMantissa(frac, m) == frac * unit;
      LongMantissaExact(frac * unit, m);
      NearestExact(frac * unit, unit);
      DivUnique(frac * unit, unit, frac, 0);
    }
  }

  // ------------------------------------------------------------- the IEEE formats

  const TWO_23 := 0x80_0000
  const TWO_29 := 0x2000_0000
  const TWO_52 := 0x10_0000_0000_0000

  /** Section 3.4 of IEEE 754-2019: the fields of binary64 and of binary32. */
  function Binary64(v: Double): nat
    requires v.Normal? && v.exp + 1023 >= 0
  {
    (if v.neg then TWO_63 else 0) + (v.exp + 1023) * TWO_52 + v.frac
  }

  function Binary32(v: Double): nat
    requires v.Normal? && v.exp + 127 >= 0
  {
    (if v.neg then TWO_31 else 0) + (v.exp + 127) * TWO_23 + v.frac / TWO_29
  }

  lemma Pow2Ieee()
    ensures Pow2(23) == TWO_23 && Pow2(29) == TWO_29 && Pow2(31) == TWO_31 && Pow2(52) == TWO_52 && Pow2(63) == TWO_63
  {
    hide Pow2;
    Pow2Words();
    Pow2Exponents();
    Pow2Sum(16, 7, 23);
    Pow2Sum(8, 16, 24);
    Pow2Sum(1, 31, 32);
    Pow2Small();
    Pow2Sum(29, 3, 32);
    Pow2Sum(52, 11, 63);
  }

  lemma Pow2Exponents()
    ensures Pow2(7) == 128 && Pow2(10) == 1024 && Pow2(11) == 2048
  {
    Pow2Small();
    assert Pow2(8) == 2 * Pow2(7);
    Pow2Add(3, 7);
    Pow2Add(1, 10);
  }

  /** encode_custom_float: without a split of its own, the total width decides the exponent's. */
  function EncodeFloat(v: Double, bits: nat, steal: bool): nat
    requires Format(bits, ExponentFor(bits), steal)
  {
    Encode(v, bits, ExponentFor(bits), steal)
  }

  function ExponentFor(bits: nat): nat { if bits <= 16 then 5 else if bits <= 32 then 8 else 11 }

  /** Formats of up to 16 bits have the exponents of half precision, up to 32 bits of single, and beyond of double. */
  lemma RangeOfWidth(v: Double, bits: nat)
    requires v.Normal? && v.Valid()
    ensures InRange(v, ExponentFor(bits)) <==> if bits <= 16 then -14 <= v.exp <= 15 else if bits <= 32 then -126 <= v.exp <= 127 else true
  {
    hide Pow2;
    Pow2Exponents();
    Pow2Small();
    Doubles(5);
    Doubles(4);
  }

  /** At 64 bits the encoding of a normal double is its own bit pattern. */
  lemma EncodesBinary64(v: Double)
    requires v.Normal? && v.Valid()
    ensures EncodeFloat(v, 64, false) == Encode(v, 64, 11, false) == Binary64(v)
  {
    hide Pow2, Or;
    Pow2Exponents();
    Pow2Ieee();
    MantissaBelow(v.frac, 52);
    PowZero();
    assert EncodeMantissa(v.frac, 52) == v.frac;
    OrIsFields(v.neg, v.exp + 1023, v.frac, 64, 11, false);
  }

  /** At 32 bits the encoding of a double that single precision can hold is its binary32 pattern. */
  lemma EncodesBinary32(v: Double)
    requires v.Normal? && v.frac < Pow2(52) && -126 <= v.exp <= 127 && v.frac % TWO_29 == 0
    ensures EncodeFloat(v, 32, false) == Encode(v, 32, 8, false) == Binary32(v)
  {
    hide Pow2, Or;
    Pow2Exponents();
    Pow2Ieee();
    Pow2Small();
    MantissaBelow(v.frac, 23);
    Pow2Sum(23, 29, 52);
    Pow2Sum(1, 28, 29);
    var k := v.frac / Pow2(29);
    assert v.frac == Pow2(29) * k;
    QuotientBelow(v.frac, Pow2(23), Pow2(29));
    DivUnique(v.frac + Pow2(28), Pow2(29), k, Pow2(28));
    OrIsFields(v.neg, v.exp + 127, k, 32, 8, false);
  }

  // ------------------------------------------------------------- scalable floats

  /** The smallest exponent width, from `e` on and below 15, whose range has this exponent. */
  function ExponentBits(exp: int, e: nat): (r: nat)
    requires 2 <= e <= 15
    ensures e <= r <= 15
    decreases 15 - e
  {
    if e < 15 && !(1 - Bias(e) <= exp <= Pow2(e) - 2 - Bias(e)) then ExponentBits(exp, e + 1) else e
  }

  /** The search ends in range, at 11 bits at the latest, and at the first width that will do. */
  lemma {:induction false} ExponentBitsRight(exp: int, e: nat)
    requires 2 <= e <= 11 && -1022 <= exp <= 1023
    ensures ExponentBits(exp, e) <= 11
    ensures HasExponent(exp, ExponentBits(exp, e))
    ensures forall j :: e <= j < ExponentBits(exp, e) ==> !HasExponent(exp, j)
    decreases 11 - e
  {
    if e == 11 {
      Pow2Exponents();
    } else if !HasExponent(exp, e) {
      ExponentBitsRight(exp, e + 1);
    }
  }

  /** The mantissa width by magnitude. */
  function MantissaBits(exp: int): nat {
    var mag := if exp < 0 then -exp else exp;
    if mag <= 4 then 8 else if mag <= 10 then 16 else if mag <= 20 then 24 else if mag <= 40 then 32 else 40
  }

  /** compute_scalable_float_config: total bits and exponent bits. */
  function ScalableConfig(v: Double, steal: bool): (c: (nat, nat)) {
    if !v.Normal? then (8, 4)
    else
      var e := ExponentBits(v.exp, 2);
      var sign := if steal then 0 else 1;
      var wide := e + MantissaBits(v.exp) + sign;
      (if wide > 64 then 64 else wide, e)
  }

  /** The configuration of an array: the largest bits and exponent bits, at least (8, 4), with room for a mantissa bit. */
  function ArrayConfig(values: seq<Double>, steal: bool): (c: (nat, nat)) {
    var b := MaxBits(values, steal);
    var e := MaxExponentBits(values, steal);
    var need := e + (if steal then 0 else 1) + 1;
    var bits := if b < need then need else b;
    (if bits > 64 then 64 else bits, e)
  }

  function MaxBits(values: seq<Double>, steal: bool): (b: nat)
    ensures b >= 8
  {
    if values == [] then 8 else Max(ScalableConfig(values[0], steal).0, MaxBits(values[1..], steal))
  }

  function MaxExponentBits(values: seq<Double>, steal: bool): (e: nat)
    ensures e >= 4
    ensures forall i :: 0 <= i < |values| ==> ScalableConfig(values[i], steal).1 <= e
  {
    if values == [] then 4 else Max(ScalableConfig(values[0], steal).1, MaxExponentBits(values[1..], steal))
  }

  /** A wider exponent has the larger range. */
  lemma RangeGrows(exp: int, a: nat, b: nat)
    requires 1 <= a <= b && HasExponent(exp, a)
    ensures HasExponent(exp, b)
  {
    hide Pow2;
    Pow2Monotone(a - 1, b - 1);
    Doubles(a);
    Doubles(b);
  }

  lemma Doubles(n: nat)
    requires n > 0
    ensures Pow2(n) == 2 * Pow2(n - 1)
  {
  }

  lemma {:induction false} MaxExponentSmall(values: seq<Double>, steal: bool)
    requires forall i :: 0 <= i < |values| ==> values[i].Valid()
    ensures MaxExponentBits(values, steal) <= 11
  {
    if values != [] {
      MaxExponentSmall(values[1..], steal);
      if values[0].Normal? {
        ExponentBitsRight(values[0].exp, 2);
      }
    }
  }

  /** The configuration of an array is a format with a mantissa, and every normal value is in its range. */
  lemma ArrayInRange(values: seq<Double>, steal: bool, i: nat)
    requires (forall j :: 0 <= j < |values| ==> values[j].Valid()) && i < |values| && values[i].Normal?
    ensures var (bits, e) := ArrayConfig(values, steal);
            Format(bits, e, steal) && MBits(bits, e, steal) >= 1 && InRange(values[i], e)
  {
    hide Pow2, HasExponent;
    MaxExponentSmall(values, steal);
    ExponentBitsRight(values[i].exp, 2);
    RangeGrows(values[i].exp, ScalableConfig(values[i], steal).1, MaxExponentBits(values, steal));
  }
}
