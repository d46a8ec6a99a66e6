/** Custom float formats round to the nearest value they have (types.rs). */
module FloatRounding {
  import opened Words
  import opened BitOps
  import opened DoubleInt
  import opened FloatCodec
  import opened FloatValues

  // ------------------------------------------------------------ nearest pattern

  lemma DecodedFinite(val: nat, bits: nat, e: nat, steal: bool)
    requires Format(bits, e, steal) && !Decode(val, bits, e, steal).Infinite?
    ensures Finite(Decode(val, bits, e, steal))
  {
    hide Pow2, DecodeMantissa, Shr;
    Pow2Exponents();
    Pow2Monotone(e - 1, 10);
  }

  /** Among the multiples of the last place below 2^52, the rounded fraction is nearest. */
  lemma NearestOnGrid(k: nat, frac: nat, m: nat, other: nat)
    requires m <= 52 && frac < Pow2(52) && RoundedTo(k, frac, m) && other % Pow2(52 - m) == 0 && other < Pow2(52)
    ensures Distance(k, frac) <= Distance(other, frac)
  {
    hide Pow2;
    var unit := Pow2(52 - m);
    var a, b := k / unit, other / unit;
    assert k == unit * a && other == unit * b;
    OnGrid(k, frac, unit, a, b, Pow2(52));
  }

  lemma OnGrid(k: nat, frac: nat, unit: nat, a: nat, b: nat, top: nat)
    requires unit > 0 && k == unit * a && k < top && unit * b < top && frac < top
    requires if 2 * frac >= 2 * top - unit then k == top - unit else 0 - unit < 2 * (k - frac) <= unit
    ensures Distance(k, frac) <= Distance(unit * b, frac)
  {
    if b < a {
      LeTimes(unit, b + 1, a);
      assert unit * (b + 1) == unit * b + unit;
    } else if b > a {
      LeTimes(unit, a + 1, b);
      assert unit * (a + 1) == unit * a + unit;
    }
  }

  /** The fraction is nearer to the next power of two than to the last mantissa below it. */
  predicate PastLast(frac: nat, m: nat)
    requires m <= 52
  {
    2 * frac > 2 * Pow2(52) - Pow2(52 - m)
  }

  lemma ToNextPower(k: nat, frac: nat, m: nat)
    requires m <= 52 && frac < Pow2(52) && RoundedTo(k, frac, m)
    ensures Distance(k, frac) <= Pow2(52) - frac <==> !PastLast(frac, m)
  {
    hide Pow2;
  }

  lemma DistanceScales(exp: int, k: nat, frac: nat)
    requires exp >= -1023
    ensures Distance(Magnitude(exp, k), Magnitude(exp, frac)) == Distance(k, frac) * Pow2(exp + 1023)
  {
    hide Pow2;
    var p := Pow2(exp + 1023);
    assert (Pow2(52) + k) * p == Pow2(52) * p + k * p;
    assert (Pow2(52) + frac) * p == Pow2(52) * p + frac * p;
    assert (k - frac) * p == k * p - frac * p && (frac - k) * p == frac * p - k * p;
  }

  /** A float of a lower octave, and zero, are at least as far away as the start of the octave. */
  lemma LowerOctave(exp: int, frac: nat, d: nat, exp': int, frac': nat)
    requires exp > exp' >= -1023 && frac < Pow2(52) && frac' < Pow2(52) && d <= frac
    ensures 0 <= d * Pow2(exp + 1023) <= Distance(Magnitude(exp', frac'), Magnitude(exp, frac))
  {
    hide Pow2, Magnitude;
    Octave(exp, frac);
    Octave(exp', frac');
    ScaledLe(d, frac, Pow2(exp + 1023));
    Pow2Monotone(exp' + 1024, exp + 1023);
    LeTimes(Pow2(52), Pow2(exp' + 1024), Pow2(exp + 1023));
  }

  /** A float of a higher octave is at least as far away as the start of the next one. */
  lemma HigherOctave(exp: int, frac: nat, d: nat, exp': int, frac': nat)
    requires exp' > exp >= -1023 && frac < Pow2(52) && frac' < Pow2(52) && d <= Pow2(52) - frac
    ensures 0 <= d * Pow2(exp + 1023) <= Distance(Magnitude(exp', frac'), Magnitude(exp, frac))
  {
    hide Pow2, Magnitude;
    var p := Pow2(exp + 1023);
    Octave(exp, frac);
    Octave(exp', frac');
    ScaledLe(d, Pow2(52) - frac, p);
    assert (Pow2(52) - frac) * p == Pow2(52) * p - frac * p;
    Pow2Sum(1, exp + 1023, exp + 1024);
    Pow2Small();
    Pow2Monotone(exp + 1024, exp' + 1023);
    LeTimes(Pow2(52), 2 * p, Pow2(exp' + 1023));
    assert Pow2(52) * (2 * p) == 2 * (Pow2(52) * p);
  }

  /** No float of the same sign is nearer. */
  lemma NoneNearer(exp: int, frac: nat, k: nat, m: nat, exp': int, frac': nat)
    requires exp >= -1023 && exp' >= -1023 && m <= 52 && frac < Pow2(52) && frac' < Pow2(52)
    requires RoundedTo(k, frac, m) && frac' % Pow2(52 - m) == 0 && (PastLast(frac, m) ==> exp' <= exp)
    ensures Distance(Magnitude(exp, k), Magnitude(exp, frac)) <= Distance(Magnitude(exp', frac'), Magnitude(exp, frac))
  {
    hide Pow2, Magnitude, RoundedTo, PastLast;
    DistanceScales(exp, k, frac);
    if exp' == exp {
      NearestOnGrid(k, frac, m, frac');
      DistanceScales(exp, frac', frac);
      ScaledLe(Distance(k, frac), Distance(frac', frac), Pow2(exp + 1023));
    } else if exp' < exp {
      ZeroMod(Pow2(52 - m));
      NearestOnGrid(k, frac, m, 0);
      LowerOctave(exp, frac, Distance(k, frac), exp', frac');
    } else {
      ToNextPower(k, frac, m);
      HigherOctave(exp, frac, Distance(k, frac), exp', frac');
    }
  }

  /** Zero and floats of the other sign are farther away. */
  lemma ZeroFarther(exp: int, frac: nat, k: nat, m: nat)
    requires exp >= -1023 && m <= 52 && frac < Pow2(52) && RoundedTo(k, frac, m)
    ensures Distance(Magnitude(exp, k), Magnitude(exp, frac)) <= Magnitude(exp, frac)
  {
    hide Pow2, Magnitude, RoundedTo;
    DistanceScales(exp, k, frac);
    ZeroMod(Pow2(52 - m));
    NearestOnGrid(k, frac, m, 0);
    ScaledLe(Distance(k, frac), frac, Pow2(exp + 1023));
    Octave(exp, frac);
  }

  /** A decoded pattern has a mantissa's fraction and an exponent of the format. */
  lemma DecodedOnGrid(val: nat, bits: nat, e: nat, steal: bool)
    requires Format(bits, e, steal) && MBits(bits, e, steal) <= 52 && Decode(val, bits, e, steal).Normal?
    ensures var d := Decode(val, bits, e, steal);
            d.frac < Pow2(52) && d.frac % Pow2(52 - MBits(bits, e, steal)) == 0 && d.exp + Bias(e) <= Pow2(e) - 2
  {
    hide Pow2, Shr;
    var m := MBits(bits, e, steal);
    ModBounds(val, Pow2(m));
    ModBounds(Shr(val, m), Pow2(e));
    var mantissa := val % Pow2(m);
    Pow2Sum(m, 52 - m, 52);
    LessScaled(mantissa, Pow2(m), Pow2(52 - m));
    DivUnique(mantissa * Pow2(52 - m), Pow2(52 - m), mantissa, 0);
  }

  /** A float whose sign may be stolen. */
  function SignKept(v: Double, steal: bool): Double
    requires v.Normal?
  {
    v.(neg := v.neg && !steal)
  }

  /** No pattern decodes to a number nearer to v than w. */
  ghost predicate NearestOf(w: Double, v: Double, bits: nat, e: nat, steal: bool)
    requires Format(bits, e, steal) && Finite(w) && Finite(v)
  {
    forall val: u64 :: Decode(val, bits, e, steal).Infinite? || NotNearer(val, w, v, bits, e, steal)
  }

  ghost predicate NotNearer(val: u64, w: Double, v: Double, bits: nat, e: nat, steal: bool)
    requires Format(bits, e, steal) && Finite(w) && Finite(v) && !Decode(val, bits, e, steal).Infinite?
  {
    DecodedFinite(val, bits, e, steal);
    Distance(Scaled(w), Scaled(v)) <= Distance(Scaled(Decode(val, bits, e, steal)), Scaled(v))
  }

  /** The next power of two has an ordinary exponent in the format, and is nearer. */
  predicate NextIsNearer(v: Double, bits: nat, e: nat, steal: bool)
    requires Format(bits, e, steal) && v.Normal?
  {
    MBits(bits, e, steal) <= 52 && PastLast(v.frac, MBits(bits, e, steal)) && v.exp + Bias(e) < Pow2(e) - 2
  }

  lemma PatternNotNearer(v: Double, w: Double, val: u64, bits: nat, e: nat, steal: bool)
    requires Format(bits, e, steal) && MBits(bits, e, steal) <= 52 && v.Normal? && v.exp >= -1023 && v.frac < Pow2(52) && InRange(v, e)
    requires w.Normal? && w == v.(frac := w.frac) && RoundedTo(w.frac, v.frac, MBits(bits, e, steal))
    requires !NextIsNearer(v, bits, e, steal) && !Decode(val, bits, e, steal).Infinite?
    ensures NotNearer(val, w, v, bits, e, steal)
  {
    hide Pow2, Decode, RoundedTo, PastLast, Magnitude;
    var m := MBits(bits, e, steal);
    var u := Decode(val, bits, e, steal);
    DecodedFinite(val, bits, e, steal);
    if u.Normal? && u.neg == v.neg {
      DecodedOnGrid(val, bits, e, steal);
      NoneNearer(v.exp, v.frac, w.frac, m, u.exp, u.frac);
    } else {
      ZeroFarther(v.exp, v.frac, w.frac, m);
    }
  }

  /** An encoding fits its width. */
  lemma FieldsBelow(neg: bool, field: nat, mantissa: nat, bits: nat, e: nat, steal: bool)
    requires Format(bits, e, steal) && field < Pow2(e) && mantissa < Pow2(MBits(bits, e, steal))
    ensures Fields(neg, field, mantissa, bits, e, steal) < Pow2(bits) <= TWO_64
  {
    hide Pow2;
    var m := MBits(bits, e, steal);
    Pow2Words();
    Pow2Monotone(bits, 64);
    BelowNext(field, Pow2(e), Pow2(m), mantissa);
    Pow2Sum(e, m, e + m);
    if !steal {
      Doubles(bits);
    }
  }

  /** The pattern of the next power of two. */
  lemma NextPattern(v: Double, bits: nat, e: nat, steal: bool) returns (val: u64)
    requires Format(bits, e, steal) && v.Normal? && InRange(v, e) && NextIsNearer(v, bits, e, steal)
    ensures Decode(val, bits, e, steal) == Normal(v.neg && !steal, v.exp + 1, 0)
  {
    hide Pow2, Shr, PastLast, SignPart;
    var m := MBits(bits, e, steal);
    var field := v.exp + 1 + Bias(e);
    var neg := v.neg && !steal;
    FieldsBelow(neg, field, 0, bits, e, steal);
    FieldsReadBack(neg, field, 0, bits, e, steal);
    NotZero(neg, field, 0, bits, e, steal);
    val := Fields(neg, field, 0, bits, e, steal);
    NoMantissaBits(m);
  }

  lemma NoMantissaBits(m: nat)
    requires m <= 52
    ensures DecodeMantissa(0, m) == 0 < Pow2(52)
  {
  }

  lemma ToStartOfNext(exp: int, frac: nat)
    requires exp >= -1023 && frac < Pow2(52)
    ensures Distance(Magnitude(exp + 1, 0), Magnitude(exp, frac)) == (Pow2(52) - frac) * Pow2(exp + 1023)
  {
    hide Pow2;
    var p := Pow2(exp + 1023);
    Pow2Sum(1, exp + 1023, exp + 1024);
    Pow2Small();
    assert (Pow2(52) + 0) * (2 * p) == 2 * (Pow2(52) * p);
    assert (Pow2(52) + frac) * p == Pow2(52) * p + frac * p;
    LessScaled(frac, Pow2(52), p);
    assert (Pow2(52) - frac) * p == Pow2(52) * p - frac * p;
  }

  lemma NextPowerNearer(exp: int, frac: nat, k: nat, m: nat)
    requires exp >= -1023 && m <= 52 && frac < Pow2(52) && RoundedTo(k, frac, m) && PastLast(frac, m)
    ensures Distance(Magnitude(exp + 1, 0), Magnitude(exp, frac)) < Distance(Magnitude(exp, k), Magnitude(exp, frac))
  {
    hide Pow2, Magnitude, RoundedTo, PastLast, Distance;
    DistanceScales(exp, k, frac);
    ToNextPower(k, frac, m);
    ToStartOfNext(exp, frac);
    LessScaled(Pow2(52) - frac, Distance(k, frac), Pow2(exp + 1023));
  }

  /**
   * What is decoded of a normal value in range is as near to it as the value of
   * any pattern of the format, exactly unless the mantissa is clamped where the
   * next power of two is nearer and within the format.
   */
  lemma EncodeNearest(v: Double, bits: nat, e: nat, steal: bool)
    requires Format(bits, e, steal) && v.Normal? && v.Valid() && InRange(v, e)
    ensures var w := Decode(Encode(v, bits, e, steal), bits, e, steal);
            && Finite(w)
            && (NearestOf(w, SignKept(v, steal), bits, e, steal) <==> !NextIsNearer(v, bits, e, steal))
  {
    hide Pow2, Decode, Encode, RoundedTo, PastLast, Scaled, Magnitude, Distance;
    DecodeEncode(v, bits, e, steal);
    var t := SignKept(v, steal);
    var w := Decode(Encode(v, bits, e, steal), bits, e, steal);
    if NextIsNearer(v, bits, e, steal) {
      var val := NextPattern(v, bits, e, steal);
      DecodedFinite(val, bits, e, steal);
      NextPowerNearer(v.exp, v.frac, w.frac, MBits(bits, e, steal));
      FartherThanNext(val, w, t, bits, e, steal);
    } else {
      forall val: u64 | !Decode(val, bits, e, steal).Infinite?
        ensures NotNearer(val, w, t, bits, e, steal)
      {
        DecodedFinite(val, bits, e, steal);
        if MBits(bits, e, steal) <= 52 {
          PatternNotNearer(t, w, val, bits, e, steal);
        } else {
          AtNoDistance(Scaled(w), Scaled(Decode(val, bits, e, steal)));
        }
      }
    }
  }

  lemma FartherThanNext(val: u64, w: Double, t: Double, bits: nat, e: nat, steal: bool)
    requires Format(bits, e, steal) && t.Normal? && t.exp >= -1023 && w.Normal? && w == t.(frac := w.frac)
    requires Decode(val, bits, e, steal) == Normal(t.neg, t.exp + 1, 0)
    requires Distance(Magnitude(t.exp + 1, 0), Magnitude(t.exp, t.frac)) < Distance(Magnitude(t.exp, w.frac), Magnitude(t.exp, t.frac))
    ensures !NotNearer(val, w, t, bits, e, steal)
  {
    hide Decode, Magnitude;
  }

  /** An exponent above the range becomes an infinity, one below becomes zero. */
  lemma OutOfRange(v: Double, bits: nat, e: nat, steal: bool)
    requires Format(bits, e, steal) && v.Normal? && !InRange(v, e)
    ensures Decode(Encode(v, bits, e, steal), bits, e, steal) == if v.exp > 0 then Infinite(v.neg && !steal) else Zero
  {
    hide Pow2, Or, Shr;
    PowerAbove(e);
    Doubles(e);
    if v.exp > 0 {
      InfinityReturns(v.neg, bits, e, steal);
    }
  }

  lemma InfinityReturns(neg: bool, bits: nat, e: nat, steal: bool)
    requires Format(bits, e, steal)
    ensures Decode(Encode(Infinite(neg), bits, e, steal), bits, e, steal) == Infinite(neg && !steal)
  {
    hide Pow2, Or, Shr, SignPart;
    var m := MBits(bits, e, steal);
    var field := Pow2(e) - 1;
    PowerAbove(e);
    OrIsFields(neg, field, 0, bits, e, steal);
    OrZero(Or(SignPart(neg, bits, steal), Shl(field, m)));
    FieldsReadBack(neg && !steal, field, 0, bits, e, steal);
    NotZero(neg, field, 0, bits, e, steal);
    assert SignPart(neg, bits, steal) == SignPart(neg && !steal, bits, steal) by { SameSignPart(neg, bits, steal); }
  }

  lemma SameSignPart(neg: bool, bits: nat, steal: bool)
    requires bits >= 1
    ensures SignPart(neg, bits, steal) == SignPart(neg && !steal, bits, steal)
  {
  }

  /** 0.1 in single precision rounds up to 0x3DCCCCCD. */
  lemma TenthRounds()
    ensures EncodeFloat(Normal(false, -4, 0x9_9999_9999_999A), 32, false) == 0x3DCC_CCCD
  {
    hide Pow2, Or;
    Pow2Exponents();
    Pow2Ieee();
    Pow2Small();
    Pow2Sum(1, 28, 29);
    var k := 0x4C_CCCD;
    DivUnique(0x9_9999_9999_999A + Pow2(28), Pow2(29), k, 0x9_9999_9999_999A + 0x1000_0000 - k * 0x2000_0000);
    OrIsFields(false, 123, k, 32, 8, false);
  }

  // ------------------------------------------------------------- exact values

  /** The fraction fits the mantissa. */
  predicate FitsMantissa(frac: nat, m: nat) { m <= 52 ==> frac % Pow2(52 - m) == 0 }

  lemma RoundedExactly(k: nat, frac: nat, m: nat)
    requires m <= 52 && frac < Pow2(52) && RoundedTo(k, frac, m)
    ensures k == frac <==> FitsMantissa(frac, m)
  {
    hide Pow2;
    if FitsMantissa(frac, m) {
      NearestOnGrid(k, frac, m, frac);
    }
  }

  /** A normal value in range comes back unchanged, but for a stolen sign, exactly if its fraction fits the mantissa. */
  lemma ExactIffFits(v: Double, bits: nat, e: nat, steal: bool)
    requires Format(bits, e, steal) && v.Normal? && v.Valid() && InRange(v, e)
    ensures Decode(Encode(v, bits, e, steal), bits, e, steal) == SignKept(v, steal) <==> FitsMantissa(v.frac, MBits(bits, e, steal))
  {
    hide Pow2, Decode, Encode, RoundedTo;
    DecodeEncode(v, bits, e, steal);
    var w := Decode(Encode(v, bits, e, steal), bits, e, steal);
    if MBits(bits, e, steal) <= 52 {
      RoundedExactly(w.frac, v.frac, MBits(bits, e, steal));
    }
  }

  // -------------------------------------------------- scalable floats of an array

  /** A larger magnitude never has a narrower mantissa. */
  lemma MantissaGrows(a: int, b: int)
    requires AbsInt(a) <= AbsInt(b)
    ensures MantissaBits(a) <= MantissaBits(b)
  {
  }

  /** Exponents of a width up to `a` are no larger than those that need more. */
  lemma WiderIsLarger(x: int, y: int, a: nat)
    requires a >= 2 && HasExponent(x, a) && !HasExponent(y, a)
    ensures AbsInt(x) <= AbsInt(y)
  {
    hide Pow2;
    Doubles(a);
  }

  /** Some element, or the minimum, decides the exponent width of the array. */
  lemma {:induction false} WidestExponent(values: seq<Double>, steal: bool) returns (k: nat)
    requires forall i :: 0 <= i < |values| ==> values[i].Valid()
    ensures MaxExponentBits(values, steal) > 4 ==>
      k < |values| && ScalableConfig(values[k], steal).1 == MaxExponentBits(values, steal)
  {
    hide ScalableConfig;
    k := 0;
    if values != [] && ScalableConfig(values[0], steal).1 < MaxExponentBits(values, steal) {
      k := WidestExponent(values[1..], steal);
      k := k + 1;
    }
  }

  lemma {:induction false} WidestBits(values: seq<Double>, steal: bool, i: nat)
    requires i < |values|
    ensures ScalableConfig(values[i], steal).0 <= MaxBits(values, steal)
  {
    hide ScalableConfig;
    if i > 0 {
      WidestBits(values[1..], steal, i - 1);
      assert values[1..][i - 1] == values[i];
    }
  }

  /** One value by itself gets a format with its exponent in range and a mantissa that goes by its magnitude. */
  lemma ConfigOfValue(v: Double, steal: bool)
    requires v.Normal? && v.Valid()
    ensures var (bits, e) := ScalableConfig(v, steal);
            && Format(bits, e, steal) && InRange(v, e)
            && MBits(bits, e, steal) == if -4 <= v.exp <= 4 then 8 else if -10 <= v.exp <= 10 then 16
                                        else if -20 <= v.exp <= 20 then 24 else if -40 <= v.exp <= 40 then 32 else 40
  {
    hide ExponentBits, HasExponent;
    ExponentBitsRight(v.exp, 2);
  }

  /** The mantissa of the array has the width its elements call for, or 6 bits where they all have small exponents. */
  lemma ArrayMantissa(values: seq<Double>, steal: bool, i: nat)
    requires (forall j :: 0 <= j < |values| ==> values[j].Valid()) && i < |values| && values[i].Normal?
    ensures var (bits, e) := ArrayConfig(values, steal);
            && Format(bits, e, steal)
            && MBits(bits, e, steal) >= if AbsInt(values[i].exp) >= 4 then MantissaBits(values[i].exp) else 6
  {
    hide Pow2, HasExponent, Bias, ExponentBits;
    var e := MaxExponentBits(values, steal);
    var x := values[i].exp;
    ArrayInRange(values, steal, i);
    MaxExponentSmall(values, steal);
    ExponentBitsRight(x, 2);
    WidestBits(values, steal, i);
    SmallExponents(x);
    var k := WidestExponent(values, steal);
    if e > 4 {
      var y := values[k].exp;
      ExponentBitsRight(y, 2);
      WidestBits(values, steal, k);
      if ExponentBits(x, 2) < e {
        WiderIsLarger(x, y, ExponentBits(x, 2));
        MantissaGrows(x, y);
      }
    }
  }

  lemma SmallExponents(x: int)
    requires -1022 <= x <= 1023
    ensures AbsInt(x) >= 4 ==> ExponentBits(x, 2) >= 4
  {
    hide Pow2;
    Pow2Small();
    assert Pow2(2) == 4 by { Doubles(2); }
  }

  /** A whole number has no fraction bits below its unit. */
  predicate Whole(v: Double) { v.Normal? && v.exp >= 0 && FitsMantissa(v.frac, v.exp) }

  /** Whole numbers below 2^33 survive in every scalable array. */
  lemma WholeSurvives(values: seq<Double>, steal: bool, i: nat)
    requires (forall j :: 0 <= j < |values| ==> values[j].Valid()) && i < |values| && Whole(values[i]) && values[i].exp <= 32
    ensures var (bits, e) := ArrayConfig(values, steal);
            && Format(bits, e, steal)
            && Decode(Encode(values[i], bits, e, steal), bits, e, steal) == SignKept(values[i], steal)
  {
    hide Pow2, Decode, Encode, FitsMantissa, ArrayConfig;
    var v := values[i];
    var (bits, e) := ArrayConfig(values, steal);
    ArrayInRange(values, steal, i);
    ArrayMantissa(values, steal, i);
    FitsWider(v.frac, v.exp, MBits(bits, e, steal));
    ExactIffFits(v, bits, e, steal);
  }

  lemma FitsWider(frac: nat, a: nat, b: nat)
    requires a <= b && FitsMantissa(frac, a)
    ensures FitsMantissa(frac, b)
  {
    hide Pow2;
    if b <= 52 {
      Pow2Sum(52 - b, b - a, 52 - a);
      DividesBoth(frac, Pow2(52 - b), Pow2(b - a), Pow2(52 - a));
    }
  }

  lemma SevenBits()
    ensures ExponentBits(33, 2) == 7
  {
    hide Pow2;
    Pow2Exponents();
    ExponentBitsRight(33, 2);
    assert Pow2(6) == 64 && Pow2(5) == 32 by { Doubles(7); Doubles(6); }
    if ExponentBits(33, 2) < 7 {
      RangeGrows(33, ExponentBits(33, 2), 6);
    }
  }

  /** 2^33 + 1 alone in an array comes back as 2^33 + 2. */
  lemma WholeGoesWrong(v: Double)
    requires v == Normal(false, 33, 0x8_0000)
    ensures v.Valid() && Whole(v) && ArrayConfig([v], true) == (39, 7) && Format(39, 7, true)
    ensures Decode(Encode(v, 39, 7, true), 39, 7, true) == v.(frac := 0x10_0000)
  {
    hide Pow2, Decode, Encode, ExponentBits, RoundedTo;
    SevenBits();
    TwentyBits();
    OnlyElement(v);
    RangeOfSeven();
    DecodeEncode(v, 39, 7, true);
    HalfwayUp(Decode(Encode(v, 39, 7, true), 39, 7, true).frac);
  }

  lemma OnlyElement(v: Double)
    ensures MaxBits([v], true) == Max(ScalableConfig(v, true).0, 8) && MaxExponentBits([v], true) == Max(ScalableConfig(v, true).1, 4)
  {
    assert [v][1..] == [];
  }

  lemma TwentyBits()
    ensures Pow2(19) == 0x8_0000 && Pow2(20) == 0x10_0000 && 0x8_0000 < Pow2(52)
  {
    hide Pow2;
    Pow2Words();
    Pow2Ieee();
    Pow2Sum(16, 3, 19);
    Doubles(20);
  }

  lemma RangeOfSeven()
    ensures HasExponent(33, 7)
  {
    SevenBits();
    ExponentBitsRight(33, 2);
  }

  lemma HalfwayUp(k: nat)
    requires RoundedTo(k, 0x8_0000, 32)
    ensures k == 0x10_0000
  {
    hide Pow2;
    TwentyBits();
    Pow2Ieee();
    var q := k / 0x10_0000;
    assert k == 0x10_0000 * q;
  }
}
