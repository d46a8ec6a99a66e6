/** The numbers floats stand for (types.rs). */
module FloatValues {
  import opened Words
  import opened BitOps
  import opened DoubleInt
  import opened FloatCodec

  /** What a decoded pattern or a double can be: no exponent lies below the bias of binary64. */
  predicate Finite(d: Double) { !d.Infinite? && (d.Normal? ==> d.exp >= -1023) }

  /** A magnitude in units of 2^-1075. */
  function Magnitude(exp: int, frac: nat): (n: nat)
    requires exp >= -1023
    ensures n >= 1
  {
    Positive(Pow2(52) + frac, Pow2(exp + 1023));
    (Pow2(52) + frac) * Pow2(exp + 1023)
  }

  lemma Positive(x: nat, y: nat)
    requires x > 0 && y > 0
    ensures x * y >= 1
  {
  }

  /** The value of a float in units of 2^-1075. */
  function Scaled(d: Double): int
    requires Finite(d)
  {
    if d.Zero? then 0
    else if d.neg then 0 - Magnitude(d.exp, d.frac)
    else Magnitude(d.exp, d.frac)
  }

  /** The number a float stands for. */
  function Value(d: Double): real
    requires Finite(d)
  {
    Scaled(d) as real / Pow2(1075) as real
  }

  /** Scaling keeps order. */
  lemma ScaledLe(x: nat, y: nat, p: nat)
    requires x <= y
    ensures 0 <= x * p <= y * p
  {
    LeTimes(p, x, y);
    assert p * x == x * p && p * y == y * p;
  }

  /** Between two powers of two. */
  lemma Octave(exp: int, frac: nat)
    requires exp >= -1023 && frac < Pow2(52)
    ensures Pow2(52) * Pow2(exp + 1023) <= Magnitude(exp, frac) < Pow2(52) * Pow2(exp + 1024)
    ensures Magnitude(exp, frac) == Pow2(52) * Pow2(exp + 1023) + frac * Pow2(exp + 1023)
  {
    hide Pow2;
    var p := Pow2(exp + 1023);
    Pow2Sum(1, exp + 1023, exp + 1024);
    Pow2Small();
    LessScaled(frac, Pow2(52), p);
    assert (Pow2(52) + frac) * p == Pow2(52) * p + frac * p;
    assert Pow2(52) * (2 * p) == 2 * (Pow2(52) * p);
  }

  lemma AtNoDistance(a: int, b: int)
    ensures Distance(a, a) <= Distance(b, a)
  {
  }

  // ---------------------------------------------------------- patterns as numbers

  /** Section 3.4 of IEEE 754-2019: what a 64-bit pattern stands for, where it is a zero or a normal number. */
  ghost predicate Denotes(p: u64, d: Double) {
    d.Valid() && !d.Infinite? && if d.Zero? then p == 0 || p == TWO_63 else p == Binary64(d)
  }

  /** No pattern stands for two floats. */
  lemma DenotesOne(p: u64, a: Double, b: Double)
    requires Denotes(p, a) && Denotes(p, b)
    ensures a == b
  {
    hide Pow2;
    Pow2Ieee();
  }

  /** The pattern `p` stands for the number `x`. */
  ghost predicate Reads(p: u64, x: real) {
    exists d :: Denotes(p, d) && Value(d) == x
  }

  lemma ReadsOne(p: u64, x: real, y: real)
    requires Reads(p, x) && Reads(p, y)
    ensures x == y
  {
    var a :| Denotes(p, a) && Value(a) == x;
    var b :| Denotes(p, b) && Value(b) == y;
    DenotesOne(p, a, b);
  }

  /** The 32-bit pattern `p` stands for the number `x`: the binary32 fields of section 3.4. */
  ghost predicate ReadsSingle(p: u32, x: real) {
    exists d: Double :: SingleDenotes(p, d) && Value(d) == x
  }

  ghost predicate SingleDenotes(p: u32, d: Double) {
    && d.Valid() && !d.Infinite?
    && if d.Zero? then p == 0 || p == TWO_31 else -126 <= d.exp <= 127 && d.frac % TWO_29 == 0 && p == Binary32(d)
  }

  ghost predicate IsSingle(x: real) { exists p :: ReadsSingle(p, x) }

  ghost predicate IsDouble(x: real) {
    exists d: Double :: d.Valid() && !d.Infinite? && Value(d) == x
  }

  function RealAbs(x: real): real { if x < 0.0 then -x else x }

  /** No double is nearer to `x`. */
  ghost predicate NearestDouble(d: Double, x: real)
    requires Finite(d)
  {
    forall other: Double :: other.Valid() && !other.Infinite? ==> RealAbs(Value(d) - x) <= RealAbs(Value(other) - x)
  }

  /** The pattern `p` stands for a double nearest to `x`. */
  ghost predicate Rounds(p: u64, x: real) {
    exists d :: Denotes(p, d) && NearestDouble(d, x)
  }

  /** A double is nearest to itself alone. */
  lemma RoundsExactly(p: u64, x: real)
    requires Rounds(p, x) && IsDouble(x)
    ensures Reads(p, x)
  {
    hide Value;
    var d :| Denotes(p, d) && NearestDouble(d, x);
    var other: Double :| other.Valid() && !other.Infinite? && Value(other) == x;
    assert RealAbs(Value(d) - x) <= RealAbs(Value(other) - x);
  }

  lemma ReadsRounds(p: u64, x: real)
    requires Reads(p, x)
    ensures Rounds(p, x) && IsDouble(x)
  {
    hide Value;
    var d :| Denotes(p, d) && Value(d) == x;
    assert NearestDouble(d, x);
  }

  lemma RealQuotient(s: int, n: int, p: nat)
    requires p > 0 && s == n * p
    ensures s as real / p as real == n as real
  {
    assert s as real == n as real * p as real;
  }

  /** A whole number of at most 53 significant binary digits is a double. */
  lemma WholeIsDouble(m: nat, j: nat, neg: bool) returns (d: Double)
    requires m < Pow2(53) && j <= 971
    ensures d.Valid() && !d.Infinite? && m * Pow2(j) >= 0 && Value(d) == (if neg then 0 - m * Pow2(j) else m * Pow2(j)) as real
  {
    hide Pow2, BitLength;
    var n := m * Pow2(j);
    if m == 0 {
      d := Zero;
      RealQuotient(0, 0, Pow2(1075));
    } else {
      var len := BitLength(m);
      LengthAtMost(m, 53);
      Normalized(m, len);
      d := Normal(neg, len - 1 + j, m * Pow2(53 - len) - Pow2(52));
      Raised(m, j, len);
      RealQuotient(Scaled(d), if neg then 0 - n else n, Pow2(1075));
    }
  }

  lemma Normalized(m: nat, len: nat)
    requires 1 <= len <= 53 && Pow2(len - 1) <= m < Pow2(len)
    ensures Pow2(52) <= m * Pow2(53 - len) < 2 * Pow2(52)
  {
    hide Pow2;
    Pow2Sum(len - 1, 53 - len, 52);
    Pow2Sum(len, 53 - len, 53);
    Doubles(53);
    ScaledLe(Pow2(len - 1), m, Pow2(53 - len));
    LessScaled(m, Pow2(len), Pow2(53 - len));
  }

  lemma Raised(m: nat, j: nat, len: nat)
    requires 1 <= len <= 53
    ensures m * Pow2(53 - len) * Pow2(len - 1 + j + 1023) == m * Pow2(j) * Pow2(1075)
  {
    hide Pow2;
    Pow2Sum(53 - len, len - 1 + j + 1023, j + 1075);
    Pow2Sum(j, 1075, j + 1075);
    assert m * Pow2(53 - len) * Pow2(len - 1 + j + 1023) == m * (Pow2(53 - len) * Pow2(len - 1 + j + 1023));
    assert m * Pow2(j) * Pow2(1075) == m * (Pow2(j) * Pow2(1075));
  }

  /** A number rounded to 53 binary digits is as near to it as any double. */
  lemma RoundedNearest(n: nat, d: Double)
    requires d.Valid() && !d.Infinite?
    ensures Distance(Round53(n) * Pow2(1075), n * Pow2(1075)) <= Distance(Scaled(d), n * Pow2(1075))
  {
    hide Pow2, BitLength, Magnitude, Nearest, Distance;
    var len, p := BitLength(n), Pow2(1075);
    if len <= 53 {
      NearestExact(n, 1);
      AtNoDistance(n * p, Scaled(d));
    } else {
      var unit := Pow2(len - 53);
      Pow2Sum(52, len - 53, len - 1);
      if d.Zero? || d.neg {
        NotPositive(n, unit, if d.Zero? then 0 else Magnitude(d.exp, d.frac), p);
      } else if d.exp >= len - 1 {
        LargeIsMultiple(d, len, unit);
        ToMultiple(n, unit, (Pow2(52) + d.frac) * Pow2(d.exp - (len - 1)), p);
      } else {
        SmallIsBelow(d, len);
        NearestIs(n, unit, Pow2(52));
        NotAbove(n, unit * Pow2(52), Magnitude(d.exp, d.frac), Round53(n), p);
      }
    }
  }

  lemma ToMultiple(n: nat, unit: nat, k: nat, p: nat)
    requires unit >= 1
    ensures 0 <= unit * k && Distance(Nearest(n, unit) * p, n * p) <= Distance(unit * k * p, n * p)
  {
    hide Nearest;
    NearestIs(n, unit, k);
    MulNat(unit, k);
    DistanceTimes(Nearest(n, unit), n, p);
    DistanceTimes(unit * k, n, p);
    ScaledLe(Distance(Nearest(n, unit), n), Distance(unit * k, n), p);
  }

  lemma DistanceTimes(a: nat, b: nat, p: nat)
    ensures 0 <= Distance(a, b) * p == Distance(a * p, b * p)
  {
    if a < b {
      ScaledLe(a, b, p);
      assert (b - a) * p == b * p - a * p;
    } else {
      ScaledLe(b, a, p);
      assert (a - b) * p == a * p - b * p;
    }
  }

  lemma NotPositive(n: nat, unit: nat, m: nat, p: nat)
    requires unit >= 1
    ensures Distance(Nearest(n, unit) * p, n * p) <= Distance(0 - m, n * p)
  {
    hide Nearest;
    NearestIs(n, unit, 0);
    DistanceTimes(Nearest(n, unit), n, p);
    ScaledLe(Distance(Nearest(n, unit), n), n, p);
  }

  lemma NotAbove(n: nat, top: nat, m: nat, r: nat, p: nat)
    requires top <= n && m <= top * p && Distance(r, n) <= Distance(top, n)
    ensures Distance(r * p, n * p) <= Distance(m, n * p)
  {
    DistanceTimes(r, n, p);
    ScaledLe(Distance(r, n), n - top, p);
    ScaledLe(top, n, p);
    assert (n - top) * p == n * p - top * p;
  }

  lemma LargeIsMultiple(d: Double, len: nat, unit: nat)
    requires d.Normal? && d.exp >= len - 1 && len > 53 && unit == Pow2(len - 53)
    ensures 0 <= unit * ((Pow2(52) + d.frac) * Pow2(d.exp - (len - 1))) * Pow2(1075) == Magnitude(d.exp, d.frac)
  {
    hide Pow2;
    var x, y := Pow2(52) + d.frac, Pow2(d.exp - (len - 1));
    Pow2Sum(len - 53, d.exp - (len - 1), d.exp - 52);
    Pow2Sum(d.exp - 52, 1075, d.exp + 1023);
    assert unit * (x * y) == x * (unit * y);
    assert x * (unit * y) * Pow2(1075) == x * (unit * y * Pow2(1075));
  }

  lemma SmallIsBelow(d: Double, len: nat)
    requires d.Normal? && -1022 <= d.exp < len - 1 && d.frac < Pow2(52) && len > 53
    ensures Magnitude(d.exp, d.frac) <= Pow2(len - 53) * Pow2(52) * Pow2(1075)
  {
    hide Pow2, Magnitude;
    Octave(d.exp, d.frac);
    Pow2Monotone(d.exp + 1024, len + 1022);
    LeTimes(Pow2(52), Pow2(d.exp + 1024), Pow2(len + 1022));
    Pow2Sum(len - 53, 1075, len + 1022);
    assert Pow2(len - 53) * Pow2(52) * Pow2(1075) == Pow2(52) * (Pow2(len - 53) * Pow2(1075));
  }
}
