/**
 * Integer constants that pass through a double (fuser.rs, `to_double() as i64`):
 * rounding to 53 significant bits, ties to even, and saturation on the way back.
 */
module DoubleInt {
  import opened Words
  import opened BitOps

  const I64_MAX := 0x7FFF_FFFF_FFFF_FFFF

  /** The number of binary digits of `n`. */
  function BitLength(n: nat): (len: nat)
    ensures n < Pow2(len) && if n == 0 then len == 0 else len >= 1 && Pow2(len - 1) <= n
  {
    if n == 0 then 0 else 1 + BitLength(n / 2)
  }

  /** The weight of the last binary digit a 53-digit significand keeps of `n`. */
  function Unit(n: nat): (u: nat)
    ensures u >= 1
  {
    if BitLength(n) <= 53 then 1 else Pow2(BitLength(n) - 53)
  }

  /** A multiple of `unit` nearest to n, ties to the even multiple. */
  function Nearest(n: nat, unit: nat): nat
    requires unit >= 1
  {
    DivNat(n, unit);
    var q, r := n / unit, n % unit;
    var up := 2 * r > unit || (2 * r == unit && q % 2 == 1);
    (if up then q + 1 else q) * unit
  }

  /** A natural number rounded to double precision (section 4.3.1 of IEEE 754-2019). */
  function Round53(n: nat): nat { Nearest(n, Unit(n)) }

  /** `n as f64 as i64`: rounded, and the conversion back saturates. */
  function ThroughDouble(n: int): int {
    var m: int := if n < 0 then 0 - Round53(-n) else Round53(n);
    if m > I64_MAX then I64_MAX else m
  }

  lemma NearestExact(n: nat, unit: nat)
    requires unit >= 1
    ensures Nearest(n, unit) == n <==> n % unit == 0
  {
    var q, r := n / unit, n % unit;
    assert n == unit * q + r;
    assert q * unit == unit * q && (q + 1) * unit == unit * q + unit;
  }

  function Distance(a: int, b: int): nat { if a < b then b - a else a - b }

  lemma NearestForm(n: nat, unit: nat) returns (q: nat, r: nat, m: nat)
    requires unit >= 1
    ensures r < unit && n == unit * q + r && m == (if 2 * r > unit || (2 * r == unit && q % 2 == 1) then q + 1 else q)
    ensures unit * m == (if m == q then unit * q else unit * q + unit) && Nearest(n, unit) == unit * m
  {
    DivNat(n, unit);
    q, r := n / unit, n % unit;
    m := if 2 * r > unit || (2 * r == unit && q % 2 == 1) then q + 1 else q;
    assert unit * (q + 1) == unit * q + unit;
    assert m * unit == unit * m;
  }

  /** No multiple is nearer, and of two equally near ones it is the even one. */
  lemma NearestIs(n: nat, unit: nat, k: int)
    requires unit >= 1
    ensures Nearest(n, unit) % unit == 0
    ensures Distance(Nearest(n, unit), n) <= Distance(unit * k, n)
    ensures Distance(Nearest(n, unit), n) == Distance(unit * k, n) && Nearest(n, unit) != unit * k ==> Nearest(n, unit) / unit % 2 == 0
  {
    hide Distance, Nearest;
    var q, r, m := NearestForm(n, unit);
    DivUnique(Nearest(n, unit), unit, m, 0);
    OtherMultiple(n, unit, q, r, k);
    Chosen(n, unit, q, r, k, m, unit * q, Nearest(n, unit), unit * k);
  }

  lemma Chosen(n: nat, unit: nat, q: nat, r: nat, k: int, m: nat, uq: nat, um: nat, uk: int)
    requires r < unit && n == uq + r && um == (if m == q then uq else uq + unit)
    requires m == if 2 * r > unit || (2 * r == unit && q % 2 == 1) then q + 1 else q
    requires (k < q ==> uk <= uq - unit) && (k > q + 1 ==> uk >= uq + 2 * unit)
    requires (k == q ==> uk == uq) && (k == q + 1 ==> uk == uq + unit)
    ensures Distance(um, n) <= Distance(uk, n)
    ensures Distance(um, n) == Distance(uk, n) && um != uk ==> m % 2 == 0
  {
  }

  lemma OtherMultiple(n: nat, unit: nat, q: nat, r: nat, k: int)
    requires r < unit && n == unit * q + r
    ensures k < q ==> unit * k <= unit * q - unit
    ensures k > q + 1 ==> unit * k >= unit * q + 2 * unit
    ensures k == q ==> unit * k == unit * q
    ensures k == q + 1 ==> unit * k == unit * q + unit
  {
    if k < q {
      LeTimes(unit, k, q - 1);
    } else if k > q + 1 {
      LeTimes(unit, q + 2, k);
    }
  }

  lemma NearestBelow(n: nat, unit: nat, top: nat)
    requires unit >= 1 && n < top * unit
    ensures Nearest(n, unit) <= top * unit
  {
    QuotientBelow(n, top, unit);
    DivNat(n, unit);
    MulStep(n / unit, top, unit);
  }

  lemma LengthBound(n: nat)
    requires n < TWO_63
    ensures BitLength(n) <= 63
  {
    Pow2Words();
    if BitLength(n) > 63 {
      Pow2Monotone(63, BitLength(n) - 1);
    }
  }

  lemma UnitDivides(n: nat)
    requires n < TWO_63
    ensures exists top: nat :: TWO_63 == top * Unit(n)
  {
    hide BitLength;
    Pow2Words();
    var len := BitLength(n);
    if len <= 53 {
      assert TWO_63 == TWO_63 * Unit(n);
    } else {
      LengthBound(n);
      Pow2Add(63 - (len - 53), len - 53);
      assert TWO_63 == Pow2(63 - (len - 53)) * Unit(n);
    }
  }

  lemma RoundBound(n: nat)
    requires n < TWO_63
    ensures Round53(n) <= TWO_63
  {
    UnitDivides(n);
    var top: nat :| TWO_63 == top * Unit(n);
    NearestBelow(n, Unit(n), top);
  }

  lemma TopRounds()
    ensures Unit(I64_MAX) == 1024 && Round53(I64_MAX) == TWO_63
  {
    hide BitLength;
    Pow2Words();
    var len := BitLength(I64_MAX);
    if len < 63 {
      Pow2Monotone(len, 62);
    } else if len > 63 {
      Pow2Monotone(63, len - 1);
    }
    Pow2Add(8, 2);
    assert Pow2(2) == 4;
    assert I64_MAX == 1024 * 9007199254740991 + 1023;
  }

  /**
   * A 64-bit integer constant reaches the kernel unchanged exactly when it fits
   * the 53 binary digits of a double, or is the largest one, which saturation
   * brings back.
   */
  lemma ConstantExact(n: int)
    requires -TWO_63 <= n < TWO_63
    ensures ThroughDouble(n) == n <==> n == I64_MAX || (if n < 0 then -n else n) % Unit(if n < 0 then -n else n) == 0
  {
    hide Nearest, Unit;
    if n < 0 {
      NearestExact(-n, Unit(-n));
    } else {
      NearestExact(n, Unit(n));
      RoundBound(n);
      if n == I64_MAX {
        TopRounds();
      }
    }
  }

  /** 2^53 + 1 does not fit: it ties, and goes to the even neighbour. */
  lemma OddGoesWrong()
    ensures ThroughDouble(0x20_0000_0000_0001) == 0x20_0000_0000_0000
  {
    hide BitLength;
    var n := 0x20_0000_0000_0001;
    Pow2Words();
    Pow2Add(32, 16);
    Pow2Add(48, 5);
    Pow2Add(53, 1);
    assert Pow2(5) == 32 && Pow2(1) == 2;
    var len := BitLength(n);
    if len < 54 {
      Pow2Monotone(len, 53);
    } else if len > 54 {
      Pow2Monotone(54, len - 1);
    }
    assert Unit(n) == 2;
  }
}
