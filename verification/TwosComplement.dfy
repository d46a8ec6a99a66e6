/**
 * Integers modulo a power of two and their signed reading: congruence is kept by
 * addition and multiplication, and shifting up and down again extends the sign.
 */
module TwosComplement {
  import opened Words
  import opened BitOps

  /** The signed reading of a `width`-bit field. */
  function Signed(field: nat, width: nat): int
    requires width >= 1
  {
    if field < Pow2(width - 1) then field else field - Pow2(width)
  }

  ghost predicate Congruent(a: int, b: int, m: nat)
    requires m > 0
  {
    a % m == b % m
  }

  /** `k` multiples apart. */
  lemma ModShift(a: int, k: int, m: nat)
    requires m > 0
    ensures (a + k * m) % m == a % m
  {
    assert a + k * m == m * (a / m + k) + a % m by {
      assert a == m * (a / m) + a % m;
      assert m * (a / m + k) == m * (a / m) + k * m;
    }
    DivUnique(a + k * m, m, a / m + k, a % m);
  }

  lemma CongruentBy(a: int, b: int, k: int, m: nat)
    requires m > 0 && a == b + k * m
    ensures Congruent(a, b, m)
  {
    ModShift(b, k, m);
  }

  lemma Difference(a: int, b: int, m: nat) returns (k: int)
    requires m > 0 && Congruent(a, b, m)
    ensures a == b + k * m
  {
    k := a / m - b / m;
    assert a == m * (a / m) + a % m && b == m * (b / m) + b % m;
    assert k * m == m * (a / m) - m * (b / m);
  }

  lemma CongruentAdd(a: int, b: int, c: int, d: int, m: nat)
    requires m > 0 && Congruent(a, b, m) && Congruent(c, d, m)
    ensures Congruent(a + c, b + d, m) && Congruent(a - c, b - d, m)
  {
    var k := Difference(a, b, m);
    var l := Difference(c, d, m);
    assert (k + l) * m == k * m + l * m && (k - l) * m == k * m - l * m;
    CongruentBy(a + c, b + d, k + l, m);
    CongruentBy(a - c, b - d, k - l, m);
  }

  lemma CongruentMul(a: int, b: int, c: int, d: int, m: nat)
    requires m > 0 && Congruent(a, b, m) && Congruent(c, d, m)
    ensures Congruent(a * c, b * d, m)
  {
    var k := Difference(a, b, m);
    var l := Difference(c, d, m);
    MulOut(a, b, k, c, d, l, m);
    CongruentBy(a * c, b * d, k * c + b * l, m);
  }

  lemma MulOut(a: int, b: int, k: int, c: int, d: int, l: int, m: int)
    requires a == b + k * m && c == d + l * m
    ensures a * c == b * d + (k * c + b * l) * m
  {
    assert a * c == b * c + k * m * c;
    assert b * c == b * d + b * l * m by {
      assert b * (l * m) == b * l * m;
    }
    assert (k * c + b * l) * m == k * c * m + b * l * m;
    assert k * m * c == k * c * m;
  }

  /** Congruence modulo 2^n is congruence modulo every smaller power. */
  lemma CongruentLow(a: int, b: int, n: nat, m: nat)
    requires m <= n && Congruent(a, b, Pow2(n))
    ensures Congruent(a, b, Pow2(m))
  {
    hide Pow2;
    var k := Difference(a, b, Pow2(n));
    Pow2Add(n - m, m);
    Regroup(k, Pow2(n - m), Pow2(m), Pow2(n));
    CongruentBy(a, b, k * Pow2(n - m), Pow2(m));
  }

  lemma Regroup(k: int, p: int, q: int, r: int)
    requires r == p * q
    ensures k * r == k * p * q
  {
  }

  lemma ModCongruent(a: int, m: nat)
    requires m > 0
    ensures Congruent(a % m, a, m)
  {
    assert a == m * (a / m) + a % m;
    assert a == a % m + (a / m) * m;
    CongruentBy(a, a % m, a / m, m);
  }

  lemma SignedCongruent(field: nat, width: nat)
    requires width >= 1
    ensures Congruent(Signed(field, width), field, Pow2(width))
  {
    if field >= Pow2(width - 1) {
      CongruentBy(Signed(field, width), field, -1, Pow2(width));
    }
  }

  /** The signed reading inverts reduction modulo 2^width on what the width can represent. */
  lemma SignedInverts(v: int, width: nat)
    requires width >= 1 && 0 - Pow2(width - 1) <= v < Pow2(width - 1)
    ensures v % Pow2(width) >= 0 && Signed(v % Pow2(width), width) == v
  {
    var p := Pow2(width);
    assert p == 2 * Pow2(width - 1);
    if v >= 0 {
      DivUnique(v, p, 0, v);
    } else {
      DivUnique(v, p, -1, v + p);
    }
  }

  // -------------------------------------------------------- shifting in a word

  /** ishl and sshr on 64-bit words. */
  function Ishl(x: u64, s: nat): u64 { x * Pow2(s) % TWO_64 }

  function Sshr(x: u64, s: nat): u64 { Signed64(x) / Pow2(s) % TWO_64 }

  /** Shifting left and back arithmetically extends the sign of the low `width` bits. */
  lemma SignExtension(x: u64, width: nat)
    requires 1 <= width <= 64 && x < Pow2(width)
    ensures Sshr(Ishl(x, 64 - width), 64 - width) == Signed(x, width) % TWO_64
  {
    var s := 64 - width;
    var p := Pow2(s);
    Pow2Words();
    Pow2Add(width, s);
    Pow2Add(width - 1, s);
    assert 63 == width - 1 + s;
    assert Pow2(63) == Pow2(width - 1) * p;
    LessScaled(x, Pow2(width), p);
    ShiftedUp(x, p, Pow2(width), Pow2(width - 1));
    var n := Signed(x, width);
    assert Signed64(Ishl(x, s)) == n * p;
    DivUnique(n * p, p, n, 0);
  }

  lemma ShiftedUp(x: nat, p: nat, top: nat, half: nat)
    requires p > 0 && x < top && top * p == TWO_64 && half * p == TWO_63
    ensures x * p < TWO_64 && x * p % TWO_64 == x * p
    ensures x < half <==> x * p < TWO_63
    ensures (x - top) * p == x * p - TWO_64
  {
    LessScaled(x, top, p);
    if x < half {
      LessScaled(x, half, p);
    } else if x > half {
      LessScaled(half, x, p);
    }
    assert (x - top) * p == x * p - top * p;
  }

  // ------------------------------------------------------- masking in a word

  /** A limb as a signed number of up to 64 bits: mask, test the sign bit, and fill up with ones (`from_limbs`). */
  function FromLimb(val: u64, bits: nat): int
    requires 1 <= bits <= 64
  {
    if bits < 64 then SignFilled(And(val, Pow2(bits) - 1), bits) else Signed64(val)
  }

  function SignFilled(masked: u64, bits: nat): int
    requires 1 <= bits < 64
  {
    if And(masked, Pow2(bits - 1)) != 0 then
      FillBelow(masked, bits);
      Signed64(Or(masked, TWO_64 - Pow2(bits)))
    else
      Signed64(masked)
  }

  /** The ones above bit `bits` of a 64-bit word. */
  lemma FillBelow(masked: u64, bits: nat)
    requires bits < 64
    ensures 0 <= TWO_64 - Pow2(bits) && Or(masked, TWO_64 - Pow2(bits)) < TWO_64
  {
    hide Pow2, Or;
    Pow2Words();
    Pow2Monotone(bits, 64);
    OrBound(masked, TWO_64 - Pow2(bits), 64);
  }

  lemma FillValue(masked: nat, bits: nat)
    requires bits < 64 && masked < Pow2(bits)
    ensures 0 <= TWO_64 - Pow2(bits) && Or(masked, TWO_64 - Pow2(bits)) == masked + (TWO_64 - Pow2(bits))
  {
    hide Pow2, Or;
    Pow2Words();
    Pow2Sum(64 - bits, bits, 64);
    var ones := Pow2(64 - bits) - 1;
    assert ones * Pow2(bits) == TWO_64 - Pow2(bits) by {
      assert (ones + 1) * Pow2(bits) == ones * Pow2(bits) + Pow2(bits);
    }
    OrShifted(masked, ones, bits);
    OrCommutes(ones * Pow2(bits), masked);
  }

  lemma SignFilledIs(masked: u64, bits: nat)
    requires 1 <= bits < 64 && masked < Pow2(bits)
    ensures SignFilled(masked, bits) == Signed(masked, bits)
  {
    hide Pow2, Or, And;
    Pow2Words();
    Pow2Monotone(bits, 63);
    FillValue(masked, bits);
    AndTop(masked, bits - 1);
  }

  /** The masks and ones compute the signed reading of the low bits. */
  lemma FromLimbIsSigned(val: u64, bits: nat)
    requires 1 <= bits <= 64
    ensures val % Pow2(bits) >= 0 && FromLimb(val, bits) == Signed(val % Pow2(bits), bits)
  {
    hide Pow2, SignFilled, Signed, And;
    ModBounds(val, Pow2(bits));
    if bits < 64 {
      AndMask(val, bits);
      FromMasked(val, bits, val % Pow2(bits));
    } else {
      WholeLimb(val);
    }
  }

  lemma FromMasked(val: u64, bits: nat, masked: u64)
    requires 1 <= bits < 64 && masked == And(val, Pow2(bits) - 1) < Pow2(bits)
    ensures FromLimb(val, bits) == Signed(masked, bits)
  {
    hide Pow2, And, SignFilled, Signed;
    SignFilledIs(masked, bits);
  }

  lemma WholeLimb(val: u64)
    ensures val % Pow2(64) == val && FromLimb(val, 64) == Signed(val, 64)
  {
    hide Pow2;
    Pow2Words();
    DivUnique(val, TWO_64, 0, val);
  }
}
