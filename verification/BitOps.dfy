/**
 * Bit operators on natural numbers, and numbers as strings of bits, least
 * significant first. Or, And and AndNot work bit by bit; on operands that share no
 * bit, Or is addition, which is what the packed formats rely on.
 */
module BitOps {
  import opened Words

  function Pow2(n: nat): (p: nat)
    ensures p >= 1
  {
    if n == 0 then 1 else 2 * Pow2(n - 1)
  }

  /** x | y */
  function Or(x: nat, y: nat): nat
    decreases x + y
  {
    if x == 0 && y == 0 then 0
    else (if x % 2 == 1 || y % 2 == 1 then 1 else 0) + 2 * Or(x / 2, y / 2)
  }

  /** x & y */
  function And(x: nat, y: nat): (r: nat)
    ensures r <= x
  {
    if x == 0 then 0
    else (if x % 2 == 1 && y % 2 == 1 then 1 else 0) + 2 * And(x / 2, y / 2)
  }

  /** x & !y */
  function AndNot(x: nat, y: nat): nat {
    if x == 0 then 0
    else (if x % 2 == 1 && y % 2 == 0 then 1 else 0) + 2 * AndNot(x / 2, y / 2)
  }

  /** x >> k */
  function Shr(x: nat, k: nat): nat {
    DivNat(x, Pow2(k));
    x / Pow2(k)
  }

  lemma DivNat(x: nat, d: nat)
    requires d > 0
    ensures x / d >= 0
  {
  }

  /** x << k, without a width. */
  function Shl(x: nat, k: nat): nat {
    MulNat(x, Pow2(k));
    x * Pow2(k)
  }

  lemma MulNat(x: nat, y: nat)
    ensures x * y >= 0
  {
  }

  /** (x >> k) & 1 */
  function Bit(x: nat, k: nat): (bit: nat)
    ensures bit < 2
  {
    Shr(x, k) % 2
  }

  /** The `n` low-order bits of `v`. */
  function BitsOf(v: nat, n: nat): (bits: seq<bool>)
    ensures |bits| == n
  {
    if n == 0 then [] else [v % 2 == 1] + BitsOf(v / 2, n - 1)
  }

  function Num(bits: seq<bool>): nat {
    if bits == [] then 0 else (if bits[0] then 1 else 0) + 2 * Num(bits[1..])
  }

  lemma {:induction false} Pow2Add(a: nat, b: nat)
    ensures Pow2(a + b) == Pow2(a) * Pow2(b)
  {
    if a > 0 {
      Pow2Add(a - 1, b);
      assert Pow2(a + b) == 2 * (Pow2(a - 1) * Pow2(b));
    }
  }

  lemma Pow2Sum(a: nat, b: nat, c: nat)
    requires c == a + b
    ensures Pow2(c) == Pow2(a) * Pow2(b)
  {
    Pow2Add(a, b);
  }

  lemma Pow2Small()
    ensures Pow2(1) == 2 && Pow2(3) == 8 && Pow2(8) == 256
  {
    assert Pow2(8) == 32 * Pow2(3);
  }

  lemma Pow2Words()
    ensures Pow2(3) == 8 && Pow2(8) == 256 && Pow2(16) == 0x1_0000 && Pow2(32) == TWO_32 && Pow2(63) == TWO_63 && Pow2(64) == TWO_64
  {
    hide Pow2;
    Pow2Small();
    Pow2Add(8, 8);
    Pow2Add(16, 16);
    Pow2Add(32, 32);
    Pow2Add(1, 63);
  }

  lemma {:induction false} NumBound(bits: seq<bool>)
    ensures Num(bits) < Pow2(|bits|)
  {
    if bits != [] {
      NumBound(bits[1..]);
    }
  }

  lemma DivDiv(v: nat, p: nat)
    requires p >= 1
    ensures v / 2 / p == v / (2 * p)
  {
    var q, r := v / (2 * p), v % (2 * p);
    assert v == 2 * p * q + r;
    assert v / 2 == p * q + r / 2 by {
      assert 2 * p * q == 2 * (p * q);
    }
    assert r / 2 < p;
    DivUnique(v / 2, p, q, r / 2);
  }

  lemma DivUnique(n: int, d: nat, q: int, r: nat)
    requires d > 0 && n == d * q + r && r < d
    ensures n / d == q && n % d == r
  {
    var e := n / d - q;
    assert d * e == r - n % d by {
      assert d * e == d * (n / d) - d * q;
    }
    Grows(d, e);
  }

  lemma LeTimes(d: nat, x: int, y: int)
    requires x <= y
    ensures d * x <= d * y
  {
  }

  lemma Grows(d: int, e: int)
    requires d >= 0
    ensures e >= 1 ==> d * e >= d
    ensures e <= -1 ==> d * e <= -d
  {
    if e >= 1 {
      assert d * e == d + d * (e - 1);
    } else if e <= -1 {
      assert d * e == -d + d * (e + 1);
    }
  }

  lemma MulStep(i: nat, j: nat, k: nat)
    requires i < j
    ensures i * k + k == (i + 1) * k <= j * k
  {
    assert j * k == (i + 1) * k + (j - i - 1) * k;
  }

  lemma QuotientBelow(j: nat, count: nat, k: nat)
    requires k > 0 && j < count * k
    ensures j / k < count
  {
    assert j == k * (j / k) + j % k;
    if j / k >= count {
      LeTimes(k, count, j / k);
    }
  }

  lemma ModBounds(v: int, m: nat)
    requires m > 0
    ensures 0 <= v % m < m
  {
  }

  lemma LessScaled(x: nat, y: nat, p: nat)
    requires x < y && p > 0
    ensures 0 <= x * p < y * p
  {
    MulStep(x, y, p);
  }

  lemma NumEmpty()
    ensures Num([]) == 0
  {
  }

  lemma NumOne(b: bool)
    ensures Num([b]) == if b then 1 else 0
  {
    assert [b][1..] == [];
  }

  lemma {:induction false} NumZero(bits: seq<bool>)
    requires forall p :: 0 <= p < |bits| ==> !bits[p]
    ensures Num(bits) == 0
  {
    if bits != [] {
      NumZero(bits[1..]);
    }
  }

  lemma {:induction false} OrZero(x: nat)
    ensures Or(x, 0) == x
  {
    if x > 0 {
      OrZero(x / 2);
    }
  }

  lemma {:induction false} BitsOfIndex(v: nat, n: nat, k: nat)
    requires k < n
    ensures BitsOf(v, n)[k] == (Bit(v, k) == 1)
  {
    if k > 0 {
      BitsOfIndex(v / 2, n - 1, k - 1);
      DivDiv(v, Pow2(k - 1));
    }
  }

  lemma HalfMod(v: nat, p: nat)
    requires p > 0
    ensures v % (2 * p) == v % 2 + 2 * (v / 2 % p)
  {
    var q, r := v / 2 / p, v / 2 % p;
    assert v / 2 == p * q + r;
    assert 2 * (p * q) == 2 * p * q;
    DivUnique(v, 2 * p, q, 2 * r + v % 2);
  }

  lemma {:induction false} NumBitsOf(v: nat, n: nat)
    ensures Num(BitsOf(v, n)) == v % Pow2(n)
  {
    if n > 0 {
      NumBitsOf(v / 2, n - 1);
      assert BitsOf(v, n)[1..] == BitsOf(v / 2, n - 1);
      HalfMod(v, Pow2(n - 1));
    }
  }

  lemma {:induction false} BitsOfNum(bits: seq<bool>)
    ensures BitsOf(Num(bits), |bits|) == bits
  {
    if bits != [] {
      BitsOfNum(bits[1..]);
      var n := Num(bits);
      assert n / 2 == Num(bits[1..]) && (n % 2 == 1) == bits[0];
      assert bits == [bits[0]] + bits[1..];
    }
  }

  lemma {:induction false} NumConcat(a: seq<bool>, b: seq<bool>)
    ensures Num(a + b) == Num(a) + Pow2(|a|) * Num(b)
  {
    if a == [] {
      assert a + b == b;
    } else {
      NumConcat(a[1..], b);
      assert (a + b)[1..] == a[1..] + b;
      assert 2 * (Pow2(|a| - 1) * Num(b)) == Pow2(|a|) * Num(b);
    }
  }

  /** Keeping the low `n` bits is reducing modulo 2^n. */
  lemma NumPrefix(bits: seq<bool>, n: nat)
    requires n <= |bits|
    ensures Num(bits[..n]) == Num(bits) % Pow2(n)
  {
    NumConcat(bits[..n], bits[n..]);
    assert bits[..n] + bits[n..] == bits;
    NumBound(bits[..n]);
    DivUnique(Num(bits), Pow2(n), Num(bits[n..]), Num(bits[..n]));
  }

  lemma BitsOfPrefix(v: nat, n: nat, m: nat)
    requires n <= m
    ensures BitsOf(v, m)[..n] == BitsOf(v, n)
  {
    forall k | 0 <= k < n
      ensures BitsOf(v, m)[k] == BitsOf(v, n)[k]
    {
      BitsOfIndex(v, m, k);
      BitsOfIndex(v, n, k);
    }
  }

  /** Only the value modulo 2^n matters for the low `n` bits. */
  lemma BitsOfMod(v: nat, w: nat, n: nat)
    requires v % Pow2(n) == w % Pow2(n)
    ensures BitsOf(v, n) == BitsOf(w, n)
  {
    NumBitsOf(v, n);
    NumBitsOf(w, n);
    BitsOfNum(BitsOf(v, n));
    BitsOfNum(BitsOf(w, n));
  }

  lemma BitsOfUnfolds(v: nat, n: nat)
    requires n > 0
    ensures BitsOf(v, n) == [v % 2 == 1] + BitsOf(v / 2, n - 1)
  {
  }

  lemma Joins(b: bool, all: seq<bool>, low: seq<bool>, high: seq<bool>)
    requires all == low + high
    ensures [b] + all == [b] + low + high
  {
  }

  lemma {:induction false} BitsOfSplit(v: nat, a: nat, b: nat)
    ensures BitsOf(v, a + b) == BitsOf(v, a) + BitsOf(Shr(v, a), b)
  {
    hide BitsOf;
    if a == 0 {
      assert Pow2(0) == 1;
      DivUnique(v, 1, v, 0);
    } else {
      BitsOfSplit(v / 2, a - 1, b);
      DivDiv(v, Pow2(a - 1));
      BitsOfUnfolds(v, a + b);
      BitsOfUnfolds(v, a);
      Joins(v % 2 == 1, BitsOf(v / 2, a - 1 + b), BitsOf(v / 2, a - 1), BitsOf(Shr(v / 2, a - 1), b));
    }
  }

  // ------------------------------------------------------ the operators, bitwise

  lemma OrHalves(x: nat, y: nat)
    ensures Or(x, y) / 2 == Or(x / 2, y / 2) && (Or(x, y) % 2 == 1) == (x % 2 == 1 || y % 2 == 1)
  {
  }

  lemma AndNotHalves(x: nat, y: nat)
    ensures AndNot(x, y) / 2 == AndNot(x / 2, y / 2) && (AndNot(x, y) % 2 == 1) == (x % 2 == 1 && y % 2 == 0)
  {
  }

  lemma {:induction false} OrBits(x: nat, y: nat, n: nat, k: nat)
    requires k < n
    ensures BitsOf(Or(x, y), n)[k] == (BitsOf(x, n)[k] || BitsOf(y, n)[k])
    decreases n
  {
    hide Or;
    OrHalves(x, y);
    if k > 0 {
      OrBits(x / 2, y / 2, n - 1, k - 1);
    }
  }

  lemma {:induction false} AndNotBits(x: nat, y: nat, n: nat, k: nat)
    requires k < n
    ensures BitsOf(AndNot(x, y), n)[k] == (BitsOf(x, n)[k] && !BitsOf(y, n)[k])
    decreases n
  {
    hide AndNot;
    AndNotHalves(x, y);
    if k > 0 {
      AndNotBits(x / 2, y / 2, n - 1, k - 1);
    }
  }

  lemma {:induction false} OrBound(x: nat, y: nat, n: nat)
    requires x < Pow2(n) && y < Pow2(n)
    ensures Or(x, y) < Pow2(n)
    decreases n
  {
    if n > 0 {
      OrBound(x / 2, y / 2, n - 1);
    }
  }

  lemma {:induction false} AndNotBound(x: nat, y: nat)
    ensures AndNot(x, y) <= x
  {
    if x > 0 {
      AndNotBound(x / 2, y / 2);
    }
  }

  lemma {:induction false} Pow2Bits(j: nat, n: nat, k: nat)
    requires k < n
    ensures BitsOf(Pow2(j), n)[k] == (k == j)
    decreases n
  {
    if j == 0 {
      if k > 0 { ZeroBits(n - 1, k - 1); }
    } else if k > 0 {
      Pow2Bits(j - 1, n - 1, k - 1);
    }
  }

  lemma {:induction false} ZeroBits(n: nat, k: nat)
    requires k < n
    ensures BitsOf(0, n)[k] == false
  {
    if k > 0 {
      ZeroBits(n - 1, k - 1);
    }
  }

  lemma {:induction false} Pow2Monotone(a: nat, b: nat)
    requires a <= b
    ensures Pow2(a) <= Pow2(b)
  {
    if a < b {
      Pow2Monotone(a, b - 1);
    }
  }

  lemma {:induction false} OrCommutes(x: nat, y: nat)
    ensures Or(x, y) == Or(y, x)
    decreases x + y
  {
    if x != 0 || y != 0 {
      OrCommutes(x / 2, y / 2);
    }
  }

  lemma {:induction false} OrShifted(x: nat, y: nat, k: nat)
    requires x < Pow2(k)
    ensures Or(y * Pow2(k), x) == y * Pow2(k) + x
  {
    hide Or;
    if k == 0 {
      OrZero(y);
      assert y * Pow2(0) == y;
    } else {
      OrShifted(x / 2, y, k - 1);
      TwiceScaled(y, k);
      OrDoubles(y * Pow2(k - 1), x);
    }
  }

  lemma TwiceScaled(y: nat, k: nat)
    requires k > 0
    ensures y * Pow2(k) == 2 * (y * Pow2(k - 1)) && y * Pow2(k - 1) >= 0
  {
  }

  lemma OrDoubles(z: nat, x: nat)
    ensures Or(2 * z, x) == 2 * Or(z, x / 2) + x % 2
  {
    OrHalves(2 * z, x);
  }

  /** Masking with n ones is reducing modulo 2^n. */
  lemma {:induction false} AndMask(x: nat, n: nat)
    ensures And(x, Pow2(n) - 1) == x % Pow2(n)
  {
    if n == 0 {
      AndNone(x);
    } else {
      AndMask(x / 2, n - 1);
      HalfMod(x, Pow2(n - 1));
      assert (Pow2(n) - 1) / 2 == Pow2(n - 1) - 1;
    }
  }

  lemma {:induction false} AndNone(x: nat)
    ensures And(x, 0) == 0
  {
    if x > 0 {
      AndNone(x / 2);
    }
  }

  /** Testing the top bit. */
  lemma {:induction false} AndTop(x: nat, k: nat)
    requires x < Pow2(k + 1)
    ensures And(x, Pow2(k)) == if x >= Pow2(k) then Pow2(k) else 0
  {
    if k > 0 {
      AndTop(x / 2, k - 1);
    }
  }
}
