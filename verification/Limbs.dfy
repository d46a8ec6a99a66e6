/**
 * Two's complement integers in 64-bit limbs, least significant first (types.rs):
 * encoding with its complement and carry loop, decoding, sign extension to other
 * widths, and the widths chosen for scalable integers.
 */
module Limbs {
  import opened Words
  import opened BitOps
  import opened TwosComplement
  import opened Packing
  import opened DoubleInt

  function LimbValue(limbs: seq<u64>): nat {
    if limbs == [] then 0 else limbs[0] + TWO_64 * LimbValue(limbs[1..])
  }

  /** 2^64 to the power n. */
  function LimbPow(n: nat): (p: nat)
    ensures p >= 1
  {
    Pow2(64 * n)
  }

  lemma LimbPowIs(n: nat)
    ensures LimbPow(n) == Pow2(64 * n)
  {
  }

  lemma Pow2Limb(n: nat)
    ensures LimbPow(n + 1) == TWO_64 * LimbPow(n)
  {
    hide Pow2;
    Pow2Words();
    Pow2Add(64, 64 * n);
  }

  lemma Pow2LimbOf(n: nat)
    requires n > 0
    ensures LimbPow(n) == TWO_64 * LimbPow(n - 1)
  {
    hide Pow2;
    Pow2Words();
    Pow2Sum(64, 64 * (n - 1), 64 * n);
  }

  lemma {:induction false} LimbValueBound(limbs: seq<u64>)
    ensures LimbValue(limbs) < LimbPow(|limbs|)
  {
    if limbs != [] {
      hide LimbPow;
      LimbValueBound(limbs[1..]);
      Pow2Limb(|limbs| - 1);
    }
  }

  lemma {:induction false} LimbValueConcat(a: seq<u64>, b: seq<u64>)
    ensures LimbValue(a + b) == LimbValue(a) + LimbPow(|a|) * LimbValue(b)
  {
    if a == [] {
      assert a + b == b;
      assert LimbPow(0) == 1;
    } else {
      hide LimbPow;
      LimbValueConcat(a[1..], b);
      assert (a + b)[1..] == a[1..] + b;
      Pow2Limb(|a| - 1);
      Regroup(TWO_64, LimbPow(|a| - 1), LimbValue(b), LimbPow(|a| - 1) * LimbValue(b));
    }
  }

  lemma {:induction false} LimbValueInjective(a: seq<u64>, b: seq<u64>)
    requires |a| == |b| && LimbValue(a) == LimbValue(b)
    ensures a == b
  {
    if a != [] {
      LimbValueInjective(a[1..], b[1..]);
      assert a == [a[0]] + a[1..] && b == [b[0]] + b[1..];
    }
  }

  lemma LimbValueOne(x: u64)
    ensures LimbValue([x]) == x
  {
    assert [x][1..] == [];
  }

  /** The limbs from `i` on, one at a time. */
  lemma LimbValueAt(limbs: seq<u64>, i: nat)
    requires i < |limbs|
    ensures LimbValue(limbs[..i + 1]) == LimbValue(limbs[..i]) + LimbPow(i) * limbs[i]
  {
    hide LimbPow, LimbValue;
    LimbValueConcat(limbs[..i], [limbs[i]]);
    LimbValueOne(limbs[i]);
    assert limbs[..i + 1] == limbs[..i] + [limbs[i]];
  }

  lemma LimbValueSplit(limbs: seq<u64>, i: nat)
    requires i <= |limbs|
    ensures LimbValue(limbs) == LimbValue(limbs[..i]) + LimbPow(i) * LimbValue(limbs[i..])
  {
    hide LimbPow, LimbValue;
    LimbValueConcat(limbs[..i], limbs[i..]);
    assert limbs == limbs[..i] + limbs[i..];
  }

  // ---------------------------------------------------------------- negation

  /** !limb */
  function Not(limb: u64): u64 { TWO_64 - 1 - limb }

  function NotAll(limbs: seq<u64>): (r: seq<u64>)
    ensures |r| == |limbs| && forall i :: 0 <= i < |limbs| ==> r[i] == Not(limbs[i])
  {
    seq(|limbs|, i requires 0 <= i < |limbs| => Not(limbs[i]))
  }

  lemma {:induction false} NotAllValue(limbs: seq<u64>)
    ensures LimbValue(NotAll(limbs)) == LimbPow(|limbs|) - 1 - LimbValue(limbs)
  {
    if limbs != [] {
      hide LimbPow;
      NotAllValue(limbs[1..]);
      assert NotAll(limbs)[1..] == NotAll(limbs[1..]);
      Pow2Limb(|limbs| - 1);
    }
  }

  /** Complement every limb, then add one with the carry running up. */
  method Negate(limbs: array<u64>)
    modifies limbs
    ensures LimbValue(limbs[..]) == (LimbPow(limbs.Length) - LimbValue(old(limbs[..]))) % LimbPow(limbs.Length)
  {
    hide LimbValue, LimbPow;
    ghost var before := limbs[..];
    Complement(limbs);
    NotAllValue(before);
    AddOne(limbs);
  }

  method Complement(limbs: array<u64>)
    modifies limbs
    ensures limbs[..] == NotAll(old(limbs[..]))
  {
    for i := 0 to limbs.Length
      invariant forall j :: 0 <= j < limbs.Length ==> limbs[j] == if j < i then Not(old(limbs[j])) else old(limbs[j])
    {
      limbs[i] := Not(limbs[i]);
    }
  }

  method AddOne(limbs: array<u64>)
    modifies limbs
    ensures LimbValue(limbs[..]) == (LimbValue(old(limbs[..])) + 1) % LimbPow(limbs.Length)
  {
    hide LimbValue, LimbPow;
    ghost var before := limbs[..];
    var k := limbs.Length;
    var carry := 1;
    var i := 0;
    CarryStart(before);
    while i < k
      invariant 0 <= i <= k && 0 <= carry <= 1 && (carry == 0 ==> i == k || i > 0)
      invariant limbs[i..] == before[i..]
      invariant LimbValue(limbs[..i]) + carry * LimbPow(i) == LimbValue(before[..i]) + 1
    {
      ghost var previous := limbs[..];
      var sum := limbs[i] + carry;
      var over := sum >= TWO_64;
      CarryStep(previous, before, i, carry, if over then sum - TWO_64 else sum, if over then 1 else 0);
      limbs[i] := if over then sum - TWO_64 else sum;
      assert limbs[..] == previous[i := limbs[i]];
      i := i + 1;
      if over {
        carry := 1;
      } else {
        carry := 0;
        break;
      }
    }
    CarryEnd(limbs[..], before, i, carry);
  }

  lemma CarryStart(before: seq<u64>)
    ensures LimbValue(before[..0]) + 1 * LimbPow(0) == LimbValue(before[..0]) + 1
  {
    assert LimbPow(0) == 1;
  }

  lemma CarryStep(limbs: seq<u64>, before: seq<u64>, i: nat, carry: nat, digit: u64, next: nat)
    requires i < |limbs| == |before| && limbs[i..] == before[i..]
    requires limbs[i] + carry == digit + next * TWO_64
    requires LimbValue(limbs[..i]) + carry * LimbPow(i) == LimbValue(before[..i]) + 1
    ensures var after := limbs[i := digit];
            && after[i + 1..] == before[i + 1..]
            && LimbValue(after[..i + 1]) + next * LimbPow(i + 1) == LimbValue(before[..i + 1]) + 1
  {
    hide LimbValue, LimbPow;
    var after := limbs[i := digit];
    LimbValueAt(after, i);
    LimbValueAt(before, i);
    assert after[..i] == limbs[..i];
    assert limbs[i] == before[i];
    Pow2Limb(i);
    CarrySum(LimbPow(i), before[i], carry, digit, next);
  }

  lemma CarrySum(p: nat, x: nat, carry: nat, digit: nat, next: nat)
    requires x + carry == digit + next * TWO_64
    ensures p * x + carry * p == p * digit + next * (TWO_64 * p)
  {
    assert p * (x + carry) == p * x + p * carry;
    assert p * (digit + next * TWO_64) == p * digit + p * (next * TWO_64);
    assert p * (next * TWO_64) == next * (TWO_64 * p);
  }

  lemma CarryEnd(limbs: seq<u64>, before: seq<u64>, i: nat, carry: nat)
    requires i <= |limbs| == |before| && carry <= 1 && (carry == 1 ==> i == |limbs|) && limbs[i..] == before[i..]
    requires LimbValue(limbs[..i]) + carry * LimbPow(i) == LimbValue(before[..i]) + 1
    ensures LimbValue(limbs) == (LimbValue(before) + 1) % LimbPow(|limbs|)
  {
    hide LimbValue, LimbPow;
    LimbValueBound(limbs);
    if carry == 1 {
      assert limbs[..i] == limbs && before[..i] == before;
      WrapsToZero(LimbValue(before) + 1, LimbValue(limbs), LimbPow(|limbs|));
    } else {
      LimbValueSplit(limbs, i);
      LimbValueSplit(before, i);
      DivUnique(LimbValue(before) + 1, LimbPow(|limbs|), 0, LimbValue(limbs));
    }
  }

  lemma WrapsToZero(n: nat, r: nat, p: nat)
    requires n == r + p && r < p
    ensures n % p == r
  {
    DivUnique(n, p, 1, r);
  }

  // ------------------------------------------------------------------ masking

  lemma SplitMod(low: nat, p: nat, top: nat, q: nat)
    requires low < p && q > 0
    ensures (low + p * top) % (p * q) == low + p * (top % q)
  {
    var d, r := top / q, top % q;
    assert top == q * d + r;
    assert p * top == p * q * d + p * r by {
      assert p * (q * d + r) == p * (q * d) + p * r && p * (q * d) == p * q * d;
    }
    LessTimesLow(low, p, r, q);
    DivUnique(low + p * top, p * q, d, low + p * r);
  }

  lemma LessTimesLow(low: nat, p: nat, r: nat, q: nat)
    requires low < p && r < q
    ensures low + p * r < p * q && p * q > 0
  {
    MulStep(r, q, p);
    assert r * p == p * r && q * p == p * q;
  }

  /** limbs[k - 1] &= (1 << (bits % 64)) - 1, unless the last limb is full. */
  method MaskLast(limbs: array<u64>, bits: nat)
    requires limbs.Length == LimbsFor(bits)
    modifies limbs
    ensures LimbValue(limbs[..]) == LimbValue(old(limbs[..])) % Pow2(bits)
  {
    hide LimbValue, Pow2;
    ghost var before := limbs[..];
    var k := limbs.Length;
    var last := bits % 64;
    MaskedValue(before, bits);
    if last > 0 && k > 0 {
      limbs[k - 1] := LowBits(limbs[k - 1], last);
      assert limbs[..] == before[k - 1 := LowBits(before[k - 1], last)];
    }
  }

  /** x & ((1 << n) - 1) */
  function LowBits(x: u64, n: nat): u64 {
    ModAtMost(x, Pow2(n));
    x % Pow2(n)
  }

  lemma ModAtMost(x: nat, m: nat)
    requires m > 0
    ensures 0 <= x % m <= x
  {
    assert x == m * (x / m) + x % m;
    DivNat(x, m);
    assert m * (x / m) >= 0;
  }

  lemma MaskedValue(limbs: seq<u64>, bits: nat)
    requires |limbs| == LimbsFor(bits)
    ensures var k := |limbs|;
            LimbValue(if bits % 64 > 0 then limbs[k - 1 := LowBits(limbs[k - 1], bits % 64)] else limbs) == LimbValue(limbs) % Pow2(bits)
  {
    hide LimbValue, Pow2;
    var k := |limbs|;
    LimbValueBound(limbs);
    if bits % 64 == 0 {
      assert bits == 64 * k;
      DivUnique(LimbValue(limbs), Pow2(bits), 0, LimbValue(limbs));
    } else {
      var r := bits % 64;
      var masked := limbs[k - 1 := LowBits(limbs[k - 1], r)];
      assert masked[..k] == masked && limbs[..k] == limbs && masked[..k - 1] == limbs[..k - 1];
      LimbValueAt(limbs, k - 1);
      LimbValueAt(masked, k - 1);
      LimbValueBound(limbs[..k - 1]);
      Pow2Sum(64 * (k - 1), r, bits);
      SplitMod(LimbValue(limbs[..k - 1]), LimbPow(k - 1), limbs[k - 1], Pow2(r));
    }
  }

  // ----------------------------------------------------------------- encoding

  method EncodeInt(val: int, bits: nat) returns (limbs: array<u64>)
    requires -TWO_63 <= val < TWO_63
    ensures fresh(limbs) && limbs.Length == LimbsFor(bits) && LimbValue(limbs[..]) == val % Pow2(bits)
  {
    hide LimbValue, Pow2;
    var k := LimbsFor(bits);
    limbs := new u64[k](_ => 0);
    var magnitude: u64 := if val >= 0 then val else -val;
    SmallValue(limbs[..], magnitude, bits);
    if k > 0 {
      limbs[0] := magnitude;
    }
    ghost var stored := LimbValue(limbs[..]);
    if val < 0 {
      Negate(limbs);
    }
    EncodedNumber(val, magnitude, stored, k, bits);
    MaskLast(limbs, bits);
  }

  /** What the limbs hold before the last one is masked: the integer modulo 2^bits. */
  lemma EncodedNumber(val: int, magnitude: nat, stored: nat, k: nat, bits: nat)
    requires k == LimbsFor(bits) && magnitude == (if val >= 0 then val else -val) && stored == (if k > 0 then magnitude else 0)
    ensures val >= 0 ==> stored % Pow2(bits) == val % Pow2(bits)
    ensures val < 0 ==> (LimbPow(k) - stored) % LimbPow(k) % Pow2(bits) == val % Pow2(bits)
  {
    hide Pow2, LimbPow;
    NegatedLow(stored, k, bits);
    if k == 0 {
      NoBits(val);
      NoBits(-stored);
      NoBits(stored);
    }
  }

  lemma NoBits(val: int)
    ensures val % Pow2(0) == 0
  {
  }

  lemma SmallValue(limbs: seq<u64>, magnitude: u64, bits: nat)
    requires |limbs| == LimbsFor(bits) && forall i :: 0 <= i < |limbs| ==> limbs[i] == 0
    ensures limbs == [] ==> LimbValue(limbs) == 0 && bits == 0
    ensures limbs != [] ==> LimbValue(limbs[0 := magnitude]) == magnitude
  {
    if limbs != [] {
      ZeroLimbs(limbs[1..]);
      assert limbs[0 := magnitude][1..] == limbs[1..];
    }
  }

  lemma {:induction false} ZeroLimbs(limbs: seq<u64>)
    requires forall i :: 0 <= i < |limbs| ==> limbs[i] == 0
    ensures LimbValue(limbs) == 0
  {
    if limbs != [] {
      ZeroLimbs(limbs[1..]);
    }
  }

  /** 2^(64 k) - m is -m modulo every smaller power. */
  lemma NegatedLow(m: int, k: nat, bits: nat)
    requires k == LimbsFor(bits)
    ensures (LimbPow(k) - m) % LimbPow(k) % Pow2(bits) == -m % Pow2(bits)
    ensures k == 0 ==> -m % Pow2(bits) == 0
  {
    hide Pow2;
    var p := LimbPow(k);
    CongruentBy(p - m, -m, 1, p);
    ModCongruent(p - m, p);
    CongruentLow((p - m) % p, p - m, 64 * k, bits);
    CongruentLow(p - m, -m, 64 * k, bits);
    if k == 0 {
      NoBits(-m);
    }
  }

  // ----------------------------------------------------------------- sign bit

  /** The bits of the limbs, in order. */
  function LimbBits(limbs: seq<u64>): (bits: seq<bool>)
    ensures |bits| == 64 * |limbs|
  {
    if limbs == [] then [] else BitsOf(limbs[0], 64) + LimbBits(limbs[1..])
  }

  lemma {:induction false} LimbBitsIndex(limbs: seq<u64>, i: nat, j: nat)
    requires i < |limbs| && j < 64
    ensures LimbBits(limbs)[64 * i + j] == BitsOf(limbs[i], 64)[j]
  {
    hide BitsOf;
    if i > 0 {
      LimbBitsIndex(limbs[1..], i - 1, j);
    }
  }

  lemma {:induction false} LimbBitsNum(limbs: seq<u64>)
    ensures Num(LimbBits(limbs)) == LimbValue(limbs)
  {
    hide BitsOf, Pow2, Num;
    if limbs == [] {
      NumEmpty();
    } else {
      LimbBitsNum(limbs[1..]);
      NumConcat(BitsOf(limbs[0], 64), LimbBits(limbs[1..]));
      NumOfLimb(limbs[0]);
      Pow2Words();
    }
  }

  lemma NumOfLimb(x: u64)
    ensures Num(BitsOf(x, 64)) == x
  {
    hide Num, BitsOf;
    NumBitsOf(x, 64);
    Pow2Words();
  }

  /** The most significant bit of a number of `n` bits. */
  lemma TopBit(bits: seq<bool>)
    requires |bits| > 0
    ensures bits[|bits| - 1] <==> Num(bits) >= Pow2(|bits| - 1)
  {
    hide Num, Pow2;
    var n := |bits| - 1;
    NumConcat(bits[..n], [bits[n]]);
    assert bits == bits[..n] + [bits[n]];
    NumBound(bits[..n]);
    NumOne(bits[n]);
    if bits[n] {
      assert Pow2(n) * 1 == Pow2(n);
    } else {
      assert Pow2(n) * 0 == 0;
    }
  }

  /** Bit `bits - 1`, looked up in its limb. */
  function SignBit(limbs: seq<u64>, bits: nat): bool
    requires bits >= 1 && |limbs| == LimbsFor(bits)
  {
    Bit(limbs[(bits - 1) / 64], (bits - 1) % 64) == 1
  }

  lemma SignBitMeans(limbs: seq<u64>, bits: nat)
    requires bits >= 1 && |limbs| == LimbsFor(bits)
    ensures SignBit(limbs, bits) <==> LimbValue(limbs) % Pow2(bits) >= Pow2(bits - 1)
  {
    hide LimbValue, Num, Pow2, BitsOf;
    var i, j := (bits - 1) / 64, (bits - 1) % 64;
    var all := LimbBits(limbs);
    LimbBitsIndex(limbs, i, j);
    BitsOfIndex(limbs[i], 64, j);
    LimbBitsNum(limbs);
    NumPrefix(all, bits);
    TopBit(all[..bits]);
  }

  // ----------------------------------------------------------------- decoding

  /** `as i64` */
  function AsI64(n: u64): int { Signed64(n) }

  /** The low 64 bits of the signed value, by way of its magnitude; None where negating that overflows. */
  function DecodedInt(n: nat, bits: nat): Option<int>
    requires bits >= 1
  {
    var s := Signed(n % Pow2(bits), bits);
    if s >= 0 then Some(AsI64(s % TWO_64))
    else if -s % TWO_64 == TWO_63 then None
    else Some(-AsI64(-s % TWO_64))
  }

  method DecodeInt(limbs: seq<u64>, bits: nat) returns (r: Option<int>)
    requires bits >= 1 && |limbs| == LimbsFor(bits) && (bits >= 64 || LimbValue(limbs) < Pow2(bits))
    ensures r == DecodedInt(LimbValue(limbs), bits)
  {
    hide LimbValue, Pow2;
    var negative := SignBit(limbs, bits);
    SignBitMeans(limbs, bits);
    ghost var s := Signed(LimbValue(limbs) % Pow2(bits), bits);
    SignedRange(LimbValue(limbs) % Pow2(bits), bits);
    if !negative {
      FirstLimb(limbs, bits);
      return Some(AsI64(limbs[0]));
    }
    var temp := new u64[|limbs|](i requires 0 <= i < |limbs| => limbs[i]);
    assert temp[..] == limbs;
    Negate(temp);
    MaskLast(temp, bits);
    NegatedSigned(LimbValue(limbs), bits);
    FirstLimbIs(temp[..], -s);
    var magnitude := temp[0];
    r := if magnitude == TWO_63 then None else Some(-AsI64(magnitude));
  }

  lemma SignedRange(field: nat, bits: nat)
    requires bits >= 1 && field < Pow2(bits)
    ensures Signed(field, bits) < 0 <==> field >= Pow2(bits - 1)
  {
  }

  lemma FirstLimbIs(limbs: seq<u64>, n: nat)
    requires limbs != [] && LimbValue(limbs) == n
    ensures limbs[0] == n % TWO_64
  {
    DivUnique(n, TWO_64, LimbValue(limbs[1..]), limbs[0]);
  }

  /** The value of the lowest limb does not depend on what lies above `bits`. */
  lemma FirstLimb(limbs: seq<u64>, bits: nat)
    requires bits >= 1 && |limbs| == LimbsFor(bits) && (bits >= 64 || LimbValue(limbs) < Pow2(bits))
    ensures limbs[0] == LimbValue(limbs) % Pow2(bits) % TWO_64
  {
    hide LimbValue, Pow2;
    var n := LimbValue(limbs);
    FirstLimbIs(limbs, n);
    Pow2Words();
    if bits >= 64 {
      ModCongruent(n, Pow2(bits));
      CongruentLow(n % Pow2(bits), n, bits, 64);
    } else {
      DivUnique(n, Pow2(bits), 0, n);
    }
  }

  /** Negating a negative field gives its magnitude. */
  lemma NegatedSigned(n: nat, bits: nat)
    requires bits >= 1 && n % Pow2(bits) >= Pow2(bits - 1)
    ensures var p := LimbPow(LimbsFor(bits));
            (p - n) % p % Pow2(bits) == -Signed(n % Pow2(bits), bits)
  {
    var q := Pow2(bits);
    assert q == 2 * Pow2(bits - 1);
    hide Pow2;
    NegatedLow(n, LimbsFor(bits), bits);
    NegatedMod(n, q);
  }

  lemma NegatedMod(n: nat, q: nat)
    requires q > 0 && n % q > 0
    ensures -(n as int) % q == q - n % q
  {
    var m := -(n as int);
    assert n == q * (n / q) + n % q;
    assert q * (-(n / q) - 1) == -(q * (n / q)) - q;
    DivUnique(m, q, -(n / q) - 1, q - n % q);
  }

  /** Decoding inverts encoding on everything the width holds, except the most negative 64-bit integer. */
  lemma DecodeEncode(v: int, bits: nat)
    requires bits >= 1 && -TWO_63 <= v < TWO_63 && 0 - Pow2(bits - 1) <= v < Pow2(bits - 1)
    ensures v % Pow2(bits) >= 0
    ensures DecodedInt(v % Pow2(bits), bits) == if v == -TWO_63 then None else Some(v)
  {
    hide Pow2, Signed, AsI64;
    SignedInverts(v, bits);
    ModBounds(v, Pow2(bits));
    ModOnce(v, Pow2(bits));
    AsI64Small(v);
  }

  /** Whatever the width, decoding gives the 64-bit integer with the low 64 bits of the signed value, and fails only where that is the most negative one below zero. */
  lemma DecodesLow(n: nat, bits: nat)
    requires bits >= 1
    ensures n % Pow2(bits) >= 0
    ensures var s := Signed(n % Pow2(bits), bits);
            match DecodedInt(n, bits)
            case Some(v) => -TWO_63 <= v < TWO_63 && (v - s) % TWO_64 == 0
            case None => s < 0 && (-TWO_63 - s) % TWO_64 == 0
  {
    hide Pow2, Signed;
    ModBounds(n, Pow2(bits));
    var s := Signed(n % Pow2(bits), bits);
    LowWord(s);
    LowWord(-s);
  }

  lemma LowWord(x: int)
    ensures -TWO_63 <= AsI64(x % TWO_64) < TWO_63 && (AsI64(x % TWO_64) - x) % TWO_64 == 0
    ensures (0 - AsI64(x % TWO_64) + x) % TWO_64 == 0 && (AsI64(x % TWO_64) == -TWO_63 <==> x % TWO_64 == TWO_63)
  {
    var q, r := x / TWO_64, x % TWO_64;
    assert x == TWO_64 * q + r;
    var k := if r < TWO_63 then q else q + 1;
    DivUnique(AsI64(r) - x, TWO_64, -k, 0);
    DivUnique(x - AsI64(r), TWO_64, k, 0);
  }

  lemma ModOnce(v: int, m: nat)
    requires m > 0
    ensures v % m % m == v % m
  {
    ModBounds(v, m);
    DivUnique(v % m, m, 0, v % m);
  }

  lemma AsI64Small(v: int)
    requires -TWO_63 <= v < TWO_63
    ensures v >= 0 ==> AsI64(v % TWO_64) == v
    ensures v < 0 ==> -v % TWO_64 == -v && (v > -TWO_63 ==> AsI64(-v % TWO_64) == -v)
  {
  }

  // ------------------------------------------------------------- sign extension

  /** The signed value that sign extension carries over: only a set sign bit makes the bits above it count as ones. */
  function Extended(n: nat, from: nat): int
    requires from >= 1
  {
    if n % Pow2(from) >= Pow2(from - 1) then n % Pow2(from) - Pow2(from) else n
  }

  /** x | !((1 << n) - 1) */
  function HighOnes(x: u64, n: nat): u64
    requires n < 64
  {
    Pow2Words();
    Pow2Monotone(n, 64);
    ModBounds(x, Pow2(n));
    x % Pow2(n) + (TWO_64 - Pow2(n))
  }

  method ExtendLimbs(limbs: seq<u64>, from: nat, to: nat) returns (res: array<u64>)
    requires from >= 1 && |limbs| == LimbsFor(from)
    ensures fresh(res) && res.Length == LimbsFor(to)
    ensures LimbValue(res[..]) == Extended(LimbValue(limbs), from) % Pow2(to)
  {
    hide LimbValue, Pow2, Extended, HighOnes;
    var fromK, toK := LimbsFor(from), LimbsFor(to);
    res := new u64[toK](_ => 0);
    var low := if fromK < toK then fromK else toK;
    for i := 0 to low
      invariant res[..] == limbs[..i] + seq(toK - i, _ => 0)
    {
      res[i] := limbs[i];
    }
    var negative := SignBit(limbs, from);
    SignBitMeans(limbs, from);
    if negative && fromK <= toK {
      var last := from % 64;
      if last > 0 {
        res[fromK - 1] := HighOnes(res[fromK - 1], last);
      }
      ghost var top := if last > 0 then HighOnes(limbs[fromK - 1], last) else limbs[fromK - 1];
      assert res[..] == limbs[..fromK - 1] + [top] + seq(toK - fromK, _ => 0);
      for i := fromK to toK
        invariant res[..] == limbs[..fromK - 1] + [top] + Ones(i - fromK) + seq(toK - i, _ => 0)
      {
        res[i] := TWO_64 - 1;
      }
      assert res[..] == limbs[..fromK - 1] + [top] + Ones(toK - fromK);
      OnesAbove(limbs, from, toK, res[..]);
      NegativeExtension(LimbValue(limbs), from, to, LimbValue(res[..]));
    } else {
      Copied(limbs, res[..], toK);
      PlainExtension(LimbValue(limbs), from, to, LimbValue(res[..]), fromK);
    }
    MaskLast(res, to);
  }

  function Ones(n: nat): (s: seq<u64>)
    ensures |s| == n
  {
    seq(n, _ => TWO_64 - 1)
  }

  lemma {:induction false} OnesValue(n: nat)
    ensures LimbValue(Ones(n)) == LimbPow(n) - 1
  {
    if n > 0 {
      hide Pow2;
      OnesValue(n - 1);
      assert Ones(n)[1..] == Ones(n - 1);
      Pow2Limb(n - 1);
    }
  }

  /** The limbs below and a top limb filled with ones above bit `from`, then ones only. */
  lemma OnesAbove(limbs: seq<u64>, from: nat, toK: nat, res: seq<u64>)
    requires from >= 1 && |limbs| == LimbsFor(from) <= toK
    requires res == limbs[..|limbs| - 1]
                  + [if from % 64 > 0 then HighOnes(limbs[|limbs| - 1], from % 64) else limbs[|limbs| - 1]] + Ones(toK - |limbs|)
    ensures LimbValue(res) == LimbValue(limbs) % Pow2(from) - Pow2(from) + LimbPow(toK)
  {
    AtLeastOne(from);
    hide LimbValue, Pow2, HighOnes, LimbPow, Ones, LimbsFor;
    var k := |limbs|;
    var top := if from % 64 > 0 then HighOnes(limbs[k - 1], from % 64) else limbs[k - 1];
    var filled := limbs[..k - 1] + [top];
    FilledTop(limbs, from, filled, top);
    OnesOnTop(filled, toK, res, LimbValue(limbs) % Pow2(from) - Pow2(from));
  }

  lemma OnesOnTop(filled: seq<u64>, toK: nat, res: seq<u64>, d: int)
    requires |filled| <= toK && res == filled + Ones(toK - |filled|) && LimbValue(filled) == d + LimbPow(|filled|)
    ensures LimbValue(res) == d + LimbPow(toK)
  {
    hide LimbValue, LimbPow, Ones;
    var k, n := |filled|, toK - |filled|;
    LimbValueConcat(filled, Ones(n));
    OnesValue(n);
    LimbPowSum(k, n, toK);
    TimesPred(LimbPow(k), LimbPow(n), LimbValue(Ones(n)), LimbPow(toK));
  }

  lemma AtLeastOne(width: nat)
    requires width >= 1
    ensures LimbsFor(width) >= 1
  {
  }

  lemma LimbPowSum(a: nat, b: nat, c: nat)
    requires c == a + b
    ensures LimbPow(c) == LimbPow(a) * LimbPow(b)
  {
    hide Pow2;
    Pow2Sum(64 * a, 64 * b, 64 * c);
  }

  lemma TimesPred(p: nat, q: nat, x: int, r: nat)
    requires x == q - 1 && r == p * q
    ensures p * x == r - p
  {
  }

  lemma FilledTop(limbs: seq<u64>, from: nat, filled: seq<u64>, top: u64)
    requires from >= 1 && |limbs| == LimbsFor(from)
    requires top == if from % 64 > 0 then HighOnes(limbs[|limbs| - 1], from % 64) else limbs[|limbs| - 1]
    requires filled == limbs[..|limbs| - 1] + [top]
    ensures LimbValue(filled) == LimbValue(limbs) % Pow2(from) - Pow2(from) + LimbPow(|limbs|)
  {
    hide LimbValue, Pow2, HighOnes, LimbPow;
    var k, r := |limbs|, from % 64;
    assert filled[..k - 1] == limbs[..k - 1];
    if r == 0 {
      assert filled == limbs;
      WholeLimbs(limbs, from);
    } else {
      FilledPart(limbs, from, filled, k, r);
    }
  }

  /** A width that fills its limbs. */
  lemma WholeLimbs(limbs: seq<u64>, from: nat)
    requires from % 64 == 0 && |limbs| == LimbsFor(from)
    ensures LimbValue(limbs) % Pow2(from) == LimbValue(limbs) && Pow2(from) == LimbPow(|limbs|)
  {
    hide LimbValue, Pow2;
    LimbValueBound(limbs);
    assert from == 64 * |limbs|;
    DivUnique(LimbValue(limbs), Pow2(from), 0, LimbValue(limbs));
  }

  lemma FilledPart(limbs: seq<u64>, from: nat, filled: seq<u64>, k: nat, r: nat)
    requires k == |limbs| == |filled| && k >= 1 && 1 <= r < 64 && from == 64 * (k - 1) + r
    requires filled[..k - 1] == limbs[..k - 1] && filled[k - 1] == HighOnes(limbs[k - 1], r)
    ensures LimbValue(filled) == LimbValue(limbs) % Pow2(from) - Pow2(from) + LimbPow(k)
  {
    hide LimbValue, Pow2, HighOnes, LimbPow;
    assert limbs[..k] == limbs && filled[..k] == filled;
    LimbValueAt(limbs, k - 1);
    LimbValueAt(filled, k - 1);
    LimbValueBound(limbs[..k - 1]);
    LimbPowIs(k - 1);
    Pow2Sum(64 * (k - 1), r, from);
    Pow2LimbOf(k);
    FilledTopValue(LimbValue(limbs[..k - 1]), LimbPow(k - 1), limbs[k - 1], r, Pow2(from),
                   filled[k - 1], LimbValue(limbs), LimbValue(filled), LimbPow(k));
  }

  lemma FilledTopValue(low: nat, p: nat, top: u64, r: nat, whole: nat, high: nat, n: nat, m: nat, all: nat)
    requires low < p && r < 64 && whole == p * Pow2(r) && all == TWO_64 * p
    requires high == HighOnes(top, r) && n == low + p * top && m == low + p * high
    ensures m == n % whole - whole + all
  {
    SplitMod(low, p, top, Pow2(r));
    Spread(p, top % Pow2(r), Pow2(r));
  }

  lemma Spread(p: nat, x: nat, q: nat)
    ensures p * (x + (TWO_64 - q)) == p * x - p * q + TWO_64 * p
  {
    assert p * (x + (TWO_64 - q)) == p * x + p * (TWO_64 - q);
    assert p * (TWO_64 - q) == p * TWO_64 - p * q;
  }

  lemma NegativeExtension(n: nat, from: nat, to: nat, r: nat)
    requires from >= 1 && n % Pow2(from) >= Pow2(from - 1)
    requires r == n % Pow2(from) - Pow2(from) + LimbPow(LimbsFor(to))
    ensures r % Pow2(to) == Extended(n, from) % Pow2(to)
  {
    hide Pow2;
    CongruentBy(r, Extended(n, from), 1, LimbPow(LimbsFor(to)));
    CongruentLow(r, Extended(n, from), 64 * LimbsFor(to), to);
  }

  lemma Copied(limbs: seq<u64>, res: seq<u64>, toK: nat)
    requires res == limbs[..if |limbs| < toK then |limbs| else toK] + seq(toK - (if |limbs| < toK then |limbs| else toK), _ => 0)
    ensures LimbValue(res) == LimbValue(limbs) % LimbPow(toK)
  {
    hide LimbValue, Pow2;
    var low := if |limbs| < toK then |limbs| else toK;
    var zeros: seq<u64> := seq(toK - low, _ => 0);
    LimbValueConcat(limbs[..low], zeros);
    ZeroLimbs(zeros);
    LimbValueSplit(limbs, low);
    LimbValueBound(limbs[..low]);
    assert LimbPow(low) * 0 == 0;
    if |limbs| < toK {
      assert limbs[..low] == limbs;
      Pow2Monotone(64 * |limbs|, 64 * toK);
      DivUnique(LimbValue(limbs), LimbPow(toK), 0, LimbValue(limbs));
    } else {
      DivUnique(LimbValue(limbs), LimbPow(toK), LimbValue(limbs[low..]), LimbValue(limbs[..low]));
    }
  }

  /** Without a sign to extend, or when narrowing by whole limbs, copying is enough. */
  lemma PlainExtension(n: nat, from: nat, to: nat, r: nat, fromK: nat)
    requires from >= 1 && fromK == LimbsFor(from) && r == n % LimbPow(LimbsFor(to))
    requires n % Pow2(from) < Pow2(from - 1) || fromK > LimbsFor(to)
    ensures r % Pow2(to) == Extended(n, from) % Pow2(to)
  {
    hide Pow2;
    var m := LimbPow(LimbsFor(to));
    ModCongruent(n, m);
    CongruentLow(r, n, 64 * LimbsFor(to), to);
    if n % Pow2(from) >= Pow2(from - 1) {
      assert from > to;
      ModCongruent(n, Pow2(from));
      CongruentBy(Extended(n, from), n % Pow2(from), -1, Pow2(from));
      CongruentLow(Extended(n, from), n, from, to);
    }
  }

  // --------------------------------------------------- what extension preserves

  lemma ExtendedSigned(n: nat, from: nat)
    requires from >= 1 && n < Pow2(from)
    ensures Extended(n, from) == Signed(n, from)
  {
    DivUnique(n, Pow2(from), 0, n);
  }

  lemma SignedBounds(n: nat, width: nat)
    requires width >= 1 && n < Pow2(width)
    ensures 0 - Pow2(width - 1) <= Signed(n, width) < Pow2(width - 1)
  {
  }

  /** Widening keeps the signed value. */
  lemma ExtensionPreserves(n: nat, from: nat, to: nat)
    requires 1 <= from <= to && n < Pow2(from)
    ensures Signed(Extended(n, from) % Pow2(to), to) == Signed(n, from)
  {
    hide Pow2, Signed, Extended;
    ExtendedSigned(n, from);
    SignedBounds(n, from);
    Pow2Monotone(from - 1, to - 1);
    SignedInverts(Signed(n, from), to);
  }

  /** Extending an encoding gives the encoding at the new width. */
  lemma ExtensionOfEncoding(v: int, from: nat, to: nat)
    requires from >= 1 && 0 - Pow2(from - 1) <= v < Pow2(from - 1)
    ensures v % Pow2(from) >= 0 && Extended(v % Pow2(from), from) % Pow2(to) == v % Pow2(to)
  {
    hide Pow2, Signed, Extended;
    ModBounds(v, Pow2(from));
    ExtendedSigned(v % Pow2(from), from);
    SignedInverts(v, from);
  }

  /** What a number is taken for at width `to`. */
  function AsRead(n: int, to: nat): int
    requires to >= 1
  {
    ModBounds(n, Pow2(to));
    Signed(n % Pow2(to), to)
  }

  /**
   * Extending in two steps is extending at once exactly if one of the steps
   * does not lose anything the target would keep: the first does not narrow,
   * or the target is no wider than the first, or what the target reads of the
   * number fits the middle width.
   */
  lemma ExtensionComposes(n: nat, from: nat, mid: nat, to: nat)
    requires from >= 1 && mid >= 1 && n < Pow2(from)
    ensures Extended(n, from) % Pow2(mid) >= 0
    ensures Extended(Extended(n, from) % Pow2(mid), mid) % Pow2(to) == Extended(n, from) % Pow2(to)
       <==> from <= mid || to <= mid || 0 - Pow2(mid - 1) <= AsRead(Extended(n, from), to) < Pow2(mid - 1)
  {
    hide Pow2, Signed, Extended, AsRead;
    var x := Extended(n, from);
    ModBounds(x, Pow2(mid));
    ExtendedSigned(x % Pow2(mid), mid);
    if from <= mid {
      ExtendedSigned(n, from);
      SignedBounds(n, from);
      Pow2Monotone(from - 1, mid - 1);
      ExtensionOfEncoding(x, mid, to);
    } else if to <= mid {
      NarrowerTarget(x, mid, to);
    } else {
      WiderTarget(x, mid, to);
    }
  }

  lemma NarrowerTarget(x: int, mid: nat, to: nat)
    requires mid >= 1 && to <= mid
    ensures x % Pow2(mid) >= 0 && Signed(x % Pow2(mid), mid) % Pow2(to) == x % Pow2(to)
  {
    hide Pow2, Signed;
    SignedReadCongruent(x, mid);
    CongruentLow(Signed(x % Pow2(mid), mid), x, mid, to);
  }

  lemma SignedReadCongruent(x: int, width: nat)
    requires width >= 1
    ensures x % Pow2(width) >= 0 && Congruent(Signed(x % Pow2(width), width), x, Pow2(width))
  {
    hide Pow2, Signed;
    ModBounds(x, Pow2(width));
    SignedCongruent(x % Pow2(width), width);
    ModCongruent(x, Pow2(width));
  }

  /** Through a narrower width, a number arrives exactly if what is read of it fits. */
  lemma WiderTarget(x: int, mid: nat, to: nat)
    requires 1 <= mid < to
    ensures x % Pow2(mid) >= 0
    ensures Signed(x % Pow2(mid), mid) % Pow2(to) == x % Pow2(to) <==> 0 - Pow2(mid - 1) <= AsRead(x, to) < Pow2(mid - 1)
  {
    hide Pow2, Signed;
    var y := Signed(x % Pow2(mid), mid);
    var r := AsRead(x, to);
    SignedReadCongruent(x, mid);
    SignedReadCongruent(x, to);
    SignedBounds(x % Pow2(mid), mid);
    Pow2Monotone(mid - 1, to - 1);
    SignedInverts(y, to);
    if 0 - Pow2(mid - 1) <= r < Pow2(mid - 1) {
      SignedInverts(r, mid);
      CongruentLow(r, x, to, mid);
    }
  }

  // ------------------------------------------------------- scalable integers

  /** compute_scalable_int_bits: the digits of the magnitude, at least 1 and at most 63, and a sign. */
  function ScalableBits(val: int): (bits: nat)
    ensures 2 <= bits <= 64
  {
    var digits := BitLength(if val < 0 then -val else val);
    (if digits < 1 then 1 else if digits > 63 then 63 else digits) + 1
  }

  /** The width chosen for a value holds it, the most negative one included, and half of its range would not hold the magnitude. */
  lemma ScalableFits(val: int)
    requires -TWO_63 <= val < TWO_63
    ensures 0 - Pow2(ScalableBits(val) - 1) <= val < Pow2(ScalableBits(val) - 1)
    ensures ScalableBits(val) > 2 ==> Pow2(ScalableBits(val) - 2) <= AbsInt(val)
  {
    hide BitLength, Pow2;
    var len := BitLength(AbsInt(val));
    Pow2Words();
    if len < 1 {
      Pow2Monotone(len, 1);
    } else if len > 63 {
      assert Pow2(ScalableBits(val) - 1) == TWO_63;
      Pow2Monotone(62, len - 1);
    }
  }

  /** The width chosen for an array: the largest any value needs, 2 for an empty one. */
  function ArrayBits(values: seq<int>): (bits: nat)
    ensures 2 <= bits <= 64 && forall i :: 0 <= i < |values| ==> ScalableBits(values[i]) <= bits
  {
    if values == [] then 2
    else Max(ScalableBits(values[0]), ArrayBits(values[1..]))
  }

  lemma {:induction false} ArrayBitsMore(values: seq<int>, n: nat)
    requires n < |values|
    ensures ArrayBits(values[..n + 1]) == Max(ArrayBits(values[..n]), ScalableBits(values[n]))
  {
    hide ScalableBits;
    if n == 0 {
      assert values[..1][1..] == [] && values[..0] == [];
    } else {
      ArrayBitsMore(values[1..], n - 1);
      assert values[..n + 1][1..] == values[1..][..n] && values[..n][1..] == values[1..][..n - 1];
    }
  }

  lemma {:induction false} WidestInteger(values: seq<int>) returns (k: nat)
    ensures ArrayBits(values) > 2 ==> k < |values| && ScalableBits(values[k]) == ArrayBits(values)
  {
    hide ScalableBits;
    k := 0;
    if values != [] && ScalableBits(values[0]) < ArrayBits(values) {
      k := WidestInteger(values[1..]);
      k := k + 1;
    }
  }

  /** Every element of an array is in range of the width chosen for it, and some element needs that width. */
  lemma ScalableTight(values: seq<int>)
    requires forall i :: 0 <= i < |values| ==> -TWO_63 <= values[i] < TWO_63
    ensures forall i :: 0 <= i < |values| ==> 0 - Pow2(ArrayBits(values) - 1) <= values[i] < Pow2(ArrayBits(values) - 1)
    ensures ArrayBits(values) > 2 ==> exists i :: 0 <= i < |values| && Pow2(ArrayBits(values) - 2) <= AbsInt(values[i])
  {
    hide Pow2, ScalableBits;
    forall i | 0 <= i < |values|
      ensures 0 - Pow2(ArrayBits(values) - 1) <= values[i] < Pow2(ArrayBits(values) - 1)
    {
      ScalableFits(values[i]);
      Pow2Monotone(ScalableBits(values[i]) - 1, ArrayBits(values) - 1);
    }
    var k := WidestInteger(values);
    if ArrayBits(values) > 2 {
      ScalableFits(values[k]);
    }
  }

  /** Every element of an array survives being stored at the width chosen for the array. */
  lemma ScalableSurvives(values: seq<int>, i: nat)
    requires i < |values| && -TWO_63 <= values[i] < TWO_63
    ensures values[i] % Pow2(ArrayBits(values)) >= 0
    ensures Signed(values[i] % Pow2(ArrayBits(values)), ArrayBits(values)) == values[i]
  {
    hide Pow2, ScalableBits;
    ScalableFits(values[i]);
    Pow2Monotone(ScalableBits(values[i]) - 1, ArrayBits(values) - 1);
    SignedInverts(values[i], ArrayBits(values));
  }
}
