/** Floating-point numbers wider than 64 bits, in limbs (types.rs, encode_custom_float_limbs and its inverse). */
module FloatLimbs {
  import opened Words
  import opened BitOps
  import opened BitBuffer
  import opened Packing
  import opened TwosComplement
  import opened Limbs
  import opened FloatCodec

  // ------------------------------------------------------ bit fields in limbs

  /** limb | (1 << j) and limb & !(1 << j) */
  function PutLimbBit(x: u64, j: nat, bit: bool): u64
    requires j < 64
  {
    Pow2Words();
    Pow2Monotone(j + 1, 64);
    OrBound(x, Pow2(j), 64);
    AndNotBound(x, Pow2(j));
    if bit then Or(x, Pow2(j)) else AndNot(x, Pow2(j))
  }

  lemma PutLimbBitIs(x: u64, j: nat, bit: bool, k: nat)
    requires j < 64 && k < 64
    ensures BitsOf(PutLimbBit(x, j, bit), 64)[k] == if k == j then bit else BitsOf(x, 64)[k]
  {
    hide BitsOf, Or, AndNot, Pow2;
    OrBits(x, Pow2(j), 64, k);
    AndNotBits(x, Pow2(j), 64, k);
    Pow2Bits(j, 64, k);
  }

  lemma OneLimbBit(limbs: seq<u64>, p: nat, bit: bool)
    requires p < 64 * |limbs|
    ensures LimbBits(limbs[p / 64 := PutLimbBit(limbs[p / 64], p % 64, bit)]) == LimbBits(limbs)[p := bit]
  {
    hide LimbBits, PutLimbBit, BitsOf;
    var after := limbs[p / 64 := PutLimbBit(limbs[p / 64], p % 64, bit)];
    forall q | 0 <= q < 64 * |limbs|
      ensures LimbBits(after)[q] == LimbBits(limbs)[p := bit][q]
    {
      OneLimbBitAt(limbs, after, p / 64, p % 64, bit, q / 64, q % 64);
    }
  }

  lemma OneLimbBitAt(limbs: seq<u64>, after: seq<u64>, pi: nat, pj: nat, bit: bool, qi: nat, qj: nat)
    requires pi < |limbs| && qi < |limbs| && pj < 64 && qj < 64
    requires after == limbs[pi := PutLimbBit(limbs[pi], pj, bit)]
    ensures LimbBits(after)[64 * qi + qj] == if qi == pi && qj == pj then bit else LimbBits(limbs)[64 * qi + qj]
  {
    hide LimbBits, PutLimbBit, BitsOf;
    LimbBitsIndex(after, qi, qj);
    LimbBitsIndex(limbs, qi, qj);
    PutLimbBitIs(limbs[pi], pj, bit, qj);
  }

  /** Bit `p`, and zero past the end. */
  function BitAt(limbs: seq<u64>, p: nat): bool {
    p < 64 * |limbs| && LimbBits(limbs)[p]
  }

  function Piece(limbs: seq<u64>, from: nat, n: nat): (s: seq<bool>)
    ensures |s| == n
  {
    seq(n, i requires 0 <= i => BitAt(limbs, from + i))
  }

  /** (limb >> j) & 1, looked up; zero past the end. */
  function LookUp(limbs: seq<u64>, p: nat): (bit: nat)
    ensures bit == if BitAt(limbs, p) then 1 else 0
  {
    if p / 64 < |limbs| then
      LimbBitsIndex(limbs, p / 64, p % 64);
      BitsOfIndex(limbs[p / 64], 64, p % 64);
      Bit(limbs[p / 64], p % 64)
    else 0
  }

  method SetBits(limbs: array<u64>, values: seq<u64>, offset: nat, len: nat)
    requires offset + len <= 64 * limbs.Length
    modifies limbs
    ensures LimbBits(limbs[..]) == Splice(old(LimbBits(limbs[..])), offset, Piece(values, 0, len))
  {
    hide LimbBits, Splice, Piece, PutLimbBit;
    ghost var before := LimbBits(limbs[..]);
    ghost var piece := Piece(values, 0, len);
    SpliceNothing(before, offset, piece[..0]);
    var i := 0;
    while i < len
      invariant 0 <= i <= len
      invariant LimbBits(limbs[..]) == Splice(before, offset, piece[..i])
    {
      var bit := LookUp(values, i);
      var dest := offset + i;
      PieceAt(values, 0, len, i);
      OneLimbBit(limbs[..], dest, bit == 1);
      SpliceMore(before, offset, piece, i);
      ghost var previous := limbs[..];
      limbs[dest / 64] := PutLimbBit(limbs[dest / 64], dest % 64, bit == 1);
      assert limbs[..] == previous[dest / 64 := PutLimbBit(previous[dest / 64], dest % 64, bit == 1)];
      i := i + 1;
    }
    assert piece[..len] == piece;
  }

  lemma PieceAt(limbs: seq<u64>, from: nat, n: nat, i: nat)
    requires i < n
    ensures Piece(limbs, from, n)[i] == BitAt(limbs, from + i)
  {
  }

  method GetBits(limbs: seq<u64>, offset: nat, len: nat) returns (res: array<u64>)
    ensures fresh(res) && res.Length == LimbsFor(len) && LimbValue(res[..]) == Num(Piece(limbs, offset, len))
  {
    hide LimbBits, Splice, Piece, PutLimbBit, LimbValue, Num;
    var k := LimbsFor(len);
    res := new u64[k](_ => 0);
    ZeroLimbBits(res[..]);
    ghost var before := LimbBits(res[..]);
    ghost var piece := Piece(limbs, offset, len);
    SpliceNothing(before, 0, piece[..0]);
    var i := 0;
    while i < len
      invariant 0 <= i <= len
      invariant LimbBits(res[..]) == Splice(before, 0, piece[..i])
    {
      var bit := LookUp(limbs, offset + i);
      PieceAt(limbs, offset, len, i);
      SpliceMore(before, 0, piece, i);
      if bit == 1 {
        OneLimbBit(res[..], i, true);
        ghost var previous := res[..];
        res[i / 64] := PutLimbBit(res[i / 64], i % 64, true);
        assert res[..] == previous[i / 64 := PutLimbBit(previous[i / 64], i % 64, true)];
      } else {
        StillZero(before, piece, i);
      }
      i := i + 1;
    }
    assert piece[..len] == piece;
    LimbBitsNum(res[..]);
    ZeroAbove(before, piece);
  }

  lemma ZeroLimbBits(limbs: seq<u64>)
    requires forall i :: 0 <= i < |limbs| ==> limbs[i] == 0
    ensures forall p :: 0 <= p < 64 * |limbs| ==> !LimbBits(limbs)[p]
  {
    hide LimbBits, BitsOf;
    forall p | 0 <= p < 64 * |limbs|
      ensures !LimbBits(limbs)[p]
    {
      LimbBitsIndex(limbs, p / 64, p % 64);
      ZeroBits(64, p % 64);
    }
  }

  lemma StillZero(before: seq<bool>, piece: seq<bool>, i: nat)
    requires |piece| <= |before| && i < |piece| && !piece[i] && forall p :: 0 <= p < |before| ==> !before[p]
    ensures Splice(before, 0, piece[..i])[i] == false
    ensures Splice(before, 0, piece[..i])[i := false] == Splice(before, 0, piece[..i])
  {
  }

  lemma ZeroAbove(before: seq<bool>, piece: seq<bool>)
    requires |piece| <= |before| && forall p :: 0 <= p < |before| ==> !before[p]
    ensures Num(Splice(before, 0, piece)) == Num(piece)
  {
    hide Num, Pow2, Splice;
    var rest := SpliceFront(before, piece);
    AppendZeros(piece, rest);
  }

  lemma SpliceFront(before: seq<bool>, piece: seq<bool>) returns (rest: seq<bool>)
    requires |piece| <= |before| && forall p :: 0 <= p < |before| ==> !before[p]
    ensures Splice(before, 0, piece) == piece + rest && forall p :: 0 <= p < |rest| ==> !rest[p]
  {
    rest := before[|piece|..];
  }

  lemma AppendZeros(piece: seq<bool>, rest: seq<bool>)
    requires forall p :: 0 <= p < |rest| ==> !rest[p]
    ensures Num(piece + rest) == Num(piece)
  {
    hide Num, Pow2;
    NumConcat(piece, rest);
    NumZero(rest);
    TimesNothing(Pow2(|piece|), Num(rest));
  }

  lemma TimesNothing(x: nat, y: nat)
    requires y == 0
    ensures x * y == 0
  {
  }

  // ------------------------------------------------------- the mantissa in limbs

  /** v << s and v >> s on 64-bit limbs. */
  function ShlLimb(v: u64, s: nat): u64 {
    v * Pow2(s) % TWO_64
  }

  /** val << shift over the limbs of an m-bit mantissa, where shift = m - 52. */
  method ShiftMantissa(val: nat, m: nat) returns (limbs: array<u64>)
    requires val < Pow2(52) && m > 52
    ensures fresh(limbs) && limbs.Length == LimbsFor(m) && LimbValue(limbs[..]) == val * Pow2(m - 52)
  {
    hide LimbValue, Pow2;
    var shift := m - 52;
    var whole, s := shift / 64, shift % 64;
    limbs := new u64[LimbsFor(m)](_ => 0);
    assert whole < limbs.Length;
    ValIsLimb(val);
    limbs[whole] := ShlLimb(val, s);
    if whole + 1 < limbs.Length && s > 0 {
      ShrLimb(val, 64 - s);
      limbs[whole + 1] := Shr(val, 64 - s);
    }
    Spilled(val, m, whole, s, limbs.Length);
    TwoLimbValue(limbs[..], whole, limbs[whole], if whole + 1 < limbs.Length && s > 0 then Shr(val, 64 - s) else 0);
  }

  lemma ValIsLimb(val: nat)
    requires val < Pow2(52)
    ensures val < TWO_64
  {
    Pow2Monotone(52, 64);
    Pow2Words();
  }

  lemma ShrLimb(val: nat, k: nat)
    requires val < TWO_64
    ensures Shr(val, k) < TWO_64
  {
    assert val == Pow2(k) * Shr(val, k) + val % Pow2(k);
    LeTimes(Shr(val, k), 1, Pow2(k));
  }

  /** Zeros but for two neighbouring limbs. */
  lemma TwoLimbValue(limbs: seq<u64>, at: nat, low: u64, high: u64)
    requires at < |limbs| && limbs[at] == low && (at + 1 < |limbs| ==> limbs[at + 1] == high) && (at + 1 >= |limbs| ==> high == 0)
    requires forall i :: 0 <= i < |limbs| && i != at && i != at + 1 ==> limbs[i] == 0
    ensures LimbValue(limbs) == LimbPow(at) * (low + TWO_64 * high)
  {
    hide LimbPow;
    LimbValueSplit(limbs, at);
    ZeroLimbs(limbs[..at]);
    var rest := limbs[at..];
    if |rest| > 1 {
      assert rest[1..][0] == high;
      ZeroLimbs(rest[1..][1..]);
    }
  }

  /** The two limbs hold val << s, and nothing spills beyond the array. */
  lemma Spilled(val: nat, m: nat, whole: nat, s: nat, k: nat)
    requires val < Pow2(52) && m > 52 && whole == (m - 52) / 64 && s == (m - 52) % 64 && k == LimbsFor(m)
    ensures whole < k && val < TWO_64
    ensures var high := if whole + 1 < k && s > 0 then Shr(val, 64 - s) else 0;
            LimbPow(whole) * (ShlLimb(val, s) + TWO_64 * high) == val * Pow2(m - 52)
  {
    hide Pow2, LimbPow;
    ValIsLimb(val);
    Pow2Words();
    Pow2Sum(64 * whole, s, m - 52);
    LimbPowIs(whole);
    ShiftSplits(val, s);
    var full := if s > 0 then Shr(val, 64 - s) else 0;
    if whole + 1 >= k && s > 0 {
      Pow2Monotone(52, 64 - s);
      DivUnique(val, Pow2(64 - s), 0, val);
    }
    Regroup(val, LimbPow(whole), Pow2(s), Pow2(m - 52));
    assert val * LimbPow(whole) * Pow2(s) == LimbPow(whole) * (val * Pow2(s));
  }

  lemma ShiftSplits(val: nat, s: nat)
    requires val < TWO_64 && s < 64
    ensures val * Pow2(s) == ShlLimb(val, s) + TWO_64 * (if s > 0 then Shr(val, 64 - s) else 0)
  {
    hide Pow2;
    if s == 0 {
      PowZero();
      DivUnique(val * Pow2(0), TWO_64, 0, val);
    } else {
      Pow2Words();
      Pow2Sum(64 - s, s, 64);
      var d, h := Pow2(64 - s), Shr(val, 64 - s);
      var r := val % d;
      assert val == d * h + r;
      LessScaled(r, d, Pow2(s));
      assert val * Pow2(s) == d * h * Pow2(s) + r * Pow2(s);
      assert d * h * Pow2(s) == d * Pow2(s) * h;
      DivUnique(val * Pow2(s), TWO_64, h, r * Pow2(s));
    }
  }

  /** Taking the top 52 bits of an m-bit mantissa back out of its limbs. */
  method UnshiftMantissa(limbs: seq<u64>, m: nat) returns (val: nat)
    requires m > 52 && |limbs| == LimbsFor(m)
    ensures val == Shr(LimbValue(limbs), m - 52) % Pow2(52)
  {
    hide LimbValue, Pow2, Or, Shr, ShlLimb;
    var shift := m - 52;
    var whole, s := shift / 64, shift % 64;
    val := 0;
    if whole < |limbs| {
      val := Or(val, Shr(limbs[whole], s));
    }
    if whole + 1 < |limbs| && s > 0 {
      MulModBounds(limbs[whole + 1], 64 - s);
      val := Or(val, ShlLimb(limbs[whole + 1], 64 - s));
    }
    Unshifted(limbs, m, whole, s);
    ModBounds(val, Pow2(52));
    val := val % Pow2(52);
  }

  lemma MulModBounds(x: u64, s: nat)
    ensures ShlLimb(x, s) >= 0
  {
  }

  lemma Unshifted(limbs: seq<u64>, m: nat, whole: nat, s: nat)
    requires m > 52 && |limbs| == LimbsFor(m) && whole == (m - 52) / 64 && s == (m - 52) % 64
    ensures whole < |limbs|
    ensures var low := Or(0, Shr(limbs[whole], s));
            var all := if whole + 1 < |limbs| && s > 0 then Or(low, ShlLimb(limbs[whole + 1], 64 - s)) else low;
            all % Pow2(52) == Shr(LimbValue(limbs), m - 52) % Pow2(52)
  {
    hide LimbValue, Pow2, Or, Shr, ShlLimb, LimbPow;
    var rest := limbs[whole..];
    DropLimbs(limbs, whole, s, m - 52);
    FirstOf(rest);
    OrZeroLeft(Shr(limbs[whole], s));
    if s == 0 {
      NoShift(rest[0], LimbValue(rest[1..]));
    } else if whole + 1 < |limbs| {
      FirstOf(rest[1..]);
      assert rest[1..][0] == limbs[whole + 1];
      JoinLimbs(rest[0], limbs[whole + 1], LimbValue(rest[1..][1..]), LimbValue(rest[1..]), s);
    } else {
      NothingAbove(rest[1..]);
      LastLimb(rest[0], LimbValue(rest[1..]), s);
    }
  }

  lemma NothingAbove(limbs: seq<u64>)
    requires limbs == []
    ensures LimbValue(limbs) == 0
  {
  }

  lemma FirstOf(limbs: seq<u64>)
    requires limbs != []
    ensures LimbValue(limbs) == limbs[0] + TWO_64 * LimbValue(limbs[1..])
  {
  }

  lemma DivTwice(v: nat, a: nat, b: nat, c: nat)
    requires a > 0 && b > 0 && c == a * b
    ensures c > 0 && v / a >= 0 && v / c == v / a / b
  {
    DivNat(v, a);
    var q, r := v / a / b, v / a % b;
    assert v == a * (v / a) + v % a && v / a == b * q + r;
    BelowNext(r, b, a, v % a);
    assert a * (b * q + r) == a * b * q + r * a;
    DivUnique(v, c, q, r * a + v % a);
  }

  /** Shifting by whole limbs drops them. */
  lemma DropLimbs(limbs: seq<u64>, whole: nat, s: nat, shift: nat)
    requires whole <= |limbs| && shift == 64 * whole + s
    ensures Shr(LimbValue(limbs), shift) == Shr(LimbValue(limbs[whole..]), s)
  {
    hide LimbValue, Pow2, LimbPow;
    LimbValueSplit(limbs, whole);
    LimbValueBound(limbs[..whole]);
    LimbPowIs(whole);
    Pow2Sum(64 * whole, s, shift);
    DivUnique(LimbValue(limbs), LimbPow(whole), LimbValue(limbs[whole..]), LimbValue(limbs[..whole]));
    DivTwice(LimbValue(limbs), LimbPow(whole), Pow2(s), Pow2(shift));
  }

  lemma NoShift(a: u64, high: nat)
    ensures Shr(a, 0) % Pow2(52) == Shr(a + TWO_64 * high, 0) % Pow2(52)
  {
    hide Pow2;
    PowZero();
    DivUnique(a, 1, a, 0);
    DivUnique(a + TWO_64 * high, 1, a + TWO_64 * high, 0);
    Pow2Words();
    CongruentBy(a + TWO_64 * high, a, high, TWO_64);
    CongruentLow(a + TWO_64 * high, a, 64, 52);
  }

  /** (a + 2^64 high) >> s is a >> s with `high` put above it. */
  lemma ShiftPair(a: u64, high: nat, s: nat)
    requires 0 < s < 64
    ensures Shr(a, s) < Pow2(64 - s) && Shr(a + TWO_64 * high, s) == Shr(a, s) + high * Pow2(64 - s)
  {
    hide Pow2;
    Pow2Words();
    Pow2Sum(64 - s, s, 64);
    QuotientBelow(a, Pow2(64 - s), Pow2(s));
    var q, r := a / Pow2(s), a % Pow2(s);
    assert a == Pow2(s) * q + r;
    assert Pow2(64 - s) * Pow2(s) * high == Pow2(s) * (high * Pow2(64 - s));
    assert Pow2(s) * (q + high * Pow2(64 - s)) == Pow2(s) * q + Pow2(s) * (high * Pow2(64 - s));
    DivUnique(a + TWO_64 * high, Pow2(s), q + high * Pow2(64 - s), r);
  }

  lemma LastLimb(a: u64, high: nat, s: nat)
    requires 0 < s < 64 && high == 0
    ensures Shr(a, s) % Pow2(52) == Shr(a + TWO_64 * high, s) % Pow2(52)
  {
  }

  /** The neighbouring limb, shifted up and joined, supplies the bits above. */
  lemma JoinLimbs(a: u64, b: u64, rest: nat, high: nat, s: nat)
    requires 0 < s < 64 && high == b + TWO_64 * rest
    ensures Or(Shr(a, s), ShlLimb(b, 64 - s)) % Pow2(52) == Shr(a + TWO_64 * high, s) % Pow2(52)
  {
    hide Pow2, Or, Shr;
    var low, p := Shr(a, s), Pow2(64 - s);
    ShiftPair(a, high, s);
    ShlIsShifted(b, s);
    OrShifted(low, b % Pow2(s), 64 - s);
    OrCommutes(low, ShlLimb(b, 64 - s));
    Pow2Words();
    ModCongruent(b * p, TWO_64);
    CongruentBy(high * p, b * p, rest * p, TWO_64) by {
      assert (b + TWO_64 * rest) * p == b * p + rest * p * TWO_64;
    }
    CongruentAdd(low, low, ShlLimb(b, 64 - s), high * p, TWO_64);
    CongruentLow(low + ShlLimb(b, 64 - s), low + high * p, 64, 52);
  }

  lemma ShlIsShifted(b: u64, s: nat)
    requires 0 < s < 64
    ensures b % Pow2(s) >= 0 && ShlLimb(b, 64 - s) == b % Pow2(s) * Pow2(64 - s)
  {
    hide Pow2;
    Pow2Words();
    Pow2Sum(64 - s, s, 64);
    var p, q := Pow2(64 - s), Pow2(s);
    var h, r := b / q, b % q;
    assert b == q * h + r;
    LessScaled(r, q, p);
    assert b * p == q * h * p + r * p;
    assert q * h * p == p * q * h;
    DivUnique(b * p, TWO_64, h, r * p);
  }

  // ------------------------------------------------------------- wide formats

  /** More than 64 bits, some of them for the mantissa, and an exponent that covers every double. */
  predicate WideFormat(bits: nat, e: nat, steal: bool) {
    bits > 64 && 11 <= e < 127 && e + (if steal then 0 else 1) < bits
  }

  function WideMantissa(bits: nat, e: nat, steal: bool): nat
    requires WideFormat(bits, e, steal)
  {
    bits - e - if steal then 0 else 1
  }

  /** The two limbs of the exponent. */
  function ExponentLimbs(exponent: nat): seq<u64>
    requires exponent < TWO_64 * TWO_64
  {
    QuotientBelow(exponent, TWO_64, TWO_64);
    DivNat(exponent, TWO_64);
    [exponent % TWO_64, exponent / TWO_64]
  }

  /** The exponent and fraction scale_float finds; an infinity has the exponent above the largest. */
  function WideExp(v: Double): int
    requires !v.Zero?
  {
    if v.Normal? then v.exp else 1024
  }

  function WideFrac(v: Double): nat
    requires !v.Zero?
  {
    if v.Normal? then v.frac else 0
  }

  lemma ExponentRoom(v: Double, e: nat)
    requires 11 <= e < 127 && v.Valid() && !v.Zero?
    ensures 1 <= WideExp(v) + Bias(e) < Pow2(e) && WideExp(v) + Bias(e) < TWO_64 * TWO_64 && WideFrac(v) < Pow2(52)
    ensures WideExp(v) + Bias(e) >= Pow2(e) - 1 <==> v.Infinite? && e == 11
  {
    hide Pow2;
    Pow2Exponents();
    Pow2Monotone(10, e - 1);
    Doubles(e);
    Pow2Words();
    Pow2Sum(64, 64, 128);
    Pow2Monotone(e, 128);
    Pow2Monotone(0, 52);
    PowZero();
    if e > 11 {
      Pow2Monotone(11, e - 1);
    }
  }

  /** The encoding of a double: mantissa, exponent and sign written into zeroed limbs, or an exponent of all ones. */
  method EncodeWide(v: Double, bits: nat, e: nat, steal: bool) returns (limbs: array<u64>)
    requires WideFormat(bits, e, steal) && v.Valid()
    ensures fresh(limbs) && limbs.Length == LimbsFor(bits)
    ensures IsWide(limbs[..], v, bits, e, steal)
  {
    hide LimbBits, Splice, LimbValue, Pow2, Piece, Num;
    limbs := new u64[LimbsFor(bits)](_ => 0);
    if v.Zero? {
      return;
    }
    var m := WideMantissa(bits, e, steal);
    ghost var b0 := LimbBits(limbs[..]);
    ZeroLimbBits(limbs[..]);
    var exponent := WideExp(v) + Bias(e);
    ExponentRoom(v, e);
    ghost var a, b;
    if exponent >= Pow2(e) - 1 {
      Pow2Exponents();
      SetBits(limbs, [exponent], m, e);
      a, b := seq(m, _ => false), Piece([exponent], 0, e);
      NoMantissa(b0, a);
      OnePieceValue(exponent, e);
      NoFraction(m);
    } else {
      var mantissa := MantissaLimbs(WideFrac(v), m);
      SetBits(limbs, mantissa, 0, m);
      SetBits(limbs, ExponentLimbs(exponent), m, e);
      a, b := Piece(mantissa, 0, m), Piece(ExponentLimbs(exponent), 0, e);
      ExponentValue(exponent, e);
    }
    if !steal && Negative(v) {
      SetBits(limbs, [1], bits - 1, 1);
    }
    WrittenFields(b0, limbs[..], a, b, v, bits, e, steal);
  }

  predicate Negative(v: Double) { !v.Zero? && v.neg }

  lemma NoMantissa(b0: seq<bool>, a: seq<bool>)
    requires |a| <= |b0| && (forall q :: 0 <= q < |b0| ==> !b0[q]) && forall q :: 0 <= q < |a| ==> !a[q]
    ensures Splice(b0, 0, a) == b0 && Num(a) == 0
  {
    hide Num;
    NumZero(a);
    assert a == b0[..|a|];
    assert b0[..0] + b0[..|a|] + b0[0 + |a|..] == b0;
  }

  lemma OnePieceValue(x: u64, n: nat)
    requires x < Pow2(n)
    ensures Num(Piece([x], 0, n)) == x
  {
    hide Num, LimbValue, Pow2, Piece;
    LimbValueOne(x);
    PieceValue([x], n);
  }

  /** The mantissa field of a fraction: rounded and clamped up to 52 bits, exact beyond. */
  function WideField(frac: nat, m: nat): nat {
    if m <= 52 then EncodeMantissa(frac, m) else frac * Pow2(m - 52)
  }

  lemma NoFraction(m: nat)
    ensures WideField(0, m) == 0
  {
    hide Pow2;
    if m < 52 {
      Pow2Sum(1, 51 - m, 52 - m);
      Pow2Small();
      DivUnique(0 + Pow2(51 - m), Pow2(52 - m), 0, Pow2(51 - m));
    } else if m == 52 {
      assert 0 * Pow2(0) == 0;
    } else {
      assert 0 * Pow2(m - 52) == 0;
    }
  }

  method MantissaLimbs(frac: nat, m: nat) returns (limbs: seq<u64>)
    requires m >= 1 && frac < Pow2(52)
    ensures Num(Piece(limbs, 0, m)) == WideField(frac, m)
  {
    hide Num, LimbValue, Pow2, Piece, EncodeMantissa;
    if m <= 52 {
      MantissaBelow(frac, m);
      Pow2Words();
      Pow2Monotone(m, 64);
      limbs := [EncodeMantissa(frac, m)];
      OnePieceValue(EncodeMantissa(frac, m), m);
    } else {
      var shifted := ShiftMantissa(frac, m);
      limbs := shifted[..];
      MantissaValue(limbs, frac, m);
    }
  }

  lemma MantissaValue(mantissa: seq<u64>, frac: nat, m: nat)
    requires m > 52 && frac < Pow2(52) && LimbValue(mantissa) == frac * Pow2(m - 52)
    ensures Num(Piece(mantissa, 0, m)) == frac * Pow2(m - 52)
  {
    hide Num, LimbValue, Pow2, Piece;
    Pow2Sum(52, m - 52, m);
    LessScaled(frac, Pow2(52), Pow2(m - 52));
    PieceValue(mantissa, m);
  }

  /** The fields of a wide encoding, as they are read back; zero is all zeros. */
  ghost predicate IsWide(limbs: seq<u64>, v: Double, bits: nat, e: nat, steal: bool)
    requires WideFormat(bits, e, steal)
  {
    |limbs| == LimbsFor(bits) &&
    if v.Zero? then forall i :: 0 <= i < |limbs| ==> limbs[i] == 0
    else
      var m := WideMantissa(bits, e, steal);
      && Num(Piece(limbs, 0, m)) == WideField(WideFrac(v), m)
      && Num(Piece(limbs, m, e)) == WideExp(v) + Bias(e)
      && (!steal ==> BitAt(limbs, bits - 1) == v.neg)
  }

  /** Later pieces do not touch earlier ones. */
  lemma SplicedPieces(bits: seq<bool>, a: seq<bool>, b: seq<bool>, p: nat)
    requires |a| == p && p + |b| <= |bits|
    ensures var r := Splice(Splice(bits, 0, a), p, b);
            r[..p] == a && r[p..p + |b|] == b && forall q :: p + |b| <= q < |bits| ==> r[q] == bits[q]
  {
  }

  lemma SplicedSign(bits: seq<bool>, p: nat, c: seq<bool>)
    requires p < |bits| && |c| == 1
    ensures forall q :: 0 <= q < p ==> Splice(bits, p, c)[q] == bits[q]
    ensures Splice(bits, p, c)[p] == c[0]
  {
  }

  /** The value of the first `n` bits of limbs, when they hold no more. */
  lemma PieceValue(limbs: seq<u64>, n: nat)
    requires LimbValue(limbs) < Pow2(n)
    ensures Num(Piece(limbs, 0, n)) == LimbValue(limbs)
  {
    hide Num, LimbValue, Pow2, LimbBits;
    LimbBitsNum(limbs);
    var all := LimbBits(limbs);
    if n <= |all| {
      assert Piece(limbs, 0, n) == all[..n];
      NumPrefix(all, n);
      DivUnique(LimbValue(limbs), Pow2(n), 0, LimbValue(limbs));
    } else {
      var pad: seq<bool> := seq(n - |all|, _ => false);
      assert Piece(limbs, 0, n) == all + pad;
      AppendZeros(all, pad);
    }
  }

  lemma ExponentValue(exponent: nat, e: nat)
    requires exponent < TWO_64 * TWO_64 && exponent < Pow2(e)
    ensures Num(Piece(ExponentLimbs(exponent), 0, e)) == exponent
  {
    hide Num, Pow2, Piece;
    var limbs := ExponentLimbs(exponent);
    LimbValueOne(limbs[1]);
    assert limbs[1..] == [limbs[1]];
    assert LimbValue(limbs) == exponent % TWO_64 + TWO_64 * (exponent / TWO_64);
    PieceValue(limbs, e);
  }

  lemma SignPiece()
    ensures Piece([1], 0, 1) == [true]
  {
    hide Num, LimbBits;
    LimbBitsIndex([1], 0, 0);
    BitsOfIndex(1, 64, 0);
    PowZero();
    DivUnique(1, 1, 1, 0);
  }

  lemma WrittenFields(b0: seq<bool>, limbs: seq<u64>, a: seq<bool>, b: seq<bool>, v: Double, bits: nat, e: nat, steal: bool)
    requires WideFormat(bits, e, steal) && !v.Zero?
    requires |a| == WideMantissa(bits, e, steal) && |b| == e
    requires Num(a) == WideField(WideFrac(v), WideMantissa(bits, e, steal)) && Num(b) == WideExp(v) + Bias(e)
    requires |limbs| == LimbsFor(bits) && |b0| == 64 * |limbs| && forall q :: 0 <= q < |b0| ==> !b0[q]
    requires var two := Splice(Splice(b0, 0, a), |a|, b);
             LimbBits(limbs) == if !steal && Negative(v) then Splice(two, bits - 1, Piece([1], 0, 1)) else two
    ensures IsWide(limbs, v, bits, e, steal)
  {
    hide LimbBits, Splice, LimbValue, Pow2, Num, Piece, Bias, WideField;
    WrittenPieces(b0, limbs, a, b, !steal, Negative(v), bits);
  }

  lemma WrittenPieces(b0: seq<bool>, limbs: seq<u64>, a: seq<bool>, b: seq<bool>, signed: bool, neg: bool, bits: nat)
    requires |a| + |b| + (if signed then 1 else 0) == bits <= |b0| == 64 * |limbs| && bits > 0
    requires forall q :: 0 <= q < |b0| ==> !b0[q]
    requires var two := Splice(Splice(b0, 0, a), |a|, b);
             LimbBits(limbs) == if signed && neg then Splice(two, bits - 1, Piece([1], 0, 1)) else two
    ensures Piece(limbs, 0, |a|) == a && Piece(limbs, |a|, |b|) == b
    ensures signed ==> BitAt(limbs, bits - 1) == neg
  {
    hide LimbBits, Splice, LimbValue, Piece;
    SplicedPieces(b0, a, b, |a|);
    var two := Splice(Splice(b0, 0, a), |a|, b);
    SignPiece();
    if signed {
      SplicedSign(two, bits - 1, [true]);
    }
    ReadPieces(limbs, two, a, b, |a|, |b|);
  }

  lemma ReadPieces(limbs: seq<u64>, two: seq<bool>, a: seq<bool>, b: seq<bool>, m: nat, e: nat)
    requires |a| == m && |b| == e && m + e <= |two| == 64 * |limbs| && two[..m] == a && two[m..m + e] == b
    requires forall q :: 0 <= q < m + e ==> LimbBits(limbs)[q] == two[q]
    ensures Piece(limbs, 0, m) == a && Piece(limbs, m, e) == b
  {
    hide LimbBits;
    forall i | 0 <= i < e
      ensures Piece(limbs, m, e)[i] == b[i]
    {
      PieceAt(limbs, m, e, i);
      assert two[m..m + e][i] == two[m + i];
      assert LimbBits(limbs)[m + i] == two[m + i];
    }
  }

  /** The 52-bit fraction a mantissa field stands for. */
  function FracOf(field: nat, m: nat): nat {
    if m <= 52 then field * Pow2(52 - m)
    else
      ModBounds(Shr(field, m - 52), Pow2(52));
      Shr(field, m - 52) % Pow2(52)
  }

  /** What is decoded from the three fields; None where a subnormal would have to be computed. */
  function WideDecoded(limbs: seq<u64>, bits: nat, e: nat, steal: bool): Option<Double>
    requires WideFormat(bits, e, steal)
  {
    var m := WideMantissa(bits, e, steal);
    var field := Num(Piece(limbs, m, e));
    var exp := field - Bias(e);
    var neg := !steal && BitAt(limbs, bits - 1);
    if forall i :: 0 <= i < |limbs| ==> limbs[i] == 0 then Some(Zero)
    else if field == Pow2(e) - 1 || exp > 1023 then Some(Infinite(neg))
    else if exp < -1022 then None
    else Some(Normal(neg, exp, FracOf(Num(Piece(limbs, 0, m)), m)))
  }

  method DecodeWide(limbs: seq<u64>, bits: nat, e: nat, steal: bool) returns (r: Option<Double>)
    requires WideFormat(bits, e, steal) && |limbs| == LimbsFor(bits)
    ensures r == WideDecoded(limbs, bits, e, steal)
  {
    hide LimbValue, Pow2, Num, Piece, Shr, FracOf;
    if forall i :: 0 <= i < |limbs| ==> limbs[i] == 0 {
      return Some(Zero);
    }
    var m := WideMantissa(bits, e, steal);
    var expLimbs := GetBits(limbs, m, e);
    var exponent := TwoLimbNumber(expLimbs[..], e);
    var neg := !steal && LookUp(limbs, bits - 1) == 1;
    var exp := exponent - Bias(e);
    if exponent == Pow2(e) - 1 || exp > 1023 {
      return Some(Infinite(neg));
    }
    if exp < -1022 {
      return None;
    }
    var mantissa := GetBits(limbs, 0, m);
    var frac := FracOfLimbs(mantissa[..], m);
    r := Some(Normal(neg, exp, frac));
  }

  method FracOfLimbs(mantissa: seq<u64>, m: nat) returns (frac: nat)
    requires m >= 1 && |mantissa| == LimbsFor(m)
    ensures frac == FracOf(LimbValue(mantissa), m)
  {
    hide LimbValue, Pow2, Shr;
    if m <= 52 {
      LimbValueOne(mantissa[0]);
      assert mantissa == [mantissa[0]];
      frac := mantissa[0] * Pow2(52 - m);
    } else {
      frac := UnshiftMantissa(mantissa, m);
    }
  }

  /** The exponent field as a 128-bit number. */
  method TwoLimbNumber(limbs: seq<u64>, e: nat) returns (n: nat)
    requires 11 <= e < 127 && |limbs| == LimbsFor(e)
    ensures n == LimbValue(limbs)
  {
    n := limbs[0];
    if |limbs| > 1 {
      n := n + TWO_64 * limbs[1];
      LimbValueOne(limbs[1]);
      assert limbs[1..] == [limbs[1]];
    } else {
      assert limbs[1..] == [];
      NothingAbove(limbs[1..]);
    }
  }

  lemma ZeroPiece(limbs: seq<u64>, from: nat, n: nat)
    requires forall i :: 0 <= i < |limbs| ==> limbs[i] == 0
    ensures Num(Piece(limbs, from, n)) == 0
  {
    hide Num, LimbBits;
    ZeroLimbBits(limbs);
    forall i | 0 <= i < n
      ensures !Piece(limbs, from, n)[i]
    {
      PieceAt(limbs, from, n, i);
    }
    NumZero(Piece(limbs, from, n));
  }

  /** What comes back of a fraction. */
  function KeptFrac(frac: nat, m: nat): nat { FracOf(WideField(frac, m), m) }

  /** It is rounded to the mantissa's last place, and does not move at all exactly if that place does not cut it. */
  lemma FracKept(frac: nat, m: nat)
    requires frac < Pow2(52)
    ensures KeptFrac(frac, m) < Pow2(52)
    ensures m <= 52 ==> RoundedTo(KeptFrac(frac, m), frac, m)
    ensures m <= 52 ==> 0 - Pow2(52 - m) < KeptFrac(frac, m) - frac < Pow2(52 - m)
    ensures KeptFrac(frac, m) == frac <==> m > 52 || frac % Pow2(52 - m) == 0
  {
    hide Pow2, EncodeMantissa, RoundedTo;
    if m <= 52 {
      MantissaError(frac, m);
      CutExactly(frac, m, Pow2(52 - m));
    } else {
      DivUnique(frac * Pow2(m - 52), Pow2(m - 52), frac, 0);
      DivUnique(frac, Pow2(52), 0, frac);
    }
  }

  lemma CutExactly(frac: nat, m: nat, unit: nat)
    requires m <= 52 && unit == Pow2(52 - m) && frac < Pow2(52)
    ensures EncodeMantissa(frac, m) * unit == frac <==> frac % unit == 0
  {
    hide Pow2, EncodeMantissa;
    var k := EncodeMantissa(frac, m);
    if k * unit == frac {
      DivUnique(frac, unit, k, 0);
    }
    if frac % unit == 0 {
      var q := frac / unit;
      assert frac == unit * q;
      Pow2Sum(m, 52 - m, 52);
      QuotientBelow(frac, Pow2(m), unit);
      CutMantissa(q, m, unit);
      assert q * unit == frac;
    }
  }

  lemma CutMantissa(q: nat, m: nat, unit: nat)
    requires m <= 52 && unit == Pow2(52 - m) && q < Pow2(m)
    ensures q * unit >= 0 && EncodeMantissa(q * unit, m) == q
  {
    hide Pow2;
    if m == 52 {
      PowZero();
    } else {
      ShortMantissaReturns(q, m, unit);
    }
  }

  /** What comes back of a double: a fraction cut to the mantissa, and the sign unless it is stolen. */
  function Kept(v: Double, m: nat, steal: bool): Double {
    match v
    case Zero => Zero
    case Infinite(neg) => Infinite(neg && !steal)
    case Normal(neg, exp, frac) => Normal(neg && !steal, exp, KeptFrac(frac, m))
  }

  /** Zero, every normal double and the infinities come back, with the fraction the mantissa has room for. */
  lemma WideReturns(limbs: seq<u64>, v: Double, bits: nat, e: nat, steal: bool)
    requires WideFormat(bits, e, steal) && v.Valid() && IsWide(limbs, v, bits, e, steal)
    ensures WideDecoded(limbs, bits, e, steal) == Some(Kept(v, WideMantissa(bits, e, steal), steal))
  {
    hide Num, Piece, Pow2, WideField, FracOf;
    if !v.Zero? {
      ExponentRoom(v, e);
      if forall i :: 0 <= i < |limbs| ==> limbs[i] == 0 {
        ZeroPiece(limbs, WideMantissa(bits, e, steal), e);
      }
    }
  }

  /** Wide encodings are lossless, but for a stolen sign, exactly if the mantissa has room for the fraction: always with 52 bits and more. */
  lemma WideLossless(limbs: seq<u64>, v: Double, bits: nat, e: nat, steal: bool)
    requires WideFormat(bits, e, steal) && v.Valid() && IsWide(limbs, v, bits, e, steal)
    ensures WideDecoded(limbs, bits, e, steal) == Some(Unsigned(v, steal))
       <==> (v.Normal? && WideMantissa(bits, e, steal) < 52 ==> v.frac % Pow2(52 - WideMantissa(bits, e, steal)) == 0)
  {
    hide WideDecoded, IsWide, Pow2, KeptFrac, RoundedTo;
    WideReturns(limbs, v, bits, e, steal);
    if v.Normal? {
      var m := WideMantissa(bits, e, steal);
      FracKept(v.frac, m);
      if m == 52 {
        PowZero();
      }
    }
  }

  /** A double without a stolen sign. */
  function Unsigned(v: Double, steal: bool): Double {
    if v.Zero? then Zero else v.(neg := v.neg && !steal)
  }

  /** The two methods, one after the other. */
  method EncodeThenDecode(v: Double, bits: nat, e: nat, steal: bool) returns (w: Option<Double>)
    requires WideFormat(bits, e, steal) && v.Valid()
    ensures w == Some(Kept(v, WideMantissa(bits, e, steal), steal))
    ensures WideMantissa(bits, e, steal) >= 52 ==> w == Some(Unsigned(v, steal))
  {
    hide IsWide, WideDecoded, KeptFrac;
    var limbs := EncodeWide(v, bits, e, steal);
    WideReturns(limbs[..], v, bits, e, steal);
    WideLossless(limbs[..], v, bits, e, steal);
    w := DecodeWide(limbs[..], bits, e, steal);
  }
}
