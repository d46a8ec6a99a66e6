/**
 * A byte buffer as one string of bits, as the packed formats use it: bit p of
 * the buffer is bit p % 8 of byte p / 8, and writing a run of bits is a splice
 * that leaves all others alone.
 */
module BitBuffer {
  import opened Words
  import opened BitOps

  /** The bits of a buffer, byte by byte, least significant first. */
  function Bits(buf: seq<byte>): (bits: seq<bool>)
    ensures |bits| == 8 * |buf|
  {
    if buf == [] then [] else BitsOf(buf[0], 8) + Bits(buf[1..])
  }

  lemma {:induction false} BitsConcat(a: seq<byte>, b: seq<byte>)
    ensures Bits(a + b) == Bits(a) + Bits(b)
  {
    if a == [] {
      assert a + b == b;
    } else {
      assert (a + b)[1..] == a[1..] + b;
      BitsConcat(a[1..], b);
    }
  }

  lemma {:induction false} BitsIndex(buf: seq<byte>, i: nat, j: nat)
    requires i < |buf| && j < 8
    ensures Bits(buf)[8 * i + j] == BitsOf(buf[i], 8)[j]
  {
    if i > 0 {
      BitsIndex(buf[1..], i - 1, j);
    }
  }

  lemma BitsSplit(buf: seq<byte>, i: nat)
    requires i <= |buf|
    ensures Bits(buf)[..8 * i] == Bits(buf[..i]) && Bits(buf)[8 * i..] == Bits(buf[i..])
  {
    hide Bits;
    assert buf == buf[..i] + buf[i..];
    BitsConcat(buf[..i], buf[i..]);
  }

  lemma SliceSlice<T>(s: seq<T>, rest: seq<T>, part: seq<T>, a: nat, n: nat, c: nat)
    requires a + n == c <= |s| && s[a..] == rest && rest[..n] == part
    ensures s[a..c] == part
  {
  }

  lemma BitsSlice(buf: seq<byte>, i: nat, n: nat)
    requires i + n <= |buf|
    ensures Bits(buf)[8 * i..8 * (i + n)] == Bits(buf[i..i + n])
  {
    hide Bits;
    var rest := buf[i..];
    BitsSplit(buf, i);
    BitsSplit(rest, n);
    assert rest[..n] == buf[i..i + n];
    SliceSlice(Bits(buf), Bits(rest), Bits(rest[..n]), 8 * i, 8 * n, 8 * (i + n));
  }

  lemma ByteMod(v: nat)
    ensures BitsOf(v % 256, 8) == BitsOf(v, 8)
  {
    Pow2Words();
    BitsOfMod(v % 256, v, 8);
  }

  lemma BitsOfByte(b: byte, rest: seq<byte>)
    ensures Bits([b] + rest) == BitsOf(b, 8) + Bits(rest)
  {
    assert ([b] + rest)[1..] == rest;
  }

  lemma EightMore(v: nat, n: nat, m: nat)
    requires m == 8 + n
    ensures BitsOf(v, m) == BitsOf(v, 8) + BitsOf(v / 256, n)
  {
    hide BitsOf;
    Pow2Words();
    BitsOfSplit(v, 8, n);
  }

  /** The little-endian bytes of a number hold its bits in order. */
  lemma {:induction false} BitsLe(v: nat, n: nat)
    ensures Bits(LeBytes(v, n)) == BitsOf(v, 8 * n)
  {
    if n > 0 {
      hide BitsOf, Bits;
      BitsLe(v / 256, n - 1);
      BitsOfByte(v % 256, LeBytes(v / 256, n - 1));
      ByteMod(v);
      EightMore(v, 8 * (n - 1), 8 * n);
    }
  }

  lemma NumBits(buf: seq<byte>)
    ensures Num(Bits(buf)) == FromLe(buf)
  {
    FromLeRoundTrip(buf);
    BitsLe(FromLe(buf), |buf|);
    NumBitsOf(FromLe(buf), 8 * |buf|);
    FromLeBound(buf);
    Pow2Bytes(|buf|);
    ModSmall(FromLe(buf), Pow2(8 * |buf|));
  }

  lemma ModSmall(v: nat, m: nat)
    requires v < m
    ensures v % m == v
  {
  }

  lemma {:induction false} Pow2Bytes(n: nat)
    ensures Pow256(n) == Pow2(8 * n)
  {
    if n > 0 {
      Pow2Bytes(n - 1);
      Pow2Words();
      Pow2Add(8, 8 * (n - 1));
    }
  }

  lemma BitsInjective(a: seq<byte>, b: seq<byte>)
    requires Bits(a) == Bits(b)
    ensures a == b
  {
    assert |a| == |b|;
    NumBits(a);
    NumBits(b);
    FromLeRoundTrip(a);
    FromLeRoundTrip(b);
  }

  /** `bits` with the piece at `p` replaced. */
  function Splice(bits: seq<bool>, p: nat, piece: seq<bool>): (r: seq<bool>)
    requires p + |piece| <= |bits|
    ensures |r| == |bits|
  {
    bits[..p] + piece + bits[p + |piece|..]
  }

  lemma SpliceNothing(bits: seq<bool>, p: nat, piece: seq<bool>)
    requires p <= |bits| && piece == []
    ensures Splice(bits, p, piece) == bits
  {
  }

  lemma SpliceMore(bits: seq<bool>, p: nat, piece: seq<bool>, k: nat)
    requires p + |piece| <= |bits| && k < |piece|
    ensures Splice(bits, p, piece[..k])[p + k := piece[k]] == Splice(bits, p, piece[..k + 1])
  {
  }

  /** Changing one bit of one byte changes that bit of the buffer. */
  lemma OneBit(before: seq<byte>, after: seq<byte>, p: nat, b: bool)
    requires |after| == |before| && p < 8 * |before| && after == before[p / 8 := after[p / 8]]
    requires forall k :: 0 <= k < 8 ==> BitsOf(after[p / 8], 8)[k] == if k == p % 8 then b else BitsOf(before[p / 8], 8)[k]
    ensures Bits(after) == Bits(before)[p := b]
  {
    hide Bits, BitsOf;
    forall q | 0 <= q < 8 * |before|
      ensures Bits(after)[q] == Bits(before)[p := b][q]
    {
      BitsAt(after, q);
      BitsAt(before, q);
      SamePlace(p, q);
    }
  }

  lemma BitsAt(buf: seq<byte>, q: nat)
    requires q < 8 * |buf|
    ensures Bits(buf)[q] == BitsOf(buf[q / 8], 8)[q % 8]
  {
    BitsIndex(buf, q / 8, q % 8);
  }

  lemma SamePlace(p: nat, q: nat)
    ensures p / 8 == q / 8 && p % 8 == q % 8 ==> p == q
  {
  }

  lemma OrHigh(x: nat, k: nat)
    requires x < Pow2(k)
    ensures Or(x, Pow2(k)) == x + Pow2(k)
  {
    if k > 0 {
      OrHigh(x / 2, k - 1);
    }
  }

  /** Gathering one more bit above those gathered. */
  lemma GatherBit(bits: seq<bool>, b: bool, bit: nat)
    requires bit == if b then 1 else 0
    ensures Or(Num(bits), bit * Pow2(|bits|)) == Num(bits + [b])
  {
    hide Or, Num;
    NumBound(bits);
    NumConcat(bits, [b]);
    NumOne(b);
    OrHigh(Num(bits), |bits|);
    OrZero(Num(bits));
    if b {
      assert bit * Pow2(|bits|) == Pow2(|bits|);
      assert Pow2(|bits|) * 1 == Pow2(|bits|);
    } else {
      assert bit * Pow2(|bits|) == 0;
    }
  }

  /** *byte |= 1 << j */
  function WithBit(b: byte, j: nat): byte
    requires j < 8
  {
    Pow2Words();
    Pow2Monotone(j + 1, 8);
    OrBound(b, Pow2(j), 8);
    Or(b, Pow2(j))
  }

  /** *byte &= !(1 << j) */
  function WithoutBit(b: byte, j: nat): byte
    requires j < 8
  {
    AndNotBound(b, Pow2(j));
    AndNot(b, Pow2(j))
  }

  lemma ByteBits(b: byte, j: nat)
    requires j < 8
    ensures forall k :: 0 <= k < 8 ==> BitsOf(WithBit(b, j), 8)[k] == (k == j || BitsOf(b, 8)[k])
    ensures forall k :: 0 <= k < 8 ==> BitsOf(WithoutBit(b, j), 8)[k] == (k != j && BitsOf(b, 8)[k])
  {
    forall k | 0 <= k < 8
      ensures BitsOf(WithBit(b, j), 8)[k] == (k == j || BitsOf(b, 8)[k])
      ensures BitsOf(WithoutBit(b, j), 8)[k] == (k != j && BitsOf(b, 8)[k])
    {
      OrBits(b, Pow2(j), 8, k);
      AndNotBits(b, Pow2(j), 8, k);
      Pow2Bits(j, 8, k);
    }
  }
}
