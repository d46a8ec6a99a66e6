/**
 * Unpacking a dense bit string into limbs (main.zig, unpack_bits), at the native
 * widths and bit by bit, and the round trips with packing.
 */
module Unpacking {
  import opened Words
  import opened BitOps
  import opened BitBuffer
  import opened PackedAccess
  import opened Packing

  /** Bits past the end of the buffer read as zero. */
  function BitOrZero(bits: seq<bool>, p: nat): bool { p < |bits| && bits[p] }

  /** How many bits of limb `l` lie below bit `m` of the element. */
  function BitsInLimb(l: nat, m: nat): (n: nat)
    ensures n <= 64
  {
    if m <= 64 * l then 0 else if m - 64 * l >= 64 then 64 else m - 64 * l
  }

  /** Limb `l` of the element at bit `start`, of which only the bits below `m` count. */
  function LimbString(bits: seq<bool>, start: nat, l: nat, m: nat): (s: seq<bool>)
    ensures |s| == BitsInLimb(l, m)
  {
    seq(BitsInLimb(l, m), b requires 0 <= b => BitOrZero(bits, start + 64 * l + b))
  }

  function LimbOf(bits: seq<bool>, start: nat, l: nat, m: nat): (v: u64) {
    LimbBound(LimbString(bits, start, l, m));
    Num(LimbString(bits, start, l, m))
  }

  /** `dest` holds `count` elements of `width` bits, limb by limb. */
  ghost predicate IsUnpacked(dest: seq<u64>, bits: seq<bool>, width: nat, count: nat)
    requires width > 0
  {
    && |dest| == count * LimbsFor(width)
    && forall j :: 0 <= j < |dest| ==> LimbIs(dest, bits, width, j)
  }

  ghost predicate LimbIs(dest: seq<u64>, bits: seq<bool>, width: nat, j: nat)
    requires width > 0 && j < |dest|
  {
    dest[j] == LimbOf(bits, j / LimbsFor(width) * width, j % LimbsFor(width), width)
  }

  method UnpackBits(src: seq<byte>, count: nat, width: nat) returns (dest: array<u64>)
    requires NativeWidth(width) ==> count * (width / 8) <= |src|
    ensures fresh(dest)
    ensures width == 0 ==> dest.Length == count && forall j :: 0 <= j < count ==> dest[j] == 0
    ensures width > 0 ==> IsUnpacked(dest[..], Bits(src), width, count)
  {
    if width == 0 {
      dest := new u64[count](_ => 0);
    } else if NativeWidth(width) {
      dest := UnpackNative(src, count, width / 8);
    } else {
      dest := UnpackScalar(src, count, width);
    }
  }

  /** The native widths: the bytes of a limb, each shifted to its place. */
  method UnpackNative(src: seq<byte>, count: nat, n: nat) returns (dest: array<u64>)
    requires 1 <= n <= 8 && count * n <= |src|
    ensures fresh(dest) && IsUnpacked(dest[..], Bits(src), 8 * n, count)
  {
    hide Bits, Num, LimbOf;
    dest := new u64[count];
    assert LimbsFor(8 * n) == 1;
    var i := 0;
    while i < count
      invariant 0 <= i <= count
      invariant forall j :: 0 <= j < i ==> dest[j] == LimbOf(Bits(src), j * (8 * n), 0, 8 * n)
    {
      MulStep(i, count, n);
      dest[i] := ReadLe(src, i * n, n);
      NativeLimb(Bits(src), i * (8 * n), i, n);
      i := i + 1;
    }
  }

  lemma NativeLimb(bits: seq<bool>, start: nat, i: nat, n: nat)
    requires 1 <= n <= 8 && start == i * (8 * n) && 8 * (i * n) + 8 * n <= |bits|
    ensures LimbOf(bits, start, 0, 8 * n) == Num(bits[8 * (i * n)..8 * (i * n) + 8 * n])
  {
    assert start == 8 * (i * n);
    var s := LimbString(bits, start, 0, 8 * n);
    assert |s| == 8 * n;
    forall b | 0 <= b < 8 * n
      ensures s[b] == bits[start..start + 8 * n][b]
    {
      assert s[b] == BitOrZero(bits, start + 64 * 0 + b);
      assert start + b < |bits|;
    }
    assert s == bits[start..start + 8 * n];
  }

  /** How far element `e` has been read when element `i` has been read up to bit `m`. */
  function Progress(e: nat, i: nat, m: nat, width: nat): nat {
    if e < i then width else if e == i then m else 0
  }

  ghost predicate Gathered(dest: seq<u64>, bits: seq<bool>, width: nat, i: nat, m: nat)
    requires width > 0
  {
    forall j :: 0 <= j < |dest| ==> LimbDone(dest, bits, width, i, m, j)
  }

  ghost predicate LimbDone(dest: seq<u64>, bits: seq<bool>, width: nat, i: nat, m: nat, j: nat)
    requires width > 0 && j < |dest|
  {
    var k := LimbsFor(width);
    dest[j] == LimbOf(bits, j / k * width, j % k, Progress(j / k, i, m, width))
  }

  method UnpackScalar(src: seq<byte>, count: nat, width: nat) returns (dest: array<u64>)
    requires width > 0
    ensures fresh(dest) && IsUnpacked(dest[..], Bits(src), width, count)
  {
    hide Bits, LimbOf, Gathered;
    var k := LimbsFor(width);
    dest := new u64[count * k](_ => 0);
    StartGathered(dest[..], Bits(src), width);
    var i := 0;
    while i < count
      invariant 0 <= i <= count && dest.Length == count * k
      invariant Gathered(dest[..], Bits(src), width, i, 0)
    {
      MulStep(i, count, k);
      var startBit := i * width;
      var bitIdx := 0;
      while bitIdx < width
        invariant 0 <= bitIdx <= width
        invariant Gathered(dest[..], Bits(src), width, i, bitIdx)
      {
        GatherStep(dest, src, width, i, bitIdx, startBit);
        bitIdx := bitIdx + 1;
      }
      NextElement(dest[..], Bits(src), width, i);
      i := i + 1;
    }
    AllGathered(dest[..], Bits(src), width, count);
  }

  /** dest[i * K + limb] |= bit << bit_in_limb, for one bit. */
  method GatherStep(dest: array<u64>, src: seq<byte>, width: nat, i: nat, b: nat, startBit: nat)
    requires b < width && startBit == i * width && i * LimbsFor(width) + LimbsFor(width) <= dest.Length
    requires Gathered(dest[..], Bits(src), width, i, b)
    modifies dest
    ensures Gathered(dest[..], Bits(src), width, i, b + 1)
  {
    hide Bits, LimbDone, Pow2, Or, Gathered;
    ghost var before := dest[..];
    var at := i * LimbsFor(width) + b / 64;
    var current := startBit + b;
    GatheredAt(before, Bits(src), width, i, b, at);
    if current / 8 < |src| {
      var bit := BufferBit(src, current);
      GatherIn(before, Bits(src), width, i, b, at, bit);
      dest[at] := Or(dest[at], bit * Pow2(b % 64));
    } else {
      GatherIn(before, Bits(src), width, i, b, at, 0);
    }
    ghost var after := dest[..];
    assert after == before[at := after[at]];
    GatherAll(before, after, Bits(src), width, i, b, at);
  }

  lemma GatheredAt(dest: seq<u64>, bits: seq<bool>, width: nat, i: nat, b: nat, j: nat)
    requires width > 0 && Gathered(dest, bits, width, i, b) && j < |dest|
    ensures LimbDone(dest, bits, width, i, b, j)
  {
  }

  lemma GatherAll(before: seq<u64>, after: seq<u64>, bits: seq<bool>, width: nat, i: nat, b: nat, at: nat)
    requires b < width && at == i * LimbsFor(width) + b / 64 < |before| == |after| && after == before[at := after[at]]
    requires Gathered(before, bits, width, i, b) && LimbDone(after, bits, width, i, b + 1, at)
    ensures Gathered(after, bits, width, i, b + 1)
  {
    hide LimbDone;
    var next := b + 1;
    forall j | 0 <= j < |after|
      ensures LimbDone(after, bits, width, i, next, j)
    {
      assert LimbDone(before, bits, width, i, b, j);
      if j != at {
        GatherOther(before, after, bits, width, i, b, at, j);
      }
    }
  }

  lemma GatherIn(dest: seq<u64>, bits: seq<bool>, width: nat, i: nat, b: nat, at: nat, bit: nat)
    requires b < width && at == i * LimbsFor(width) + b / 64 < |dest| && LimbDone(dest, bits, width, i, b, at)
    requires bit == if BitOrZero(bits, i * width + b) then 1 else 0
    ensures Or(dest[at], bit * Pow2(b % 64)) < TWO_64
    ensures LimbDone(dest[at := Or(dest[at], bit * Pow2(b % 64))], bits, width, i, b + 1, at)
    ensures bit == 0 ==> LimbDone(dest, bits, width, i, b + 1, at)
  {
    hide LimbOf, Pow2, Or;
    DivUnique(at, LimbsFor(width), i, b / 64);
    LimbGrows(bits, i * width, b);
  }

  lemma SplitIndex(j: nat, k: nat, at: nat, i: nat, l: nat)
    requires k > 0 && at == i * k + l && j != at
    ensures j / k != i || j % k != l
  {
    assert j == j / k * k + j % k;
  }

  lemma GatherOther(before: seq<u64>, after: seq<u64>, bits: seq<bool>, width: nat, i: nat, b: nat, at: nat, j: nat)
    requires b < width && at == i * LimbsFor(width) + b / 64 && j != at
    requires j < |before| && j < |after| && after[j] == before[j] && LimbDone(before, bits, width, i, b, j)
    ensures LimbDone(after, bits, width, i, b + 1, j)
  {
    hide LimbOf;
    SplitIndex(j, LimbsFor(width), at, i, b / 64);
    OtherLimb(bits, width, i, b, j / LimbsFor(width), j % LimbsFor(width));
  }

  /** One more bit of the element: only the limb it falls into changes. */
  lemma LimbGrows(bits: seq<bool>, start: nat, b: nat)
    ensures var v := LimbOf(bits, start, b / 64, b);
            var bit := if BitOrZero(bits, start + b) then 1 else 0;
            LimbOf(bits, start, b / 64, b + 1) == Or(v, bit * Pow2(b % 64)) && (bit == 0 ==> LimbOf(bits, start, b / 64, b + 1) == v)
  {
    hide Or, Num, Pow2;
    var l := b / 64;
    var s := LimbString(bits, start, l, b);
    var bit := if BitOrZero(bits, start + b) then 1 else 0;
    assert LimbString(bits, start, l, b + 1) == s + [bit == 1];
    GatherBit(s, bit == 1, bit);
    if bit == 0 {
      OrZero(Num(s));
      assert bit * Pow2(b % 64) == 0;
    }
  }

  lemma OtherLimb(bits: seq<bool>, width: nat, i: nat, b: nat, e: nat, l: nat)
    requires b < width && (e != i || l != b / 64)
    ensures LimbOf(bits, e * width, l, Progress(e, i, b, width)) == LimbOf(bits, e * width, l, Progress(e, i, b + 1, width))
  {
    hide Num;
    if e == i {
      assert BitsInLimb(l, b) == BitsInLimb(l, b + 1);
      assert LimbString(bits, e * width, l, b) == LimbString(bits, e * width, l, b + 1);
    }
  }

  lemma StartGathered(dest: seq<u64>, bits: seq<bool>, width: nat)
    requires width > 0 && forall j :: 0 <= j < |dest| ==> dest[j] == 0
    ensures Gathered(dest, bits, width, 0, 0)
  {
    forall j | 0 <= j < |dest|
      ensures LimbDone(dest, bits, width, 0, 0, j)
    {
      assert LimbString(bits, j / LimbsFor(width) * width, j % LimbsFor(width), 0) == [];
    }
  }

  lemma NextElement(dest: seq<u64>, bits: seq<bool>, width: nat, i: nat)
    requires width > 0 && Gathered(dest, bits, width, i, width)
    ensures Gathered(dest, bits, width, i + 1, 0)
  {
    hide LimbOf;
    var next := i + 1;
    forall j | 0 <= j < |dest|
      ensures LimbDone(dest, bits, width, next, 0, j)
    {
      assert LimbDone(dest, bits, width, i, width, j);
    }
  }

  lemma AllGathered(dest: seq<u64>, bits: seq<bool>, width: nat, count: nat)
    requires width > 0 && |dest| == count * LimbsFor(width) && Gathered(dest, bits, width, count, 0)
    ensures IsUnpacked(dest, bits, width, count)
  {
    hide LimbOf;
    var k := LimbsFor(width);
    forall j | 0 <= j < |dest|
      ensures LimbIs(dest, bits, width, j)
    {
      assert LimbDone(dest, bits, width, count, 0, j);
      QuotientBelow(j, count, k);
    }
  }

  // ------------------------------------------------------------- round trips

  lemma {:induction false} PackedIndex(src: seq<u64>, width: nat, n: nat, i: nat, b: nat)
    requires n * LimbsFor(width) <= |src| && i < n && b < width
    ensures HasElement(src, width, i) && i * width + b < |Packed(src, width, n)|
    ensures Packed(src, width, n)[i * width + b] == ElementBits(src, width, i)[b]
  {
    hide ElementBits;
    FewerElements(src, width, n - 1, n);
    FewerElements(src, width, i, n);
    MulStep(i, n, width);
    if i < n - 1 {
      PackedIndex(src, width, n - 1, i, b);
    }
  }

  /** Packing and unpacking gives every limb back, without the bits beyond the width. */
  lemma PackThenUnpack(src: seq<u64>, width: nat, out: seq<byte>, dest: seq<u64>)
    requires width > 0 && IsPacked(out, src, width) && IsUnpacked(dest, Bits(out), width, Count(src, width))
    ensures |dest| <= |src|
    ensures forall j :: 0 <= j < |dest| ==> dest[j] == src[j] % Pow2(BitsInLimb(j % LimbsFor(width), width))
  {
    hide Packed, ElementBits, Bits, LimbOf, Zeros, LimbIs;
    var k := LimbsFor(width);
    var count := Count(src, width);
    CountFits(src, width);
    forall j | 0 <= j < |dest|
      ensures dest[j] == src[j] % Pow2(BitsInLimb(j % k, width))
    {
      QuotientBelow(j, count, k);
      assert LimbIs(dest, Bits(out), width, j);
      LimbReturns(src, width, count, Bits(out), Zeros(8 * |out| - count * width), dest, j);
    }
  }

  lemma LimbReturns(src: seq<u64>, width: nat, count: nat, bits: seq<bool>, pad: seq<bool>, dest: seq<u64>, j: nat)
    requires width > 0 && count * LimbsFor(width) <= |src| && bits == Packed(src, width, count) + pad
    requires j < |src| && j < |dest| && j / LimbsFor(width) < count && LimbIs(dest, bits, width, j)
    ensures dest[j] == src[j] % Pow2(BitsInLimb(j % LimbsFor(width), width))
  {
    hide Packed, ElementBits, LimbOf;
    var k := LimbsFor(width);
    assert j == k * (j / k) + j % k;
    LimbBack(src, width, count, bits, pad, j / k, j % k, j);
  }

  lemma LimbBack(src: seq<u64>, width: nat, count: nat, bits: seq<bool>, pad: seq<bool>, e: nat, l: nat, j: nat)
    requires width > 0 && count * LimbsFor(width) <= |src| && bits == Packed(src, width, count) + pad
    requires e < count && l < LimbsFor(width) && j == e * LimbsFor(width) + l < |src|
    ensures LimbOf(bits, e * width, l, width) == src[j] % Pow2(BitsInLimb(l, width))
  {
    hide Packed, ElementBits, Num, Pow2, BitsOf;
    var n := BitsInLimb(l, width);
    var s := LimbString(bits, e * width, l, width);
    forall b | 0 <= b < n
      ensures s[b] == BitsOf(src[j], n)[b]
    {
      assert s[b] == BitOrZero(bits, e * width + 64 * l + b);
      LimbBackAt(src, width, count, bits, pad, e, l, j, b, n, e * width + 64 * l + b);
    }
    assert s == BitsOf(src[j], n);
    NumBitsOf(src[j], n);
  }

  lemma LimbBackAt(src: seq<u64>, width: nat, count: nat, bits: seq<bool>, pad: seq<bool>, e: nat, l: nat, j: nat,
                   b: nat, n: nat, p: nat)
    requires width > 0 && count * LimbsFor(width) <= |src| && bits == Packed(src, width, count) + pad
    requires e < count && l < LimbsFor(width) && j == e * LimbsFor(width) + l < |src|
    requires b < n <= 64 && 64 * l + n <= width && p == e * width + 64 * l + b
    ensures BitOrZero(bits, p) == BitsOf(src[j], n)[b]
  {
    hide Packed, ElementBits, BitsOf, LimbsFor;
    PackedIndex(src, width, count, e, 64 * l + b);
    ElementAt(src, width, e, l, b, j);
    BitsOfPrefix(src[j], n, 64);
    assert BitsOf(src[j], 64)[..n][b] == BitsOf(src[j], 64)[b];
    assert bits[p] == Packed(src, width, count)[p];
  }

  lemma ElementAt(src: seq<u64>, width: nat, e: nat, l: nat, b: nat, j: nat)
    requires HasElement(src, width, e) && 64 * l + b < width && b < 64 && j == e * LimbsFor(width) + l < |src|
    ensures ElementBits(src, width, e)[64 * l + b] == BitsOf(src[j], 64)[b]
  {
    hide BitsOf;
    assert (64 * l + b) / 64 == l && (64 * l + b) % 64 == b;
  }

  /** Unpacking and packing again gives the same bits. */
  lemma UnpackThenPack(bits: seq<bool>, width: nat, count: nat, dest: seq<u64>)
    requires width > 0 && count * width <= |bits| && IsUnpacked(dest, bits, width, count)
    ensures Packed(dest, width, count) == bits[..count * width]
  {
    UnpackThenPackPrefix(bits, width, count, dest, count);
  }

  lemma {:induction false} UnpackThenPackPrefix(bits: seq<bool>, width: nat, count: nat, dest: seq<u64>, n: nat)
    requires width > 0 && count * width <= |bits| && IsUnpacked(dest, bits, width, count) && n <= count
    ensures n * LimbsFor(width) <= |dest| && n * width <= |bits|
    ensures Packed(dest, width, n) == bits[..n * width]
  {
    hide ElementBits, LimbOf;
    if n == 0 {
    } else {
      MulStep(n - 1, count, LimbsFor(width));
      MulStep(n - 1, count, width);
      UnpackThenPackPrefix(bits, width, count, dest, n - 1);
      ElementBack(bits, width, count, dest, n - 1);
      assert bits[..n * width] == bits[..(n - 1) * width] + bits[(n - 1) * width..(n - 1) * width + width];
    }
  }

  lemma ElementBack(bits: seq<bool>, width: nat, count: nat, dest: seq<u64>, e: nat)
    requires width > 0 && IsUnpacked(dest, bits, width, count) && e < count
    requires HasElement(dest, width, e) && e * width + width <= |bits|
    ensures ElementBits(dest, width, e) == bits[e * width..e * width + width]
  {
    hide Num, BitsOf;
    var k := LimbsFor(width);
    forall b | 0 <= b < width
      ensures ElementBits(dest, width, e)[b] == bits[e * width + b]
    {
      var l := b / 64;
      LimbInRange(dest, width, e, b);
      var j := e * k + l;
      DivUnique(j, k, e, l);
      var s := LimbString(bits, e * width, l, width);
      assert LimbIs(dest, bits, width, j);
      assert dest[j] == Num(s);
      BitsOfNum(s);
      BitsOfPrefix(Num(s), |s|, 64);
      assert BitsOf(Num(s), 64)[..|s|][b % 64] == BitsOf(Num(s), 64)[b % 64];
      assert s[b % 64] == BitOrZero(bits, e * width + 64 * l + b % 64);
      assert 64 * l + b % 64 == b;
    }
  }
}
