/**
 * Packing limbs into a dense bit string (main.zig, pack_bits): the native
 * widths byte by byte, the others bit by bit, both write the low bits of each
 * element one after the other.
 */
module Packing {
  import opened Words
  import opened BitOps
  import opened BitBuffer

  /** 64-bit limbs per element. */
  function LimbsFor(width: nat): nat { (width + 63) / 64 }

  /** Bit `b` of element `i`, of elements of `k` limbs. */
  function SourceBit(src: seq<u64>, k: nat, i: nat, b: nat): bool
    requires i * k + b / 64 < |src|
  {
    BitsOf(src[i * k + b / 64], 64)[b % 64]
  }

  predicate HasElement(src: seq<u64>, width: nat, i: nat) { (i + 1) * LimbsFor(width) <= |src| }

  lemma LimbInRange(src: seq<u64>, width: nat, i: nat, b: nat)
    requires HasElement(src, width, i) && b < width
    ensures i * LimbsFor(width) + b / 64 < |src|
  {
    assert b / 64 < LimbsFor(width);
    assert (i + 1) * LimbsFor(width) == i * LimbsFor(width) + LimbsFor(width);
  }

  /** The `width` low bits of element `i`. */
  function ElementBits(src: seq<u64>, width: nat, i: nat): (bits: seq<bool>)
    requires HasElement(src, width, i)
    ensures |bits| == width
  {
    seq(width, b requires 0 <= b < width => (LimbInRange(src, width, i, b); SourceBit(src, LimbsFor(width), i, b)))
  }

  lemma FewerElements(src: seq<u64>, width: nat, i: nat, j: nat)
    requires i <= j && j * LimbsFor(width) <= |src|
    ensures i * LimbsFor(width) <= |src| && (i < j ==> HasElement(src, width, i))
  {
    hide LimbsFor;
    if i < j {
      MulStep(i, j, LimbsFor(width));
    }
  }

  /** The first `n` elements, `width` bits each, one after another. */
  function Packed(src: seq<u64>, width: nat, n: nat): (bits: seq<bool>)
    requires n * LimbsFor(width) <= |src|
    ensures |bits| == n * width
  {
    if n == 0 then []
    else
      FewerElements(src, width, n - 1, n);
      assert (n - 1) * width + width == n * width;
      Packed(src, width, n - 1) + ElementBits(src, width, n - 1)
  }

  function Zeros(n: nat): (bits: seq<bool>)
    ensures |bits| == n
  {
    seq(n, _ => false)
  }

  function Count(src: seq<u64>, width: nat): nat
    requires width > 0
  {
    |src| / LimbsFor(width)
  }

  function PackedBytes(bits: nat): nat { (bits + 7) / 8 }

  lemma CountFits(src: seq<u64>, width: nat)
    requires width > 0
    ensures Count(src, width) * LimbsFor(width) <= |src|
  {
  }

  /** `out` holds the packed elements, and zeros up to the end of its last byte. */
  ghost predicate IsPacked(out: seq<byte>, src: seq<u64>, width: nat)
    requires width > 0
  {
    CountFits(src, width);
    && |out| == PackedBytes(Count(src, width) * width)
    && Bits(out) == Packed(src, width, Count(src, width)) + Zeros(8 * |out| - Count(src, width) * width)
  }

  method PackBits(src: seq<u64>, width: nat) returns (out: array<byte>)
    ensures fresh(out)
    ensures width == 0 ==> out.Length == 0
    ensures width > 0 ==> IsPacked(out[..], src, width)
  {
    if width == 0 {
      out := new byte[0];
    } else if width == 8 {
      out := PackBytes(src);
    } else if width == 16 || width == 32 || width == 64 {
      out := PackNative(src, width / 8);
    } else {
      out := PackScalar(src, width);
    }
  }

  // ------------------------------------------------------------- native widths

  /** Byte by byte, `n` bytes per limb. */
  ghost predicate HoldsLimbs(out: seq<byte>, src: seq<u64>, n: nat, done: nat) {
    && done <= |src| && |out| == n * |src|
    && forall i :: 0 <= i < done ==> LimbAt(out, src, n, i)
  }

  ghost predicate LimbAt(out: seq<byte>, src: seq<u64>, n: nat, i: nat)
    requires i < |src| && |out| == n * |src|
  {
    n * i + n <= |out| && out[n * i..n * i + n] == LeBytes(src[i], n)
  }

  lemma {:induction false} NativeIsPacked(out: seq<byte>, src: seq<u64>, n: nat, i: nat)
    requires 1 <= n <= 8 && HoldsLimbs(out, src, n, |src|) && i <= |src|
    ensures i * LimbsFor(8 * n) <= |src| && n * i <= |out|
    ensures Bits(out[..n * i]) == Packed(src, 8 * n, i)
  {
    hide Bits, BitsOf, LeBytes, ElementBits;
    assert LimbsFor(8 * n) == 1;
    if i == 0 {
      assert out[..0] == [];
      BitsNothing();
    } else {
      MulStep(i - 1, |src|, n);
      NativeIsPacked(out, src, n, i - 1);
      assert LimbAt(out, src, n, i - 1);
      var before, limb := out[..n * (i - 1)], LeBytes(src[i - 1], n);
      assert out[..n * i] == before + limb;
      BitsConcat(before, limb);
      BitsLe(src[i - 1], n);
      OneLimbElement(src, 8 * n, i - 1);
    }
  }

  lemma BitsNothing()
    ensures Bits([]) == []
  {
  }

  lemma OneLimbElement(src: seq<u64>, width: nat, i: nat)
    requires 1 <= width <= 64 && i < |src|
    ensures HasElement(src, width, i) && ElementBits(src, width, i) == BitsOf(src[i], width)
  {
    hide BitsOf;
    assert LimbsFor(width) == 1;
    BitsOfPrefix(src[i], width, 64);
    forall b | 0 <= b < width
      ensures ElementBits(src, width, i)[b] == BitsOf(src[i], width)[b]
    {
      assert BitsOf(src[i], 64)[..width][b] == BitsOf(src[i], 64)[b];
    }
  }

  lemma NativePacked(out: seq<byte>, src: seq<u64>, n: nat)
    requires 1 <= n <= 8 && HoldsLimbs(out, src, n, |src|)
    ensures IsPacked(out, src, 8 * n)
  {
    NativeIsPacked(out, src, n, |src|);
    assert LimbsFor(8 * n) == 1;
    assert Count(src, 8 * n) == |src|;
    assert |src| * (8 * n) == 8 * (n * |src|);
    assert out[..n * |src|] == out;
    assert Packed(src, 8 * n, |src|) + Zeros(0) == Packed(src, 8 * n, |src|);
  }

  method PackBytes(src: seq<u64>) returns (out: array<byte>)
    ensures fresh(out) && IsPacked(out[..], src, 8)
  {
    out := new byte[|src|];
    var i := 0;
    while i + 16 <= |src|
      invariant 0 <= i <= |src|
      invariant forall j :: 0 <= j < i ==> out[j] == src[j] % 256
    {
      var lanes := new byte[16];
      for j := 0 to 16
        invariant forall h :: 0 <= h < j ==> lanes[h] == src[i + h] % 256
        invariant forall h :: 0 <= h < i ==> out[h] == src[h] % 256
      {
        lanes[j] := src[i + j] % 256;
      }
      forall j | i <= j < i + 16 {
        out[j] := lanes[j - i];
      }
      i := i + 16;
    }
    while i < |src|
      invariant 0 <= i <= |src|
      invariant forall j :: 0 <= j < i ==> out[j] == src[j] % 256
    {
      out[i] := src[i] % 256;
      i := i + 1;
    }
    forall j | 0 <= j < |src|
      ensures LimbAt(out[..], src, 1, j)
    {
      assert LeBytes(src[j], 1) == [src[j] % 256];
      assert out[..][1 * j..1 * j + 1] == [out[j]];
    }
    NativePacked(out[..], src, 1);
  }

  /** The 16, 32 and 64-bit paths: each limb is truncated and written low byte first. */
  method PackNative(src: seq<u64>, n: nat) returns (out: array<byte>)
    requires n == 2 || n == 4 || n == 8
    ensures fresh(out) && IsPacked(out[..], src, 8 * n)
  {
    out := new byte[n * |src|];
    var i := 0;
    while i < |src|
      invariant 0 <= i <= |src|
      invariant HoldsLimbs(out[..], src, n, i)
    {
      PutLimb(out, src, n, i);
      i := i + 1;
    }
    NativePacked(out[..], src, n);
  }

  lemma SamePrefix(s: seq<byte>, t: seq<byte>, m: nat, a: nat, b: nat)
    requires a <= b <= m <= |s| && m <= |t| && s[..m] == t[..m]
    ensures s[a..b] == t[a..b]
  {
    assert s[a..b] == s[..m][a..b];
    assert t[a..b] == t[..m][a..b];
  }

  method PutLimb(out: array<byte>, src: seq<u64>, n: nat, i: nat)
    requires i < |src| && 1 <= n <= 8 && HoldsLimbs(out[..], src, n, i)
    modifies out
    ensures HoldsLimbs(out[..], src, n, i + 1)
  {
    hide LeBytes;
    MulStep(i, |src|, n);
    ghost var before := out[..];
    var bytes := LeBytes(src[i], n);
    forall j | 0 <= j < n {
      out[n * i + j] := bytes[j];
    }
    assert out[n * i..n * i + n] == bytes;
    assert out[..n * i] == before[..n * i];
    forall h | 0 <= h < i
      ensures LimbAt(out[..], src, n, h)
    {
      assert LimbAt(before, src, n, h);
      MulStep(h, i, n);
      SamePrefix(before, out[..], n * i, n * h, n * h + n);
    }
    assert LimbAt(out[..], src, n, i);
  }

  // ------------------------------------------------------------ any other width

  /** buf[p / 8] |= bit << (p % 8) */
  method OrBit(buf: array<byte>, p: nat, bit: nat)
    requires p < 8 * buf.Length && bit < 2
    modifies buf
    ensures Bits(buf[..]) == Bits(old(buf[..]))[p := bit == 1 || Bits(old(buf[..]))[p]]
  {
    ghost var before := buf[..];
    BitsIndex(before, p / 8, p % 8);
    if bit == 1 {
      ByteBits(buf[p / 8], p % 8);
      buf[p / 8] := WithBit(buf[p / 8], p % 8);
      OneBit(before, buf[..], p, true);
    } else {
      OrZero(buf[p / 8]);
      buf[p / 8] := Or(buf[p / 8], 0);
      assert buf[..] == before;
    }
  }

  lemma FillStep(bits: seq<bool>, done: seq<bool>, element: seq<bool>, b: nat, room: nat)
    requires b < |element| && b < room && bits == done + element[..b] + Zeros(room - b)
    ensures |done| + b < |bits| && bits[|done| + b] == false
    ensures bits[|done| + b := element[b]] == done + element[..b + 1] + Zeros(room - (b + 1))
  {
  }

  method PackScalar(src: seq<u64>, width: nat) returns (out: array<byte>)
    requires width > 0
    ensures fresh(out) && IsPacked(out[..], src, width)
  {
    hide Bits, Packed, Zeros;
    var k := LimbsFor(width);
    var count := |src| / k;
    var totalBits := count * width;
    var totalBytes := (totalBits + 7) / 8;
    out := new byte[totalBytes](_ => 0);
    ZeroBytes(out[..]);
    CountFits(src, width);
    PackElements(out, src, width, count);
  }

  /** The outer loop. */
  method PackElements(out: array<byte>, src: seq<u64>, width: nat, count: nat)
    requires width > 0 && count * LimbsFor(width) <= |src| && count * width <= 8 * out.Length
    requires Bits(out[..]) == Zeros(8 * out.Length)
    modifies out
    ensures Bits(out[..]) == Packed(src, width, count) + Zeros(8 * out.Length - count * width)
  {
    hide Bits, Packed, ElementBits, Zeros, LimbsFor, HasElement;
    PackedNothing(src, width);
    ghost var room := 8 * out.Length;
    var i := 0;
    while i < count
      invariant 0 <= i <= count && i * LimbsFor(width) <= |src|
      invariant |Packed(src, width, i)| + room == 8 * out.Length
      invariant Bits(out[..]) == Packed(src, width, i) + Zeros(room)
    {
      FewerElements(src, width, i, count);
      FewerElements(src, width, i + 1, count);
      RoomFor(i, count, width);
      PackElement(out, src, width, i, i * width, Packed(src, width, i), room);
      PackedMore(src, width, i);
      room := room - width;
      i := i + 1;
    }
  }

  /** The inner loop: the bits of element `i`, into zeroed bytes. */
  method PackElement(out: array<byte>, src: seq<u64>, width: nat, i: nat, startBit: nat, ghost done: seq<bool>, ghost room: nat)
    requires width > 0 && HasElement(src, width, i) && width <= room
    requires |done| == startBit && Bits(out[..]) == done + Zeros(room)
    modifies out
    ensures Bits(out[..]) == done + ElementBits(src, width, i) + Zeros(room - width)
  {
    hide Bits, BitsOf, ElementBits, Zeros, HasElement, LimbsFor;
    var k := LimbsFor(width);
    ghost var element := ElementBits(src, width, i);
    assert done + element[..0] == done;
    var bitIdx := 0;
    while bitIdx < width
      invariant 0 <= bitIdx <= width
      invariant Bits(out[..]) == done + element[..bitIdx] + Zeros(room - bitIdx)
    {
      LimbInRange(src, width, i, bitIdx);
      var bit := Bit(src[i * k + bitIdx / 64], bitIdx % 64);
      ElementBit(src, width, i, bitIdx);
      FillStep(Bits(out[..]), done, element, bitIdx, room);
      OrBit(out, startBit + bitIdx, bit);
      bitIdx := bitIdx + 1;
    }
    assert element[..width] == element;
  }

  lemma ZeroBytes(buf: seq<byte>)
    requires forall i :: 0 <= i < |buf| ==> buf[i] == 0
    ensures Bits(buf) == Zeros(8 * |buf|)
  {
    hide Bits, BitsOf;
    forall p | 0 <= p < 8 * |buf|
      ensures Bits(buf)[p] == false
    {
      BitsIndex(buf, p / 8, p % 8);
      ZeroBits(8, p % 8);
    }
  }

  lemma PackedNothing(src: seq<u64>, width: nat)
    ensures Packed(src, width, 0) == []
  {
  }

  lemma PackedMore(src: seq<u64>, width: nat, i: nat)
    requires HasElement(src, width, i) && i * LimbsFor(width) <= |src|
    ensures Packed(src, width, i + 1) == Packed(src, width, i) + ElementBits(src, width, i)
    ensures (i + 1) * width == i * width + width
  {
  }

  lemma RoomFor(i: nat, count: nat, width: nat)
    requires i < count
    ensures i * width + width <= count * width
  {
    MulStep(i, count, width);
  }

  lemma ElementBit(src: seq<u64>, width: nat, i: nat, b: nat)
    requires HasElement(src, width, i) && b < width && i * LimbsFor(width) + b / 64 < |src|
    ensures ElementBits(src, width, i)[b] == (Bit(src[i * LimbsFor(width) + b / 64], b % 64) == 1)
  {
    hide BitsOf;
    BitsOfIndex(src[i * LimbsFor(width) + b / 64], 64, b % 64);
  }
}
