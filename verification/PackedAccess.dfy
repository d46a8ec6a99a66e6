/** Loading and storing one limb of a bit-packed element (fuser.rs, helper_load_u64 and helper_store_u64). */
module PackedAccess {
  import opened Words
  import opened BitOps
  import opened BitBuffer

  predicate NativeWidth(width: nat) { width == 8 || width == 16 || width == 32 || width == 64 }

  /** The first bit an access touches. The byte-wise paths drop the low three bits of the position. */
  function Begin(bitOffset: nat, width: nat, limb: nat): nat {
    if NativeWidth(width) then bitOffset / 8 * 8
    else if width % 64 == 0 then (bitOffset + limb * 64) / 8 * 8
    else bitOffset + limb * 64
  }

  /** How many bits an access touches. A native width has one limb, whatever limb is asked for. */
  function Span(width: nat, limb: nat): (n: nat)
    ensures n <= 64
  {
    if width == 0 then 0
    else if NativeWidth(width) then width
    else if width % 64 == 0 then 64
    else if limb * 64 >= width then 0
    else if width - limb * 64 < 64 then width - limb * 64 else 64
  }

  /** Widths the helpers access byte-wise rather than bit by bit. */
  predicate ByteWise(width: nat) { NativeWidth(width) || width % 64 == 0 }

  /** The bits an access touches, if any, are among the first `total`. */
  predicate Inside(total: nat, bitOffset: nat, width: nat, limb: nat) {
    Span(width, limb) == 0 || Begin(bitOffset, width, limb) + Span(width, limb) <= total
  }

  /** The bits a load finds. */
  function Touched(bits: seq<bool>, bitOffset: nat, width: nat, limb: nat): (found: seq<bool>)
    requires Inside(|bits|, bitOffset, width, limb)
    ensures |found| == Span(width, limb)
  {
    if Span(width, limb) == 0 then []
    else bits[Begin(bitOffset, width, limb)..Begin(bitOffset, width, limb) + Span(width, limb)]
  }

  /** What a store leaves. */
  function Stored(bits: seq<bool>, bitOffset: nat, width: nat, limb: nat, val: nat): (after: seq<bool>)
    requires Inside(|bits|, bitOffset, width, limb)
    ensures |after| == |bits|
  {
    if Span(width, limb) == 0 then bits
    else Splice(bits, Begin(bitOffset, width, limb), BitsOf(val, Span(width, limb)))
  }

  /** A limb of an element that starts on a byte boundary, if its width is accessed byte-wise, is accessed in its own place. */
  lemma SpanInside(at: nat, w: nat, total: nat, limb: nat)
    requires 64 * limb < w && at + w <= total && (ByteWise(w) ==> at % 8 == 0)
    ensures Begin(at, w, limb) == at + 64 * limb
    ensures Span(w, limb) == if w - 64 * limb < 64 then w - 64 * limb else 64
    ensures Begin(at, w, limb) + Span(w, limb) <= total
  {
    if w % 64 == 0 {
      assert w >= 64 * limb + 64;
    }
  }

  /** Fields side by side start on byte boundaries if their width is accessed byte-wise. */
  lemma FieldAligned(i: nat, width: nat)
    requires ByteWise(width)
    ensures i * width % 8 == 0
  {
    assert width == 8 * (width / 8);
    EightTimes(i, width, width / 8);
  }

  lemma EightTimes(i: nat, n: nat, k: nat)
    requires n == 8 * k
    ensures i * n % 8 == 0
  {
    var p := i * k;
    assert i * n == 8 * p;
    DivUnique(i * n, 8, p, 0);
  }

  method LoadU64(buf: seq<byte>, bitOffset: nat, width: nat, limb: nat) returns (val: u64)
    requires Inside(8 * |buf|, bitOffset, width, limb)
    ensures val == Num(Touched(Bits(buf), bitOffset, width, limb))
  {
    hide Bits, Num;
    if width == 0 {
      NumEmpty();
      return 0;
    }
    var startBit := bitOffset + limb * 64;
    if NativeWidth(width) {
      val := ReadLe(buf, bitOffset / 8, width / 8);
    } else if width % 64 == 0 {
      val := ReadLe(buf, startBit / 8, 8);
    } else {
      val := LoadBits(buf, startBit, width, limb);
    }
  }

  /** The bit loop of the load. */
  method LoadBits(buf: seq<byte>, startBit: nat, width: nat, limb: nat) returns (val: u64)
    requires !ByteWise(width) && (Span(width, limb) == 0 || startBit + Span(width, limb) <= 8 * |buf|)
    ensures val == Num(if Span(width, limb) == 0 then [] else Bits(buf)[startBit..startBit + Span(width, limb)])
  {
    hide Bits, Num, Or, BitsOf, Pow2;
    ghost var n := Span(width, limb);
    ghost var bits := if n == 0 then [] else Bits(buf)[startBit..startBit + n];
    val := 0;
    NumEmpty();
    assert bits[..0] == [];
    var k := 0;
    while k < 64
      invariant 0 <= k <= n
      invariant val == Num(bits[..k])
    {
      if limb * 64 + k >= width {
        break;
      }
      var bit := BufferBit(buf, startBit + k);
      assert bits[k] == (bit == 1);
      GatherBit(bits[..k], bit == 1, bit);
      assert bits[..k] + [bit == 1] == bits[..k + 1];
      LimbBound(bits[..k + 1]);
      val := Or(val, bit * Pow2(k));
      k := k + 1;
    }
    assert bits[..n] == bits;
  }

  /** (byte >> bit_in_byte) & 1 */
  function BufferBit(buf: seq<byte>, p: nat): (bit: nat)
    requires p < 8 * |buf|
    ensures bit < 2 && (bit == 1) == Bits(buf)[p]
  {
    BitsIndex(buf, p / 8, p % 8);
    BitsOfIndex(buf[p / 8], 8, p % 8);
    Bit(buf[p / 8], p % 8)
  }

  lemma LimbBound(bits: seq<bool>)
    requires |bits| <= 64
    ensures Num(bits) < TWO_64
  {
    NumBound(bits);
    Pow2Monotone(|bits|, 64);
    Pow2Words();
  }

  /** read_unaligned of `n` bytes. */
  method ReadLe(buf: seq<byte>, at: nat, n: nat) returns (val: u64)
    requires at + n <= |buf| && n <= 8
    ensures val == Num(Bits(buf)[8 * at..8 * at + 8 * n])
  {
    BitsSlice(buf, at, n);
    NumBits(buf[at..at + n]);
    LimbBound(Bits(buf[at..at + n]));
    val := FromLe(buf[at..at + n]);
  }

  method StoreU64(buf: array<byte>, bitOffset: nat, width: nat, limb: nat, val: u64)
    requires Inside(8 * buf.Length, bitOffset, width, limb)
    modifies buf
    ensures Bits(buf[..]) == Stored(Bits(old(buf[..])), bitOffset, width, limb, val)
  {
    hide Bits, BitsOf, Splice;
    if width == 0 {
      return;
    }
    var startBit := bitOffset + limb * 64;
    if NativeWidth(width) {
      WriteLe(buf, bitOffset / 8, val, width / 8);
    } else if width % 64 == 0 {
      WriteLe(buf, startBit / 8, val, 8);
    } else {
      StoreBits(buf, startBit, width, limb, val);
    }
  }

  /** The bit loop of the store. */
  method StoreBits(buf: array<byte>, startBit: nat, width: nat, limb: nat, val: u64)
    requires !ByteWise(width) && (Span(width, limb) == 0 || startBit + Span(width, limb) <= 8 * buf.Length)
    modifies buf
    ensures Bits(buf[..]) ==
            if Span(width, limb) == 0 then Bits(old(buf[..]))
            else Splice(Bits(old(buf[..])), startBit, BitsOf(val, Span(width, limb)))
  {
    hide Bits, BitsOf, Splice;
    if limb * 64 >= width {
      return;
    }
    ghost var n := Span(width, limb);
    ghost var before := Bits(buf[..]);
    SpliceNothing(before, startBit, BitsOf(val, n)[..0]);
    var k := 0;
    while k < 64
      invariant 0 <= k <= n
      invariant Bits(buf[..]) == Splice(before, startBit, BitsOf(val, n)[..k])
    {
      if limb * 64 + k >= width {
        break;
      }
      var bit := Bit(val, k);
      BitsOfIndex(val, n, k);
      PutBit(buf, startBit + k, bit);
      SpliceMore(before, startBit, BitsOf(val, n), k);
      k := k + 1;
    }
    assert BitsOf(val, n)[..n] == BitsOf(val, n);
  }

  /** Sets or clears one bit of the buffer, as the loop of the store does. */
  method PutBit(buf: array<byte>, p: nat, bit: nat)
    requires p < 8 * buf.Length && bit < 2
    modifies buf
    ensures Bits(buf[..]) == Bits(old(buf[..]))[p := bit == 1]
  {
    ghost var before := buf[..];
    ByteBits(buf[p / 8], p % 8);
    if bit == 1 {
      buf[p / 8] := WithBit(buf[p / 8], p % 8);
    } else {
      buf[p / 8] := WithoutBit(buf[p / 8], p % 8);
    }
    OneBit(before, buf[..], p, bit == 1);
  }

  /** write_unaligned of the `n` low bytes of `val`. */
  method WriteLe(buf: array<byte>, at: nat, val: u64, n: nat)
    requires at + n <= buf.Length && n <= 8
    modifies buf
    ensures Bits(buf[..]) == Splice(Bits(old(buf[..])), 8 * at, BitsOf(val, 8 * n))
  {
    hide Bits, BitsOf, Splice, LeBytes;
    ghost var before := buf[..];
    var bytes := LeBytes(val, n);
    forall i | 0 <= i < n {
      buf[at + i] := bytes[i];
    }
    SpliceBytes(before, at, bytes);
    BitsLe(val, n);
    assert buf[..] == before[..at] + bytes + before[at + n..];
  }

  lemma SpliceBytes(before: seq<byte>, at: nat, bytes: seq<byte>)
    requires at + |bytes| <= |before|
    ensures Bits(before[..at] + bytes + before[at + |bytes|..]) == Splice(Bits(before), 8 * at, Bits(bytes))
  {
    hide Bits, Splice;
    var head, tail := before[..at], before[at + |bytes|..];
    BitsConcat(head + bytes, tail);
    BitsConcat(head, bytes);
    BitsSplit(before, at);
    BitsSplit(before, at + |bytes|);
    SpliceParts(Bits(before), 8 * at, Bits(head), Bits(bytes), Bits(tail), 8 * (at + |bytes|));
  }

  lemma SpliceParts(bits: seq<bool>, p: nat, head: seq<bool>, piece: seq<bool>, tail: seq<bool>, q: nat)
    requires p + |piece| == q <= |bits| && head == bits[..p] && tail == bits[q..]
    ensures head + piece + tail == Splice(bits, p, piece)
  {
  }

  /** What is stored is loaded again, reduced to the width of the limb, and no other bit has changed. */
  lemma StoreThenLoad(before: seq<bool>, bitOffset: nat, width: nat, limb: nat, val: u64)
    requires Inside(|before|, bitOffset, width, limb)
    ensures var after, p, n := Stored(before, bitOffset, width, limb, val), Begin(bitOffset, width, limb), Span(width, limb);
            && Num(Touched(after, bitOffset, width, limb)) == val % Pow2(n)
            && forall q :: 0 <= q < |before| && !(p <= q < p + n) ==> after[q] == before[q]
  {
    hide Begin, Span, Num, Pow2, BitsOf;
    var n := Span(width, limb);
    NumBitsOf(val, n);
    assert Touched(Stored(before, bitOffset, width, limb, val), bitOffset, width, limb) == BitsOf(val, n);
  }

  /** The bits the loop would go over in place of a byte-wise path. */
  function LoopBits(bits: seq<bool>, bitOffset: nat, width: nat, limb: nat): (found: seq<bool>)
    requires 64 * limb < width && bitOffset + width <= |bits|
    ensures |found| == if width - 64 * limb < 64 then width - 64 * limb else 64
  {
    bits[bitOffset + 64 * limb..bitOffset + 64 * limb + if width - 64 * limb < 64 then width - 64 * limb else 64]
  }

  /** Byte-wise path and bit loop load the same from a buffer that has room for the element. */
  ghost predicate SameLoad(buf: seq<byte>, bitOffset: nat, width: nat, limb: nat)
    requires ByteWise(width) && 64 * limb < width
  {
    bitOffset + width <= 8 * |buf| ==>
      (SpanWithin(bitOffset, width, 8 * |buf|, limb);
       Num(Touched(Bits(buf), bitOffset, width, limb)) == Num(LoopBits(Bits(buf), bitOffset, width, limb)))
  }

  lemma SpanWithin(at: nat, w: nat, total: nat, limb: nat)
    requires ByteWise(w) && 64 * limb < w && at + w <= total
    ensures Begin(at, w, limb) == at / 8 * 8 + 64 * limb
    ensures Span(w, limb) == if w - 64 * limb < 64 then w - 64 * limb else 64
    ensures Inside(total, at, w, limb)
  {
    if !NativeWidth(w) {
      assert w == 64 * (w / 64);
      assert w >= 64 * limb + 64;
      DivUnique(at + limb * 64, 8, at / 8 + 8 * limb, at % 8);
    }
  }

  /** The byte-wise paths load from every buffer what the bit loop would, exactly at positions on a byte boundary. */
  lemma FastPathAligned(bitOffset: nat, width: nat, limb: nat)
    requires ByteWise(width) && 64 * limb < width
    ensures (forall buf: seq<byte> :: SameLoad(buf, bitOffset, width, limb)) <==> bitOffset % 8 == 0
  {
    hide Num, Bits;
    if bitOffset % 8 == 0 {
      forall buf: seq<byte>
        ensures SameLoad(buf, bitOffset, width, limb)
      {
        if bitOffset + width <= 8 * |buf| {
          SpanWithin(bitOffset, width, 8 * |buf|, limb);
        }
      }
    } else {
      var buf := OneAt(bitOffset / 8 + 8 * limb, (bitOffset + width) / 8 + 1);
      UnalignedDiffers(bitOffset, width, limb, buf);
      assert !SameLoad(buf, bitOffset, width, limb);
    }
  }

  /** `n` bytes, all zero but the lowest bit of byte `at`. */
  function OneAt(at: nat, n: nat): (buf: seq<byte>)
    requires at < n
    ensures |buf| == n && forall i :: 0 <= i < n ==> buf[i] == if i == at then 1 else 0
  {
    seq(n, i => if i == at then 1 else 0)
  }

  lemma OneAtBits(at: nat, n: nat, q: nat)
    requires at < n && q < 8 * n
    ensures Bits(OneAt(at, n))[q] == (q == 8 * at)
  {
    hide Bits, BitsOf;
    BitsAt(OneAt(at, n), q);
    if q / 8 == at {
      Pow2Bits(0, 8, q % 8);
      assert Pow2(0) == 1;
    } else {
      ZeroBits(8, q % 8);
    }
  }

  lemma SliceOdd(bits: seq<bool>, p: nat, n: nat)
    requires n > 0 && p + n <= |bits| && bits[p]
    ensures Num(bits[p..p + n]) != 0
  {
  }

  lemma SliceZero(bits: seq<bool>, one: nat, p: nat, n: nat)
    requires one < p && p + n <= |bits| && forall q :: 0 <= q < |bits| ==> bits[q] == (q == one)
    ensures Num(bits[p..p + n]) == 0
  {
    hide Num;
    NumZero(bits[p..p + n]);
  }

  /** A single bit is seen by a load from it on and not by one from above it. */
  lemma OneBitSeen(buf: seq<byte>, at: nat, begin: nat, start: nat, n: nat)
    requires at < |buf| && buf == OneAt(at, |buf|) && n > 0 && 8 * at == begin < start && start + n <= 8 * |buf|
    ensures Num(Bits(buf)[begin..begin + n]) != Num(Bits(buf)[start..start + n])
  {
    hide Bits, Num, OneAt;
    var bits := Bits(buf);
    forall q | 0 <= q < |bits|
      ensures bits[q] == (q == begin)
    {
      OneAtBits(at, |buf|, q);
    }
    SliceOdd(bits, begin, n);
    SliceZero(bits, begin, start, n);
  }

  lemma BelowStart(bitOffset: nat, limb: nat)
    requires bitOffset % 8 != 0
    ensures 8 * (bitOffset / 8 + 8 * limb) == bitOffset / 8 * 8 + 64 * limb < bitOffset + 64 * limb
  {
  }

  /** Both paths as slices of the buffer's bits. */
  lemma TwoSlices(bits: seq<bool>, bitOffset: nat, width: nat, limb: nat)
    requires ByteWise(width) && 64 * limb < width && bitOffset + width <= |bits|
    ensures Inside(|bits|, bitOffset, width, limb)
    ensures var n := if width - 64 * limb < 64 then width - 64 * limb else 64;
            var begin := bitOffset / 8 * 8 + 64 * limb;
            && begin + n <= |bits| && bitOffset + 64 * limb + n <= |bits|
            && Touched(bits, bitOffset, width, limb) == bits[begin..begin + n]
            && LoopBits(bits, bitOffset, width, limb) == bits[bitOffset + 64 * limb..bitOffset + 64 * limb + n]
  {
    hide Begin, Span;
    SpanWithin(bitOffset, width, |bits|, limb);
  }

  /** Off a byte boundary the byte-wise path sees a bit below the element's own. */
  lemma UnalignedDiffers(bitOffset: nat, width: nat, limb: nat, buf: seq<byte>)
    requires ByteWise(width) && 64 * limb < width && bitOffset % 8 != 0
    requires bitOffset / 8 + 8 * limb < |buf| && buf == OneAt(bitOffset / 8 + 8 * limb, |buf|)
    requires bitOffset + width <= 8 * |buf|
    ensures Inside(8 * |buf|, bitOffset, width, limb)
    ensures Num(Touched(Bits(buf), bitOffset, width, limb)) != Num(LoopBits(Bits(buf), bitOffset, width, limb))
  {
    hide Bits, Num, OneAt, Begin, Span, ByteWise, Touched, LoopBits, Inside;
    TwoSlices(Bits(buf), bitOffset, width, limb);
    BelowStart(bitOffset, limb);
    var n := if width - 64 * limb < 64 then width - 64 * limb else 64;
    OneBitSeen(buf, bitOffset / 8 + 8 * limb, bitOffset / 8 * 8 + 64 * limb, bitOffset + 64 * limb, n);
  }
}
