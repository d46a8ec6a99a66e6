/** Arrays written limb by limb by the kernel's own stores, against the packer (fuser.rs, main.zig). */
module Storage {
  import opened Words
  import opened BitOps
  import opened BitBuffer
  import opened PackedAccess
  import opened Packing
  import Unpacking

  /** How many bits of an element lie below limb `l`. */
  function Below(width: nat, l: nat): (n: nat)
    ensures n <= width
  {
    if 64 * l < width then 64 * l else width
  }

  /** Limb `l` holds the next bits of the element, as many as a store of it writes. */
  lemma LimbPiece(src: seq<u64>, width: nat, i: nat, l: nat, j: nat)
    requires HasElement(src, width, i) && 64 * l < width && j == i * LimbsFor(width) + l < |src|
    ensures Below(width, l) <= Below(width, l + 1) <= Below(width, l) + 64
    ensures ElementBits(src, width, i)[Below(width, l)..Below(width, l + 1)] == BitsOf(src[j], Below(width, l + 1) - Below(width, l))
  {
    hide BitsOf, ElementBits, HasElement, LimbsFor;
    var a, n := Below(width, l), Below(width, l + 1) - Below(width, l);
    BitsOfPrefix(src[j], n, 64);
    forall b | 0 <= b < n
      ensures ElementBits(src, width, i)[a + b] == BitsOf(src[j], n)[b]
    {
      Unpacking.ElementAt(src, width, i, l, b, j);
      assert BitsOf(src[j], 64)[..n][b] == BitsOf(src[j], 64)[b];
    }
  }

  lemma FillPiece(done: seq<bool>, element: seq<bool>, a: nat, b: nat, room: nat)
    requires a <= b <= |element| <= room
    ensures Splice(done + element[..a] + Zeros(room - a), |done| + a, element[a..b]) == done + element[..b] + Zeros(room - b)
  {
  }

  /** The limbs of element `i`, stored one by one at bit `start`. */
  method StoreElement(out: array<byte>, src: seq<u64>, width: nat, i: nat, start: nat, ghost done: seq<bool>, ghost room: nat)
    requires width > 0 && HasElement(src, width, i) && width <= room
    requires |done| == start == i * width && Bits(out[..]) == done + Zeros(room)
    modifies out
    ensures Bits(out[..]) == done + ElementBits(src, width, i) + Zeros(room - width)
  {
    hide Bits, BitsOf, ElementBits, Zeros, HasElement, LimbsFor, Splice, Begin, Span, Below;
    var k := LimbsFor(width);
    ghost var element := ElementBits(src, width, i);
    NoneBelow(width);
    assert done + element[..0] == done;
    var l := 0;
    while l < k
      invariant 0 <= l <= k
      invariant Bits(out[..]) == done + element[..Below(width, l)] + Zeros(room - Below(width, l))
    {
      LimbPlace(src, width, i, l);
      LimbPiece(src, width, i, l, i * k + l);
      FillPiece(done, element, Below(width, l), Below(width, l + 1), room);
      StorePlace(i, width, l, start, 8 * out.Length);
      StoreU64(out, start, width, l, src[i * k + l]);
      l := l + 1;
    }
    AllBelow(width);
    assert element[..width] == element;
  }

  lemma LimbPlace(src: seq<u64>, width: nat, i: nat, l: nat)
    requires HasElement(src, width, i) && l < LimbsFor(width)
    ensures 64 * l < width && i * LimbsFor(width) + l < |src|
  {
    LimbInRange(src, width, i, 64 * l);
  }

  lemma NoneBelow(width: nat)
    ensures Below(width, 0) == 0
  {
  }

  lemma AllBelow(width: nat)
    ensures Below(width, LimbsFor(width)) == width
  {
  }

  /** Where a store of limb `l` of element `i` goes, and how much it writes. */
  lemma StorePlace(i: nat, width: nat, l: nat, start: nat, total: nat)
    requires 64 * l < width && start == i * width && start + width <= total
    ensures Inside(total, start, width, l) && Begin(start, width, l) == start + Below(width, l)
    ensures Span(width, l) == Below(width, l + 1) - Below(width, l) > 0
  {
    if ByteWise(width) {
      FieldAligned(i, width);
    }
    SpanInside(start, width, total, l);
  }

  /** The elements of an array, stored in order. */
  method StoreElements(out: array<byte>, src: seq<u64>, width: nat, count: nat)
    requires width > 0 && count * LimbsFor(width) <= |src| && count * width <= 8 * out.Length
    requires Bits(out[..]) == Zeros(8 * out.Length)
    modifies out
    ensures Bits(out[..]) == Packed(src, width, count) + Zeros(8 * out.Length - count * width)
  {
    hide Bits, Packed, ElementBits, Zeros, LimbsFor, HasElement;
    PackedNothing(src, width);
    ghost var room := 8 * out.Length;
    var i := 0;
    while i < count
      invariant 0 <= i <= count && i * LimbsFor(width) <= |src|
      invariant |Packed(src, width, i)| + room == 8 * out.Length
      invariant Bits(out[..]) == Packed(src, width, i) + Zeros(room)
    {
      FewerElements(src, width, i, count);
      FewerElements(src, width, i + 1, count);
      RoomFor(i, count, width);
      StoreElement(out, src, width, i, i * width, Packed(src, width, i), room);
      PackedMore(src, width, i);
      room := room - width;
      i := i + 1;
    }
  }

  /** A whole array, stored into zeroed memory of its size. */
  method StoreArray(src: seq<u64>, width: nat) returns (out: array<byte>)
    requires width > 0
    ensures fresh(out) && IsPacked(out[..], src, width)
  {
    hide Bits, Packed, Zeros, LimbsFor;
    var count := Count(src, width);
    out := new byte[PackedBytes(count * width)](_ => 0);
    ZeroBytes(out[..]);
    CountFits(src, width);
    StoreElements(out, src, width, count);
  }

  /**
   * The packed form is unique: what the stores leave is, byte for byte, what
   * pack_bits returns.
   */
  lemma PackedUnique(a: seq<byte>, b: seq<byte>, src: seq<u64>, width: nat)
    requires width > 0 && IsPacked(a, src, width) && IsPacked(b, src, width)
    ensures a == b
  {
    hide Bits, Packed, Zeros;
    BitsInjective(a, b);
  }

  /** Both ways of laying out an array, side by side. */
  method StoreAndPack(src: seq<u64>, width: nat) returns (stored: array<byte>, packed: array<byte>)
    requires width > 0
    ensures stored[..] == packed[..]
  {
    hide IsPacked;
    stored := StoreArray(src, width);
    packed := PackBits(src, width);
    PackedUnique(stored[..], packed[..], src, width);
  }
}
