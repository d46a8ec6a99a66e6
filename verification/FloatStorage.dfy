/** Encoded and packed float arrays, as the custom JIT reads them (lib.rs, types.rs, jit/ir.rs). */
module FloatStorage {
  import opened Words
  import opened DataTypes
  import opened Expr
  import opened BitOps
  import opened BitBuffer
  import opened Packing
  import opened FloatCodec
  import Unpacking

  /** The encodings of an array of doubles, one limb each. */
  ghost predicate Encodes(src: seq<u64>, values: seq<Double>, bits: nat, e: nat)
    requires Format(bits, e, false)
  {
    |src| == |values| && forall i :: 0 <= i < |values| ==> src[i] == Encode(values[i], bits, e, false)
  }

  /** Packing limbs at 32 or 64 bits stores each as its own little-endian word. */
  lemma PackedWord(data: seq<byte>, src: seq<u64>, n: nat, i: nat)
    requires (n == 4 || n == 8) && IsPacked(data, src, 8 * n) && i < |src|
    ensures n * i + n <= |data| && FromLe(data[n * i..n * i + n]) == src[i] % Pow2(8 * n)
  {
    hide Bits, Packed, BitsOf, ElementBits, Num, Pow2, FromLe;
    var w := 8 * n;
    assert LimbsFor(w) == 1 && Count(src, w) == |src|;
    OneLimbElement(src, w, i);
    Unpacked(Bits(data), src, w, i);
    MulStep(i, |src|, w);
    Scale(i, n, w);
    BitsSlice(data, n * i, n);
    NumBits(data[n * i..n * i + n]);
    NumBitsOf(src[i], w);
  }

  lemma Scale(i: nat, n: nat, w: nat)
    requires w == 8 * n
    ensures i * w == 8 * (n * i)
  {
  }

  lemma Unpacked(bits: seq<bool>, src: seq<u64>, w: nat, i: nat)
    requires 1 <= w <= 64 && i < |src| && |src| * LimbsFor(w) <= |src|
    requires Packed(src, w, |src|) <= bits
    ensures HasElement(src, w, i) && 0 <= i * w <= i * w + w <= |bits| && bits[i * w..i * w + w] == ElementBits(src, w, i)
  {
    hide Packed, ElementBits, BitsOf;
    OneLimbElement(src, w, i);
    MulStep(i, |src|, w);
    UnpackedAt(bits, src, w, i, i * w);
  }

  lemma UnpackedAt(bits: seq<bool>, src: seq<u64>, w: nat, i: nat, start: nat)
    requires 1 <= w <= 64 && i < |src| && |src| * LimbsFor(w) <= |src| && HasElement(src, w, i)
    requires Packed(src, w, |src|) <= bits && start == i * w && start + w <= |bits|
    ensures bits[start..start + w] == ElementBits(src, w, i)
  {
    hide Packed, ElementBits, BitsOf, LimbsFor, HasElement;
    forall b | 0 <= b < w
      ensures bits[start + b] == ElementBits(src, w, i)[b]
    {
      Unpacking.PackedIndex(src, w, |src|, i, b);
    }
  }

  lemma BelowWord(v: Double)
    requires v.Normal? && v.Valid()
    ensures Binary64(v) < TWO_64
  {
    hide Pow2;
    Pow2Ieee();
  }

  /** A double stored in a 64-bit array is what the JIT loads for that element. */
  lemma JitLoadsDouble(fpu: Fpu, values: seq<Double>, src: seq<u64>, data: seq<byte>, i: nat)
    requires i < |values| && values[i].Normal? && values[i].Valid()
    requires Encodes(src, values, 64, 11) && IsPacked(data, src, 64)
    ensures (i + 1) * 8 <= |data| && Element(fpu, 64, data, i) == Binary64(values[i])
  {
    hide Encode, IsPacked, FromLe, Pow2;
    PackedWord(data, src, 8, i);
    EncodesBinary64(values[i]);
    BelowWord(values[i]);
    Pow2Words();
    DivUnique(src[i], TWO_64, 0, src[i]);
  }

  /** A value of single precision stored in a 32-bit array is loaded as its own binary32 pattern. */
  lemma JitLoadsSingle(fpu: Fpu, values: seq<Double>, src: seq<u64>, data: seq<byte>, i: nat)
    requires i < |values| && values[i].Normal? && values[i].frac < Pow2(52) && -126 <= values[i].exp <= 127 && values[i].frac % TWO_29 == 0
    requires Encodes(src, values, 32, 8) && IsPacked(data, src, 32)
    ensures (i + 1) * 4 <= |data| && Binary32(values[i]) < TWO_32
    ensures Element(fpu, 32, data, i) == fpu.widen(Binary32(values[i]))
  {
    hide Encode, IsPacked, FromLe, Pow2;
    PackedWord(data, src, 4, i);
    EncodesBinary32(values[i]);
    SingleBelow(values[i]);
    Pow2Words();
    DivUnique(src[i], TWO_32, 0, src[i]);
  }

  lemma SingleBelow(v: Double)
    requires v.Normal? && v.frac < Pow2(52) && -126 <= v.exp <= 127
    ensures Binary32(v) < TWO_32
  {
    hide Pow2;
    Pow2Ieee();
    assert v.frac / TWO_29 < TWO_23;
  }
}
