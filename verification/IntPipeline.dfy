/** Integer arrays from values to values, through the fused kernel (lib.rs, array.rs). */
module IntPipeline {
  import opened Words
  import opened Expr
  import opened BitOps
  import opened BitBuffer
  import opened PackedAccess
  import opened Packing
  import opened TwosComplement
  import opened Limbs
  import opened DoubleInt
  import opened KernelConstants
  import opened IntKernel
  import opened PackedKernel
  import Unpacking

  /** The `k` base-2^64 digits of a number. */
  function Digits64(n: nat, k: nat): (limbs: seq<u64>)
    ensures |limbs| == k
  {
    if k == 0 then [] else [n % TWO_64] + Digits64(n / TWO_64, k - 1)
  }

  lemma {:induction false} Digits64Value(n: nat, k: nat)
    requires n < LimbPow(k)
    ensures LimbValue(Digits64(n, k)) == n
  {
    if k == 0 {
    } else {
      hide LimbPow;
      Pow2LimbOf(k);
      assert TWO_64 * LimbPow(k - 1) == LimbPow(k - 1) * TWO_64;
      QuotientBelow(n, LimbPow(k - 1), TWO_64);
      Digits64Value(n / TWO_64, k - 1);
      assert Digits64(n, k)[1..] == Digits64(n / TWO_64, k - 1);
    }
  }

  /** The limbs of one integer scalar of the given width. */
  function ScalarLimbs(v: int, width: nat): (limbs: seq<u64>)
    requires width >= 1
    ensures |limbs| == LimbsFor(width)
  {
    if width <= 64 then [v % TWO_64] else (ModBounds(v, Pow2(width)); Digits64(v % Pow2(width), LimbsFor(width)))
  }

  /** What encode_custom_int_limbs returns are those limbs. */
  lemma EncodedAre(v: int, width: nat, limbs: seq<u64>)
    requires width > 64 && |limbs| == LimbsFor(width) && LimbValue(limbs) == v % Pow2(width)
    ensures limbs == ScalarLimbs(v, width)
  {
    hide LimbValue, Pow2, Digits64;
    ScalarValue(v, width);
    ModOnce(v, Pow2(width));
    LimbValueInjective(limbs, ScalarLimbs(v, width));
  }

  lemma ScalarValue(v: int, width: nat)
    requires width >= 1
    ensures LimbValue(ScalarLimbs(v, width)) % Pow2(width) == v % Pow2(width)
    ensures width > 64 ==> LimbValue(ScalarLimbs(v, width)) == v % Pow2(width)
  {
    hide Pow2, LimbValue, Digits64;
    ModBounds(v, Pow2(width));
    if width <= 64 {
      LimbValueOne(v % TWO_64);
      Pow2Words();
      ModCongruent(v, TWO_64);
      CongruentLow(v % TWO_64, v, 64, width);
    } else {
      Pow2Monotone(width, 64 * LimbsFor(width));
      Digits64Value(v % Pow2(width), LimbsFor(width));
      ModOnce(v, Pow2(width));
    }
  }

  /** The limbs of an array of values, one after another. */
  function FlatLimbs(values: seq<int>, width: nat): (src: seq<u64>)
    requires width >= 1
    ensures |src| == |values| * LimbsFor(width)
  {
    if values == [] then []
    else
      var n := |values| - 1;
      assert n * LimbsFor(width) + LimbsFor(width) == |values| * LimbsFor(width);
      FlatLimbs(values[..n], width) + ScalarLimbs(values[n], width)
  }

  lemma {:induction false} FlatLimbsAt(values: seq<int>, width: nat, i: nat)
    requires width >= 1 && i < |values|
    ensures i * LimbsFor(width) + LimbsFor(width) <= |FlatLimbs(values, width)|
    ensures FlatLimbs(values, width)[i * LimbsFor(width)..i * LimbsFor(width) + LimbsFor(width)] == ScalarLimbs(values[i], width)
    decreases |values|
  {
    hide ScalarLimbs, LimbsFor;
    var n, k := |values| - 1, LimbsFor(width);
    MulStep(i, |values|, k);
    var rest := FlatLimbs(values[..n], width);
    if i < n {
      FlatLimbsAt(values[..n], width, i);
      SliceOfPrefix(rest, ScalarLimbs(values[n], width), i * k, i * k + k);
    } else {
      SliceOfSuffix(rest, ScalarLimbs(values[n], width), i * k, i * k + k);
    }
  }

  lemma SliceOfPrefix(a: seq<u64>, b: seq<u64>, lo: nat, hi: nat)
    requires lo <= hi <= |a|
    ensures (a + b)[lo..hi] == a[lo..hi]
  {
  }

  lemma SliceOfSuffix(a: seq<u64>, b: seq<u64>, lo: nat, hi: nat)
    requires lo == |a| && hi == |a| + |b|
    ensures (a + b)[lo..hi] == b
  {
  }

  /** The packed bits of an element are its limbs' value, reduced to the width. */
  lemma ElementValue(src: seq<u64>, width: nat, i: nat)
    requires width >= 1 && HasElement(src, width, i) && i * LimbsFor(width) + LimbsFor(width) <= |src|
    ensures Num(ElementBits(src, width, i)) == LimbValue(src[i * LimbsFor(width)..i * LimbsFor(width) + LimbsFor(width)]) % Pow2(width)
  {
    hide Num, Pow2, LimbValue, BitsOf, LimbBits, ElementBits;
    var k := LimbsFor(width);
    var limbs := src[i * k..i * k + k];
    forall b | 0 <= b < width
      ensures ElementBits(src, width, i)[b] == LimbBits(limbs)[b]
    {
      LimbInRange(src, width, i, b);
      SameBit(src, width, i, b, limbs);
    }
    assert ElementBits(src, width, i) == LimbBits(limbs)[..width];
    NumPrefix(LimbBits(limbs), width);
    LimbBitsNum(limbs);
  }

  lemma SameBit(src: seq<u64>, width: nat, i: nat, b: nat, limbs: seq<u64>)
    requires width >= 1 && HasElement(src, width, i) && i * LimbsFor(width) + LimbsFor(width) <= |src| && b < width
    requires limbs == src[i * LimbsFor(width)..i * LimbsFor(width) + LimbsFor(width)] && i * LimbsFor(width) + b / 64 < |src|
    ensures ElementBits(src, width, i)[b] == LimbBits(limbs)[b]
  {
    hide BitsOf, LimbBits;
    LimbBitsIndex(limbs, b / 64, b % 64);
  }

  // --------------------------------------------------------- arrays of integers

  /** `v` is a contiguous one-dimensional array that holds `values`, packed at its width. */
  ghost predicate Stores(v: Variable, values: seq<int>) {
    && IntegerType(v.dtype)
    && v.shape == [|values|] && v.bitStrides == [v.dtype.bits] && v.bitOffset == 0
    && IsPacked(v.data, FlatLimbs(values, v.dtype.bits), v.dtype.bits)
  }

  lemma PackedCount(values: seq<int>, width: nat)
    requires width >= 1
    ensures Count(FlatLimbs(values, width), width) == |values|
  {
    DivUnique(|values| * LimbsFor(width), LimbsFor(width), |values|, 0);
  }

  /** The kernel finds in field i of such an array value i modulo 2^width. */
  lemma StoredField(v: Variable, values: seq<int>, i: nat)
    requires Stores(v, values) && i < |values|
    ensures Readable(v, i) && Field(v, i) == values[i] % Pow2(v.dtype.bits)
  {
    hide Bits, Num, Pow2, LimbValue, Packed, ElementBits, FlatLimbs, ScalarLimbs, LimbsFor, Zeros;
    var w := v.dtype.bits;
    var src := FlatLimbs(values, w);
    PackedCount(values, w);
    StoredPosition(v, values, i);
    MulStep(i, |values|, w);
    FlatLimbsAt(values, w, i);
    FewerElements(src, w, i, |values|);
    PackedField(src, w, |values|, i, Bits(v.data), Zeros(8 * |v.data| - |values| * w));
    ElementValue(src, w, i);
    ScalarValue(values[i], w);
  }

  lemma StoredPosition(v: Variable, values: seq<int>, i: nat)
    requires IntegerType(v.dtype) && v.shape == [|values|] && v.bitStrides == [v.dtype.bits] && v.bitOffset == 0
    ensures Position(v, i) == i * v.dtype.bits
    ensures ByteWise(v.dtype.bits) ==> Position(v, i) % 8 == 0
  {
    if ByteWise(v.dtype.bits) {
      FieldAligned(i, v.dtype.bits);
    }
  }

  lemma PackedField(src: seq<u64>, w: nat, n: nat, i: nat, bits: seq<bool>, pad: seq<bool>)
    requires w >= 1 && n * LimbsFor(w) <= |src| && i < n && bits == Packed(src, w, n) + pad
    ensures HasElement(src, w, i) && i * w + w <= |bits| && bits[i * w..i * w + w] == ElementBits(src, w, i)
  {
    hide Packed, ElementBits, LimbsFor, HasElement;
    FewerElements(src, w, i, n);
    MulStep(i, n, w);
    forall b | 0 <= b < w
      ensures bits[i * w + b] == ElementBits(src, w, i)[b]
    {
      Unpacking.PackedIndex(src, w, n, i, b);
    }
  }


  /**
   * Every variable stores the values given for its id, each within the
   * variable's width and one that a kernel of `bits` bits takes right.
   */
  ghost predicate StoresAll(e: Expr, values: nat -> seq<int>, bits: nat, len: nat)
    requires IntTree(e)
  {
    match e
    case Var(v) =>
      && Stores(v, values(v.id)) && len <= |values(v.id)|
      && forall i :: 0 <= i < len ==> InRange(values(v.id)[i], v.dtype.bits) && ValueRight(values(v.id)[i], v.dtype.bits, bits)
    case Const(_) => true
    case Bin(_, l, r) => StoresAll(l, values, bits, len) && StoresAll(r, values, bits, len)
  }

  ghost predicate InRange(x: int, width: nat)
    requires width >= 1
  {
    0 - Pow2(width - 1) <= x < Pow2(width - 1)
  }

  /** Always up to 64 bits, and wherever the variable is no narrower than the result. */
  ghost predicate ValueRight(x: int, width: nat, bits: nat)
    requires width >= 1
  {
    ModBounds(x, Pow2(width));
    bits <= 64 || TakenRight(x % Pow2(width), width, Low(bits))
  }

  /** The tree on plain integers. */
  function OnValues(e: Expr, values: nat -> seq<int>, i: nat): int
    requires IntTree(e)
  {
    match e
    case Var(v) => if i < |values(v.id)| then values(v.id)[i] else 0
    case Const(c) => KernelInt(c)
    case Bin(op, l, r) =>
      (match op
       case Add => OnValues(l, values, i) + OnValues(r, values, i)
       case Sub => OnValues(l, values, i) - OnValues(r, values, i)
       case Mul => OnValues(l, values, i) * OnValues(r, values, i))
  }

  lemma {:induction false} KernelSeesValues(e: Expr, values: nat -> seq<int>, bits: nat, len: nat, i: nat)
    requires IntTree(e) && StoresAll(e, values, bits, len) && i < len
    ensures AllReadable(e, i) && Exact(e, i) == OnValues(e, values, i) && OperandsRight(e, bits, i)
  {
    hide Stores, InRange, ValueRight, ApplyExact, Signed, Field, Readable, OperandRight, KernelInt;
    match e
    case Var(v) => OneValue(v, values(v.id), bits, i);
    case Const(_) =>
    case Bin(_, l, r) =>
      KernelSeesValues(l, values, bits, len, i);
      KernelSeesValues(r, values, bits, len, i);
  }

  lemma OneValue(v: Variable, xs: seq<int>, bits: nat, i: nat)
    requires Stores(v, xs) && i < |xs| && InRange(xs[i], v.dtype.bits) && ValueRight(xs[i], v.dtype.bits, bits)
    ensures Readable(v, i) && Signed(Field(v, i), v.dtype.bits) == xs[i] && OperandRight(v, bits, i)
  {
    hide Pow2, Signed, Field, Readable, TakenRight;
    StoredField(v, xs, i);
    SignedInverts(xs[i], v.dtype.bits);
  }

  lemma ValuesCallable(e: Expr, values: nat -> seq<int>, bits: nat, len: nat)
    requires IntTree(e) && StoresAll(e, values, bits, len)
    ensures KernelCall(e, bits, len)
  {
    hide StoresAll, AllReadable, OperandsRight;
    forall j: nat | j < len
      ensures AllReadable(e, j)
    {
      KernelSeesValues(e, values, bits, len, j);
    }
  }

  /**
   * From values to values: pack integer arrays, run the kernel of a tree over
   * them, and element i of the output is the tree on the i-th values, exactly,
   * reduced modulo 2^bits.
   */
  lemma ValuesToValues(before: seq<bool>, e: Expr, values: nat -> seq<int>, bits: nat, len: nat, i: nat)
    requires IntTree(e) && bits == OutBits(e) && StoresAll(e, values, bits, len)
    requires len * bits <= |before| && i < len
    ensures KernelCall(e, bits, len) && Fit(Outputs(e, bits, len), bits, |before|)
    ensures 0 <= i * bits <= i * bits + Low(bits) <= |before|
    ensures Num(Filled(before, bits, Outputs(e, bits, len))[i * bits..i * bits + Low(bits)]) == OnValues(e, values, i) % Pow2(Low(bits))
  {
    hide StoresAll, AllReadable, OperandsRight, Exact, Filled, Outputs, Num, Pow2, OnValues, Fit;
    ValuesCallable(e, values, bits, len);
    KernelSeesValues(e, values, bits, len, i);
    KernelOutput(before, e, bits, len, i);
  }
}
