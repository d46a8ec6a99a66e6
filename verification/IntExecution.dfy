/** Integer arrays created from values, executed, and unpacked (lib.rs, array.rs). */
module IntExecution {
  import opened Words
  import opened DataTypes
  import opened Expr
  import opened BitOps
  import opened BitBuffer
  import opened PackedAccess
  import opened Packing
  import opened TwosComplement
  import opened Limbs
  import opened IntKernel
  import opened PackedKernel
  import opened IntPipeline

  predicate AllInts64(values: seq<int>) { forall i :: 0 <= i < |values| ==> -TWO_63 <= values[i] < TWO_63 }

  // ------------------------------------------------------------- a new array

  /** The limbs of one integer, as `to_limbs` gives them. */
  method ToLimbs(v: int, width: nat) returns (limbs: seq<u64>)
    requires width >= 1 && -TWO_63 <= v < TWO_63
    ensures limbs == ScalarLimbs(v, width)
  {
    if width <= 64 {
      limbs := [v % TWO_64];
    } else {
      hide LimbValue, Pow2, Digits64, ScalarLimbs;
      var encoded := EncodeInt(v, width);
      limbs := encoded[..];
      EncodedAre(v, width, limbs);
    }
  }

  method FlattenInts(values: seq<int>, width: nat) returns (src: seq<u64>)
    requires width >= 1 && AllInts64(values)
    ensures src == FlatLimbs(values, width)
  {
    hide ScalarLimbs;
    src := [];
    for i := 0 to |values|
      invariant src == FlatLimbs(values[..i], width)
    {
      var limbs := ToLimbs(values[i], width);
      assert values[..i + 1][..i] == values[..i];
      src := src + limbs;
    }
    assert values[..|values|] == values;
  }

  /** A variable that holds the given integers, packed. */
  method NewIntVariable(id: nat, dtype: DataType, values: seq<int>) returns (v: Variable)
    requires IntegerType(dtype) && AllInts64(values)
    ensures v.id == id && v.dtype == dtype && v.size == |values| && Stores(v, values)
  {
    hide IsPacked, FlatLimbs;
    var src := FlattenInts(values, dtype.bits);
    var packed := PackBits(src, dtype.bits);
    v := Variable(id, dtype, |values|, packed[..], [|values|], [dtype.bits], 0, None, false);
  }

  /** The largest width any value asks for. */
  method WidthOf(values: seq<int>) returns (bits: nat)
    ensures bits == ArrayBits(values)
  {
    hide ScalableBits;
    bits := 2;
    for i := 0 to |values|
      invariant bits == ArrayBits(values[..i])
    {
      ArrayBitsMore(values, i);
      bits := Max(bits, ScalableBits(values[i]));
    }
    assert values[..|values|] == values;
  }

  /** A scalable variable: its width has every integer in range, and some integer needs it. */
  method NewScalableVariable(id: nat, values: seq<int>) returns (v: Variable)
    requires AllInts64(values)
    ensures v.id == id && v.size == |values| && v.dtype.ScalableInt? && 2 <= v.dtype.bits <= 64 && Stores(v, values)
    ensures forall i :: 0 <= i < |values| ==> InRange(values[i], v.dtype.bits)
    ensures v.dtype.bits > 2 ==> exists i :: 0 <= i < |values| && Pow2(v.dtype.bits - 2) <= AbsInt(values[i])
  {
    hide Pow2, ScalableBits, Stores;
    var bits := WidthOf(values);
    ScalableTight(values);
    v := NewIntVariable(id, ScalableInt(bits), values);
  }

  // ------------------------------------------------------------- the results

  /** What is left of a number in a field of `bits` bits, read as a signed number. */
  function Wrapped(x: int, bits: nat): int
    requires bits >= 1
  {
    ModBounds(x, Pow2(bits));
    Signed(x % Pow2(bits), bits)
  }

  lemma WrappedFits(x: int, bits: nat)
    requires bits >= 1
    ensures InRange(Wrapped(x, bits), bits) && Wrapped(x, bits) % Pow2(bits) == x % Pow2(bits)
    ensures InRange(x, bits) ==> Wrapped(x, bits) == x
  {
    ModBounds(x, Pow2(bits));
    SignedCongruent(x % Pow2(bits), bits);
    ModCongruent(x, Pow2(bits));
    if InRange(x, bits) {
      SignedInverts(x, bits);
    }
  }

  /** The tree on every row of values, each result reduced to what the output holds. */
  function Results(e: Expr, values: nat -> seq<int>, bits: nat, len: nat): (results: seq<int>)
    requires IntTree(e) && bits >= 1
    ensures |results| == len && forall i :: 0 <= i < len ==> results[i] == Wrapped(OnValues(e, values, i), bits)
  {
    seq(len, i requires 0 <= i < len => Wrapped(OnValues(e, values, i), bits))
  }

  // ---------------------------------------------- the kernel writes packed arrays

  lemma AppendPiece(done: seq<bool>, room: nat, piece: seq<bool>)
    requires |piece| <= room
    ensures Splice(done + Zeros(room), |done|, piece) == done + piece + Zeros(room - |piece|)
  {
  }

  ghost predicate PiecesAre(pieces: seq<seq<bool>>, src: seq<u64>, bits: nat) {
    |pieces| * LimbsFor(bits) <= |src| && forall i :: 0 <= i < |pieces| ==> HasElement(src, bits, i) && pieces[i] == ElementBits(src, bits, i)
  }

  lemma PieceAt(pieces: seq<seq<bool>>, src: seq<u64>, bits: nat, i: nat)
    requires PiecesAre(pieces, src, bits) && i < |pieces|
    ensures HasElement(src, bits, i) && pieces[i] == ElementBits(src, bits, i) && |pieces[i]| == bits
    ensures i * LimbsFor(bits) <= |src| && (i + 1) * LimbsFor(bits) <= |src|
  {
    FewerElements(src, bits, i, i + 1);
  }

  /** The elements of an array written to fields side by side, into zeros, are the packed array. */
  lemma {:induction false} FilledPacks(total: nat, bits: nat, pieces: seq<seq<bool>>, src: seq<u64>, n: nat)
    requires Fit(pieces, bits, total) && n <= |pieces| && PiecesAre(pieces, src, bits)
    ensures Fit(pieces[..n], bits, total) && n * LimbsFor(bits) <= |src| && 0 <= n * bits <= total
    ensures Filled(Zeros(total), bits, pieces[..n]) == Packed(src, bits, n) + Zeros(total - n * bits)
  {
    hide Filled, Splice, Zeros, ElementBits, PiecesAre, HasElement, LimbsFor, Packed, Fit;
    FitPrefix(pieces, bits, total, n);
    if n == 0 {
      assert pieces[..0] == [];
      FilledNothing(Zeros(total), bits, []);
      PackedNothing(src, bits);
      EmptyPrefix(Zeros(total));
    } else {
      FilledPacks(total, bits, pieces, src, n - 1);
      PieceAt(pieces, src, bits, n - 1);
      FilledMore(Zeros(total), bits, pieces, n - 1);
      PackedMore(src, bits, n - 1);
      AppendPiece(Packed(src, bits, n - 1), total - (n - 1) * bits, pieces[n - 1]);
    }
  }

  lemma EmptyPrefix(bits: seq<bool>)
    ensures [] + bits == bits
  {
  }

  lemma NumInjective(a: seq<bool>, b: seq<bool>)
    requires |a| == |b| && Num(a) == Num(b)
    ensures a == b
  {
    BitsOfNum(a);
    BitsOfNum(b);
  }

  /** One output of the kernel is the packed form of its result. */
  lemma OutputIsElement(e: Expr, values: nat -> seq<int>, bits: nat, len: nat, i: nat)
    requires IntTree(e) && 1 <= bits <= 128 && StoresAll(e, values, bits, len) && KernelCall(e, bits, len) && i < len
    ensures HasElement(FlatLimbs(Results(e, values, bits, len), bits), bits, i)
    ensures Output(e, bits, len, i) == ElementBits(FlatLimbs(Results(e, values, bits, len), bits), bits, i)
  {
    hide StoresAll, AllReadable, OperandsRight, Exact, Num, Pow2, OnValues, Output, ElementBits, FlatLimbs, ScalarLimbs, LimbsFor, Wrapped, LimbValue;
    var results := Results(e, values, bits, len);
    var src := FlatLimbs(results, bits);
    KernelSeesValues(e, values, bits, len, i);
    OutputRight(e, bits, len, i);
    WrappedFits(OnValues(e, values, i), bits);
    FlatLimbsAt(results, bits, i);
    FewerElements(src, bits, i, len);
    ElementValue(src, bits, i);
    ScalarValue(results[i], bits);
    NumInjective(Output(e, bits, len, i), ElementBits(src, bits, i));
  }

  /** The bytes a kernel leaves in a zeroed output of the right size are its results, packed. */
  lemma KernelPacks(out: seq<byte>, e: Expr, values: nat -> seq<int>, bits: nat, len: nat)
    requires IntTree(e) && 1 <= bits <= 128 && StoresAll(e, values, bits, len) && KernelCall(e, bits, len)
    requires |out| == PackedBytes(len * bits) && Fit(Outputs(e, bits, len), bits, 8 * |out|)
    requires Bits(out) == Filled(Zeros(8 * |out|), bits, Outputs(e, bits, len))
    ensures IsPacked(out, FlatLimbs(Results(e, values, bits, len), bits), bits)
  {
    hide StoresAll, KernelCall, Bits, Filled, Packed, Zeros, Output, FlatLimbs, Results, ElementBits, HasElement, Fit, LimbsFor;
    var results := Results(e, values, bits, len);
    var src := FlatLimbs(results, bits);
    var pieces := Outputs(e, bits, len);
    forall i | 0 <= i < len
      ensures HasElement(src, bits, i) && pieces[i] == ElementBits(src, bits, i)
    {
      OutputIsElement(e, values, bits, len, i);
    }
    FilledPacks(8 * |out|, bits, pieces, src, len);
    assert pieces[..len] == pieces;
    PackedCount(results, bits);
  }

  // -------------------------------------------------------------- execution

  /** The size of the output buffer, as the source computes it. */
  function OutBytes(size: nat, bits: nat): nat {
    MulNat(size, bits);
    MulNat(size, bits / 8);
    if bits % 8 == 0 then size * (bits / 8) else (size * bits + 7) / 8
  }

  lemma OutBytesPacked(size: nat, bits: nat)
    ensures size * bits >= 0 && OutBytes(size, bits) == PackedBytes(size * bits) && size * bits <= 8 * OutBytes(size, bits)
  {
    MulNat(size, bits);
    if bits % 8 == 0 {
      var k := bits / 8;
      MulNat(size, k);
      assert size * bits == 8 * (size * k) by {
        assert bits == 8 * k;
      }
    }
  }

  /** Integers keep the width of the leftmost leaf; scalable integers are widened. */
  function OutputType(e: Expr): DataType
    requires IntTree(e)
  {
    match e
    case Var(v) => if v.dtype.Int? then v.dtype else Int(64)
    case Const(c) => if c.IntConst? then Int(c.bits) else Int(64)
    case Bin(_, l, _) => OutputType(l)
  }

  /**
   * Running an integer expression: the result is again an array variable, and
   * it stores the value of the tree on every row, reduced to the output width,
   * so it may be an operand of the next expression. Integers keep their width,
   * scalable integers become 64 bits wide, and what fits the width is exact.
   */
  method Execute(e: Expr, id: nat, ghost values: nat -> seq<int>) returns (result: Variable)
    requires IntTree(e) && IntegerRoot(e) && 1 <= OutBits(e) <= 128 && StoresAll(e, values, OutBits(e), e.Size())
    ensures result.id == id && result.size == e.Size()
    ensures result.dtype == OutputType(e) && IntegerType(result.dtype)
    ensures Stores(result, Results(e, values, result.dtype.bits, e.Size()))
    ensures forall i :: 0 <= i < e.Size() ==> InRange(Results(e, values, result.dtype.bits, e.Size())[i], result.dtype.bits)
    ensures forall i :: 0 <= i < e.Size() && InRange(OnValues(e, values, i), result.dtype.bits) ==>
              Results(e, values, result.dtype.bits, e.Size())[i] == OnValues(e, values, i)
  {
    hide StoresAll, KernelCall, Bits, Filled, IsPacked, FlatLimbs, Results, Fit, Outputs, OutBits, OutBytes, InRange;
    var size, bits := e.Size(), OutBits(e);
    WidthOfOutput(e);
    ValuesCallable(e, values, bits, size);
    OutBytesPacked(size, bits);
    var out := new byte[OutBytes(size, bits)](_ => 0);
    ZeroBytes(out[..]);
    RunKernel(e, out, size);
    KernelPacks(out[..], e, values, bits, size);
    ResultsFit(e, values, bits, size);
    result := Variable(id, Int(bits), size, out[..], [size], [bits], 0, None, false);
  }

  lemma {:induction false} WidthOfOutput(e: Expr)
    requires IntTree(e)
    ensures Int(OutBits(e)) == OutputType(e)
  {
    if e.Bin? {
      WidthOfOutput(e.left);
    }
  }

  lemma ResultsFit(e: Expr, values: nat -> seq<int>, bits: nat, len: nat)
    requires IntTree(e) && bits >= 1
    ensures forall i :: 0 <= i < len ==> InRange(Results(e, values, bits, len)[i], bits)
    ensures forall i :: 0 <= i < len && InRange(OnValues(e, values, i), bits) ==> Results(e, values, bits, len)[i] == OnValues(e, values, i)
  {
    hide InRange, Wrapped, OnValues;
    forall i | 0 <= i < len
      ensures InRange(Results(e, values, bits, len)[i], bits)
      ensures InRange(OnValues(e, values, i), bits) ==> Results(e, values, bits, len)[i] == OnValues(e, values, i)
    {
      WrappedFits(OnValues(e, values, i), bits);
    }
  }

  // --------------------------------------------------------------- unpacking

  /** The integers of a variable of at most 64 bits, read back. */
  method UnpackInts(v: Variable, ghost values: seq<int>) returns (xs: seq<int>)
    requires Stores(v, values) && v.size == |values| && v.dtype.bits <= 64
    ensures |xs| == |values| && forall i :: 0 <= i < |xs| ==> xs[i] == Wrapped(values[i], v.dtype.bits)
  {
    hide IsPacked, FlatLimbs, Wrapped, FromLimb, Unpacking.IsUnpacked;
    var w := v.dtype.bits;
    if NativeWidth(w) { NativeFits(v, values); }
    var raw := Unpacking.UnpackBits(v.data, v.size, w);
    ReadBack(v, values, raw[..]);
    xs := [];
    for i := 0 to v.size
      invariant |xs| == i && forall j :: 0 <= j < i ==> xs[j] == Wrapped(values[j], w)
    {
      xs := xs + [FromLimb(raw[i], w)];
    }
  }

  lemma NativeFits(v: Variable, values: seq<int>)
    requires Stores(v, values) && NativeWidth(v.dtype.bits)
    ensures |values| * (v.dtype.bits / 8) <= |v.data|
  {
    PackedCount(values, v.dtype.bits);
    OutBytesPacked(|values|, v.dtype.bits);
  }

  lemma ReadBack(v: Variable, values: seq<int>, raw: seq<u64>)
    requires Stores(v, values) && v.dtype.bits <= 64 && Unpacking.IsUnpacked(raw, Bits(v.data), v.dtype.bits, |values|)
    ensures |raw| == |values| && forall i :: 0 <= i < |raw| ==> FromLimb(raw[i], v.dtype.bits) == Wrapped(values[i], v.dtype.bits)
  {
    hide IsPacked, FlatLimbs, FromLimb, Pow2, Unpacking.IsUnpacked, Signed;
    var w := v.dtype.bits;
    var src := FlatLimbs(values, w);
    PackedCount(values, w);
    Unpacking.PackThenUnpack(src, w, v.data, raw);
    RawLength(raw, Bits(v.data), w, |values|);
    forall i | 0 <= i < |raw|
      ensures FromLimb(raw[i], w) == Wrapped(values[i], w)
    {
      RawValue(values, w, i, raw[i]);
    }
  }

  lemma RawLength(raw: seq<u64>, bits: seq<bool>, w: nat, n: nat)
    requires 1 <= w <= 64 && Unpacking.IsUnpacked(raw, bits, w, n)
    ensures LimbsFor(w) == 1 && |raw| == n
  {
  }

  lemma RawValue(values: seq<int>, w: nat, i: nat, x: u64)
    requires 1 <= w <= 64 && i < |values| && i < |FlatLimbs(values, w)|
    requires x == FlatLimbs(values, w)[i] % Pow2(Unpacking.BitsInLimb(i % LimbsFor(w), w))
    ensures FromLimb(x, w) == Wrapped(values[i], w)
  {
    hide FlatLimbs, FromLimb, Pow2, Signed;
    assert LimbsFor(w) == 1;
    FlatLimbsAt(values, w, i);
    assert FlatLimbs(values, w)[i..i + 1][0] == FlatLimbs(values, w)[i];
    var y := values[i] % TWO_64;
    Pow2Words();
    ModCongruent(values[i], TWO_64);
    CongruentLow(y, values[i], 64, w);
    ModBounds(y, Pow2(w));
    DivUnique(x, Pow2(w), 0, x);
    FromLimbIsSigned(x, w);
  }
}
