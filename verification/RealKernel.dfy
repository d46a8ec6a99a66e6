/** Kernels over the reals: exact wherever every result is a double (ir.rs, types.rs). */
module RealKernel {
  import opened Words
  import opened BitOps
  import opened Packing
  import opened DataTypes
  import opened Expr
  import opened FloatCodec
  import opened FloatValues
  import opened Constants
  import FloatStorage
  import Grad
  import Jit
  import X86
  import KernelLoop

  /** What an element of a packed 64-bit array reads as. */
  lemma StoredReads(fpu: Fpu, values: seq<Double>, src: seq<u64>, data: seq<byte>, i: nat)
    requires i < |values| && values[i].Valid() && !values[i].Infinite?
    requires FloatStorage.Encodes(src, values, 64, 11) && IsPacked(data, src, 64)
    ensures (i + 1) * 8 <= |data| && Reads(Element(fpu, 64, data, i), Value(values[i]))
  {
    hide IsPacked, FromLe, Pow2, Value;
    var d := values[i];
    if d.Normal? {
      FloatStorage.JitLoadsDouble(fpu, values, src, data, i);
      assert Denotes(Element(fpu, 64, data, i), d);
    } else {
      FloatStorage.PackedWord(data, src, 8, i);
      ZeroMod(Pow2(64));
      assert Denotes(Element(fpu, 64, data, i), d);
    }
  }

  /** ... and of a packed 32-bit array of singles. */
  lemma StoredSingleReads(fpu: Fpu, values: seq<Double>, src: seq<u64>, data: seq<byte>, i: nat)
    requires Ieee(fpu) && i < |values| && values[i].Valid() && !values[i].Infinite?
    requires values[i].Normal? ==> -126 <= values[i].exp <= 127 && values[i].frac % TWO_29 == 0
    requires FloatStorage.Encodes(src, values, 32, 8) && IsPacked(data, src, 32)
    ensures (i + 1) * 4 <= |data| && Reads(Element(fpu, 32, data, i), Value(values[i]))
  {
    hide IsPacked, FromLe, Pow2, Value, Reads;
    var d := values[i];
    if d.Normal? {
      FloatStorage.JitLoadsSingle(fpu, values, src, data, i);
      assert SingleDenotes(Binary32(d), d);
      assert ReadsSingle(Binary32(d), Value(d));
    } else {
      FloatStorage.PackedWord(data, src, 4, i);
      ZeroMod(Pow2(32));
      assert SingleDenotes(0, d);
      assert ReadsSingle(0, Value(d));
    }
  }

  /** A packed array of `count` floats is all a kernel needs for `count` elements. */
  lemma PackedCovers(v: Variable, src: seq<u64>, bits: nat)
    requires (bits == 32 || bits == 64) && IsPacked(v.data, src, bits)
    ensures Var(v).Covers(bits, |src|)
  {
    assert LimbsFor(bits) == 1;
  }

  /** Element `i` of every variable reads as the number `m` gives the variable. */
  ghost predicate LeavesRead(fpu: Fpu, bits: nat, e: Expr, m: Grad.Reading, i: nat)
    requires (bits == 32 || bits == 64) && e.Uniform(bits) && e.Covers(bits, i + 1)
  {
    match e
    case Var(v) => Reads(Element(fpu, bits, v.data, i), m.env(v.id))
    case Const(_) => true
    case Bin(_, l, r) => LeavesRead(fpu, bits, l, m, i) && LeavesRead(fpu, bits, r, m, i)
  }

  /** Every constant is a float of the kernel's width, and every result, computed over the reals, is a double. */
  ghost predicate AllFloats(bits: nat, e: Expr, m: Grad.Reading) {
    match e
    case Var(_) => true
    case Const(c) => InReach(c) && StandsFor(c, m.val(c)) && IsDouble(m.val(c)) && (bits == 32 ==> IsSingle(m.val(c)))
    case Bin(_, l, r) => AllFloats(bits, l, m) && AllFloats(bits, r, m) && IsDouble(Grad.Value(e, m))
    case DequantizeMatmul(_, _, _, _, _) => false
  }

  /** Then the kernel's value is exact, whatever the order and the number of operations. */
  lemma {:induction false} EvalIsExact(fpu: Fpu, bits: nat, e: Expr, m: Grad.Reading, i: nat)
    requires Ieee(fpu) && (bits == 32 || bits == 64) && e.Uniform(bits) && e.Covers(bits, i + 1) && LeavesRead(fpu, bits, e, m, i)
    requires Grad.Defined(e, m) && AllFloats(bits, e, m)
    ensures Reads(Eval(fpu, bits, e, i), Grad.Value(e, m))
    decreases e
  {
    hide Ieee, Reads, IsDouble, StandsFor, InReach, IsSingle;
    match e
    case Var(_) =>
    case Const(c) => ConstantIsExact(fpu, bits, c, m.val(c));
    case Bin(op, l, r) =>
      EvalIsExact(fpu, bits, l, m, i);
      EvalIsExact(fpu, bits, r, m, i);
      OperationIsExact(fpu, op, Eval(fpu, bits, l, i), Eval(fpu, bits, r, i), Grad.Value(l, m), Grad.Value(r, m));
  }

  /** A constant reaches the kernel with the number it stands for. */
  lemma ConstantIsExact(fpu: Fpu, bits: nat, c: Scalar, x: real)
    requires Ieee(fpu) && (bits == 32 || bits == 64) && InReach(c) && StandsFor(c, x) && IsDouble(x) && (bits == 32 ==> IsSingle(x))
    ensures Reads(Rounded(fpu, bits, c.ToDouble(fpu)), x)
  {
    hide Reads, IsDouble, IsSingle, ReadsSingle, StandsFor, InReach;
    ToDoubleExact(fpu, c, x);
  }

  lemma OperationIsExact(fpu: Fpu, op: BinOp, a: u64, b: u64, x: real, y: real)
    requires Ieee(fpu) && Reads(a, x) && Reads(b, y) && (op == Div ==> y != 0.0) && IsDouble(Grad.Combine(op, x, y))
    ensures Reads(fpu.Apply(op, a, b), Grad.Combine(op, x, y))
  {
    hide Reads, IsDouble, NormalRange, Rounds;
    assert IeeeOps(fpu, a, b, x, y);
    DoublesNormal(Grad.Combine(op, x, y));
    RoundsExactly(fpu.Apply(op, a, b), Grad.Combine(op, x, y));
  }

  /** The bytes stored for a result read as its number. */
  lemma StoredResult(fpu: Fpu, v: u64, x: real)
    requires Ieee(fpu) && Reads(v, x)
    ensures |StoredBytes(fpu, 64, v)| == 8 && Reads(FromLe64(StoredBytes(fpu, 64, v)), x)
    ensures IsSingle(x) ==> |StoredBytes(fpu, 32, v)| == 4 && ReadsSingle(FromLe32(StoredBytes(fpu, 32, v)), x)
  {
    hide Reads, IsSingle, ReadsSingle;
    Le64(v);
    Le32(fpu.narrow(v));
  }

  /** The bytes of output element `j` read as `x`. */
  ghost predicate OutputReads(mem: X86.Memory, out: u64, bits: nat, j: nat, x: real)
    requires bits == 32 || bits == 64
  {
    if bits == 64 then X86.Mapped(mem, out + 8 * j, 8) && Reads(FromLe64(X86.Bytes(mem, out + 8 * j, 8)), x)
    else X86.Mapped(mem, out + 4 * j, 4) && ReadsSingle(FromLe32(X86.Bytes(mem, out + 4 * j, 4)), x)
  }

  /** A call of the compiled kernel leaves exact results. */
  lemma OutputIsExact(fpu: Fpu, e: Expr, bits: nat, c: KernelLoop.Call, mem: X86.Memory, m: Grad.Reading, j: nat)
    requires Ieee(fpu) && (bits == 32 || bits == 64) && e.Uniform(bits) && e.Covers(bits, c.count) && j < c.count
    requires e.Covers(bits, j + 1) && LeavesRead(fpu, bits, e, m, j) && Grad.Defined(e, m) && AllFloats(bits, e, m)
    requires bits == 32 ==> IsSingle(Grad.Value(e, m))
    requires Jit.OutputIs(fpu, e, bits, c, mem, j)
    ensures OutputReads(mem, c.out, bits, j, Grad.Value(e, m))
  {
    hide Reads, IsSingle, ReadsSingle, Ieee, Eval, StoredBytes, AllFloats, LeavesRead, FromLe;
    EvalIsExact(fpu, bits, e, m, j);
    StoredResult(fpu, Eval(fpu, bits, e, j), Grad.Value(e, m));
  }
}
