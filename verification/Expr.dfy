/** The lazy expression tree (ir.rs) and its element-wise meaning, over floating-point operations about which nothing is assumed. */
module Expr {
  import opened Words
  import opened DataTypes

  datatype Variable = Variable(
    id: nat,
    dtype: DataType,
    size: nat,
    data: seq<byte>,
    shape: seq<nat>,
    bitStrides: seq<nat>,
    bitOffset: nat,
    scale: Option<nat>,
    stealSign: bool)

  datatype Expr =
    | Var(v: Variable)
    | Const(val: Scalar)
    | Bin(op: BinOp, left: Expr, right: Expr)
    | DequantizeMatmul(activations: Expr, weights: Expr, m: nat, k: nat, n: nat)
  {
    /** The type of an operation is the type of its leftmost leaf. */
    function DataType(): DataType {
      match this
      case Var(v) => v.dtype
      case Const(val) => val.DataType()
      case Bin(_, l, _) => l.DataType()
      case DequantizeMatmul(_, _, _, _, _) => Float(32)
    }

    /** The leaf an element-wise tree has furthest to the left. */
    function Leftmost(): Expr {
      match this
      case Bin(_, l, _) => l.Leftmost()
      case _ => this
    }

    function Size(): nat {
      match this
      case Var(v) => v.size
      case Const(_) => 1
      case Bin(_, l, r) => Max(l.Size(), r.Size())
      case DequantizeMatmul(_, _, m, _, n) => m * n
    }

    /** The variables of the tree, left to right, with repetitions. */
    function Leaves(): seq<Variable> {
      match this
      case Var(v) => [v]
      case Const(_) => []
      case Bin(_, l, r) => l.Leaves() + r.Leaves()
      case DequantizeMatmul(a, w, _, _, _) => a.Leaves() + w.Leaves()
    }

    predicate HasMatmul() {
      match this
      case Var(_) => false
      case Const(_) => false
      case Bin(_, l, r) => l.HasMatmul() || r.HasMatmul()
      case DequantizeMatmul(_, _, _, _, _) => true
    }

    /** Number of nodes of the tree. */
    function Count(): (c: nat)
      ensures c >= 1
    {
      match this
      case Var(_) => 1
      case Const(_) => 1
      case Bin(_, l, r) => l.Count() + r.Count() + 1
      case DequantizeMatmul(a, w, _, _, _) => a.Count() + w.Count() + 1
    }

    /** Only IEEE floats, constants and the four operations. */
    predicate Lowerable() {
      match this
      case Var(v) => v.dtype.IeeeFloat()
      case Const(_) => true
      case Bin(_, l, r) => l.Lowerable() && r.Lowerable()
      case DequantizeMatmul(_, _, _, _, _) => false
    }

    /** Some variable's sign bit is used for its mantissa. */
    predicate StealsSign() {
      match this
      case Var(v) => v.stealSign
      case Const(_) => false
      case Bin(_, l, r) => l.StealsSign() || r.StealsSign()
      case DequantizeMatmul(a, w, _, _, _) => a.StealsSign() || w.StealsSign()
    }

    /** Every variable of the tree has element type Float(bits). */
    predicate Uniform(bits: nat) {
      match this
      case Var(v) => v.dtype == Float(bits)
      case Const(_) => true
      case Bin(_, l, r) => l.Uniform(bits) && r.Uniform(bits)
      case DequantizeMatmul(_, _, _, _, _) => false
    }

    /** Every variable's buffer holds at least `count` elements of width `bits`. */
    predicate Covers(bits: nat, count: nat) {
      match this
      case Var(v) => count * (bits / 8) <= |v.data|
      case Const(_) => true
      case Bin(_, l, r) => l.Covers(bits, count) && r.Covers(bits, count)
      case DequantizeMatmul(_, _, _, _, _) => false
    }
  }

  /** An element-wise tree has the type of its leftmost leaf, whose kind and width a constant carries itself. */
  lemma {:induction false} RootType(e: Expr)
    requires !e.HasMatmul()
    ensures e.DataType() ==
      match e.Leftmost()
      case Var(v) => v.dtype
      case Const(FloatConst(_, b)) => Float(b)
      case Const(DynamicFloatConst(_)) => DynamicFloat
      case Const(ScalableFloatConst(_, b, x)) => ScalableFloat(b, x)
      case Const(FloatingIntConst(_, _)) => FloatingInt
      case Const(IntConst(_, b)) => Int(b)
      case Const(IntLimbsConst(_, b)) => Int(b)
      case Const(ScalableIntConst(_, b)) => ScalableInt(b)
      case Const(ScalableIntLimbsConst(_, b)) => ScalableInt(b)
      case _ => DynamicFloat
    decreases e
  {
    match e
    case Bin(_, l, _) => RootType(l);
    case Var(_) =>
    case Const(_) =>
  }

  /** Element `i` of a contiguous buffer of IEEE floats, as a double. */
  function Element(fpu: Fpu, bits: nat, data: seq<byte>, i: nat): u64
    requires bits == 32 || bits == 64
    requires (i + 1) * (bits / 8) <= |data|
  {
    if bits == 64 then
      FromLe64(data[8 * i..8 * i + 8])
    else
      fpu.widen(FromLe32(data[4 * i..4 * i + 4]))
  }

  /** A constant is rounded to the width of the kernel that holds it. */
  function Rounded(fpu: Fpu, bits: nat, c: u64): u64 {
    if bits == 64 then c else fpu.widen(fpu.narrow(c))
  }

  /**
   * The value of the tree at element `i`, computed in double precision. Each
   * variable is read at its own width, each constant rounded to width `bits`.
   */
  function Eval(fpu: Fpu, bits: nat, e: Expr, i: nat): u64
    requires bits == 32 || bits == 64
    requires e.Uniform(bits) && e.Covers(bits, i + 1)
  {
    match e
    case Var(v) => Element(fpu, v.dtype.bits, v.data, i)
    case Const(val) => Rounded(fpu, bits, val.ToDouble(fpu))
    case Bin(op, l, r) => fpu.Apply(op, Eval(fpu, bits, l, i), Eval(fpu, bits, r, i))
  }

  /** What is stored for a double in an output of width `bits`. */
  function StoredBytes(fpu: Fpu, bits: nat, v: u64): seq<byte> {
    if bits == 64 then LeBytes(v, 8) else LeBytes(fpu.narrow(v), 4)
  }

  /** Appends the entries of `ids` that are not there yet, in order of first occurrence. */
  function DedupOnto(acc: seq<nat>, ids: seq<nat>): seq<nat>
    decreases |ids|
  {
    if ids == [] then acc
    else DedupOnto(if ids[0] in acc then acc else acc + [ids[0]], ids[1..])
  }

  lemma {:induction false} DedupOntoConcat(acc: seq<nat>, a: seq<nat>, b: seq<nat>)
    ensures DedupOnto(acc, a + b) == DedupOnto(DedupOnto(acc, a), b)
    decreases |a|
  {
    if a == [] {
      assert a + b == b;
    } else {
      assert (a + b)[1..] == a[1..] + b;
      DedupOntoConcat(if a[0] in acc then acc else acc + [a[0]], a[1..], b);
    }
  }

  /** Exactly the entries of both lists survive, and nothing repeats. */
  lemma {:induction false} DedupOntoMembers(acc: seq<nat>, ids: seq<nat>)
    requires NoDup(acc)
    ensures NoDup(DedupOnto(acc, ids)) && acc <= DedupOnto(acc, ids)
    ensures forall x :: x in DedupOnto(acc, ids) <==> x in acc || x in ids
    decreases |ids|
  {
    if ids != [] {
      DedupOntoMembers(if ids[0] in acc then acc else acc + [ids[0]], ids[1..]);
    }
  }

  ghost predicate NoDup<T>(s: seq<T>) {
    forall a, b :: 0 <= a < b < |s| ==> s[a] != s[b]
  }

  function Ids(vs: seq<Variable>): (ids: seq<nat>)
    ensures |ids| == |vs| && forall k :: 0 <= k < |vs| ==> ids[k] == vs[k].id
  {
    seq(|vs|, k requires 0 <= k < |vs| => vs[k].id)
  }

  /** Variables of `vs` whose id is new, in order of first occurrence. */
  function FirstOnto(acc: seq<Variable>, vs: seq<Variable>): seq<Variable>
    decreases |vs|
  {
    if vs == [] then acc
    else FirstOnto(if vs[0].id in Ids(acc) then acc else acc + [vs[0]], vs[1..])
  }

  lemma IdsEmpty()
    ensures Ids([]) == []
  {
  }

  lemma IdsAppend(vs: seq<Variable>, x: Variable)
    ensures forall id :: id in Ids(vs + [x]) <==> id in Ids(vs) || id == x.id
  {
    assert Ids(vs + [x]) == Ids(vs) + [x.id];
  }

  lemma FirstOntoStep(acc: seq<Variable>, vs: seq<Variable>, k: nat)
    requires k < |vs|
    ensures FirstOnto(acc, vs[k..]) == FirstOnto(if vs[k].id in Ids(acc) then acc else acc + [vs[k]], vs[k + 1..])
  {
    assert vs[k..][1..] == vs[k + 1..];
  }

  lemma FirstOntoEnd(acc: seq<Variable>, vs: seq<Variable>)
    ensures FirstOnto(acc, vs[|vs|..]) == acc
  {
  }

  /** An id names one buffer. */
  ghost predicate OneBufferPerId(vs: seq<Variable>) {
    forall a, b :: 0 <= a < |vs| && 0 <= b < |vs| && vs[a].id == vs[b].id ==> vs[a].data == vs[b].data
  }
}
