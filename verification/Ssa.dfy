/** What a lowered program computes for one element. */
module Ssa {
  import opened Words
  import opened DataTypes
  import opened Expr
  import opened Graph
  import opened Lower

  /** Registers are defined in order by all of `insts`. */
  ghost predicate Ordered(insts: seq<Inst>) {
    forall k :: 0 <= k < |insts| ==> DefinesInOrder(insts[k], k)
  }

  /** The value of register `v`, given the element each input slot delivers. */
  ghost function Value(fpu: Fpu, insts: seq<Inst>, load: nat -> u64, v: VReg): u64
    requires Ordered(insts) && v < |insts|
    decreases v
  {
    assert DefinesInOrder(insts[v], v);
    match insts[v]
    case Load(_, slot, _) => load(slot)
    case ConstInst(_, val, bits) => Rounded(fpu, bits, val)
    case BinInst(_, op, lhs, rhs) =>
      fpu.Apply(op, Value(fpu, insts, load, lhs), Value(fpu, insts, load, rhs))
  }

  /** Each slot delivers element `i` of the buffer of the variable whose id it is numbered by. */
  ghost predicate LoadsElement(fpu: Fpu, bits: nat, e: Expr, i: nat, inputMap: seq<nat>, load: nat -> u64)
    requires bits == 32 || bits == 64
    requires e.Uniform(bits) && e.Covers(bits, i + 1)
  {
    match e
    case Var(x) =>
      forall slot :: 0 <= slot < |inputMap| && inputMap[slot] == x.id ==> load(slot) == Element(fpu, bits, x.data, i)
    case Const(_) => true
    case Bin(_, l, r) =>
      LoadsElement(fpu, bits, l, i, inputMap, load) && LoadsElement(fpu, bits, r, i, inputMap, load)
  }

  /**
   * The register of a node holds the value of the tree below it: lowering
   * preserves meaning.
   */
  lemma {:induction false} LoweringPreservesValue(
      fpu: Fpu, bits: nat, nodes: seq<Node>, st: Lowered, lo: nat, e: Expr, i: nat, load: nat -> u64)
    requires Backward(nodes) && LowerInv(fpu, bits, nodes, st) && Holds(nodes, lo, e)
    requires st.nodeVreg[lo + e.Count() - 1].Some?
    requires (bits == 32 || bits == 64) && e.Uniform(bits) && e.Covers(bits, i + 1)
    requires LoadsElement(fpu, bits, e, i, st.inputMap, load)
    ensures Ordered(st.insts) && st.nodeVreg[lo + e.Count() - 1].value < |st.insts|
    ensures Value(fpu, st.insts, load, st.nodeVreg[lo + e.Count() - 1].value) == Eval(fpu, bits, e, i)
    decreases e
  {
    assert NodeInv(fpu, bits, nodes, st, lo + e.Count() - 1);
    match e
    case Var(_) =>
    case Const(_) =>
    case Bin(_, l, r) =>
      LoweringPreservesValue(fpu, bits, nodes, st, lo, l, i, load);
      LoweringPreservesValue(fpu, bits, nodes, st, lo + l.Count(), r, i, load);
  }
}
