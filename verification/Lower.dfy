/**
 * Lowering an arena to straight-line SSA code (jit/ir.rs): one instruction a
 * node, operands first, each node lowered once and each input given one slot.
 */
module Lower {
  import opened Words
  import opened DataTypes
  import opened Expr
  import opened Graph

  type VReg = nat

  datatype Inst =
    | Load(dst: VReg, inputIdx: nat, bits: nat)
    | ConstInst(dst: VReg, val: u64, bits: nat)
    | BinInst(dst: VReg, op: BinOp, lhs: VReg, rhs: VReg)
    | Store(src: VReg, bits: nat)

  /** The custom JIT can lower the subgraph at `id`. */
  predicate Supported(nodes: seq<Node>, id: nat)
    requires Backward(nodes) && id < |nodes|
    decreases id
  {
    match nodes[id]
    case VarNode(v) => v.dtype.IeeeFloat()
    case ConstNode(_) => true
    case BinNode(_, l, r) => Supported(nodes, l) && Supported(nodes, r)
    case MatmulNode(_, _, _, _, _) => false
  }

  /** The fields of a lowering context as one value. */
  datatype Lowered = Lowered(insts: seq<Inst>, nodeVreg: seq<Option<VReg>>, inputMap: seq<nat>)

  /** `inst` computes `node` into register `dst` from the registers of its operands. */
  predicate Implements(fpu: Fpu, bits: nat, node: Node, inst: Inst, dst: VReg, st: Lowered) {
    match node
    case VarNode(v) =>
      inst.Load? && inst.dst == dst && inst.bits == bits &&
      inst.inputIdx < |st.inputMap| && st.inputMap[inst.inputIdx] == v.id
    case ConstNode(val) => inst == ConstInst(dst, val.ToDouble(fpu), bits)
    case BinNode(op, l, r) =>
      l < |st.nodeVreg| && r < |st.nodeVreg| && st.nodeVreg[l].Some? && st.nodeVreg[r].Some? &&
      st.nodeVreg[l].value < dst && st.nodeVreg[r].value < dst &&
      inst == BinInst(dst, op, st.nodeVreg[l].value, st.nodeVreg[r].value)
    case MatmulNode(_, _, _, _, _) => false
  }

  /**
   * Single assignment in order: instruction k defines register k from earlier
   * registers, and the register of each lowered node holds that node's value.
   */
  ghost predicate LowerInv(fpu: Fpu, bits: nat, nodes: seq<Node>, st: Lowered)
    requires Backward(nodes)
  {
    |st.nodeVreg| == |nodes| && NoDup(st.inputMap) &&
    (forall k :: 0 <= k < |st.insts| ==> DefinesInOrder(st.insts[k], k)) &&
    (forall k :: 0 <= k < |st.insts| ==> WidthAndSlot(st.insts[k], bits, |st.inputMap|)) &&
    (forall n :: 0 <= n < |nodes| ==> NodeInv(fpu, bits, nodes, st, n))
  }

  /** If node `n` is lowered, its register's instruction implements it. */
  ghost predicate NodeInv(fpu: Fpu, bits: nat, nodes: seq<Node>, st: Lowered, n: nat)
    requires Backward(nodes) && n < |nodes| == |st.nodeVreg|
  {
    st.nodeVreg[n].Some? ==>
      var v := st.nodeVreg[n].value;
      v < |st.insts| && Supported(nodes, n) && Implements(fpu, bits, nodes[n], st.insts[v], v, st)
  }

  /** Loads and constants have the kernel's width, loads an input slot that exists. */
  predicate WidthAndSlot(inst: Inst, bits: nat, numInputs: nat) {
    match inst
    case Load(_, slot, b) => b == bits && slot < numInputs
    case ConstInst(_, _, b) => b == bits
    case _ => true
  }

  predicate DefinesInOrder(inst: Inst, k: nat) {
    match inst
    case Load(dst, _, _) => dst == k
    case ConstInst(dst, _, _) => dst == k
    case BinInst(dst, _, lhs, rhs) => dst == k && lhs < k && rhs < k
    case Store(_, _) => false
  }

  /** Lowering the node `id` only adds: nothing already lowered changes. */
  ghost predicate Extends(st0: Lowered, st1: Lowered, id: nat) {
    st0.insts <= st1.insts && st0.inputMap <= st1.inputMap && |st0.nodeVreg| == |st1.nodeVreg| &&
    (forall n :: 0 <= n < |st0.nodeVreg| && (st0.nodeVreg[n].Some? || n > id) ==> st1.nodeVreg[n] == st0.nodeVreg[n])
  }

  /** The tree `e` sits at `lo` and none of it is lowered yet. */
  ghost predicate FreshTree(nodes: seq<Node>, st: Lowered, lo: nat, e: Expr) {
    Holds(nodes, lo, e) && |st.nodeVreg| == |nodes| &&
    forall n :: lo <= n < lo + e.Count() ==> st.nodeVreg[n].None?
  }

  /** A fresh tree costs one instruction a node, in node order; inputs are numbered as they first occur. */
  ghost predicate TreeLowered(nodes: seq<Node>, st0: Lowered, st1: Lowered, lo: nat, e: Expr) {
    |st1.nodeVreg| == |nodes| && lo + e.Count() <= |nodes| &&
    |st1.insts| == |st0.insts| + e.Count() &&
    st1.inputMap == DedupOnto(st0.inputMap, Ids(e.Leaves())) &&
    forall n :: lo <= n < lo + e.Count() ==> st1.nodeVreg[n] == Some(|st0.insts| + n - lo)
  }

  ghost predicate TreeStep(nodes: seq<Node>, st0: Lowered, st1: Lowered, id: nat) {
    forall lo: nat, e: Expr {:trigger FreshTree(nodes, st0, lo, e)} ::
      lo + e.Count() - 1 == id && FreshTree(nodes, st0, lo, e) ==> TreeLowered(nodes, st0, st1, lo, e)
  }

  /** Appending the instruction of node `id` keeps the invariant. */
  lemma PushKeepsInv(fpu: Fpu, bits: nat, nodes: seq<Node>, st: Lowered, st': Lowered, id: nat, inst: Inst)
    requires Backward(nodes) && LowerInv(fpu, bits, nodes, st)
    requires id < |nodes| && st.nodeVreg[id].None? && Supported(nodes, id)
    requires st.inputMap <= st'.inputMap && NoDup(st'.inputMap)
    requires st'.insts == st.insts + [inst] && st'.nodeVreg == st.nodeVreg[id := Some(|st.insts|)]
    requires DefinesInOrder(inst, |st.insts|) && Implements(fpu, bits, nodes[id], inst, |st.insts|, st')
    ensures LowerInv(fpu, bits, nodes, st') && Extends(st, st', id)
  {
    forall n | 0 <= n < |nodes|
      ensures NodeInv(fpu, bits, nodes, st', n)
    {
      assert NodeInv(fpu, bits, nodes, st, n);
    }
  }

  lemma LeafTreeStep(nodes: seq<Node>, st: Lowered, st': Lowered, id: nat)
    requires Backward(nodes) && id < |nodes| == |st.nodeVreg| && (nodes[id].VarNode? || nodes[id].ConstNode?)
    requires |st'.insts| == |st.insts| + 1 && st'.nodeVreg == st.nodeVreg[id := Some(|st.insts|)]
    requires st'.inputMap == (
      if nodes[id].ConstNode? || nodes[id].v.id in st.inputMap then st.inputMap else st.inputMap + [nodes[id].v.id])
    ensures TreeStep(nodes, st, st', id)
  {
    forall lo: nat, e: Expr | lo + e.Count() - 1 == id && FreshTree(nodes, st, lo, e)
      ensures TreeLowered(nodes, st, st', lo, e)
    {
      match e
      case Var(v) => assert Ids(e.Leaves()) == [v.id] && [v.id][1..] == [];
      case Const(_) => assert Ids(e.Leaves()) == [];
      case _ =>
    }
  }

  lemma BinTreeStep(nodes: seq<Node>, st0: Lowered, st1: Lowered, st2: Lowered, st3: Lowered, id: nat)
    requires Backward(nodes) && id < |nodes| == |st0.nodeVreg| && nodes[id].BinNode?
    requires Extends(st0, st1, nodes[id].l) && TreeStep(nodes, st0, st1, nodes[id].l)
    requires Extends(st1, st2, nodes[id].r) && TreeStep(nodes, st1, st2, nodes[id].r)
    requires |st3.insts| == |st2.insts| + 1 && st3.inputMap == st2.inputMap
    requires st3.nodeVreg == st2.nodeVreg[id := Some(|st2.insts|)]
    ensures TreeStep(nodes, st0, st3, id)
  {
    hide FreshTree, TreeLowered, Extends;
    forall lo: nat, e: Expr | lo + e.Count() - 1 == id && FreshTree(nodes, st0, lo, e)
      ensures TreeLowered(nodes, st0, st3, lo, e)
    {
      FreshBin(nodes, st0, lo, e, id);
      OperandsTreeLowered(nodes, st0, st1, st2, lo, e.left, e.right);
      ThenOperation(nodes, st0, st2, st3, lo, e, id);
    }
  }

  /** A fresh tree on top of which an operation sits is that operation on two fresh trees. */
  lemma FreshBin(nodes: seq<Node>, st0: Lowered, lo: nat, e: Expr, id: nat)
    requires id < |nodes| && nodes[id].BinNode? && lo + e.Count() - 1 == id && FreshTree(nodes, st0, lo, e)
    ensures e.Bin? && nodes[id].l == lo + e.left.Count() - 1 && nodes[id].r == lo + e.left.Count() + e.right.Count() - 1
    ensures FreshTree(nodes, st0, lo, e.left) && Holds(nodes, lo + e.left.Count(), e.right)
    ensures |st0.nodeVreg| == |nodes|
    ensures forall n :: lo <= n < lo + e.left.Count() + e.right.Count() ==> st0.nodeVreg[n].None?
  {
    hide Holds;
    HoldsParts(nodes, lo, e);
  }

  lemma ThenOperation(nodes: seq<Node>, st0: Lowered, st2: Lowered, st3: Lowered, lo: nat, e: Expr, id: nat)
    requires e.Bin? && lo + e.Count() - 1 == id < |nodes| == |st2.nodeVreg|
    requires |st2.insts| == |st0.insts| + e.left.Count() + e.right.Count()
    requires st2.inputMap == DedupOnto(st0.inputMap, Ids(e.left.Leaves() + e.right.Leaves()))
    requires forall n :: lo <= n < lo + e.left.Count() + e.right.Count() ==> st2.nodeVreg[n] == Some(|st0.insts| + n - lo)
    requires |st3.insts| == |st2.insts| + 1 && st3.inputMap == st2.inputMap
    requires st3.nodeVreg == st2.nodeVreg[id := Some(|st2.insts|)]
    ensures TreeLowered(nodes, st0, st3, lo, e)
  {
    hide DedupOnto, Ids;
  }

  /** Left operand, then right operand: both trees are fresh when their turn comes. */
  lemma OperandsTreeLowered(nodes: seq<Node>, st0: Lowered, st1: Lowered, st2: Lowered, lo: nat, l: Expr, r: Expr)
    requires FreshTree(nodes, st0, lo, l) && Holds(nodes, lo + l.Count(), r)
    requires forall n :: lo <= n < lo + l.Count() + r.Count() ==> st0.nodeVreg[n].None?
    requires Extends(st0, st1, lo + l.Count() - 1) && TreeStep(nodes, st0, st1, lo + l.Count() - 1)
    requires Extends(st1, st2, lo + l.Count() + r.Count() - 1)
    requires TreeStep(nodes, st1, st2, lo + l.Count() + r.Count() - 1)
    ensures |st2.insts| == |st0.insts| + l.Count() + r.Count()
    ensures st2.inputMap == DedupOnto(st0.inputMap, Ids(l.Leaves() + r.Leaves()))
    ensures |st2.nodeVreg| == |nodes|
    ensures forall n :: lo <= n < lo + l.Count() + r.Count() ==> st2.nodeVreg[n] == Some(|st0.insts| + n - lo)
  {
    FreshRight(nodes, st0, st1, lo, l, r);
    hide FreshTree, TreeLowered, Ids, DedupOnto, Holds;
    assert TreeLowered(nodes, st0, st1, lo, l);
    assert TreeLowered(nodes, st1, st2, lo + l.Count(), r);
    TreeLoweredTwice(nodes, st0, st1, st2, lo, l, r);
  }

  lemma FreshRight(nodes: seq<Node>, st0: Lowered, st1: Lowered, lo: nat, l: Expr, r: Expr)
    requires FreshTree(nodes, st0, lo, l) && Holds(nodes, lo + l.Count(), r)
    requires forall n :: lo <= n < lo + l.Count() + r.Count() ==> st0.nodeVreg[n].None?
    requires Extends(st0, st1, lo + l.Count() - 1)
    ensures FreshTree(nodes, st1, lo + l.Count(), r)
  {
    hide Ids, DedupOnto;
  }

  lemma TreeLoweredTwice(nodes: seq<Node>, st0: Lowered, st1: Lowered, st2: Lowered, lo: nat, l: Expr, r: Expr)
    requires TreeLowered(nodes, st0, st1, lo, l) && TreeLowered(nodes, st1, st2, lo + l.Count(), r)
    requires Extends(st1, st2, lo + l.Count() + r.Count() - 1)
    ensures |st2.insts| == |st0.insts| + l.Count() + r.Count()
    ensures st2.inputMap == DedupOnto(st0.inputMap, Ids(l.Leaves() + r.Leaves()))
    ensures |st2.nodeVreg| == |nodes|
    ensures forall n :: lo <= n < lo + l.Count() + r.Count() ==> st2.nodeVreg[n] == Some(|st0.insts| + n - lo)
  {
    hide Ids, DedupOnto;
    IdsConcat(l.Leaves(), r.Leaves());
    DedupOntoConcat(st0.inputMap, Ids(l.Leaves()), Ids(r.Leaves()));
  }

  lemma IdsConcat(a: seq<Variable>, b: seq<Variable>)
    ensures Ids(a + b) == Ids(a) + Ids(b)
  {
  }

  /** The operation node `id`, appended after both its operands are lowered. */
  lemma BinDone(fpu: Fpu, bits: nat, nodes: seq<Node>, st0: Lowered, st1: Lowered, st2: Lowered, st3: Lowered, id: nat,
                lhs: VReg, rhs: VReg)
    requires Backward(nodes) && id < |nodes| == |st0.nodeVreg| && nodes[id].BinNode? && st0.nodeVreg[id].None?
    requires Extends(st0, st1, nodes[id].l) && TreeStep(nodes, st0, st1, nodes[id].l)
    requires Extends(st1, st2, nodes[id].r) && TreeStep(nodes, st1, st2, nodes[id].r)
    requires LowerInv(fpu, bits, nodes, st2) && Supported(nodes, id)
    requires st1.nodeVreg[nodes[id].l] == Some(lhs) && st2.nodeVreg[nodes[id].r] == Some(rhs)
    requires st3.insts == st2.insts + [BinInst(|st2.insts|, nodes[id].op, lhs, rhs)]
    requires st3.nodeVreg == st2.nodeVreg[id := Some(|st2.insts|)] && st3.inputMap == st2.inputMap
    ensures LowerInv(fpu, bits, nodes, st3) && Extends(st0, st3, id) && TreeStep(nodes, st0, st3, id)
  {
    assert NodeInv(fpu, bits, nodes, st2, nodes[id].l) && NodeInv(fpu, bits, nodes, st2, nodes[id].r);
    PushKeepsInv(fpu, bits, nodes, st2, st3, id, BinInst(|st2.insts|, nodes[id].op, lhs, rhs));
    BinTreeStep(nodes, st0, st1, st2, st3, id);
  }

  class LowerCtx {
    var insts: seq<Inst>
    var vregCtr: nat
    var nodeVreg: seq<Option<VReg>>
    var inputMap: seq<nat>

    ghost function State(): Lowered
      reads this
    {
      Lowered(insts, nodeVreg, inputMap)
    }

    ghost predicate Valid(fpu: Fpu, bits: nat, nodes: seq<Node>)
      requires Backward(nodes)
      reads this
    {
      vregCtr == |insts| && LowerInv(fpu, bits, nodes, State())
    }

    constructor (numNodes: nat)
      ensures insts == [] && vregCtr == 0 && inputMap == []
      ensures nodeVreg == seq(numNodes, _ => None)
    {
      insts, vregCtr, inputMap := [], 0, [];
      nodeVreg := seq(numNodes, _ => None);
    }

    method FreshVreg() returns (v: VReg)
      modifies this`vregCtr
      ensures v == old(vregCtr) && vregCtr == v + 1
    {
      v := vregCtr;
      vregCtr := vregCtr + 1;
    }

    /** The input slot of a variable: its position if it was seen before, a new last slot otherwise. */
    method InputSlot(id: nat) returns (slot: nat)
      requires NoDup(inputMap)
      modifies this`inputMap
      ensures slot < |inputMap| && inputMap[slot] == id && NoDup(inputMap)
      ensures inputMap == if id in old(inputMap) then old(inputMap) else old(inputMap) + [id]
    {
      slot := 0;
      while slot < |inputMap| && inputMap[slot] != id
        invariant slot <= |inputMap| && id !in inputMap[..slot]
      {
        slot := slot + 1;
      }
      if slot == |inputMap| {
        inputMap := inputMap + [id];
      }
    }

    method LowerNode(fpu: Fpu, nodes: seq<Node>, id: nat, bits: nat) returns (r: Option<VReg>)
      requires Backward(nodes) && id < |nodes| && Valid(fpu, bits, nodes)
      modifies this
      ensures r.Some? <==> Supported(nodes, id)
      ensures r.Some? ==> Valid(fpu, bits, nodes) && Extends(old(State()), State(), id) && nodeVreg[id] == r
      ensures r.Some? ==> TreeStep(nodes, old(State()), State(), id)
      decreases id
    {
      assert NodeInv(fpu, bits, nodes, State(), id);
      if nodeVreg[id].Some? {
        return nodeVreg[id];
      }
      ghost var before := State();
      var vreg: VReg;
      match nodes[id] {
        case VarNode(v) =>
          if !v.dtype.IeeeFloat() {
            return None;
          }
          var slot := InputSlot(v.id);
          vreg := FreshVreg();
          insts := insts + [Load(vreg, slot, bits)];
          nodeVreg := nodeVreg[id := Some(vreg)];
          PushKeepsInv(fpu, bits, nodes, before, State(), id, Load(vreg, slot, bits));
          LeafTreeStep(nodes, before, State(), id);
        case ConstNode(val) =>
          vreg := FreshVreg();
          insts := insts + [ConstInst(vreg, val.ToDouble(fpu), bits)];
          nodeVreg := nodeVreg[id := Some(vreg)];
          PushKeepsInv(fpu, bits, nodes, before, State(), id, ConstInst(vreg, val.ToDouble(fpu), bits));
          LeafTreeStep(nodes, before, State(), id);
        case BinNode(op, left, right) =>
          var lhs := LowerNode(fpu, nodes, left, bits);
          if lhs.None? {
            return None;
          }
          ghost var afterLeft := State();
          var rhs := LowerNode(fpu, nodes, right, bits);
          if rhs.None? {
            return None;
          }
          ghost var afterRight := State();
          vreg := FreshVreg();
          insts := insts + [BinInst(vreg, op, lhs.value, rhs.value)];
          nodeVreg := nodeVreg[id := Some(vreg)];
          BinDone(fpu, bits, nodes, before, afterLeft, afterRight, State(), id, lhs.value, rhs.value);
        case MatmulNode(_, _, _, _, _) =>
          return None;
      }
      return Some(vreg);
    }
  }
}
