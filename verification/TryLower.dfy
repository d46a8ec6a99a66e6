/** The front half of the custom JIT: arena to allocated program (jit/ir.rs, try_lower). */
module TryLower {
  import opened Words
  import opened DataTypes
  import opened Expr
  import opened Graph
  import opened Lower
  import opened Intervals
  import opened LinearScan
  import opened Pressure
  import opened Bounds
  import opened Ssa

  datatype NtProgram = NtProgram(
    insts: seq<Inst>,
    numVregs: nat,
    numInputs: nat,
    outputVreg: VReg,
    bits: nat,
    alloc: seq<nat>,
    intervals: seq<LiveInterval>,
    bounds: BoundsReport)

  /** A program the emitter can be trusted with. */
  ghost predicate ValidProgram(p: NtProgram) {
    (p.bits == 32 || p.bits == 64) &&
    InOrder(p.insts, p.numVregs) && p.insts[p.numVregs] == Store(p.outputVreg, p.bits) &&
    (forall k :: 0 <= k < p.numVregs ==> WidthAndSlot(p.insts[k], p.bits, p.numInputs)) &&
    |p.insts| <= MAX_INSTS && p.numInputs <= MAX_INPUTS &&
    p.intervals == SortByStart(Collect(p.insts, p.numVregs)) &&
    |p.alloc| == p.numVregs && Sound(p.intervals, p.alloc)
  }

  /** The program computes node `root`: each node's register holds the node's value. */
  ghost predicate Computes(fpu: Fpu, g: Graph, p: NtProgram, st: Lowered)
    requires WellFormed(g)
  {
    p.insts == st.insts + [Store(p.outputVreg, p.bits)] && |st.insts| == p.numVregs &&
    LowerInv(fpu, p.bits, g.nodes, st) && st.nodeVreg[g.root] == Some(p.outputVreg) &&
    |st.inputMap| == p.numInputs && DataTypeOf(g.nodes, g.root) == Float(p.bits)
  }

  /** Exactly the trees the custom JIT compiles; all others go to the general compiler. */
  predicate Accepts(e: Expr) {
    e.DataType().IeeeFloat() && !e.StealsSign() && e.Lowerable() && Need(e) <= 14 &&
    e.Count() + 1 <= 4096 && |DedupOnto([], Ids(e.Leaves()))| <= 256
  }

  lemma {:induction false} HoldsStealsSign(nodes: seq<Node>, lo: nat, e: Expr)
    requires Holds(nodes, lo, e)
    ensures e.StealsSign() <==>
      exists k :: lo <= k < lo + e.Count() && nodes[k].VarNode? && nodes[k].v.stealSign
    decreases e
  {
    match e
    case Bin(_, l, r) =>
      HoldsStealsSign(nodes, lo, l);
      HoldsStealsSign(nodes, lo + l.Count(), r);
    case DequantizeMatmul(a, w, _, _, _) =>
      HoldsStealsSign(nodes, lo, a);
      HoldsStealsSign(nodes, lo + a.Count(), w);
    case Var(_) => assert e.StealsSign() ==> nodes[lo].v.stealSign;
    case Const(_) =>
  }

  lemma {:induction false} HoldsSupported(nodes: seq<Node>, lo: nat, e: Expr)
    requires Backward(nodes) && Holds(nodes, lo, e)
    ensures Supported(nodes, lo + e.Count() - 1) <==> e.Lowerable()
    decreases e
  {
    match e
    case Bin(_, l, r) =>
      HoldsSupported(nodes, lo, l);
      HoldsSupported(nodes, lo + l.Count(), r);
    case _ =>
  }

  lemma {:induction false} LowerableHasNoMatmul(e: Expr)
    requires e.Lowerable()
    ensures !e.HasMatmul()
    decreases e
  {
    match e
    case Bin(_, l, r) =>
      LowerableHasNoMatmul(l);
      LowerableHasNoMatmul(r);
    case _ =>
  }

  function Fresh(n: nat): Lowered {
    Lowered([], seq(n, _ => None), [])
  }

  /** Lowering the arena of a tree numbers the registers like the nodes. */
  lemma ArenaLowered(fpu: Fpu, bits: nat, g: Graph, e: Expr, st: Lowered)
    requires WellFormed(g) && IsArenaOf(g, e)
    requires LowerInv(fpu, bits, g.nodes, st) && TreeStep(g.nodes, Fresh(|g.nodes|), st, g.root)
    ensures |st.insts| == e.Count() && st.inputMap == DedupOnto([], Ids(e.Leaves()))
    ensures CodeOf(st.insts, 0, e) && st.nodeVreg[g.root] == Some(g.root)
  {
    assert FreshTree(g.nodes, Fresh(|g.nodes|), 0, e);
    assert TreeLowered(g.nodes, Fresh(|g.nodes|), st, 0, e);
    assert forall n :: 0 <= n < e.Count() ==> st.nodeVreg[n] == Some(n);
    HoldsBackward(g.nodes, 0, e);
    forall n | 0 <= n < 0 + e.Count()
      ensures InstOfNode(g.nodes[n], n, st.insts[n])
    {
      LoweredInst(fpu, bits, g.nodes, st, n);
    }
    LoweredCode(g.nodes, st.insts, 0, e);
  }

  /** The allocator succeeds on the program of a tree exactly when the tree's need fits. */
  lemma ArenaFits(insts: seq<Inst>, all: seq<Inst>, n: nat, out: VReg, bits: nat, e: Expr)
    requires |insts| == e.Count() == n && out == n - 1
    requires Ordered(insts) && CodeOf(insts, 0, e) && e.Lowerable()
    requires all == insts + [Store(out, bits)]
    ensures Fits(SortByStart(Collect(all, n))) <==> Need(e) <= NUM_PHYS_REGS
  {
    LowerableHasNoMatmul(e);
    CodeOfExtend(insts, all, 0, e);
    assert InOrder(all, n);
    ProgramIntervals(all, e);
    FitsExactly(e);
  }

  /** The arena passes the checks made before and while lowering. */
  ghost predicate Lowers(g: Graph)
    requires WellFormed(g)
  {
    DataTypeOf(g.nodes, g.root).IeeeFloat() && Supported(g.nodes, g.root) &&
    forall k :: 0 <= k < |g.nodes| ==> !(g.nodes[k].VarNode? && g.nodes[k].v.stealSign)
  }

  lemma ArenaLowers(g: Graph, e: Expr)
    requires WellFormed(g) && IsArenaOf(g, e)
    ensures Lowers(g) <==> e.DataType().IeeeFloat() && !e.StealsSign() && e.Lowerable()
  {
    HoldsDataType(g.nodes, 0, e);
    HoldsSupported(g.nodes, 0, e);
    HoldsStealsSign(g.nodes, 0, e);
  }

  /** Type check, sign check, and lowering; the root register is the last one of the result. */
  method LowerRoot(fpu: Fpu, g: Graph) 
    returns (out: Option<VReg>, bits: nat, insts: seq<Inst>, numInputs: nat, ghost st: Lowered)
    requires WellFormed(g)
    ensures out.Some? <==> Lowers(g)
    ensures out.Some? ==>
      LowerInv(fpu, bits, g.nodes, st) && insts == st.insts && numInputs == |st.inputMap| && st.nodeVreg[g.root] == out &&
      DataTypeOf(g.nodes, g.root) == Float(bits) && TreeStep(g.nodes, Fresh(|g.nodes|), st, g.root)
  {
    out, bits, insts, numInputs, st := None, 0, [], 0, Fresh(|g.nodes|);
    var dtype := DataTypeOf(g.nodes, g.root);
    if !dtype.IeeeFloat() {
      return;
    }
    bits := dtype.bits;
    for k := 0 to |g.nodes|
      invariant forall j :: 0 <= j < k ==> !(g.nodes[j].VarNode? && g.nodes[j].v.stealSign)
    {
      if g.nodes[k].VarNode? && g.nodes[k].v.stealSign {
        return;
      }
    }
    var ctx := new LowerCtx(|g.nodes|);
    assert ctx.State() == Fresh(|g.nodes|);
    out := ctx.LowerNode(fpu, g.nodes, g.root, bits);
    insts, numInputs, st := ctx.insts, |ctx.inputMap|, ctx.State();
  }

  /** What is known about the program of a lowered tree, before allocation. */
  lemma ArenaProgram(fpu: Fpu, bits: nat, g: Graph, e: Expr, st: Lowered, all: seq<Inst>)
    requires WellFormed(g) && IsArenaOf(g, e) && Lowers(g)
    requires LowerInv(fpu, bits, g.nodes, st) && TreeStep(g.nodes, Fresh(|g.nodes|), st, g.root)
    requires st.nodeVreg[g.root].Some? && all == st.insts + [Store(st.nodeVreg[g.root].value, bits)]
    ensures |st.insts| == e.Count() && st.inputMap == DedupOnto([], Ids(e.Leaves()))
    ensures Accepts(e) <==>
      Fits(SortByStart(Collect(all, |st.insts|))) && |all| <= MAX_INSTS && |st.inputMap| <= MAX_INPUTS
  {
    ArenaLowers(g, e);
    ArenaLowered(fpu, bits, g, e, st);
    ArenaFits(st.insts, all, |st.insts|, g.root, bits, e);
  }

  method TryLower(fpu: Fpu, g: Graph) returns (r: Option<NtProgram>, ghost st: Lowered)
    requires WellFormed(g)
    ensures r.Some? ==> ValidProgram(r.value) && Computes(fpu, g, r.value, st)
    ensures r.Some? ==>
      r.value.bounds.structurallyValid && r.value.bounds.firstViolation == None &&
      MarksDivisions(r.value.insts, r.value.numVregs, r.value.bounds.nanVregs, r.value.bounds.overflowSites)
    ensures forall e :: IsArenaOf(g, e) && r.Some? ==> st.inputMap == DedupOnto([], Ids(e.Leaves()))
    ensures forall e :: IsArenaOf(g, e) ==> (r.Some? <==> Accepts(e))
  {
    r := None;
    var out, bits, lowered, numInputs;
    out, bits, lowered, numInputs, st := LowerRoot(fpu, g);
    if out.None? {
      forall e | IsArenaOf(g, e)
        ensures !Accepts(e)
      {
        ArenaLowers(g, e);
      }
      return;
    }
    assert NodeInv(fpu, bits, g.nodes, st, g.root);
    var numVregs := |lowered|;
    var insts := lowered + [Store(out.value, bits)];
    forall e | IsArenaOf(g, e)
      ensures st.inputMap == DedupOnto([], Ids(e.Leaves()))
      ensures Accepts(e) <==>
        Fits(SortByStart(Collect(insts, numVregs))) && |insts| <= MAX_INSTS && |st.inputMap| <= MAX_INPUTS
    {
      ArenaProgram(fpu, bits, g, e, st, insts);
    }
    InOrderInRange(insts, numVregs);
    InOrderIntervals(insts, numVregs);
    var intervals := ComputeIntervals(insts, numVregs);
    var alloc := LinearScanAlloc(intervals, numVregs);
    if alloc.None? {
      return;
    }
    var report := CheckProgram(insts, numVregs, numInputs, |alloc.value|, bits);
    if report.structurallyValid {
      r := Some(NtProgram(insts, numVregs, numInputs, out.value, bits, alloc.value, intervals, report));
    }
  }
}
