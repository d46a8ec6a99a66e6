/** How many registers the code of a tree needs. */
module Pressure {
  import opened Words
  import opened DataTypes
  import opened Expr
  import opened Graph
  import opened Lower
  import opened Intervals
  import opened LinearScan

  /**
   * The most values of a tree that are live at one point: the left operand waits
   * while the right one is computed, and an operation needs both and its result.
   */
  function Need(e: Expr): nat {
    match e
    case Var(_) => 1
    case Const(_) => 1
    case Bin(_, l, r) => Max(Max(Need(l), 1 + Need(r)), 3)
    case DequantizeMatmul(_, _, _, _, _) => 1
  }

  /** `insts` holds the code of `e` in post-order from index `lo`, register k defined by instruction k. */
  ghost predicate CodeOf(insts: seq<Inst>, lo: nat, e: Expr)
    decreases e
  {
    var top := lo + e.Count() - 1;
    top < |insts| &&
    match e
    case Var(_) => insts[lo].Load? && insts[lo].dst == lo
    case Const(_) => insts[lo].ConstInst? && insts[lo].dst == lo
    case Bin(op, l, r) =>
      var mid := lo + l.Count();
      CodeOf(insts, lo, l) && CodeOf(insts, mid, r) && insts[top] == BinInst(top, op, mid - 1, top - 1)
    case DequantizeMatmul(_, _, _, _, _) => false
  }

  /** `inst` computes node `n` into register n from the registers numbered like its operands. */
  predicate InstOfNode(node: Node, n: nat, inst: Inst) {
    match node
    case VarNode(_) => inst.Load? && inst.dst == n
    case ConstNode(_) => inst.ConstInst? && inst.dst == n
    case BinNode(op, l, r) => inst == BinInst(n, op, l, r)
    case MatmulNode(_, _, _, _, _) => false
  }

  lemma LoweredInst(fpu: Fpu, bits: nat, nodes: seq<Node>, st: Lowered, n: nat)
    requires Backward(nodes) && LowerInv(fpu, bits, nodes, st) && n < |nodes|
    requires st.nodeVreg[n] == Some(n)
    requires nodes[n].BinNode? ==> st.nodeVreg[nodes[n].l] == Some(nodes[n].l) && st.nodeVreg[nodes[n].r] == Some(nodes[n].r)
    ensures n < |st.insts| && InstOfNode(nodes[n], n, st.insts[n])
  {
    assert NodeInv(fpu, bits, nodes, st, n);
  }

  lemma CodeParts(insts: seq<Inst>, lo: nat, e: Expr)
    requires CodeOf(insts, lo, e)
    ensures lo + e.Count() <= |insts| && !e.DequantizeMatmul?
    ensures e.Bin? ==> CodeOf(insts, lo, e.left) && CodeOf(insts, lo + e.left.Count(), e.right)
    ensures TopInst(insts[lo + e.Count() - 1], lo, e)
  {
  }

  /** The instruction on top of a tree's code, given where the code starts. */
  predicate TopInst(inst: Inst, lo: nat, e: Expr) {
    match e
    case Var(_) => inst.Load? && inst.dst == lo
    case Const(_) => inst.ConstInst? && inst.dst == lo
    case Bin(op, l, r) =>
      inst == BinInst(lo + l.Count() + r.Count(), op, lo + l.Count() - 1, lo + l.Count() + r.Count() - 1)
    case DequantizeMatmul(_, _, _, _, _) => false
  }

  lemma CodeIntro(insts: seq<Inst>, lo: nat, e: Expr)
    requires lo + e.Count() <= |insts| && TopInst(insts[lo + e.Count() - 1], lo, e)
    requires e.Bin? ==> CodeOf(insts, lo, e.left) && CodeOf(insts, lo + e.left.Count(), e.right)
    ensures CodeOf(insts, lo, e)
  {
  }

  lemma {:induction false} LoweredCode(nodes: seq<Node>, insts: seq<Inst>, lo: nat, e: Expr)
    requires Holds(nodes, lo, e) && |insts| >= lo + e.Count()
    requires forall n :: lo <= n < lo + e.Count() ==> InstOfNode(nodes[n], n, insts[n])
    ensures CodeOf(insts, lo, e)
    decreases e
  {
    hide Holds, CodeOf;
    HoldsParts(nodes, lo, e);
    var top := lo + e.Count() - 1;
    assert InstOfNode(nodes[top], top, insts[top]);
    match e {
      case Bin(_, l, r) =>
        LoweredCode(nodes, insts, lo, l);
        LoweredCode(nodes, insts, lo + l.Count(), r);
      case _ =>
    }
    CodeIntro(insts, lo, e);
  }

  lemma {:induction false} CodeOfExtend(insts: seq<Inst>, more: seq<Inst>, lo: nat, e: Expr)
    requires CodeOf(insts, lo, e) && insts <= more
    ensures CodeOf(more, lo, e)
    decreases e
  {
    hide CodeOf, TopInst;
    CodeParts(insts, lo, e);
    if e.Bin? {
      CodeOfExtend(insts, more, lo, e.left);
      CodeOfExtend(insts, more, lo + e.left.Count(), e.right);
    }
    CodeIntro(more, lo, e);
  }

  /** The last use of value `v` of a tree: its parent; for the root, `end`. */
  ghost function EndOf(e: Expr, lo: nat, end: nat, v: nat): nat
    decreases e
  {
    match e
    case Bin(_, l, r) =>
      var mid := lo + l.Count();
      var top := mid + r.Count();
      if v < mid then EndOf(l, lo, top, v) else if v < top then EndOf(r, mid, top, v) else end
    case _ => end
  }

  /** In instructions lo..top each value but the last is read by one instruction, the one `ends` names. */
  ghost predicate UsesMatch(insts: seq<Inst>, lo: nat, top: nat, ends: nat -> nat) {
    lo <= top < |insts| &&
    (forall v :: lo <= v < top ==> ReadAt(insts, v, ends(v), top)) &&
    (forall m :: lo <= m <= top ==> ReadsOnly(insts[m], m, lo, top, ends))
  }

  ghost predicate ReadAt(insts: seq<Inst>, v: nat, at: nat, top: nat) {
    v < at <= top < |insts| && Mentions(insts[at], v)
  }

  /** Instruction m reads only values of lo..top that end at m. */
  ghost predicate ReadsOnly(inst: Inst, m: nat, lo: nat, top: nat, ends: nat -> nat) {
    forall v: VReg :: Mentions(inst, v) && v != m ==> lo <= v < top && ends(v) == m
  }

  /** The parent of a value is the one instruction that reads it. */
  lemma {:induction false} CodeUses(insts: seq<Inst>, lo: nat, e: Expr, end: nat)
    requires CodeOf(insts, lo, e)
    ensures UsesMatch(insts, lo, lo + e.Count() - 1, (v: nat) => EndOf(e, lo, end, v))
    ensures EndOf(e, lo, end, lo + e.Count() - 1) == end
    decreases e
  {
    hide CodeOf, EndOf;
    CodeParts(insts, lo, e);
    match e
    case Bin(op, l, r) =>
      hide UsesMatch, ReadAt, ReadsOnly;
      var mid := lo + l.Count();
      var top := mid + r.Count();
      CodeUses(insts, lo, l, top);
      CodeUses(insts, mid, r, top);
      BinEnds(e, lo, end);
      BinUses(insts, lo, mid, top, op, (v: nat) => EndOf(l, lo, top, v), (v: nat) => EndOf(r, mid, top, v),
              (v: nat) => EndOf(e, lo, end, v));
    case Var(_) => LeafUses(insts, lo, e, end);
    case Const(_) => LeafUses(insts, lo, e, end);
  }

  lemma LeafUses(insts: seq<Inst>, lo: nat, e: Expr, end: nat)
    requires lo < |insts| && (e.Var? || e.Const?) && TopInst(insts[lo], lo, e)
    ensures UsesMatch(insts, lo, lo, (v: nat) => EndOf(e, lo, end, v)) && EndOf(e, lo, end, lo) == end
  {
    assert forall v: VReg :: Mentions(insts[lo], v) ==> v == lo;
  }

  /** An operation's operands end at it, what is below them as it did there. */
  lemma BinEnds(e: Expr, lo: nat, end: nat)
    requires e.Bin?
    ensures var mid, top := lo + e.left.Count(), lo + e.left.Count() + e.right.Count();
            && (forall v :: lo <= v < mid ==> EndOf(e, lo, end, v) == EndOf(e.left, lo, top, v))
            && (forall v :: mid <= v < top ==> EndOf(e, lo, end, v) == EndOf(e.right, mid, top, v))
            && EndOf(e, lo, end, top) == end
  {
  }

  lemma BinUses(insts: seq<Inst>, lo: nat, mid: nat, top: nat, op: BinOp,
                left: nat -> nat, right: nat -> nat, both: nat -> nat)
    requires lo < mid < top < |insts| && insts[top] == BinInst(top, op, mid - 1, top - 1)
    requires UsesMatch(insts, lo, mid - 1, left) && UsesMatch(insts, mid, top - 1, right)
    requires left(mid - 1) == top && right(top - 1) == top
    requires forall v :: lo <= v < mid ==> both(v) == left(v)
    requires forall v :: mid <= v < top ==> both(v) == right(v)
    ensures UsesMatch(insts, lo, top, both)
  {
    forall v | lo <= v < top
      ensures ReadAt(insts, v, both(v), top)
    {
      if v < mid - 1 {
        assert ReadAt(insts, v, left(v), mid - 1);
      } else if mid <= v < top - 1 {
        assert ReadAt(insts, v, right(v), top - 1);
      }
    }
    forall m | lo <= m <= top
      ensures ReadsOnly(insts[m], m, lo, top, both)
    {
      if m < mid {
        assert ReadsOnly(insts[m], m, lo, mid - 1, left);
      } else if m < top {
        assert ReadsOnly(insts[m], m, mid, top - 1, right);
      }
    }
  }

  /** The live intervals of a tree's code. */
  ghost function TreeIntervals(e: Expr, lo: nat, end: nat): (ivs: seq<LiveInterval>)
    requires !e.HasMatmul()
    ensures |ivs| == e.Count()
  {
    match e
    case Var(_) => [LiveInterval(lo, lo, end)]
    case Const(_) => [LiveInterval(lo, lo, end)]
    case Bin(_, l, r) =>
      var top := lo + l.Count() + r.Count();
      TreeIntervals(l, lo, top) + TreeIntervals(r, lo + l.Count(), top) + [LiveInterval(top, top, end)]
  }

  lemma TreeIntervalsParts(e: Expr, lo: nat, mid: nat, top: nat, end: nat)
    requires e.Bin? && !e.HasMatmul() && mid == lo + e.left.Count() && top == mid + e.right.Count()
    ensures TreeIntervals(e, lo, end) ==
      TreeIntervals(e.left, lo, top) + TreeIntervals(e.right, mid, top) + [LiveInterval(top, top, end)]
    ensures forall v :: lo <= v < mid ==> EndOf(e, lo, end, v) == EndOf(e.left, lo, top, v)
    ensures forall v :: mid <= v < top ==> EndOf(e, lo, end, v) == EndOf(e.right, mid, top, v)
    ensures EndOf(e, lo, end, top) == end
  {
  }

  lemma {:induction false} TreeIntervalsEnds(e: Expr, lo: nat, end: nat)
    requires !e.HasMatmul()
    ensures forall k :: 0 <= k < e.Count() ==>
      TreeIntervals(e, lo, end)[k] == LiveInterval(lo + k, lo + k, EndOf(e, lo, end, lo + k))
    decreases e
  {
    if e.Bin? {
      hide TreeIntervals, EndOf;
      var mid := lo + e.left.Count();
      var top := mid + e.right.Count();
      TreeIntervalsEnds(e.left, lo, top);
      TreeIntervalsEnds(e.right, mid, top);
      TreeIntervalsParts(e, lo, mid, top, end);
    }
  }

  lemma ProgramLastUse(insts: seq<Inst>, n: nat, ends: nat -> nat, v: VReg)
    requires InOrder(insts, n) && insts[n].src == n - 1
    requires UsesMatch(insts, 0, n - 1, ends) && ends(n - 1) == n && v < n
    ensures LastUse(insts, v) == ends(v)
  {
    LastUseIsLast(insts, v);
    assert v < n - 1 ==> ReadAt(insts, v, ends(v), n - 1);
    var k := LastUse(insts, v);
    if k < n && k != v && Mentions(insts[k], v) {
      assert ReadsOnly(insts[k], k, 0, n - 1, ends);
    }
  }

  lemma TreeLastUse(insts: seq<Inst>, e: Expr, v: VReg)
    requires InOrder(insts, e.Count()) && CodeOf(insts, 0, e) && insts[e.Count()].src == e.Count() - 1
    requires v < e.Count()
    ensures LastUse(insts, v) == EndOf(e, 0, e.Count(), v)
  {
    CodeUses(insts, 0, e, e.Count());
    ProgramLastUse(insts, e.Count(), (x: nat) => EndOf(e, 0, e.Count(), x), v);
  }

  lemma ProgramInterval(insts: seq<Inst>, e: Expr, v: VReg)
    requires InOrder(insts, e.Count()) && CodeOf(insts, 0, e) && insts[e.Count()].src == e.Count() - 1
    requires !e.HasMatmul() && v < e.Count() == |SortByStart(Collect(insts, e.Count()))|
    ensures SortByStart(Collect(insts, e.Count()))[v] == TreeIntervals(e, 0, e.Count())[v]
  {
    hide *;
    InOrderIntervals(insts, e.Count());
    TreeIntervalsEnds(e, 0, e.Count());
    TreeLastUse(insts, e, v);
  }

  /** The intervals computed for the program of a tree are the tree's. */
  lemma ProgramIntervals(insts: seq<Inst>, e: Expr)
    requires InOrder(insts, e.Count()) && CodeOf(insts, 0, e) && insts[e.Count()].src == e.Count() - 1
    requires !e.HasMatmul()
    ensures SortByStart(Collect(insts, e.Count())) == TreeIntervals(e, 0, e.Count())
  {
    hide *;
    InOrderIntervals(insts, e.Count());
    forall v | 0 <= v < e.Count()
      ensures SortByStart(Collect(insts, e.Count()))[v] == TreeIntervals(e, 0, e.Count())[v]
    {
      ProgramInterval(insts, e, v);
    }
  }

  lemma {:induction false} LiveAtConcat(a: seq<LiveInterval>, b: seq<LiveInterval>, p: nat)
    ensures LiveAt(a + b, p) == LiveAt(a, p) + LiveAt(b, p)
    decreases |b|
  {
    if b == [] {
      assert a + b == a;
    } else {
      var n := |b| - 1;
      assert (a + b)[..|a| + n] == a + b[..n];
      LiveAtConcat(a, b[..n], p);
    }
  }

  lemma LiveAtOne(iv: LiveInterval, p: nat)
    ensures LiveAt([iv], p) == if iv.start <= p <= iv.end then 1 else 0
  {
    assert [iv][..0] == [];
  }

  lemma LiveAtJoin(a: seq<LiveInterval>, b: seq<LiveInterval>, iv: LiveInterval, p: nat)
    ensures LiveAt(a + b + [iv], p) == LiveAt(a, p) + LiveAt(b, p) + if iv.start <= p <= iv.end then 1 else 0
  {
    LiveAtConcat(a + b, [iv], p);
    LiveAtConcat(a, b, p);
    LiveAtOne(iv, p);
  }

  lemma LiveAtBin(e: Expr, lo: nat, mid: nat, top: nat, end: nat, p: nat)
    requires e.Bin? && !e.HasMatmul() && mid == lo + e.left.Count() && top == mid + e.right.Count()
    ensures LiveAt(TreeIntervals(e, lo, end), p) ==
      LiveAt(TreeIntervals(e.left, lo, top), p) + LiveAt(TreeIntervals(e.right, mid, top), p) +
      if top <= p <= end then 1 else 0
  {
    hide TreeIntervals, LiveAt;
    TreeIntervalsParts(e, lo, mid, top, end);
    LiveAtJoin(TreeIntervals(e.left, lo, top), TreeIntervals(e.right, mid, top), LiveInterval(top, top, end), p);
  }

  /** Outside its own code a tree contributes its root only. */
  lemma {:induction false} LiveOutside(e: Expr, lo: nat, end: nat, p: nat)
    requires !e.HasMatmul() && lo + e.Count() - 1 <= end
    requires p < lo || p >= lo + e.Count()
    ensures LiveAt(TreeIntervals(e, lo, end), p) == if lo <= p <= end then 1 else 0
    decreases e
  {
    match e
    case Bin(_, l, r) =>
      var mid := lo + l.Count();
      var top := mid + r.Count();
      LiveAtBin(e, lo, mid, top, end, p);
      LiveOutside(l, lo, top, p);
      LiveOutside(r, mid, top, p);
    case Var(_) => LiveAtOne(LiveInterval(lo, lo, end), p);
    case Const(_) => LiveAtOne(LiveInterval(lo, lo, end), p);
  }

  /** Inside its own code a tree never has more than `Need` values live... */
  lemma {:induction false} LiveInside(e: Expr, lo: nat, end: nat, p: nat)
    requires !e.HasMatmul() && lo + e.Count() - 1 <= end && lo <= p < lo + e.Count()
    ensures LiveAt(TreeIntervals(e, lo, end), p) <= Need(e)
    decreases e
  {
    match e
    case Bin(_, l, r) =>
      var mid := lo + l.Count();
      var top := mid + r.Count();
      LiveAtBin(e, lo, mid, top, end, p);
      if p < mid {
        LiveInside(l, lo, top, p);
        LiveOutside(r, mid, top, p);
      } else if p < top {
        LiveOutside(l, lo, top, p);
        LiveInside(r, mid, top, p);
      } else {
        LiveOutside(l, lo, top, p);
        LiveOutside(r, mid, top, p);
      }
    case Var(_) => LiveAtOne(LiveInterval(lo, lo, end), p);
    case Const(_) => LiveAtOne(LiveInterval(lo, lo, end), p);
  }

  /** ... and at some point exactly that many. */
  lemma {:induction false} LivePeak(e: Expr, lo: nat, end: nat) returns (p: nat)
    requires !e.HasMatmul() && lo + e.Count() - 1 <= end
    ensures lo <= p < lo + e.Count() && LiveAt(TreeIntervals(e, lo, end), p) == Need(e)
    decreases e
  {
    match e
    case Bin(_, l, r) =>
      var mid := lo + l.Count();
      var top := mid + r.Count();
      if Need(e) == Need(l) {
        p := LivePeak(l, lo, top);
      } else if Need(e) == 1 + Need(r) {
        p := LivePeak(r, mid, top);
        LiveOutside(l, lo, top, p);
      } else {
        p := top;
        LiveOutside(l, lo, top, p);
      }
      LiveAtBin(e, lo, mid, top, end, p);
      if p < mid || p == top {
        LiveOutside(r, mid, top, p);
      }
    case Var(_) =>
      p := lo;
      LiveAtOne(LiveInterval(lo, lo, end), p);
    case Const(_) =>
      p := lo;
      LiveAtOne(LiveInterval(lo, lo, end), p);
  }

  /** The program of a tree fits the register file exactly when its need does. */
  lemma FitsExactly(e: Expr)
    requires !e.HasMatmul()
    ensures Fits(TreeIntervals(e, 0, e.Count())) <==> Need(e) <= 14
  {
    var ivs := TreeIntervals(e, 0, e.Count());
    var peak := LivePeak(e, 0, e.Count());
    assert LiveAt(ivs, peak) == Need(e);
    forall p: nat
      ensures LiveAt(ivs, p) <= Max(Need(e), 1)
    {
      if p < e.Count() {
        LiveInside(e, 0, e.Count(), p);
      } else {
        LiveOutside(e, 0, e.Count(), p);
      }
    }
  }
}
