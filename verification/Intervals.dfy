/** Live intervals of a straight-line program (jit/ir.rs). */
module Intervals {
  import opened Words
  import opened Lower

  datatype LiveInterval = LiveInterval(vreg: VReg, start: nat, end: nat)

  predicate Defines(inst: Inst, v: VReg) { !inst.Store? && inst.dst == v }

  predicate Mentions(inst: Inst, v: VReg) {
    match inst
    case Load(dst, _, _) => v == dst
    case ConstInst(dst, _, _) => v == dst
    case BinInst(dst, _, lhs, rhs) => v == dst || v == lhs || v == rhs
    case Store(src, _) => v == src
  }

  ghost predicate InRange(insts: seq<Inst>, numVregs: nat) {
    forall k, v: VReg :: 0 <= k < |insts| && Mentions(insts[k], v) ==> v < numVregs
  }

  /** Index of the first instruction that defines `v`. */
  function FirstDef(insts: seq<Inst>, v: VReg): Option<nat> {
    if insts == [] then None
    else
      var n := |insts| - 1;
      var before := FirstDef(insts[..n], v);
      if before.None? && Defines(insts[n], v) then Some(n) else before
  }

  lemma {:induction false} FirstDefIsFirst(insts: seq<Inst>, v: VReg)
    ensures FirstDef(insts, v).Some? ==>
      FirstDef(insts, v).value < |insts| && Defines(insts[FirstDef(insts, v).value], v)
    ensures forall k :: 0 <= k < |insts| && Defines(insts[k], v) ==>
      FirstDef(insts, v).Some? && FirstDef(insts, v).value <= k
  {
    if insts != [] {
      FirstDefIsFirst(insts[..|insts| - 1], v);
    }
  }

  /** Index of the last instruction that mentions `v`; 0 if there is none. */
  function LastUse(insts: seq<Inst>, v: VReg): nat {
    if insts == [] then 0
    else
      var n := |insts| - 1;
      if Mentions(insts[n], v) then n else LastUse(insts[..n], v)
  }

  lemma {:induction false} LastUseIsLast(insts: seq<Inst>, v: VReg)
    ensures forall k :: 0 <= k < |insts| && Mentions(insts[k], v) ==> k <= LastUse(insts, v)
    ensures LastUse(insts, v) == 0 || (LastUse(insts, v) < |insts| && Mentions(insts[LastUse(insts, v)], v))
    ensures LastUse(insts, v) <= |insts|
  {
    if insts != [] {
      LastUseIsLast(insts[..|insts| - 1], v);
    }
  }

  /** The intervals of the defined registers below `n`, in register order. */
  function Collect(insts: seq<Inst>, n: nat): (ivs: seq<LiveInterval>)
    ensures forall j :: 0 <= j < |ivs| ==> ivs[j].vreg < n
  {
    if n == 0 then []
    else
      var v := n - 1;
      Collect(insts, v) +
      match FirstDef(insts, v)
      case None => []
      case Some(d) => [LiveInterval(v, d, LastUse(insts, v))]
  }

  ghost predicate SortedByStart(ivs: seq<LiveInterval>) {
    forall j, k :: 0 <= j < k < |ivs| ==> ivs[j].start <= ivs[k].start
  }

  /** Inserts after all entries that start no later: a stable step. */
  function Insert(ivs: seq<LiveInterval>, iv: LiveInterval): seq<LiveInterval> {
    if ivs == [] || ivs[|ivs| - 1].start <= iv.start then ivs + [iv]
    else Insert(ivs[..|ivs| - 1], iv) + [ivs[|ivs| - 1]]
  }

  /** Stable sort by start. */
  function SortByStart(ivs: seq<LiveInterval>): seq<LiveInterval> {
    if ivs == [] then [] else Insert(SortByStart(ivs[..|ivs| - 1]), ivs[|ivs| - 1])
  }

  lemma {:induction false} InsertSorted(ivs: seq<LiveInterval>, iv: LiveInterval)
    requires SortedByStart(ivs)
    ensures SortedByStart(Insert(ivs, iv))
    ensures forall x :: x in Insert(ivs, iv) ==> x == iv || x in ivs
  {
    if !(ivs == [] || ivs[|ivs| - 1].start <= iv.start) {
      var n := |ivs| - 1;
      var ins := Insert(ivs[..n], iv);
      InsertSorted(ivs[..n], iv);
      forall j | 0 <= j < |ins|
        ensures ins[j].start <= ivs[n].start
      {
        assert ins[j] in ins;
      }
    }
  }

  lemma {:induction false} InsertContents(ivs: seq<LiveInterval>, iv: LiveInterval)
    ensures multiset(Insert(ivs, iv)) == multiset(ivs) + multiset{iv}
  {
    if !(ivs == [] || ivs[|ivs| - 1].start <= iv.start) {
      var n := |ivs| - 1;
      InsertContents(ivs[..n], iv);
      assert ivs == ivs[..n] + [ivs[n]];
    }
  }

  /** The sort yields the same intervals, ordered by start. */
  lemma {:induction false} SortByStartSorts(ivs: seq<LiveInterval>)
    ensures SortedByStart(SortByStart(ivs))
    ensures multiset(SortByStart(ivs)) == multiset(ivs)
  {
    if ivs != [] {
      var n := |ivs| - 1;
      SortByStartSorts(ivs[..n]);
      InsertSorted(SortByStart(ivs[..n]), ivs[n]);
      InsertContents(SortByStart(ivs[..n]), ivs[n]);
      assert ivs == ivs[..n] + [ivs[n]];
    }
  }

  lemma {:induction false} SortByStartFixed(ivs: seq<LiveInterval>)
    requires SortedByStart(ivs)
    ensures SortByStart(ivs) == ivs
  {
    if ivs != [] {
      SortByStartFixed(ivs[..|ivs| - 1]);
    }
  }

  /** What the allocator may rely on. */
  ghost predicate GoodIntervals(ivs: seq<LiveInterval>, numVregs: nat) {
    SortedByStart(ivs) &&
    (forall j :: 0 <= j < |ivs| ==> ivs[j].vreg < numVregs && ivs[j].start <= ivs[j].end) &&
    (forall j, k :: 0 <= j < k < |ivs| ==> ivs[j].vreg != ivs[k].vreg)
  }

  /** How one more instruction changes the two tables. */
  lemma TablesStep(insts: seq<Inst>, idx: nat)
    requires idx < |insts|
    ensures forall v: VReg ::
      FirstDef(insts[..idx + 1], v) ==
      if FirstDef(insts[..idx], v).None? && Defines(insts[idx], v) then Some(idx) else FirstDef(insts[..idx], v)
    ensures forall v: VReg ::
      LastUse(insts[..idx + 1], v) == if Mentions(insts[idx], v) then idx else LastUse(insts[..idx], v)
  {
    assert insts[..idx + 1][..idx] == insts[..idx];
  }

  lemma TablesInit(insts: seq<Inst>)
    ensures forall v: VReg :: FirstDef(insts[..0], v) == None && LastUse(insts[..0], v) == 0
  {
  }

  method ComputeIntervals(insts: seq<Inst>, numVregs: nat) returns (ivs: seq<LiveInterval>)
    requires InRange(insts, numVregs)
    ensures ivs == SortByStart(Collect(insts, numVregs))
  {
    hide FirstDef, LastUse;
    TablesInit(insts);
    var firstDef := new Option<nat>[numVregs](_ => None);
    var lastUse := new nat[numVregs](_ => 0);
    for idx := 0 to |insts|
      invariant forall v :: 0 <= v < numVregs ==> firstDef[v] == FirstDef(insts[..idx], v)
      invariant forall v :: 0 <= v < numVregs ==> lastUse[v] == LastUse(insts[..idx], v)
      invariant forall v :: 0 <= v < numVregs ==> lastUse[v] <= idx
    {
      TablesStep(insts, idx);
      match insts[idx] {
        case Load(dst, _, _) =>
          assert Mentions(insts[idx], dst);
          if firstDef[dst].None? { firstDef[dst] := Some(idx); }
          lastUse[dst] := Max(lastUse[dst], idx);
        case ConstInst(dst, _, _) =>
          assert Mentions(insts[idx], dst);
          if firstDef[dst].None? { firstDef[dst] := Some(idx); }
          lastUse[dst] := Max(lastUse[dst], idx);
        case BinInst(dst, _, lhs, rhs) =>
          assert Mentions(insts[idx], dst) && Mentions(insts[idx], lhs) && Mentions(insts[idx], rhs);
          if firstDef[dst].None? { firstDef[dst] := Some(idx); }
          lastUse[dst] := Max(lastUse[dst], idx);
          lastUse[lhs] := Max(lastUse[lhs], idx);
          lastUse[rhs] := Max(lastUse[rhs], idx);
        case Store(src, _) =>
          assert Mentions(insts[idx], src);
          lastUse[src] := Max(lastUse[src], idx);
      }
    }
    assert insts[..|insts|] == insts;
    ivs := [];
    for v := 0 to numVregs
      invariant ivs == Collect(insts, v)
    {
      if firstDef[v].Some? {
        ivs := ivs + [LiveInterval(v, firstDef[v].value, lastUse[v])];
      }
    }
    ivs := SortByStart(ivs);
  }

  lemma {:induction false} CollectGood(insts: seq<Inst>, n: nat)
    ensures forall j :: 0 <= j < |Collect(insts, n)| ==>
      Collect(insts, n)[j].vreg < n && Collect(insts, n)[j].start <= Collect(insts, n)[j].end
    ensures forall j, k :: 0 <= j < k < |Collect(insts, n)| ==> Collect(insts, n)[j].vreg < Collect(insts, n)[k].vreg
  {
    if n > 0 {
      CollectGood(insts, n - 1);
      FirstDefIsFirst(insts, n - 1);
      LastUseIsLast(insts, n - 1);
    }
  }

  /** Instruction k defines register k, for every k below n; the result of one of them is stored last. */
  ghost predicate InOrder(insts: seq<Inst>, n: nat) {
    |insts| == n + 1 && insts[n].Store? && insts[n].src < n &&
    forall k :: 0 <= k < n ==> DefinesInOrder(insts[k], k)
  }

  lemma InOrderInRange(insts: seq<Inst>, n: nat)
    requires InOrder(insts, n)
    ensures InRange(insts, n)
  {
    forall k, v: VReg | 0 <= k < |insts| && Mentions(insts[k], v)
      ensures v < n
    {
      if k < n {
        assert DefinesInOrder(insts[k], k);
      }
    }
  }

  /** In such a program register v lives from instruction v to its last use. */
  lemma {:induction false} InOrderCollect(insts: seq<Inst>, n: nat, m: nat)
    requires InOrder(insts, n) && m <= n
    ensures |Collect(insts, m)| == m
    ensures forall v :: 0 <= v < m ==>
      v <= LastUse(insts, v) && Collect(insts, m)[v] == LiveInterval(v, v, LastUse(insts, v))
  {
    if m > 0 {
      var v := m - 1;
      InOrderCollect(insts, n, v);
      FirstDefIsFirst(insts, v);
      LastUseIsLast(insts, v);
      assert DefinesInOrder(insts[v], v) && Defines(insts[v], v) && Mentions(insts[v], v);
      var d := FirstDef(insts, v).value;
      assert DefinesInOrder(insts[d], d) by {
        assert d <= v;
      }
      assert d == v;
    }
  }

  lemma InOrderIntervals(insts: seq<Inst>, n: nat)
    requires InOrder(insts, n)
    ensures |SortByStart(Collect(insts, n))| == n && GoodIntervals(SortByStart(Collect(insts, n)), n)
    ensures forall v :: 0 <= v < n ==>
      SortByStart(Collect(insts, n))[v] == LiveInterval(v, v, LastUse(insts, v)) && v <= LastUse(insts, v)
  {
    InOrderCollect(insts, n, n);
    CollectSorted(Collect(insts, n), n);
  }

  lemma CollectSorted(ivs: seq<LiveInterval>, n: nat)
    requires |ivs| == n && forall v :: 0 <= v < n ==> ivs[v].vreg == ivs[v].start == v && v <= ivs[v].end
    ensures SortByStart(ivs) == ivs && GoodIntervals(ivs, n)
  {
    SortByStartFixed(ivs);
  }
}
