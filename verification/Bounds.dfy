/** The static checks made before code is emitted (jit/bounds.rs). */
module Bounds {
  import opened Words
  import opened DataTypes
  import opened Lower
  import opened Intervals
  import opened Ssa

  const MAX_INSTS: nat := 4096
  const MAX_INPUTS: nat := 256

  datatype Violation =
    | ZeroInstructions
    | TooManyInstructions
    | TooManyInputs
    | AllocLength
    | VRegOutOfRange(idx: nat)
    | BadWidth

  datatype BoundsReport = BoundsReport(
    nanVregs: seq<VReg>,
    overflowSites: seq<nat>,
    structurallyValid: bool,
    firstViolation: Option<Violation>)

  /** Register `v` may hold a NaN after `insts`: some division feeds it. */
  function MayNan(insts: seq<Inst>, v: VReg): bool {
    if insts == [] then false
    else
      var n := |insts| - 1;
      var before := MayNan(insts[..n], v);
      match insts[n]
      case BinInst(dst, op, lhs, rhs) =>
        before || (dst == v && (op == Div || MayNan(insts[..n], lhs) || MayNan(insts[..n], rhs)))
      case _ => before
  }

  /** Indices of the divisions. */
  function DivSites(insts: seq<Inst>): seq<nat> {
    if insts == [] then []
    else
      var n := |insts| - 1;
      DivSites(insts[..n]) + if insts[n].BinInst? && insts[n].op == Div then [n] else []
  }

  function NanRegs(insts: seq<Inst>, n: nat): seq<VReg> {
    if n == 0 then [] else NanRegs(insts, n - 1) + if MayNan(insts, n - 1) then [n - 1] else []
  }

  predicate OutOfRange(inst: Inst, numVregs: nat) {
    match inst
    case Load(dst, _, _) => dst >= numVregs
    case ConstInst(dst, _, _) => dst >= numVregs
    case BinInst(dst, _, lhs, rhs) => dst >= numVregs || lhs >= numVregs || rhs >= numVregs
    case Store(src, _) => src >= numVregs
  }

  lemma OutOfRangeMention(insts: seq<Inst>, numVregs: nat, idx: nat)
    requires idx < |insts| && OutOfRange(insts[idx], numVregs)
    ensures !InRange(insts, numVregs)
  {
    var v: VReg := match insts[idx]
      case Load(dst, _, _) => dst
      case ConstInst(dst, _, _) => dst
      case BinInst(dst, _, lhs, rhs) => if dst >= numVregs then dst else if lhs >= numVregs then lhs else rhs
      case Store(src, _) => src;
    assert Mentions(insts[idx], v);
  }

  /** The lists name, in ascending order, exactly the registers that depend on a division and the divisions themselves. */
  ghost predicate MarksDivisions(insts: seq<Inst>, n: nat, nanVregs: seq<VReg>, sites: seq<nat>)
    requires InOrder(insts, n)
  {
    && Ascending(nanVregs) && Ascending(sites)
    && (forall v :: v in nanVregs <==> 0 <= v < n && DependsOnDiv(insts[..n], v))
    && (forall k :: k in sites <==> 0 <= k < n && insts[k].BinInst? && insts[k].op == Div)
  }

  ghost predicate Ascending(s: seq<nat>) { forall a, b :: 0 <= a < b < |s| ==> s[a] < s[b] }

  method CheckProgram(insts: seq<Inst>, numVregs: nat, numInputs: nat, allocLen: nat, bits: nat)
    returns (report: BoundsReport)
    ensures report.structurallyValid <==>
      0 < |insts| <= 4096 && numInputs <= 256 && allocLen == numVregs &&
      InRange(insts, numVregs) && (bits == 32 || bits == 64)
    ensures report.structurallyValid <==> report.firstViolation.None?
    ensures report.structurallyValid && InOrder(insts, numVregs) ==>
      MarksDivisions(insts, numVregs, report.nanVregs, report.overflowSites)
  {
    report := BoundsReport([], [], true, None);
    if |insts| == 0 {
      return report.(structurallyValid := false, firstViolation := Some(ZeroInstructions));
    }
    if |insts| > MAX_INSTS {
      return report.(structurallyValid := false, firstViolation := Some(TooManyInstructions));
    }
    if numInputs > MAX_INPUTS {
      return report.(structurallyValid := false, firstViolation := Some(TooManyInputs));
    }
    if allocLen != numVregs {
      return report.(structurallyValid := false, firstViolation := Some(AllocLength));
    }
    for idx := 0 to |insts|
      invariant forall k :: 0 <= k < idx ==> !OutOfRange(insts[k], numVregs)
    {
      if OutOfRange(insts[idx], numVregs) {
        assert !InRange(insts, numVregs) by {
          OutOfRangeMention(insts, numVregs, idx);
        }
        return report.(structurallyValid := false, firstViolation := Some(VRegOutOfRange(idx)));
      }
    }
    assert InRange(insts, numVregs);
    var mayNan := new bool[numVregs](_ => false);
    var overflowSites: seq<nat> := [];
    for idx := 0 to |insts|
      invariant forall v :: 0 <= v < numVregs ==> mayNan[v] == MayNan(insts[..idx], v)
      invariant overflowSites == DivSites(insts[..idx])
    {
      assert insts[..idx + 1][..idx] == insts[..idx];
      assert !OutOfRange(insts[idx], numVregs);
      match insts[idx] {
        case BinInst(dst, op, lhs, rhs) =>
          var nanFromOp := op == Div;
          if nanFromOp || mayNan[lhs] || mayNan[rhs] {
            mayNan[dst] := true;
          }
          if nanFromOp {
            overflowSites := overflowSites + [idx];
          }
        case _ =>
      }
    }
    assert insts[..|insts|] == insts;
    var nanVregs: seq<VReg> := [];
    for v := 0 to numVregs
      invariant nanVregs == NanRegs(insts, v)
    {
      if mayNan[v] {
        nanVregs := nanVregs + [v];
      }
    }
    report := BoundsReport(nanVregs, overflowSites, true, None);
    if InOrder(insts, numVregs) {
      PassMarks(insts, numVregs);
    }
    if bits != 32 && bits != 64 {
      report := report.(structurallyValid := false, firstViolation := Some(BadWidth));
    }
  }

  /** The value of register `v` depends on a division. */
  ghost predicate DependsOnDiv(insts: seq<Inst>, v: VReg)
    requires Ordered(insts) && v < |insts|
    decreases v
  {
    assert DefinesInOrder(insts[v], v);
    match insts[v]
    case BinInst(_, op, lhs, rhs) => op == Div || DependsOnDiv(insts, lhs) || DependsOnDiv(insts, rhs)
    case _ => false
  }

  /** For single-assignment code the forward pass marks exactly the values that depend on a division. */
  lemma {:induction false} MarksExactlyDivisions(insts: seq<Inst>, k: nat, v: VReg)
    requires Ordered(insts) && k <= |insts| && v < |insts|
    ensures MayNan(insts[..k], v) <==> v < k && DependsOnDiv(insts, v)
    decreases k
  {
    if k > 0 {
      var n := k - 1;
      assert insts[..k][..n] == insts[..n];
      assert DefinesInOrder(insts[n], n);
      MarksExactlyDivisions(insts, n, v);
      if insts[n].BinInst? && insts[n].dst == v {
        MarksExactlyDivisions(insts, n, insts[n].lhs);
        MarksExactlyDivisions(insts, n, insts[n].rhs);
      }
    }
  }

  // ------------------------------------------------------------ what is reported

  lemma NothingAscends()
    ensures Ascending([])
  {
  }

  lemma AscendingMore(s: seq<nat>, x: nat)
    requires Ascending(s) && forall y :: y in s ==> y < x
    ensures Ascending(s + [x])
  {
    forall a | 0 <= a < |s|
      ensures s[a] < x
    {
      assert s[a] in s;
    }
  }

  lemma {:induction false} DivSitesAre(insts: seq<Inst>)
    ensures Ascending(DivSites(insts))
    ensures forall k :: k in DivSites(insts) <==> 0 <= k < |insts| && insts[k].BinInst? && insts[k].op == Div
  {
    hide Ascending;
    if insts == [] {
      NothingAscends();
    } else {
      var n := |insts| - 1;
      var before := DivSites(insts[..n]);
      DivSitesAre(insts[..n]);
      AscendingMore(before, n);
      assert before + [] == before;
    }
  }

  lemma {:induction false} MarkedRegs(insts: seq<Inst>, n: nat)
    ensures Ascending(NanRegs(insts, n)) && forall v :: v in NanRegs(insts, n) <==> 0 <= v < n && MayNan(insts, v)
  {
    hide MayNan;
    if n > 0 {
      MarkedRegs(insts, n - 1);
      AscendingMore(NanRegs(insts, n - 1), n - 1);
    }
  }

  /** The forward pass reports what it should of a program in order. */
  lemma PassMarks(insts: seq<Inst>, n: nat)
    requires InOrder(insts, n)
    ensures MarksDivisions(insts, n, NanRegs(insts, n), DivSites(insts))
  {
    hide MayNan, DependsOnDiv, DivSites, NanRegs;
    DivSitesAre(insts);
    MarkedRegs(insts, n);
    forall v: nat | v < n
      ensures MayNan(insts, v) <==> DependsOnDiv(insts[..n], v)
    {
      MarksExactlyDivisions(insts[..n], n, v);
      assert insts[..n][..n] == insts[..n];
      StoreMarksNothing(insts, n, v);
    }
    assert forall v :: v in NanRegs(insts, n) <==> 0 <= v < n && DependsOnDiv(insts[..n], v);
    assert forall k :: k in DivSites(insts) <==> 0 <= k < n && insts[k].BinInst? && insts[k].op == Div;
  }

  lemma StoreMarksNothing(insts: seq<Inst>, n: nat, v: VReg)
    requires |insts| == n + 1 && insts[n].Store?
    ensures MayNan(insts, v) == MayNan(insts[..n], v)
  {
  }
}
