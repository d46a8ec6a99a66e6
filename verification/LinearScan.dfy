/** The linear-scan register allocator (jit/ir.rs). */
module LinearScan {
  import opened Words
  import opened Lower
  import opened Intervals

  const NUM_PHYS_REGS: nat := 14

  datatype Active = Active(end: nat, vreg: VReg, preg: nat)

  /** Number of closed intervals that contain point `p`. */
  function LiveAt(ivs: seq<LiveInterval>, p: nat): nat {
    if ivs == [] then 0
    else
      var n := |ivs| - 1;
      LiveAt(ivs[..n], p) + if ivs[n].start <= p <= ivs[n].end then 1 else 0
  }

  /** No point of the program has more live values than there are registers. */
  ghost predicate Fits(ivs: seq<LiveInterval>) {
    forall p: nat :: LiveAt(ivs, p) <= NUM_PHYS_REGS
  }

  predicate Overlap(a: LiveInterval, b: LiveInterval) {
    a.start <= b.end && b.start <= a.end
  }

  /** Registers exist, and values that are live together never share one. */
  ghost predicate Sound(ivs: seq<LiveInterval>, alloc: seq<nat>) {
    (forall j :: 0 <= j < |ivs| ==> ivs[j].vreg < |alloc| && alloc[ivs[j].vreg] < NUM_PHYS_REGS) &&
    (forall j, k :: 0 <= j < k < |ivs| && Overlap(ivs[j], ivs[k]) ==> alloc[ivs[j].vreg] != alloc[ivs[k].vreg])
  }

  /** Every smaller register is held by an earlier interval that is still live. */
  ghost predicate FirstFit(ivs: seq<LiveInterval>, alloc: seq<nat>) {
    (forall j :: 0 <= j < |ivs| ==> ivs[j].vreg < |alloc|) &&
    forall k, p: nat :: 0 <= k < |ivs| && p < alloc[ivs[k].vreg] ==> Busy(ivs, alloc, k, p)
  }

  /** Register `p` is held by an interval before the k-th that is live where the k-th starts. */
  ghost predicate Busy(ivs: seq<LiveInterval>, alloc: seq<nat>, k: nat, p: nat)
    requires k < |ivs| && forall j :: 0 <= j < |ivs| ==> ivs[j].vreg < |alloc|
  {
    exists j :: 0 <= j < k && ivs[j].end >= ivs[k].start && alloc[ivs[j].vreg] == p
  }

  /** The entries not yet expired at point `p`, given the registers handed out so far. */
  ghost function ActiveOf(ivs: seq<LiveInterval>, pregs: seq<nat>, p: nat): seq<Active>
    requires |ivs| == |pregs|
  {
    if ivs == [] then []
    else
      var n := |ivs| - 1;
      ActiveOf(ivs[..n], pregs[..n], p) +
      if ivs[n].end >= p then [Active(ivs[n].end, ivs[n].vreg, pregs[n])] else []
  }

  /** What `retain` keeps at point `p`. */
  function Retained(active: seq<Active>, p: nat): seq<Active> {
    if active == [] then []
    else
      var n := |active| - 1;
      Retained(active[..n], p) + if active[n].end >= p then [active[n]] else []
  }

  ghost predicate DistinctRegs(active: seq<Active>) {
    (forall a :: 0 <= a < |active| ==> active[a].preg < NUM_PHYS_REGS) &&
    forall a, b :: 0 <= a < b < |active| ==> active[a].preg != active[b].preg
  }

  ghost predicate Held(active: seq<Active>, r: nat) {
    exists a :: 0 <= a < |active| && active[a].preg == r
  }

  lemma {:induction false} RetainedMembers(active: seq<Active>, p: nat)
    ensures forall x :: x in Retained(active, p) <==> x in active && x.end >= p
    ensures |Retained(active, p)| <= |active|
    ensures DistinctRegs(active) ==> DistinctRegs(Retained(active, p))
  {
    if active != [] {
      var n := |active| - 1;
      RetainedMembers(active[..n], p);
      assert active == active[..n] + [active[n]];
    }
  }

  lemma {:induction false} RetainedActiveOf(ivs: seq<LiveInterval>, pregs: seq<nat>, p: nat, q: nat)
    requires |ivs| == |pregs| && p <= q
    ensures Retained(ActiveOf(ivs, pregs, p), q) == ActiveOf(ivs, pregs, q)
  {
    if ivs != [] {
      var n := |ivs| - 1;
      RetainedActiveOf(ivs[..n], pregs[..n], p, q);
      var rest := ActiveOf(ivs[..n], pregs[..n], p);
      if ivs[n].end >= p {
        var last := Active(ivs[n].end, ivs[n].vreg, pregs[n]);
        assert (rest + [last])[..|rest|] == rest;
      } else {
        assert rest + [] == rest;
        assert ActiveOf(ivs[..n], pregs[..n], q) + [] == ActiveOf(ivs[..n], pregs[..n], q);
      }
    }
  }

  lemma {:induction false} ActiveOfMembers(ivs: seq<LiveInterval>, pregs: seq<nat>, p: nat)
    requires |ivs| == |pregs|
    ensures forall j :: 0 <= j < |ivs| && ivs[j].end >= p ==>
      Active(ivs[j].end, ivs[j].vreg, pregs[j]) in ActiveOf(ivs, pregs, p)
    ensures forall x :: x in ActiveOf(ivs, pregs, p) ==>
      exists j :: 0 <= j < |ivs| && ivs[j].end >= p && x == Active(ivs[j].end, ivs[j].vreg, pregs[j])
  {
    if ivs != [] {
      var n := |ivs| - 1;
      ActiveOfMembers(ivs[..n], pregs[..n], p);
    }
  }

  /** When everything has started, the active entries are the live intervals. */
  lemma {:induction false} ActiveOfCounts(ivs: seq<LiveInterval>, pregs: seq<nat>, p: nat)
    requires |ivs| == |pregs|
    requires forall j :: 0 <= j < |ivs| ==> ivs[j].start <= p
    ensures |ActiveOf(ivs, pregs, p)| == LiveAt(ivs, p)
  {
    if ivs != [] {
      var n := |ivs| - 1;
      ActiveOfCounts(ivs[..n], pregs[..n], p);
    }
  }

  /** Distinct registers: never more than there are, and all of them taken only if that many. */
  lemma Pigeonhole(active: seq<Active>)
    requires DistinctRegs(active)
    ensures |active| <= NUM_PHYS_REGS
    ensures (forall r :: 0 <= r < NUM_PHYS_REGS ==> Held(active, r)) ==> |active| == NUM_PHYS_REGS
  {
    var regs := RegSet(active);
    var all := Below(NUM_PHYS_REGS);
    assert regs <= all;
    SubsetSize(regs, all);
    if forall r :: 0 <= r < NUM_PHYS_REGS ==> Held(active, r) {
      assert all <= regs;
      SubsetSize(all, regs);
    }
  }

  lemma {:induction false} RegSet(active: seq<Active>) returns (regs: set<nat>)
    requires DistinctRegs(active)
    ensures |regs| == |active|
    ensures forall r :: r in regs <==> Held(active, r)
  {
    if active == [] {
      regs := {};
    } else {
      var n := |active| - 1;
      var rest := RegSet(active[..n]);
      regs := rest + {active[n].preg};
      assert active[n].preg !in rest;
      forall r
        ensures r in regs <==> Held(active, r)
      {
        if r in rest {
          assert Held(active[..n], r);
        }
        if Held(active, r) && r != active[n].preg {
          var a :| 0 <= a < |active| && active[a].preg == r;
          assert active[..n][a].preg == r;
        }
      }
    }
  }

  ghost function Below(n: nat): (rs: set<nat>)
    ensures |rs| == n && forall r: nat :: r in rs <==> r < n
  {
    if n == 0 then {} else Below(n - 1) + {n - 1}
  }

  lemma {:induction false} SubsetSize(a: set<nat>, b: set<nat>)
    requires a <= b
    ensures |a| <= |b|
  {
    if a != {} {
      var x :| x in a;
      SubsetSize(a - {x}, b - {x});
    }
  }

  /** Counting only grows along the list. */
  lemma {:induction false} LiveAtPrefix(ivs: seq<LiveInterval>, k: nat, p: nat)
    requires k <= |ivs|
    ensures LiveAt(ivs[..k], p) <= LiveAt(ivs, p)
    decreases |ivs|
  {
    if k == |ivs| {
      assert ivs[..k] == ivs;
    } else {
      var n := |ivs| - 1;
      LiveAtPrefix(ivs[..n], k, p);
      assert ivs[..n][..k] == ivs[..k];
    }
  }

  /** The busiest point up to `p` is the start of some interval. */
  lemma {:induction false} LiveAtAttained(ivs: seq<LiveInterval>, p: nat)
    requires SortedByStart(ivs)
    requires forall k :: 0 <= k < |ivs| ==> LiveAt(ivs[..k + 1], ivs[k].start) <= NUM_PHYS_REGS
    ensures LiveAt(ivs, p) <= NUM_PHYS_REGS
  {
    if ivs != [] {
      var n := |ivs| - 1;
      if ivs[n].start <= p {
        assert ivs[..n + 1] == ivs;
        LiveAtLater(ivs, ivs[n].start, p);
      } else {
        forall k | 0 <= k < n
          ensures LiveAt(ivs[..n][..k + 1], ivs[..n][k].start) <= NUM_PHYS_REGS
        {
          assert ivs[..n][..k + 1] == ivs[..k + 1];
        }
        LiveAtAttained(ivs[..n], p);
      }
    }
  }

  lemma {:induction false} LiveAtLater(ivs: seq<LiveInterval>, p: nat, q: nat)
    requires p <= q && forall j :: 0 <= j < |ivs| ==> ivs[j].start <= p
    ensures LiveAt(ivs, q) <= LiveAt(ivs, p)
  {
    if ivs != [] {
      LiveAtLater(ivs[..|ivs| - 1], p, q);
    }
  }

  /** `free[r]` says exactly that no active entry holds `r`. */
  ghost predicate FreeMatches(free: seq<bool>, active: seq<Active>) {
    |free| == NUM_PHYS_REGS && forall r :: 0 <= r < NUM_PHYS_REGS ==> (free[r] <==> !Held(active, r))
  }

  /** Drops the entries that end before `start`, releasing their registers. */
  method Expire(active: seq<Active>, free: array<bool>, start: nat) returns (kept: seq<Active>)
    requires DistinctRegs(active) && FreeMatches(free[..], active)
    modifies free
    ensures kept == Retained(active, start)
    ensures DistinctRegs(kept) && FreeMatches(free[..], kept)
  {
    kept := [];
    for i := 0 to |active|
      invariant kept == Retained(active[..i], start)
      invariant forall r :: 0 <= r < NUM_PHYS_REGS ==>
        (free[r] <==> !Held(kept, r) && !Held(active[i..], r))
    {
      var entry := active[i];
      assert active[..i + 1][..i] == active[..i];
      RetainedMembers(active[..i], start);
      HeldSplit(active, i);
      if entry.end < start {
        assert !Held(kept, entry.preg) && !Held(active[i + 1..], entry.preg) by {
          NotHeldElsewhere(active, kept, i);
        }
        free[entry.preg] := true;
      } else {
        HeldAppend(kept, entry);
        kept := kept + [entry];
      }
    }
    assert active[..|active|] == active;
    RetainedMembers(active, start);
  }

  lemma HeldAppend(active: seq<Active>, x: Active)
    ensures forall r :: Held(active + [x], r) <==> Held(active, r) || r == x.preg
  {
    forall r
      ensures Held(active + [x], r) <==> Held(active, r) || r == x.preg
    {
      assert (active + [x])[|active|] == x;
      if Held(active, r) {
        var a :| 0 <= a < |active| && active[a].preg == r;
        assert (active + [x])[a].preg == r;
      }
    }
  }

  lemma HeldSplit(active: seq<Active>, i: nat)
    requires i < |active|
    ensures forall r :: Held(active[i..], r) <==> Held(active[i + 1..], r) || r == active[i].preg
  {
    forall r
      ensures Held(active[i..], r) <==> Held(active[i + 1..], r) || r == active[i].preg
    {
      assert active[i..][0] == active[i];
      if Held(active[i + 1..], r) {
        var a :| 0 <= a < |active[i + 1..]| && active[i + 1..][a].preg == r;
        assert active[i..][a + 1].preg == r;
      }
      if Held(active[i..], r) && r != active[i].preg {
        var a :| 0 <= a < |active[i..]| && active[i..][a].preg == r;
        assert active[i + 1..][a - 1].preg == r;
      }
    }
  }

  lemma NotHeldElsewhere(active: seq<Active>, kept: seq<Active>, i: nat)
    requires i < |active| && DistinctRegs(active)
    requires forall x :: x in kept ==> x in active[..i]
    ensures !Held(kept, active[i].preg) && !Held(active[i + 1..], active[i].preg)
  {
    forall a | 0 <= a < |kept|
      ensures kept[a].preg != active[i].preg
    {
      assert kept[a] in kept;
      var b :| 0 <= b < i && active[..i][b] == kept[a];
    }
  }

  /** The lowest free register, if any. */
  method Position(free: array<bool>) returns (r: Option<nat>)
    requires free.Length == NUM_PHYS_REGS
    ensures r.Some? ==> r.value < NUM_PHYS_REGS && free[r.value] && forall p :: 0 <= p < r.value ==> !free[p]
    ensures r.None? ==> forall p :: 0 <= p < NUM_PHYS_REGS ==> !free[p]
  {
    for i := 0 to free.Length
      invariant forall p :: 0 <= p < i ==> !free[p]
    {
      if free[i] {
        return Some(i);
      }
    }
    return None;
  }

  /** What the scan has established after `k` intervals; `pregs` lists the registers it handed out. */
  ghost predicate ScanInv(ivs: seq<LiveInterval>, k: nat, pregs: seq<nat>, alloc: seq<nat>) {
    k <= |ivs| && |pregs| == k &&
    (forall j :: 0 <= j < |ivs| ==> ivs[j].vreg < |alloc|) &&
    (forall j :: 0 <= j < k ==> alloc[ivs[j].vreg] == pregs[j] < NUM_PHYS_REGS) &&
    (forall i, j :: 0 <= i < j < k && ivs[i].end >= ivs[j].start ==> pregs[i] != pregs[j]) &&
    (forall j :: 0 <= j < k ==> LiveAt(ivs[..j + 1], ivs[j].start) <= NUM_PHYS_REGS) &&
    (forall j, p: nat :: 0 <= j < k && p < pregs[j] ==> Busy(ivs, alloc, j, p))
  }

  /** The active list and the free map after `k` intervals, looked at from point `p`. */
  ghost predicate ScanLists(ivs: seq<LiveInterval>, k: nat, pregs: seq<nat>, p: nat, active: seq<Active>, free: seq<bool>) {
    k <= |ivs| && |pregs| == k &&
    active == ActiveOf(ivs[..k], pregs, p) && DistinctRegs(active) && FreeMatches(free, active)
  }

  lemma ScanBusy(ivs: seq<LiveInterval>, k: nat, pregs: seq<nat>, alloc: seq<nat>, active: seq<Active>, p: nat)
    requires k < |ivs| && ScanInv(ivs, k, pregs, alloc)
    requires active == ActiveOf(ivs[..k], pregs, ivs[k].start) && Held(active, p)
    ensures Busy(ivs, alloc, k, p)
  {
    ActiveOfMembers(ivs[..k], pregs, ivs[k].start);
    var a :| 0 <= a < |active| && active[a].preg == p;
    assert active[a] in active;
    var i :| 0 <= i < k && ivs[..k][i].end >= ivs[k].start &&
      active[a] == Active(ivs[..k][i].end, ivs[..k][i].vreg, pregs[i]);
    assert alloc[ivs[i].vreg] == p;
  }

  /** A register no active entry holds is not in use by any live interval. */
  lemma ScanDistinct(ivs: seq<LiveInterval>, k: nat, pregs: seq<nat>, active: seq<Active>, r: nat)
    requires k < |ivs| && |pregs| == k
    requires active == ActiveOf(ivs[..k], pregs, ivs[k].start) && !Held(active, r)
    ensures forall i :: 0 <= i < k && ivs[i].end >= ivs[k].start ==> pregs[i] != r
  {
    ActiveOfMembers(ivs[..k], pregs, ivs[k].start);
    forall i | 0 <= i < k && ivs[i].end >= ivs[k].start
      ensures pregs[i] != r
    {
      var x := Active(ivs[..k][i].end, ivs[..k][i].vreg, pregs[i]);
      assert x in active;
    }
  }

  /** Handing register `r` to interval `k` extends the active list by one entry. */
  lemma ScanLists1(ivs: seq<LiveInterval>, k: nat, pregs: seq<nat>, active: seq<Active>, free: seq<bool>, r: nat)
    requires k < |ivs| && ivs[k].start <= ivs[k].end
    requires ScanLists(ivs, k, pregs, ivs[k].start, active, free)
    requires r < NUM_PHYS_REGS && free[r]
    ensures ScanLists(ivs, k + 1, pregs + [r], ivs[k].start,
                      active + [Active(ivs[k].end, ivs[k].vreg, r)], free[r := false])
  {
    var x := Active(ivs[k].end, ivs[k].vreg, r);
    assert ivs[..k + 1][..k] == ivs[..k] && (pregs + [r])[..k] == pregs;
    assert active + [x] == ActiveOf(ivs[..k + 1], pregs + [r], ivs[k].start);
    HeldAppend(active, x);
    assert !Held(active, r);
  }

  lemma BusyKept(ivs: seq<LiveInterval>, n: nat, alloc: seq<nat>, k: nat, r: nat, j: nat, p: nat)
    requires GoodIntervals(ivs, n) && |alloc| == n && j <= k < |ivs|
    requires Busy(ivs, alloc, j, p)
    ensures Busy(ivs, alloc[ivs[k].vreg := r], j, p)
  {
    var i :| 0 <= i < j && ivs[i].end >= ivs[j].start && alloc[ivs[i].vreg] == p;
    assert alloc[ivs[k].vreg := r][ivs[i].vreg] == p;
  }

  lemma ScanStep(ivs: seq<LiveInterval>, n: nat, k: nat, pregs: seq<nat>, alloc: seq<nat>,
                 active: seq<Active>, free: seq<bool>, r: nat)
    requires GoodIntervals(ivs, n) && k < |ivs| && ScanInv(ivs, k, pregs, alloc) && |alloc| == n
    requires ScanLists(ivs, k, pregs, ivs[k].start, active, free)
    requires r < NUM_PHYS_REGS && free[r] && forall p :: 0 <= p < r ==> !free[p]
    ensures ScanInv(ivs, k + 1, pregs + [r], alloc[ivs[k].vreg := r])
  {
    var pregs' := pregs + [r];
    var alloc' := alloc[ivs[k].vreg := r];
    ScanDistinct(ivs, k, pregs, active, r);
    ScanLists1(ivs, k, pregs, active, free, r);
    assert LiveAt(ivs[..k + 1], ivs[k].start) <= NUM_PHYS_REGS by {
      ActiveOfCounts(ivs[..k + 1], pregs', ivs[k].start);
      Pigeonhole(active + [Active(ivs[k].end, ivs[k].vreg, r)]);
    }
    forall j, p: nat | 0 <= j <= k && p < pregs'[j]
      ensures Busy(ivs, alloc', j, p)
    {
      if j == k {
        ScanBusy(ivs, k, pregs, alloc, active, p);
      }
      BusyKept(ivs, n, alloc, k, r, j, p);
    }
  }

  /** Everything the loop of the allocator maintains. */
  ghost predicate ScanState(ivs: seq<LiveInterval>, k: nat, pregs: seq<nat>, p: nat,
                            alloc: seq<nat>, active: seq<Active>, free: seq<bool>) {
    ScanInv(ivs, k, pregs, alloc) && ScanLists(ivs, k, pregs, p, active, free) &&
    (k < |ivs| ==> p <= ivs[k].start)
  }

  lemma ScanAdvance(ivs: seq<LiveInterval>, n: nat, k: nat, pregs: seq<nat>, alloc: seq<nat>, alloc': seq<nat>,
                    active: seq<Active>, active': seq<Active>, free: seq<bool>, free': seq<bool>, r: nat)
    requires GoodIntervals(ivs, n) && k < |ivs| && ScanInv(ivs, k, pregs, alloc) && |alloc| == n
    requires ScanLists(ivs, k, pregs, ivs[k].start, active, free)
    requires r < NUM_PHYS_REGS && free[r] && forall p :: 0 <= p < r ==> !free[p]
    requires alloc' == alloc[ivs[k].vreg := r] && free' == free[r := false]
    requires active' == active + [Active(ivs[k].end, ivs[k].vreg, r)]
    ensures ScanState(ivs, k + 1, pregs + [r], ivs[k].start, alloc', active', free')
  {
    ScanStep(ivs, n, k, pregs, alloc, active, free, r);
    ScanLists1(ivs, k, pregs, active, free, r);
  }

  /** Expiring at the start of the next interval. */
  lemma ScanExpire(ivs: seq<LiveInterval>, k: nat, pregs: seq<nat>, p: nat, alloc: seq<nat>,
                   active: seq<Active>, free: seq<bool>, active': seq<Active>, free': seq<bool>)
    requires k < |ivs| && ScanState(ivs, k, pregs, p, alloc, active, free)
    requires active' == Retained(active, ivs[k].start) && DistinctRegs(active') && FreeMatches(free', active')
    ensures ScanLists(ivs, k, pregs, ivs[k].start, active', free') && ScanInv(ivs, k, pregs, alloc)
  {
    RetainedActiveOf(ivs[..k], pregs, p, ivs[k].start);
  }

  /** All registers taken: this point is too busy. */
  lemma ScanFails(ivs: seq<LiveInterval>, k: nat, pregs: seq<nat>, active: seq<Active>, free: seq<bool>)
    requires SortedByStart(ivs) && k < |ivs| && ivs[k].start <= ivs[k].end
    requires ScanLists(ivs, k, pregs, ivs[k].start, active, free)
    requires forall p :: 0 <= p < NUM_PHYS_REGS ==> !free[p]
    ensures !Fits(ivs)
  {
    var start := ivs[k].start;
    Pigeonhole(active);
    ActiveOfCounts(ivs[..k], pregs, start);
    assert ivs[..k + 1][..k] == ivs[..k];
    assert LiveAt(ivs[..k + 1], start) == NUM_PHYS_REGS + 1;
    LiveAtPrefix(ivs, k + 1, start);
  }

  /** A completed scan proves the allocation sound, first-fit, and the program to fit. */
  lemma ScanDone(ivs: seq<LiveInterval>, n: nat, pregs: seq<nat>, alloc: seq<nat>)
    requires GoodIntervals(ivs, n) && ScanInv(ivs, |ivs|, pregs, alloc)
    ensures Fits(ivs) && Sound(ivs, alloc) && FirstFit(ivs, alloc)
  {
    forall p: nat
      ensures LiveAt(ivs, p) <= NUM_PHYS_REGS
    {
      LiveAtAttained(ivs, p);
    }
  }

  lemma ScanInit(ivs: seq<LiveInterval>, n: nat, alloc: seq<nat>, free: seq<bool>)
    requires GoodIntervals(ivs, n) && |alloc| == n
    requires |free| == NUM_PHYS_REGS && forall r :: 0 <= r < |free| ==> free[r]
    ensures ScanState(ivs, 0, [], 0, alloc, [], free)
  {
  }

  method LinearScanAlloc(ivs: seq<LiveInterval>, numVregs: nat) returns (r: Option<seq<nat>>)
    requires GoodIntervals(ivs, numVregs)
    ensures r.Some? <==> Fits(ivs)
    ensures r.Some? ==> |r.value| == numVregs && Sound(ivs, r.value) && FirstFit(ivs, r.value)
  {
    hide ScanInv, ActiveOf, Fits, Sound, FirstFit, Retained;
    var alloc := new nat[numVregs](_ => 0);
    var free := new bool[NUM_PHYS_REGS](_ => true);
    var active: seq<Active> := [];
    ScanInit(ivs, numVregs, alloc[..], free[..]);
    ghost var pregs: seq<nat> := [];
    ghost var point: nat := 0;
    for k := 0 to |ivs|
      invariant ScanState(ivs, k, pregs, point, alloc[..], active, free[..])
    {
      var iv := ivs[k];
      ghost var active0, free0 := active, free[..];
      active := Expire(active, free, iv.start);
      ghost var active1, free1, alloc1 := active, free[..], alloc[..];
      ScanExpire(ivs, k, pregs, point, alloc1, active0, free0, active1, free1);
      var preg := Position(free);
      if preg.None? {
        assert free[..] == free1;
        assert forall p :: 0 <= p < NUM_PHYS_REGS ==> free1[p] == free[p];
        ScanFails(ivs, k, pregs, active, free1);
        return None;
      }
      free[preg.value] := false;
      alloc[iv.vreg] := preg.value;
      active := active + [Active(iv.end, iv.vreg, preg.value)];
      ScanAdvance(ivs, numVregs, k, pregs, alloc1, alloc[..], active1, active, free1, free[..], preg.value);
      pregs := pregs + [preg.value];
      point := iv.start;
    }
    ScanDone(ivs, numVregs, pregs, alloc[..]);
    r := Some(alloc[..]);
  }
}
