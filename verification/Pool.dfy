/** The compile pool and the shared cache, step by step (pool.rs, array.rs). */
module Pool {
  import opened Words
  import G = Graph

  /** What hashing and compiling read of a graph; neither looks at `isStabilized`. */
  datatype Source = Source(nodes: seq<G.Node>, root: nat)

  function SourceOf(g: G.Graph): Source { Source(g.nodes, g.root) }

  type Key = seq<byte>
  type Code = seq<byte>

  /** The hash and the compiler, about which nothing is assumed. */
  datatype Tools = Tools(hash: Source -> Key, compile: Source -> Option<Code>)

  datatype Stage = Tile | Fuse | Assemble

  datatype Task = Task(stage: Stage, graph: G.Graph, hash: Key)

  /**
   * Where a task is: submitted while the mode was off and its hash not yet
   * looked up, decided but not yet pushed, in a queue, held by a worker, held by
   * a worker that found no cache entry and is compiling, or gone. An eager
   * caller has its graph compiled without the pool, in the same two steps.
   */
  datatype Place =
    | ToLookUp
    | ToInjector
    | ToXtreme
    | Injector
    | XtremeQueue
    | Local(worker: nat)
    | Running(worker: nat)
    | Compiling(worker: nat)
    | XtremeRunning
    | XtremeCompiling
    | EagerCalled
    | EagerCompiling
    | Gone

  datatype Slot = Slot(task: Task, place: Place)

  /** `polled`: the Xtreme worker has seen the mode on and not yet polled its queue. */
  datatype State = State(
    slots: seq<Slot>,
    active: bool,
    polled: bool,
    cache: map<Key, Code>,
    submitted: set<Key>,
    failed: set<Key>)

  datatype Step =
    | Submit(graph: G.Graph)
    | SubmitCheck(i: nat)
    | Eager(graph: G.Graph)
    | EagerCheck(i: nat)
    | EagerFinish(i: nat)
    | Push(i: nat)
    | SetMode(on: bool)
    | Steal(i: nat, w: nat)
    | Take(i: nat, w: nat)
    | Process(i: nat, sawXtreme: bool)
    | Finish(i: nat)
    | PollMode
    | XtremeTake(i: nat)
    | XtremeCheck(i: nat)
    | XtremeFinish(i: nat)

  const EMPTY := State([], false, false, map[], {}, {})

  predicate Idle(s: State, w: nat) {
    forall i :: 0 <= i < |s.slots| ==> s.slots[i].place != Running(w) && s.slots[i].place != Compiling(w)
  }

  predicate XtremeBusy(s: State, i: nat)
    requires i < |s.slots|
  {
    s.slots[i].place == XtremeRunning || s.slots[i].place == XtremeCompiling
  }

  predicate XtremeIdle(s: State) { forall i :: 0 <= i < |s.slots| ==> !XtremeBusy(s, i) }

  predicate Enabled(s: State, step: Step) {
    match step
    case Submit(_) => true
    case SubmitCheck(i) => i < |s.slots| && s.slots[i].place == ToLookUp
    case Eager(_) => true
    case EagerCheck(i) => i < |s.slots| && s.slots[i].place == EagerCalled
    case EagerFinish(i) => i < |s.slots| && s.slots[i].place == EagerCompiling
    case Push(i) => i < |s.slots| && (s.slots[i].place == ToInjector || s.slots[i].place == ToXtreme)
    case SetMode(_) => true
    case Steal(i, _) => i < |s.slots| && (s.slots[i].place == Injector || s.slots[i].place.Local?)
    case Take(i, w) => i < |s.slots| && s.slots[i].place == Local(w) && Idle(s, w)
    case Process(i, _) => i < |s.slots| && s.slots[i].place.Running?
    case Finish(i) => i < |s.slots| && s.slots[i].place.Compiling?
    case PollMode => XtremeIdle(s)
    case XtremeTake(i) => s.polled && i < |s.slots| && s.slots[i].place == XtremeQueue
    case XtremeCheck(i) => i < |s.slots| && s.slots[i].place == XtremeRunning
    case XtremeFinish(i) => i < |s.slots| && s.slots[i].place == XtremeCompiling
  }

  function At(s: State, i: nat, place: Place): State
    requires i < |s.slots|
  {
    s.(slots := s.slots[i := s.slots[i].(place := place)])
  }

  /** Compiling ends: the code goes into the cache, or the compiler has given up. */
  function Compiled(t: Tools, s: State, i: nat): State
    requires i < |s.slots|
  {
    var task := s.slots[i].task;
    match t.compile(SourceOf(task.graph))
    case Some(code) => At(s, i, Gone).(cache := s.cache[task.hash := code])
    case None => At(s, i, Gone).(failed := s.failed + {task.hash})
  }

  /** The follow-up task a stage pushes; None at the last stage. */
  function FollowUp(task: Task, sawXtreme: bool): Option<Task> {
    match task.stage
    case Tile => Some(task.(stage := if sawXtreme then Assemble else Fuse))
    case Fuse =>
      if task.graph.isStabilized then Some(task.(stage := Assemble))
      else Some(task.(graph := task.graph.(isStabilized := true)))
    case Assemble => None
  }

  function After(t: Tools, s: State, step: Step): State
    requires Enabled(s, step)
  {
    match step
    case Submit(graph) =>
      // the mode is read; without it the hash has yet to be looked up
      var hash := t.hash(SourceOf(graph));
      var slot := if s.active then Slot(Task(Assemble, graph, hash), ToXtreme) else Slot(Task(Tile, graph, hash), ToLookUp);
      s.(slots := s.slots + [slot], submitted := s.submitted + {hash})
    case SubmitCheck(i) => At(s, i, if s.slots[i].task.hash in s.cache then Gone else ToInjector)
    case Eager(graph) => s.(slots := s.slots + [Slot(Task(Assemble, graph, t.hash(SourceOf(graph))), EagerCalled)])
    case EagerCheck(i) => At(s, i, if s.slots[i].task.hash in s.cache then Gone else EagerCompiling)
    case EagerFinish(i) =>
      // if compiling fails, the caller gives up
      var task := s.slots[i].task;
      (match t.compile(SourceOf(task.graph))
       case Some(code) => At(s, i, Gone).(cache := s.cache[task.hash := code])
       case None => At(s, i, Gone))
    case Push(i) => At(s, i, if s.slots[i].place == ToInjector then Injector else XtremeQueue)
    case SetMode(on) => s.(active := on)
    case Steal(i, w) => At(s, i, Local(w))
    case Take(i, w) => At(s, i, Running(w))
    case Process(i, sawXtreme) =>
      var slot := s.slots[i];
      (match FollowUp(slot.task, sawXtreme)
       case Some(next) => s.(slots := s.slots[i := Slot(next, Local(slot.place.worker))])
       case None => At(s, i, if slot.task.hash in s.cache then Gone else Compiling(slot.place.worker)))
    case Finish(i) => Compiled(t, s, i)
    case PollMode => s.(polled := s.active)
    case XtremeTake(i) => At(s, i, XtremeRunning).(polled := false)
    case XtremeCheck(i) => At(s, i, if s.slots[i].task.hash in s.cache then Gone else XtremeCompiling)
    case XtremeFinish(i) => Compiled(t, s, i)
  }

  // ------------------------------------------------------------ invariant

  /** A task carries the hash of its graph. */
  ghost predicate Honest(t: Tools, task: Task) { task.hash == t.hash(SourceOf(task.graph)) }

  /** A cached entry was compiled from some graph of that hash. */
  ghost predicate Genuine(t: Tools, key: Key, code: Code) {
    exists g: Source :: t.hash(g) == key && t.compile(g) == Some(code)
  }

  ghost predicate GaveUp(t: Tools, key: Key) {
    exists g: Source :: t.hash(g) == key && t.compile(g) == None
  }

  /** The pool still has to deal with a task here; what an eager caller does is no affair of the pool. */
  predicate Pooled(place: Place) { place != Gone && place != EagerCalled && place != EagerCompiling }

  ghost predicate LiveAt(s: State, i: nat, key: Key) {
    i < |s.slots| && Pooled(s.slots[i].place) && s.slots[i].task.hash == key
  }

  /** A submitted hash is cached, or given up on, or some task for it is still on its way. */
  ghost predicate Accounted(s: State, key: Key) {
    key in s.cache || key in s.failed || exists i: nat :: LiveAt(s, i, key)
  }

  ghost predicate Inv(t: Tools, s: State) {
    && (forall i :: 0 <= i < |s.slots| ==> Honest(t, s.slots[i].task))
    && (forall k :: k in s.cache ==> Genuine(t, k, s.cache[k]))
    && (forall k :: k in s.failed ==> GaveUp(t, k))
    && (forall k :: k in s.submitted ==> Accounted(s, k))
  }

  /** Replacing one slot by another for the same hash, or dropping it once its hash is settled, keeps all accounts. */
  lemma SlotChanges(t: Tools, s: State, s': State, i: nat)
    requires Inv(t, s) && i < |s.slots| && |s'.slots| == |s.slots| && s'.slots == s.slots[i := s'.slots[i]]
    requires s'.slots[i].task.hash == s.slots[i].task.hash && Honest(t, s'.slots[i].task)
    requires s.cache.Keys <= s'.cache.Keys && s.failed <= s'.failed && s'.submitted == s.submitted
    requires Pooled(s.slots[i].place) ==>
      Pooled(s'.slots[i].place) || s.slots[i].task.hash in s'.cache || s.slots[i].task.hash in s'.failed
    requires forall k :: k in s'.cache ==> Genuine(t, k, s'.cache[k])
    requires forall k :: k in s'.failed ==> GaveUp(t, k)
    ensures Inv(t, s')
  {
    hide Genuine, GaveUp;
    forall k | k in s'.submitted
      ensures Accounted(s', k)
    {
      if k !in s'.cache && k !in s'.failed {
        var j: nat :| LiveAt(s, j, k);
        assert LiveAt(s', j, k);
      }
    }
  }

  lemma CompiledKeeps(t: Tools, s: State, i: nat)
    requires Inv(t, s) && i < |s.slots|
    ensures Inv(t, Compiled(t, s, i))
  {
    var task := s.slots[i].task;
    var g := SourceOf(task.graph);
    assert t.hash(g) == task.hash;
    if t.compile(g).Some? {
      assert Genuine(t, task.hash, t.compile(g).value);
    } else {
      assert GaveUp(t, task.hash);
    }
    SlotChanges(t, s, Compiled(t, s, i), i);
  }

  lemma SubmitKeeps(t: Tools, s: State, graph: G.Graph)
    requires Inv(t, s)
    ensures Inv(t, After(t, s, Submit(graph)))
  {
    hide Genuine, GaveUp;
    var s' := After(t, s, Submit(graph));
    var hash := t.hash(SourceOf(graph));
    assert |s'.slots| > |s.slots| ==> LiveAt(s', |s.slots|, hash);
    forall k | k in s.submitted
      ensures Accounted(s', k)
    {
      if k !in s.cache && k !in s.failed {
        var j: nat :| LiveAt(s, j, k);
        assert LiveAt(s', j, k);
      }
    }
  }

  lemma EagerKeeps(t: Tools, s: State, graph: G.Graph)
    requires Inv(t, s)
    ensures Inv(t, After(t, s, Eager(graph)))
  {
    hide Genuine, GaveUp;
    var s' := After(t, s, Eager(graph));
    forall k | k in s'.submitted
      ensures Accounted(s', k)
    {
      if k !in s.cache && k !in s.failed {
        var j: nat :| LiveAt(s, j, k);
        assert LiveAt(s', j, k);
      }
    }
  }

  lemma EagerFinishKeeps(t: Tools, s: State, i: nat)
    requires Inv(t, s) && Enabled(s, EagerFinish(i))
    ensures Inv(t, After(t, s, EagerFinish(i)))
  {
    var task := s.slots[i].task;
    var g := SourceOf(task.graph);
    assert t.hash(g) == task.hash;
    if t.compile(g).Some? {
      assert Genuine(t, task.hash, t.compile(g).value);
    }
    SlotChanges(t, s, After(t, s, EagerFinish(i)), i);
  }

  lemma ProcessKeeps(t: Tools, s: State, i: nat, sawXtreme: bool)
    requires Inv(t, s) && Enabled(s, Process(i, sawXtreme))
    ensures Inv(t, After(t, s, Process(i, sawXtreme)))
  {
    hide Genuine, GaveUp;
    var task := s.slots[i].task;
    if FollowUp(task, sawXtreme).Some? {
      assert SourceOf(FollowUp(task, sawXtreme).value.graph) == SourceOf(task.graph);
    }
    SlotChanges(t, s, After(t, s, Process(i, sawXtreme)), i);
  }

  lemma StepKeeps(t: Tools, s: State, step: Step)
    requires Inv(t, s) && Enabled(s, step)
    ensures Inv(t, After(t, s, step))
  {
    hide Genuine, GaveUp, Compiled, FollowUp;
    match step
    case Submit(graph) => SubmitKeeps(t, s, graph);
    case SubmitCheck(i) => SlotChanges(t, s, After(t, s, step), i);
    case Eager(graph) => EagerKeeps(t, s, graph);
    case EagerCheck(i) => SlotChanges(t, s, After(t, s, step), i);
    case EagerFinish(i) => EagerFinishKeeps(t, s, i);
    case Push(i) => SlotChanges(t, s, After(t, s, step), i);
    case SetMode(_) => SameAccounts(t, s, After(t, s, step));
    case Steal(i, _) => SlotChanges(t, s, After(t, s, step), i);
    case Take(i, _) => SlotChanges(t, s, After(t, s, step), i);
    case Process(i, sawXtreme) => ProcessKeeps(t, s, i, sawXtreme);
    case Finish(i) => CompiledKeeps(t, s, i);
    case PollMode => SameAccounts(t, s, After(t, s, step));
    case XtremeTake(i) => SlotChanges(t, s, After(t, s, step), i);
    case XtremeCheck(i) => SlotChanges(t, s, After(t, s, step), i);
    case XtremeFinish(i) => CompiledKeeps(t, s, i);
  }

  lemma SameAccounts(t: Tools, s: State, s': State)
    requires Inv(t, s) && s'.slots == s.slots && s'.cache == s.cache && s'.submitted == s.submitted && s'.failed == s.failed
    ensures Inv(t, s')
  {
    hide Genuine, GaveUp;
    forall k | k in s'.submitted
      ensures Accounted(s', k)
    {
      if k !in s.cache && k !in s.failed {
        var j: nat :| LiveAt(s, j, k);
        assert LiveAt(s', j, k);
      }
    }
  }

  // ------------------------------------------------------------- whole runs

  predicate CanRun(t: Tools, s: State, steps: seq<Step>)
    decreases |steps|
  {
    steps == [] || (Enabled(s, steps[0]) && CanRun(t, After(t, s, steps[0]), steps[1..]))
  }

  function Run(t: Tools, s: State, steps: seq<Step>): State
    requires CanRun(t, s, steps)
    decreases |steps|
  {
    if steps == [] then s else Run(t, After(t, s, steps[0]), steps[1..])
  }

  lemma {:induction false} RunKeeps(t: Tools, s: State, steps: seq<Step>)
    requires Inv(t, s) && CanRun(t, s, steps)
    ensures Inv(t, Run(t, s, steps))
    decreases |steps|
  {
    hide Inv, Enabled, After;
    if steps != [] {
      StepKeeps(t, s, steps[0]);
      RunKeeps(t, After(t, s, steps[0]), steps[1..]);
    }
  }

  /**
   * In every interleaving of submissions, steals, task steps, compilations and
   * mode changes: tasks carry their graph's hash, cached code was compiled from
   * a graph of its key, no submitted hash is lost, and every worker deals with
   * one task at a time.
   */
  lemma PoolIsSafe(t: Tools, steps: seq<Step>)
    requires CanRun(t, EMPTY, steps)
    ensures Inv(t, Run(t, EMPTY, steps)) && OneAtATime(Run(t, EMPTY, steps)) && OneInHand(Run(t, EMPTY, steps))
  {
    RunKeepsHands(t, EMPTY, steps);
    RunKeeps(t, EMPTY, steps);
    RunKeepsOne(t, EMPTY, steps);
  }

  // ------------------------------------------------------------- progress

  /** How many more times a task can be processed. */
  function Rank(task: Task): nat {
    match task.stage
    case Tile => 4
    case Fuse => if task.graph.isStabilized then 2 else 3
    case Assemble => 1
  }

  /** A task that is being compiled has only that left. */
  function Weight(slot: Slot): nat {
    if slot.place == Gone then 0
    else if slot.place.Compiling? || slot.place == XtremeCompiling || slot.place == EagerCompiling then 1
    else Rank(slot.task) + 1
  }

  function TotalWeight(slots: seq<Slot>): nat {
    if slots == [] then 0 else Weight(slots[0]) + TotalWeight(slots[1..])
  }

  lemma {:induction false} WeightAt(slots: seq<Slot>, i: nat, slot: Slot)
    requires i < |slots|
    ensures TotalWeight(slots[i := slot]) == TotalWeight(slots) - Weight(slots[i]) + Weight(slot)
  {
    hide Weight;
    if i > 0 {
      assert slots[i := slot][1..] == slots[1..][i - 1 := slot];
      WeightAt(slots[1..], i - 1, slot);
    } else {
      assert slots[i := slot][1..] == slots[1..];
    }
  }

  predicate DoesWork(step: Step) {
    step.Process? || step.Finish? || step.XtremeCheck? || step.XtremeFinish? || step.EagerCheck? || step.EagerFinish?
  }

  /** Moving a task between queues and hands leaves its work to do. */
  lemma MoveKeepsWeight(s: State, i: nat, place: Place)
    requires i < |s.slots| && Weight(s.slots[i].(place := place)) == Weight(s.slots[i])
    ensures TotalWeight(At(s, i, place).slots) == TotalWeight(s.slots)
  {
    hide TotalWeight, Weight;
    WeightAt(s.slots, i, s.slots[i].(place := place));
  }

  /** Every step of work uses up weight, and only a new submission or eager call adds any: a task is worked on a bounded number of times. */
  lemma WorkDecreases(t: Tools, s: State, step: Step)
    requires Enabled(s, step) && !step.Submit? && !step.Eager?
    ensures DoesWork(step) ==> TotalWeight(After(t, s, step).slots) < TotalWeight(s.slots)
    ensures !DoesWork(step) ==> TotalWeight(After(t, s, step).slots) <= TotalWeight(s.slots)
  {
    hide TotalWeight, FollowUp, Compiled, Rank, Idle, XtremeIdle;
    match step
    case SubmitCheck(i) => LookUpUses(t, s, i);
    case EagerCheck(i) => EagerCheckUses(t, s, i);
    case EagerFinish(i) => EagerFinishUses(t, s, i);
    case Push(i) => MoveKeepsWeight(s, i, After(t, s, step).slots[i].place);
    case Steal(i, w) => MoveKeepsWeight(s, i, Local(w));
    case Take(i, w) => MoveKeepsWeight(s, i, Running(w));
    case Process(i, sawXtreme) => ProcessUses(t, s, i, sawXtreme);
    case Finish(i) => CompilingUses(t, s, i);
    case XtremeTake(i) => MoveKeepsWeight(s, i, XtremeRunning);
    case XtremeCheck(i) => CheckUses(t, s, i);
    case XtremeFinish(i) => CompilingUses(t, s, i);
    case _ =>
  }

  lemma LookUpUses(t: Tools, s: State, i: nat)
    requires Enabled(s, SubmitCheck(i))
    ensures TotalWeight(After(t, s, SubmitCheck(i)).slots) <= TotalWeight(s.slots)
  {
    hide TotalWeight, Idle, XtremeIdle;
    WeightAt(s.slots, i, After(t, s, SubmitCheck(i)).slots[i]);
  }

  lemma EagerCheckUses(t: Tools, s: State, i: nat)
    requires Enabled(s, EagerCheck(i))
    ensures TotalWeight(After(t, s, EagerCheck(i)).slots) < TotalWeight(s.slots)
  {
    hide TotalWeight, Idle, XtremeIdle;
    WeightAt(s.slots, i, After(t, s, EagerCheck(i)).slots[i]);
  }

  lemma EagerFinishUses(t: Tools, s: State, i: nat)
    requires Enabled(s, EagerFinish(i))
    ensures TotalWeight(After(t, s, EagerFinish(i)).slots) < TotalWeight(s.slots)
  {
    hide TotalWeight, Idle, XtremeIdle;
    WeightAt(s.slots, i, After(t, s, EagerFinish(i)).slots[i]);
  }

  lemma ProcessUses(t: Tools, s: State, i: nat, sawXtreme: bool)
    requires Enabled(s, Process(i, sawXtreme))
    ensures TotalWeight(After(t, s, Process(i, sawXtreme)).slots) < TotalWeight(s.slots)
  {
    hide TotalWeight, Idle;
    WeightAt(s.slots, i, After(t, s, Process(i, sawXtreme)).slots[i]);
  }

  lemma CheckUses(t: Tools, s: State, i: nat)
    requires Enabled(s, XtremeCheck(i))
    ensures TotalWeight(After(t, s, XtremeCheck(i)).slots) < TotalWeight(s.slots)
  {
    hide TotalWeight, Idle;
    WeightAt(s.slots, i, After(t, s, XtremeCheck(i)).slots[i]);
  }

  lemma CompilingUses(t: Tools, s: State, i: nat)
    requires i < |s.slots| && (s.slots[i].place.Compiling? || s.slots[i].place == XtremeCompiling)
    ensures TotalWeight(Compiled(t, s, i).slots) < TotalWeight(s.slots)
  {
    hide TotalWeight, Idle;
    WeightAt(s.slots, i, Compiled(t, s, i).slots[i]);
  }

  // ------------------------------------------------------- the Xtreme worker

  /** The Xtreme worker runs one task at a time, and polls between tasks. */
  ghost predicate OneAtATime(s: State) {
    && (s.polled ==> XtremeIdle(s))
    && forall i, j :: 0 <= i < |s.slots| && 0 <= j < |s.slots| && XtremeBusy(s, i) && XtremeBusy(s, j) ==> i == j
  }

  /** Nothing starts to run there. */
  lemma NoneStarts(s: State, s': State)
    requires OneAtATime(s) && |s.slots| <= |s'.slots| && (s'.polled ==> s.polled)
    requires forall i :: 0 <= i < |s'.slots| && XtremeBusy(s', i) ==> i < |s.slots| && XtremeBusy(s, i)
    ensures OneAtATime(s')
  {
  }

  /** A task that is started where none runs is the only one. */
  lemma OneStarts(s: State, s': State, i: nat)
    requires XtremeIdle(s) && !s'.polled && i < |s.slots| == |s'.slots|
    requires forall k :: 0 <= k < |s.slots| && k != i ==> s'.slots[k] == s.slots[k]
    ensures OneAtATime(s')
  {
    assert forall k :: 0 <= k < |s.slots| && XtremeBusy(s', k) && k != i ==> XtremeBusy(s, k);
  }

  lemma StepKeepsOne(t: Tools, s: State, step: Step)
    requires OneAtATime(s) && Enabled(s, step)
    ensures OneAtATime(After(t, s, step))
  {
    hide FollowUp, Idle, OneAtATime, XtremeIdle, Compiled;
    var s' := After(t, s, step);
    match step
    case PollMode => PollKeepsOne(s, s');
    case XtremeTake(i) =>
      PolledIdle(s);
      OneStarts(s, s', i);
    case XtremeCheck(i) => SlotKeepsOne(s, s', i);
    case XtremeFinish(i) => CompiledKeepsOne(t, s, i);
    case SubmitCheck(i) => SlotKeepsOne(s, s', i);
    case EagerCheck(i) => SlotKeepsOne(s, s', i);
    case EagerFinish(i) => SlotKeepsOne(s, s', i);
    case Finish(i) => CompiledKeepsOne(t, s, i);
    case Process(i, _) => SlotKeepsOne(s, s', i);
    case Push(i) => SlotKeepsOne(s, s', i);
    case Steal(i, _) => SlotKeepsOne(s, s', i);
    case Take(i, _) => SlotKeepsOne(s, s', i);
    case _ => NoneStarts(s, s');
  }

  lemma CompiledKeepsOne(t: Tools, s: State, i: nat)
    requires OneAtATime(s) && i < |s.slots|
    ensures OneAtATime(Compiled(t, s, i))
  {
    hide OneAtATime;
    SlotKeepsOne(s, Compiled(t, s, i), i);
  }

  lemma PolledIdle(s: State)
    requires OneAtATime(s) && s.polled
    ensures XtremeIdle(s)
  {
  }

  lemma PollKeepsOne(s: State, s': State)
    requires OneAtATime(s) && XtremeIdle(s) && s'.slots == s.slots
    ensures OneAtATime(s')
  {
    assert forall i :: 0 <= i < |s.slots| ==> !XtremeBusy(s, i) && !XtremeBusy(s', i);
  }

  lemma SlotKeepsOne(s: State, s': State, i: nat)
    requires OneAtATime(s) && i < |s.slots| == |s'.slots| && s'.slots == s.slots[i := s'.slots[i]] && s'.polled == s.polled
    requires (XtremeBusy(s', i) ==> XtremeBusy(s, i))
    ensures OneAtATime(s')
  {
    forall k | 0 <= k < |s'.slots| && XtremeBusy(s', k)
      ensures XtremeBusy(s, k)
    {
    }
    NoneStarts(s, s');
  }

  lemma {:induction false} RunKeepsOne(t: Tools, s: State, steps: seq<Step>)
    requires OneAtATime(s) && CanRun(t, s, steps)
    ensures OneAtATime(Run(t, s, steps))
    decreases |steps|
  {
    hide OneAtATime, Enabled, After;
    if steps != [] {
      StepKeepsOne(t, s, steps[0]);
      RunKeepsOne(t, After(t, s, steps[0]), steps[1..]);
    }
  }

  // ---------------------------------------------------------- one task in hand

  predicate InHand(place: Place, w: nat) { place == Running(w) || place == Compiling(w) }

  /** A worker of the pool deals with one task at a time. */
  ghost predicate OneInHand(s: State) {
    forall i, j, w :: 0 <= i < |s.slots| && 0 <= j < |s.slots| && InHand(s.slots[i].place, w) && InHand(s.slots[j].place, w) ==> i == j
  }

  /** Where nothing comes into a worker's hands but from the same slot. */
  lemma HandsKept(s: State, s': State)
    requires OneInHand(s) && |s.slots| <= |s'.slots|
    requires forall i, w :: 0 <= i < |s'.slots| && InHand(s'.slots[i].place, w) ==> i < |s.slots| && InHand(s.slots[i].place, w)
    ensures OneInHand(s')
  {
  }

  lemma TakeKeepsOne(t: Tools, s: State, i: nat, w: nat)
    requires OneInHand(s) && Enabled(s, Take(i, w))
    ensures OneInHand(After(t, s, Take(i, w)))
  {
    var s' := After(t, s, Take(i, w));
    forall j, x | 0 <= j < |s'.slots| && InHand(s'.slots[j].place, x)
      ensures if j == i then x == w else InHand(s.slots[j].place, x) && x != w
    {
    }
  }

  lemma StepKeepsHands(t: Tools, s: State, step: Step)
    requires OneInHand(s) && Enabled(s, step)
    ensures OneInHand(After(t, s, step))
  {
    hide OneInHand, Idle, XtremeIdle, FollowUp;
    if step.Take? {
      TakeKeepsOne(t, s, step.i, step.w);
    } else if step.Process? {
      ProcessKeepsHands(t, s, step.i, step.sawXtreme);
    } else {
      HandsKept(s, After(t, s, step));
    }
  }

  lemma ProcessKeepsHands(t: Tools, s: State, i: nat, sawXtreme: bool)
    requires OneInHand(s) && Enabled(s, Process(i, sawXtreme))
    ensures OneInHand(After(t, s, Process(i, sawXtreme)))
  {
    hide OneInHand, FollowUp;
    HandsKept(s, After(t, s, Process(i, sawXtreme)));
  }

  lemma {:induction false} RunKeepsHands(t: Tools, s: State, steps: seq<Step>)
    requires OneInHand(s) && CanRun(t, s, steps)
    ensures OneInHand(Run(t, s, steps))
    decreases |steps|
  {
    hide OneInHand, Enabled, After;
    if steps != [] {
      StepKeepsHands(t, s, steps[0]);
      RunKeepsHands(t, After(t, s, steps[0]), steps[1..]);
    }
  }

  lemma {:induction false} RunOn(t: Tools, s: State, a: seq<Step>, b: seq<Step>)
    requires CanRun(t, s, a) && CanRun(t, Run(t, s, a), b)
    ensures CanRun(t, s, a + b) && Run(t, s, a + b) == Run(t, Run(t, s, a), b)
    decreases |a|
  {
    hide Enabled, After;
    if a == [] {
      assert a + b == b;
    } else {
      assert (a + b)[0] == a[0] && (a + b)[1..] == a[1..] + b;
      RunOn(t, After(t, s, a[0]), a[1..], b);
    }
  }

  lemma RunOne(t: Tools, s: State, step: Step)
    requires Enabled(s, step)
    ensures CanRun(t, s, [step]) && Run(t, s, [step]) == After(t, s, step)
  {
    hide Enabled, After;
    var steps := [step];
    assert steps[1..] == [];
    assert CanRun(t, After(t, s, step), steps[1..]);
    assert Run(t, After(t, s, step), steps[1..]) == After(t, s, step);
  }

  // -------------------------------------------------- what the Xtreme queue needs

  ghost predicate NeverOn(steps: seq<Step>) { forall i :: 0 <= i < |steps| ==> steps[i] != SetMode(true) }

  /**
   * A task in the Xtreme queue while the mode is off, and not just seen on,
   * stays there until the mode comes on, whatever else runs.
   */
  lemma {:induction false} XtremeTaskWaits(t: Tools, s: State, steps: seq<Step>, i: nat)
    requires CanRun(t, s, steps) && NeverOn(steps) && !s.active && !s.polled
    requires i < |s.slots| && s.slots[i].place == XtremeQueue
    ensures i < |Run(t, s, steps).slots| && Run(t, s, steps).slots[i] == s.slots[i]
    decreases |steps|
  {
    if steps != [] {
      var s1 := After(t, s, steps[0]);
      assert steps[0] != SetMode(true);
      assert forall j :: 0 <= j < |steps[1..]| ==> steps[1..][j] == steps[j + 1];
      assert s1.slots[i] == s.slots[i];
      XtremeTaskWaits(t, s1, steps[1..], i);
    }
  }

  /** These steps, none of which turns the mode on, bring task `i` to its end. */
  ghost predicate Ends(t: Tools, s: State, steps: seq<Step>, i: nat) {
    CanRun(t, s, steps) && NeverOn(steps) && i < |Run(t, s, steps).slots| && Run(t, s, steps).slots[i].place == Gone
  }

  /** All that differs is where task `i` is, what is cached, and what has failed. */
  ghost predicate OnlyMoved(s: State, s': State, i: nat) {
    && s'.active == s.active && s'.polled == s.polled && |s'.slots| == |s.slots|
    && forall k :: 0 <= k < |s.slots| && k != i ==> s'.slots[k] == s.slots[k]
  }

  lemma SettlesCompiling(t: Tools, s: State, i: nat)
    requires i < |s.slots| && s.slots[i].place == XtremeCompiling
    ensures Ends(t, s, [XtremeFinish(i)], i) && OnlyMoved(s, Run(t, s, [XtremeFinish(i)]), i)
  {
    hide CanRun, Run;
    RunOne(t, s, XtremeFinish(i));
  }

  /** What the Xtreme worker has taken, it brings to its end. */
  lemma Settles(t: Tools, s: State, i: nat) returns (steps: seq<Step>)
    requires i < |s.slots| && XtremeBusy(s, i)
    ensures Ends(t, s, steps, i) && OnlyMoved(s, Run(t, s, steps), i)
  {
    hide CanRun, Run, Compiled;
    if s.slots[i].place == XtremeCompiling {
      SettlesCompiling(t, s, i);
      return [XtremeFinish(i)];
    }
    var s1 := After(t, s, XtremeCheck(i));
    RunOne(t, s, XtremeCheck(i));
    steps := [XtremeCheck(i)];
    if s1.slots[i].place == XtremeCompiling {
      SettlesCompiling(t, s1, i);
      RunOn(t, s, steps, [XtremeFinish(i)]);
      steps := steps + [XtremeFinish(i)];
    }
  }

  /** A worker that has seen the mode on takes a task and brings it to its end. */
  lemma Drains(t: Tools, s: State, i: nat) returns (steps: seq<Step>)
    requires s.polled && i < |s.slots| && s.slots[i].place == XtremeQueue
    ensures Ends(t, s, steps, i)
  {
    hide CanRun, Run;
    RunOne(t, s, XtremeTake(i));
    var more := Settles(t, After(t, s, XtremeTake(i)), i);
    RunOn(t, s, [XtremeTake(i)], more);
    steps := [XtremeTake(i)] + more;
  }

  lemma PollsAndDrains(t: Tools, s: State, i: nat) returns (steps: seq<Step>)
    requires s.active && XtremeIdle(s) && i < |s.slots| && s.slots[i].place == XtremeQueue
    ensures Ends(t, s, steps, i)
  {
    hide CanRun, Run;
    RunOne(t, s, PollMode);
    var more := Drains(t, After(t, s, PollMode), i);
    RunOn(t, s, [PollMode], more);
    steps := [PollMode] + more;
  }

  lemma FinishesAndDrains(t: Tools, s: State, j: nat, i: nat) returns (steps: seq<Step>)
    requires OneAtATime(s) && s.active && j < |s.slots| && XtremeBusy(s, j)
    requires i < |s.slots| && s.slots[i].place == XtremeQueue
    ensures Ends(t, s, steps, i)
  {
    hide CanRun, Run;
    var first := Settles(t, s, j);
    var s1 := Run(t, s, first);
    assert XtremeIdle(s1) by {
      assert forall k :: 0 <= k < |s.slots| && XtremeBusy(s, k) ==> k == j;
      assert forall k :: 0 <= k < |s1.slots| && k != j && XtremeBusy(s1, k) ==> XtremeBusy(s, k);
    }
    var more := PollsAndDrains(t, s1, i);
    RunOn(t, s, first, more);
    steps := first + more;
  }

  /**
   * Without anyone turning the mode on, a task in the Xtreme queue can be
   * brought to its end exactly if the mode is on now or the worker has just
   * seen it on.
   */
  lemma XtremeTaskEnds(t: Tools, s: State, i: nat)
    requires OneAtATime(s) && i < |s.slots| && s.slots[i].place == XtremeQueue
    ensures (exists steps: seq<Step> :: Ends(t, s, steps, i)) <==> s.active || s.polled
  {
    hide CanRun, Run, OneAtATime;
    if s.polled {
      var steps := Drains(t, s, i);
    } else if s.active {
      if j: nat :| j < |s.slots| && XtremeBusy(s, j) {
        var steps := FinishesAndDrains(t, s, j, i);
      } else {
        var steps := PollsAndDrains(t, s, i);
      }
    } else if steps: seq<Step> :| Ends(t, s, steps, i) {
      XtremeTaskWaits(t, s, steps, i);
    }
  }

  /** Such a task comes about when the mode is turned off after a submission: its hash is not lost, but it waits. */
  lemma XtremeTaskStranded(t: Tools, g: G.Graph)
    ensures var steps, hash := [SetMode(true), Submit(g), Push(0)] + [SetMode(false)], t.hash(SourceOf(g));
            && CanRun(t, EMPTY, steps)
            && Run(t, EMPTY, steps) == State([Slot(Task(Assemble, g, hash), XtremeQueue)], false, false, map[], {hash}, {})
            && OneAtATime(Run(t, EMPTY, steps)) && !exists more: seq<Step> :: Ends(t, Run(t, EMPTY, steps), more, 0)
  {
    var hash := t.hash(SourceOf(g));
    var task := Task(Assemble, g, hash);
    var s1 := EMPTY.(active := true);
    var s2 := State([Slot(task, ToXtreme)], true, false, map[], {hash}, {});
    var s3 := State([Slot(task, XtremeQueue)], true, false, map[], {hash}, {});
    var s4 := State([Slot(task, XtremeQueue)], false, false, map[], {hash}, {});
    StrandedSteps(t, g, task, s1, s2, s3, s4);
    hide Enabled, After, CanRun, Run;
    ThreeSteps(t, g, s1, s2, s3);
    RunOne(t, s3, SetMode(false));
    RunOn(t, EMPTY, [SetMode(true), Submit(g), Push(0)], [SetMode(false)]);
    XtremeTaskEnds(t, s4, 0);
  }

  lemma ThreeSteps(t: Tools, g: G.Graph, s1: State, s2: State, s3: State)
    requires After(t, EMPTY, SetMode(true)) == s1 && After(t, s1, Submit(g)) == s2 && Enabled(s2, Push(0)) && After(t, s2, Push(0)) == s3
    ensures CanRun(t, EMPTY, [SetMode(true), Submit(g), Push(0)]) && Run(t, EMPTY, [SetMode(true), Submit(g), Push(0)]) == s3
  {
    hide After, CanRun, Run;
    RunOne(t, EMPTY, SetMode(true));
    RunOne(t, s1, Submit(g));
    RunOne(t, s2, Push(0));
    RunOn(t, s1, [Submit(g)], [Push(0)]);
    RunOn(t, EMPTY, [SetMode(true)], [Submit(g)] + [Push(0)]);
    assert [SetMode(true)] + ([Submit(g)] + [Push(0)]) == [SetMode(true), Submit(g), Push(0)];
  }

  lemma TwoSteps(t: Tools, s: State)
    requires Enabled(s, PollMode)
    ensures CanRun(t, s, [PollMode, SetMode(false)])
    ensures Run(t, s, [PollMode, SetMode(false)]) == After(t, After(t, s, PollMode), SetMode(false))
  {
    hide After, CanRun, Run;
    RunOne(t, s, PollMode);
    RunOne(t, After(t, s, PollMode), SetMode(false));
    RunOn(t, s, [PollMode], [SetMode(false)]);
    assert [PollMode] + [SetMode(false)] == [PollMode, SetMode(false)];
  }

  lemma StrandedSteps(t: Tools, g: G.Graph, task: Task, s1: State, s2: State, s3: State, s4: State)
    requires task == Task(Assemble, g, t.hash(SourceOf(g))) && s1 == EMPTY.(active := true)
    requires s2 == State([Slot(task, ToXtreme)], true, false, map[], {task.hash}, {})
    requires s3 == s2.(slots := [Slot(task, XtremeQueue)]) && s4 == s3.(active := false)
    ensures After(t, EMPTY, SetMode(true)) == s1 && After(t, s1, Submit(g)) == s2
    ensures Enabled(s2, Push(0)) && After(t, s2, Push(0)) == s3 && After(t, s3, SetMode(false)) == s4
    ensures OneAtATime(s4)
  {
    assert {} + {task.hash} == {task.hash};
    assert [] + [Slot(task, ToXtreme)] == [Slot(task, ToXtreme)];
    assert s2.slots[0 := Slot(task, XtremeQueue)] == s3.slots;
  }

  /** A poll in between is enough: the worker that has seen the mode on takes the task although the mode is off again. */
  lemma PolledInTime(t: Tools, g: G.Graph)
    ensures var steps := [SetMode(true), Submit(g), Push(0)] + [PollMode, SetMode(false)];
            && CanRun(t, EMPTY, steps) && !Run(t, EMPTY, steps).active
            && exists more: seq<Step> :: Ends(t, Run(t, EMPTY, steps), more, 0)
  {
    var task := Task(Assemble, g, t.hash(SourceOf(g)));
    var s1 := EMPTY.(active := true);
    var s2 := State([Slot(task, ToXtreme)], true, false, map[], {task.hash}, {});
    var s3 := State([Slot(task, XtremeQueue)], true, false, map[], {task.hash}, {});
    StrandedSteps(t, g, task, s1, s2, s3, s3.(active := false));
    assert After(t, s3, PollMode) == s3.(polled := true);
    assert After(t, s3.(polled := true), SetMode(false)) == s3.(polled := true, active := false);
    assert OneAtATime(s3.(polled := true, active := false));
    hide Enabled, After, CanRun, Run, OneAtATime;
    ThreeSteps(t, g, s1, s2, s3);
    TwoSteps(t, s3);
    RunOn(t, EMPTY, [SetMode(true), Submit(g), Push(0)], [PollMode, SetMode(false)]);
    XtremeTaskEnds(t, s3.(polled := true, active := false), 0);
  }

  // ------------------------------------------------- what ordinary tasks come to

  /** Not yet looked up, on its way through the workers, or in their hands. */
  predicate Ordinary(place: Place) {
    place == ToLookUp || place == ToInjector || place == Injector || place.Local? || place.Running? || place.Compiling?
  }

  lemma StepThen(t: Tools, s: State, step: Step, more: seq<Step>)
    requires Enabled(s, step) && step != SetMode(true) && CanRun(t, After(t, s, step), more) && NeverOn(more)
    ensures CanRun(t, s, [step] + more) && NeverOn([step] + more) && Run(t, s, [step] + more) == Run(t, After(t, s, step), more)
  {
    hide Enabled, After;
    assert ([step] + more)[1..] == more;
  }

  lemma RunThen(t: Tools, s: State, first: seq<Step>, more: seq<Step>)
    requires CanRun(t, s, first) && NeverOn(first) && CanRun(t, Run(t, s, first), more) && NeverOn(more)
    ensures CanRun(t, s, first + more) && NeverOn(first + more) && Run(t, s, first + more) == Run(t, Run(t, s, first), more)
  {
    hide CanRun, Run;
    RunOn(t, s, first, more);
  }

  lemma NoSteps(t: Tools, s: State)
    ensures CanRun(t, s, []) && NeverOn([]) && Run(t, s, []) == s
  {
  }

  /** Where several queues and hands follow one another. */
  function Distance(place: Place): nat {
    match place
    case ToLookUp => 4
    case ToInjector => 3
    case Injector => 2
    case Local(_) => 1
    case _ => 0
  }

  /** A worker can finish what it has in hand; a task it has not yet taken stays where it is. */
  lemma FreesWorker(t: Tools, s: State, w: nat, i: nat) returns (steps: seq<Step>)
    requires i < |s.slots| && s.slots[i].place == Local(w)
    ensures CanRun(t, s, steps) && NeverOn(steps) && Idle(Run(t, s, steps), w)
    ensures i < |Run(t, s, steps).slots| && Run(t, s, steps).slots[i] == s.slots[i]
    decreases TotalWeight(s.slots)
  {
    hide CanRun, Run, TotalWeight, After, NeverOn;
    if j: nat :| j < |s.slots| && (s.slots[j].place == Running(w) || s.slots[j].place == Compiling(w)) {
      var step := if s.slots[j].place == Running(w) then Process(j, false) else Finish(j);
      WorkDecreases(t, s, step);
      OthersStay(t, s, step, j, i);
      var more := FreesWorker(t, After(t, s, step), w, i);
      StepThen(t, s, step, more);
      steps := [step] + more;
    } else {
      NoSteps(t, s);
      steps := [];
    }
  }

  lemma OthersStay(t: Tools, s: State, step: Step, j: nat, i: nat)
    requires step == Process(j, false) || step == Finish(j)
    requires Enabled(s, step) && i < |s.slots| && i != j
    ensures i < |After(t, s, step).slots| && After(t, s, step).slots[i] == s.slots[i]
  {
  }

  /** The hash of `task` is cached, or given up on because its graph does not compile. */
  predicate Settled(t: Tools, s: State, task: Task) {
    task.hash in s.cache || (task.hash in s.failed && t.compile(SourceOf(task.graph)) == None)
  }

  /** These steps, none of which turns the mode on, end task `i` and settle its hash. */
  ghost predicate Delivers(t: Tools, s: State, steps: seq<Step>, i: nat, task: Task) {
    Ends(t, s, steps, i) && Settled(t, Run(t, s, steps), task)
  }

  /** A slot after a step of its own task: gone with its hash settled, or nearer to its end as a task for the same graph. */
  predicate NearerTo(t: Tools, s1: State, was: Slot, now: Slot) {
    if now.place == Gone then Settled(t, s1, was.task)
    else
      && Ordinary(now.place) && now.task.hash == was.task.hash && SourceOf(now.task.graph) == SourceOf(was.task.graph)
      && (Weight(now) < Weight(was) || (Weight(now) == Weight(was) && Distance(now.place) < Distance(was.place)))
  }

  /** `step`, which does not turn the mode on, is such a step of task `i`. */
  ghost predicate Nearer(t: Tools, s: State, step: Step, i: nat)
    requires i < |s.slots|
  {
    && Enabled(s, step) && step != SetMode(true) && i < |After(t, s, step).slots|
    && NearerTo(t, After(t, s, step), s.slots[i], After(t, s, step).slots[i])
  }

  lemma LookedUp(t: Tools, s: State, i: nat)
    requires i < |s.slots| && s.slots[i].place == ToLookUp
    ensures Nearer(t, s, SubmitCheck(i), i)
  {
    hide Rank;
  }

  lemma Pushed(t: Tools, s: State, i: nat)
    requires i < |s.slots| && s.slots[i].place == ToInjector
    ensures Nearer(t, s, Push(i), i)
  {
    hide Rank;
  }

  lemma Stolen(t: Tools, s: State, i: nat)
    requires i < |s.slots| && s.slots[i].place == Injector
    ensures Nearer(t, s, Steal(i, 0), i)
  {
    hide Rank;
  }

  lemma Taken(t: Tools, s: State, i: nat, w: nat)
    requires i < |s.slots| && s.slots[i].place == Local(w) && Idle(s, w)
    ensures Nearer(t, s, Take(i, w), i)
  {
    hide Rank, Idle;
  }

  lemma Processed(t: Tools, s: State, i: nat)
    requires i < |s.slots| && s.slots[i].place.Running?
    ensures Nearer(t, s, Process(i, false), i)
  {
  }

  lemma Finished(t: Tools, s: State, i: nat)
    requires i < |s.slots| && s.slots[i].place.Compiling?
    ensures Nearer(t, s, Finish(i), i)
  {
    hide Weight;
  }

  lemma {:induction false} DeliveredBy(t: Tools, s: State, step: Step, i: nat) returns (steps: seq<Step>)
    requires i < |s.slots| && Nearer(t, s, step, i)
    ensures Delivers(t, s, steps, i, s.slots[i].task)
    decreases Weight(s.slots[i]), Distance(s.slots[i].place), 0
  {
    hide CanRun, Run, After, NeverOn, Enabled, Weight;
    var s1 := After(t, s, step);
    if s1.slots[i].place == Gone {
      NoSteps(t, s1);
      StepThen(t, s, step, []);
      steps := [step] + [];
    } else {
      var more := TaskDelivered(t, s1, i);
      StepThen(t, s, step, more);
      steps := [step] + more;
    }
  }

  /**
   * Without anyone turning the mode on, every ordinary task can be brought to
   * its end from every state, and then its hash is cached, or the compiler has
   * given up on its graph.
   */
  lemma {:induction false} TaskDelivered(t: Tools, s: State, i: nat) returns (steps: seq<Step>)
    requires i < |s.slots| && Ordinary(s.slots[i].place)
    ensures Delivers(t, s, steps, i, s.slots[i].task)
    decreases Weight(s.slots[i]), Distance(s.slots[i].place), 1
  {
    hide CanRun, Run, After, NeverOn, Idle, Settled, Weight, Nearer;
    match s.slots[i].place
    case ToLookUp => LookedUp(t, s, i); steps := DeliveredBy(t, s, SubmitCheck(i), i);
    case ToInjector => Pushed(t, s, i); steps := DeliveredBy(t, s, Push(i), i);
    case Injector => Stolen(t, s, i); steps := DeliveredBy(t, s, Steal(i, 0), i);
    case Local(w) =>
      var first := FreesWorker(t, s, w, i);
      Taken(t, Run(t, s, first), i, w);
      var more := DeliveredBy(t, Run(t, s, first), Take(i, w), i);
      RunThen(t, s, first, more);
      steps := first + more;
    case Running(_) => Processed(t, s, i); steps := DeliveredBy(t, s, Process(i, false), i);
    case Compiling(_) => Finished(t, s, i); steps := DeliveredBy(t, s, Finish(i), i);
    case _ =>
  }

  /** With the mode off, a submitted graph that compiles can get its hash cached, after whatever else has happened. */
  lemma SubmittedIsCached(t: Tools, s: State, g: G.Graph) returns (more: seq<Step>)
    requires !s.active
    ensures CanRun(t, s, [Submit(g)] + more) && NeverOn([Submit(g)] + more)
    ensures Settled(t, Run(t, s, [Submit(g)] + more), Task(Tile, g, t.hash(SourceOf(g))))
  {
    hide CanRun, Run, NeverOn, Settled;
    var s1 := After(t, s, Submit(g));
    assert s1.slots[|s.slots|] == Slot(Task(Tile, g, t.hash(SourceOf(g))), ToLookUp);
    more := TaskDelivered(t, s1, |s.slots|);
    StepThen(t, s, Submit(g), more);
  }

  /**
   * The caller's wait for the cache can end exactly if some graph with the
   * hash it waits for compiles; if its own does, no other is needed.
   */
  lemma WaitCanEnd(t: Tools, g: G.Graph)
    ensures (exists steps: seq<Step> :: CachedBy(t, [Submit(g)] + steps, t.hash(SourceOf(g))))
       <==> (exists other: Source :: t.hash(other) == t.hash(SourceOf(g)) && t.compile(other).Some?)
  {
    hide CanRun, Run, Inv, NeverOn;
    var key := t.hash(SourceOf(g));
    if steps: seq<Step> :| CachedBy(t, [Submit(g)] + steps, key) {
      PoolIsSafe(t, [Submit(g)] + steps);
      CachedIsGenuine(t, Run(t, EMPTY, [Submit(g)] + steps), key);
    }
    if other: Source :| t.hash(other) == key && t.compile(other).Some? {
      var h := G.Graph(other.nodes, other.root, false);
      assert SourceOf(h) == other;
      var s1 := After(t, EMPTY, Submit(g));
      RunOne(t, EMPTY, Submit(g));
      var more := SubmittedIsCached(t, s1, h);
      RunOn(t, EMPTY, [Submit(g)], [Submit(h)] + more);
      assert CachedBy(t, [Submit(g)] + ([Submit(h)] + more), key);
    }
  }

  ghost predicate CachedBy(t: Tools, steps: seq<Step>, key: Key) {
    CanRun(t, EMPTY, steps) && key in Run(t, EMPTY, steps).cache
  }

  lemma CachedIsGenuine(t: Tools, s: State, key: Key)
    requires Inv(t, s) && key in s.cache
    ensures exists g: Source :: t.hash(g) == key && t.compile(g).Some?
  {
    assert Genuine(t, key, s.cache[key]);
  }

  /** An eager caller caches its graph in two steps, unless it does not compile. */
  lemma EagerCaches(t: Tools, s: State, i: nat) returns (steps: seq<Step>)
    requires i < |s.slots| && (s.slots[i].place == EagerCalled || s.slots[i].place == EagerCompiling)
    ensures Ends(t, s, steps, i)
    ensures s.slots[i].task.hash in Run(t, s, steps).cache || t.compile(SourceOf(s.slots[i].task.graph)) == None
  {
    hide CanRun, Run;
    if s.slots[i].place == EagerCompiling {
      RunOne(t, s, EagerFinish(i));
      return [EagerFinish(i)];
    }
    var s1 := After(t, s, EagerCheck(i));
    RunOne(t, s, EagerCheck(i));
    steps := [EagerCheck(i)];
    if s1.slots[i].place == EagerCompiling {
      RunOne(t, s1, EagerFinish(i));
      RunOn(t, s, steps, [EagerFinish(i)]);
      steps := steps + [EagerFinish(i)];
    }
  }

  // ------------------------------------------------------ the stabilizing pass

  predicate SlotStabilized(slot: Slot) {
    Ordinary(slot.place) && slot.task.stage == Assemble ==> slot.task.graph.isStabilized
  }

  /** Every task that has passed the workers up to assembly has been stabilized. */
  ghost predicate Stabilized(s: State) { forall i :: 0 <= i < |s.slots| ==> SlotStabilized(s.slots[i]) }

  /** While no worker sees the Xtreme mode, the pool compiles no graph that has not been stabilized. */
  lemma {:induction false} AssemblesStabilized(t: Tools, s: State, steps: seq<Step>)
    requires CanRun(t, s, steps) && Stabilized(s) && forall k :: 0 <= k < |steps| && steps[k].Process? ==> !steps[k].sawXtreme
    ensures Stabilized(Run(t, s, steps))
    decreases |steps|
  {
    hide Enabled, After, Stabilized;
    if steps != [] {
      StepStabilized(t, s, steps[0]);
      AssemblesStabilized(t, After(t, s, steps[0]), steps[1..]);
    }
  }

  lemma StepStabilized(t: Tools, s: State, step: Step)
    requires Stabilized(s) && Enabled(s, step) && (step.Process? ==> !step.sawXtreme)
    ensures Stabilized(After(t, s, step))
  {
    hide Idle, XtremeIdle, Stabilized, SlotStabilized, FollowUp, Ordinary, Compiled;
    var s' := After(t, s, step);
    match step
    case Submit(_) => NewStabilized(s, s');
    case Eager(_) => NewStabilized(s, s');
    case SetMode(_) => SameSlotsStabilized(s, s');
    case PollMode => SameSlotsStabilized(s, s');
    case Process(i, _) => ProcessStabilized(t, s, i);
    case _ => MoveStabilized(t, s, step);
  }

  /** The other steps change one place, and no task comes back to the workers. */
  lemma MoveStabilized(t: Tools, s: State, step: Step)
    requires Stabilized(s) && Enabled(s, step)
    requires !step.Submit? && !step.Eager? && !step.SetMode? && !step.PollMode? && !step.Process?
    ensures Stabilized(After(t, s, step))
  {
    hide Idle, XtremeIdle, Stabilized;
    var s' := After(t, s, step);
    MovedStabilized(s, s', step.i);
  }

  lemma SameSlotsStabilized(s: State, s': State)
    requires Stabilized(s) && s'.slots == s.slots
    ensures Stabilized(s')
  {
    hide SlotStabilized;
  }

  lemma NewStabilized(s: State, s': State)
    requires Stabilized(s) && |s'.slots| == |s.slots| + 1 && s'.slots[..|s.slots|] == s.slots
    requires var slot := s'.slots[|s.slots|]; slot.task.stage == Tile || slot.place == ToXtreme || slot.place == EagerCalled
    ensures Stabilized(s')
  {
    forall i | 0 <= i < |s.slots|
      ensures s'.slots[i] == s.slots[i]
    {
      assert s'.slots[..|s.slots|][i] == s'.slots[i];
    }
  }

  lemma MovedStabilized(s: State, s': State, i: nat)
    requires Stabilized(s) && i < |s.slots| == |s'.slots| && s'.slots == s.slots[i := s.slots[i].(place := s'.slots[i].place)]
    requires Ordinary(s'.slots[i].place) ==> Ordinary(s.slots[i].place)
    ensures Stabilized(s')
  {
  }

  lemma ProcessStabilized(t: Tools, s: State, i: nat)
    requires Stabilized(s) && Enabled(s, Process(i, false))
    ensures Stabilized(After(t, s, Process(i, false)))
  {
    hide Idle, XtremeIdle;
  }
}
