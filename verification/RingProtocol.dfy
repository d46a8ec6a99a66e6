/** Producer and consumer on the ring: every interleaving of their steps (network.rs). */
module RingProtocol {
  import opened Words
  import opened Ring

  /** Where `push` stands: head loaded, or space found and the bytes numbered `done` copied. */
  datatype Producer =
    | Resting
    | Loaded(bytes: seq<byte>, head: u64)
    | Writing(bytes: seq<byte>, head: u64, done: set<nat>)

  /** Where `drain` stands: head loaded, or n bytes to read of which those in `got` have been. */
  datatype Consumer =
    | Waiting
    | Ready(max: nat, head: u64)
    | Reading(tail: u64, n: nat, got: map<nat, byte>)

  /**
   * `pushed` and `drained` record all bytes whose push or drain has been
   * published. A load may return an older count, but never one older than the
   * same thread has seen before: `seenTail` by the producer, `seenHead` by the
   * consumer.
   */
  datatype State = State(
    mem: seq<byte>,
    head: u64,
    tail: u64,
    producer: Producer,
    consumer: Consumer,
    pushed: seq<byte>,
    drained: seq<byte>,
    seenTail: nat,
    seenHead: nat)

  datatype Step =
    | LoadHead(bytes: seq<byte>)
    | LoadTailAndCheck(tailCount: nat)
    | WriteByte(i: nat)
    | PublishHead
    | LoadHeadToDrain(max: nat, headCount: nat)
    | LoadTailToDrain
    | ReadByte(i: nat)
    | PublishTail

  function Zeroed(): (mem: seq<byte>)
    ensures |mem| == RING_CAP
  {
    seq(RING_CAP, _ => 0)
  }

  const INIT := State(Zeroed(), 0, 0, Resting, Waiting, [], [], 0, 0)

  ghost predicate Enabled(s: State, step: Step) {
    match step
    case LoadHead(_) => s.producer.Resting?
    case LoadTailAndCheck(t) => s.producer.Loaded? && s.seenTail <= t <= |s.drained|
    case WriteByte(i) =>
      s.producer.Writing? && i < |s.producer.bytes| <= RING_CAP && |s.mem| == RING_CAP && i !in s.producer.done
    case PublishHead =>
      s.producer.Writing? && forall i: nat :: i < |s.producer.bytes| ==> i in s.producer.done
    case LoadHeadToDrain(_, h) => s.consumer.Waiting? && s.seenHead <= h <= |s.pushed|
    case LoadTailToDrain => s.consumer.Ready?
    case ReadByte(i) =>
      s.consumer.Reading? && i < s.consumer.n <= RING_CAP && |s.mem| == RING_CAP && i !in s.consumer.got
    case PublishTail =>
      s.consumer.Reading? && forall i: nat :: i < s.consumer.n ==> i in s.consumer.got
  }

  ghost function After(s: State, step: Step): State
    requires Enabled(s, step)
  {
    match step
    case LoadHead(bytes) => s.(producer := Loaded(bytes, s.head))
    case LoadTailAndCheck(t) =>
      var used := WrappingSub(s.producer.head, t % TWO_64);
      if used + |s.producer.bytes| > RING_CAP then s.(producer := Resting, seenTail := t)
      else s.(producer := Writing(s.producer.bytes, s.producer.head, {}), seenTail := t)
    case WriteByte(i) =>
      var p := s.producer;
      s.(mem := s.mem[Slot(p.head, |p.bytes|, i) := p.bytes[i]], producer := p.(done := p.done + {i}))
    case PublishHead =>
      var p := s.producer;
      s.(head := WrappingAdd(p.head, |p.bytes|), pushed := s.pushed + p.bytes, producer := Resting)
    case LoadHeadToDrain(max, h) => s.(consumer := Ready(max, h % TWO_64), seenHead := h)
    case LoadTailToDrain =>
      var available := WrappingSub(s.consumer.head, s.tail);
      var n := if s.consumer.max < available then s.consumer.max else available;
      s.(consumer := if n == 0 then Waiting else Reading(s.tail, n, map[]))
    case ReadByte(i) =>
      var c := s.consumer;
      s.(consumer := c.(got := c.got[i := s.mem[Slot(c.tail, c.n, i)]]))
    case PublishTail =>
      var c := s.consumer;
      s.(tail := WrappingAdd(c.tail, c.n), drained := s.drained + seq(c.n, i requires 0 <= i < c.n => c.got[i]), consumer := Waiting)
  }

  // ------------------------------------------------------------ invariant

  ghost predicate Counts(s: State) {
    && |s.mem| == RING_CAP
    && s.head == |s.pushed| % TWO_64 && s.tail == |s.drained| % TWO_64
    && s.seenTail <= |s.drained| <= s.seenHead <= |s.pushed| <= s.seenTail + RING_CAP
  }

  /** The ring holds exactly what has been pushed and not drained. */
  ghost predicate Stored(s: State)
    requires Counts(s)
  {
    && s.drained <= s.pushed
    && forall j :: |s.drained| <= j < |s.pushed| ==> s.mem[Place(j, 0)] == s.pushed[j]
  }

  ghost predicate ProducerOk(s: State)
    requires Counts(s)
  {
    match s.producer
    case Resting => true
    case Loaded(_, head) => head == s.head
    case Writing(bytes, head, done) =>
      && head == s.head && |s.pushed| + |bytes| <= s.seenTail + RING_CAP
      && forall i :: i in done ==> i < |bytes| && s.mem[Place(|s.pushed| + i, 0)] == bytes[i]
  }

  ghost predicate ConsumerOk(s: State)
    requires Counts(s) && Stored(s)
  {
    match s.consumer
    case Waiting => true
    case Ready(_, head) => head == s.seenHead % TWO_64
    case Reading(tail, n, got) =>
      && tail == s.tail && |s.drained| + n <= s.seenHead
      && forall i :: i in got ==> i < n && got[i] == s.pushed[|s.drained| + i]
  }

  ghost predicate Inv(s: State) { Counts(s) && Stored(s) && ProducerOk(s) && ConsumerOk(s) }

  // ------------------------------------------------------- what each step keeps

  lemma SlotIs(count: nat, c: u64, len: nat, i: nat)
    requires i < len <= RING_CAP && c == count % TWO_64
    ensures Slot(c, len, i) == Place(count + i, 0)
  {
    SlotIsPlace(count, c, len, i);
    PlaceShifts(count, i, count + i, 0);
  }

  lemma CheckKeeps(s: State, t: nat)
    requires Inv(s) && Enabled(s, LoadTailAndCheck(t))
    ensures Inv(After(s, LoadTailAndCheck(t)))
  {
    hide Place;
    CountersDiffer(|s.pushed|, t);
  }

  lemma WriteKeeps(s: State, i: nat)
    requires Inv(s) && Enabled(s, WriteByte(i))
    ensures Inv(After(s, WriteByte(i)))
  {
    hide Place, Slot;
    var p := s.producer;
    var at := |s.pushed| + i;
    SlotIs(|s.pushed|, p.head, |p.bytes|, i);
    var s' := After(s, WriteByte(i));
    forall j | |s.drained| <= j < |s.pushed|
      ensures s'.mem[Place(j, 0)] == s.pushed[j]
    {
      PlacesDiffer(j, at);
    }
    forall k | k in s'.producer.done
      ensures k < |p.bytes| && s'.mem[Place(|s.pushed| + k, 0)] == p.bytes[k]
    {
      if k < i {
        PlacesDiffer(|s.pushed| + k, at);
      } else if i < k {
        PlacesDiffer(at, |s.pushed| + k);
      }
    }
  }

  lemma PublishHeadKeeps(s: State)
    requires Inv(s) && Enabled(s, PublishHead)
    ensures Inv(After(s, PublishHead))
  {
    hide Place, Slot, WrappingAdd;
    CounterAdvances(|s.pushed|, |s.producer.bytes|);
    var s' := After(s, PublishHead);
    forall j | |s.drained| <= j < |s'.pushed|
      ensures s.mem[Place(j, 0)] == s'.pushed[j]
    {
      if j >= |s.pushed| {
        assert j - |s.pushed| in s.producer.done;
      }
    }
  }

  lemma LoadTailKeeps(s: State)
    requires Inv(s) && Enabled(s, LoadTailToDrain)
    ensures Inv(After(s, LoadTailToDrain))
  {
    hide Place;
    CountersDiffer(s.seenHead, |s.drained|);
  }

  lemma ReadKeeps(s: State, i: nat)
    requires Inv(s) && Enabled(s, ReadByte(i))
    ensures Inv(After(s, ReadByte(i)))
  {
    hide Place, Slot;
    SlotIs(|s.drained|, s.tail, s.consumer.n, i);
    assert s.mem[Place(|s.drained| + i, 0)] == s.pushed[|s.drained| + i];
  }

  lemma PublishTailKeeps(s: State)
    requires Inv(s) && Enabled(s, PublishTail)
    ensures Inv(After(s, PublishTail))
  {
    hide Place, Slot, WrappingAdd;
    CounterAdvances(|s.drained|, s.consumer.n);
    var s' := After(s, PublishTail);
    assert s'.drained == s.pushed[..|s'.drained|];
  }

  lemma StepKeeps(s: State, step: Step)
    requires Inv(s) && Enabled(s, step)
    ensures Inv(After(s, step))
  {
    match step
    case LoadHead(_) =>
    case LoadTailAndCheck(t) => CheckKeeps(s, t);
    case WriteByte(i) => WriteKeeps(s, i);
    case PublishHead => PublishHeadKeeps(s);
    case LoadHeadToDrain(_, _) =>
    case LoadTailToDrain => LoadTailKeeps(s);
    case ReadByte(i) => ReadKeeps(s, i);
    case PublishTail => PublishTailKeeps(s);
  }

  // ------------------------------------------------------------- whole runs

  ghost predicate CanRun(s: State, steps: seq<Step>)
    decreases |steps|
  {
    steps == [] || (Enabled(s, steps[0]) && CanRun(After(s, steps[0]), steps[1..]))
  }

  ghost function Run(s: State, steps: seq<Step>): State
    requires CanRun(s, steps)
    decreases |steps|
  {
    if steps == [] then s else Run(After(s, steps[0]), steps[1..])
  }

  lemma {:induction false} RunKeeps(s: State, steps: seq<Step>)
    requires Inv(s) && CanRun(s, steps)
    ensures Inv(Run(s, steps))
    decreases |steps|
  {
    if steps != [] {
      StepKeeps(s, steps[0]);
      RunKeeps(After(s, steps[0]), steps[1..]);
    }
  }

  /** What the consumer has taken, followed by what is in the ring, is what the producer has put. */
  ghost predicate Conserves(s: State) {
    && |s.mem| == RING_CAP && WrappingSub(s.head, s.tail) <= RING_CAP
    && s.drained + Window(s.mem, s.tail, WrappingSub(s.head, s.tail)) == s.pushed
  }

  /** No slot is being written by one thread while the other still has to read it or is reading it. */
  ghost predicate NeverTorn(s: State) {
    s.producer.Writing? && s.consumer.Reading? && |s.producer.bytes| <= RING_CAP && s.consumer.n <= RING_CAP ==>
      forall i, j :: 0 <= i < |s.producer.bytes| && 0 <= j < s.consumer.n ==>
        Slot(s.producer.head, |s.producer.bytes|, i) != Slot(s.consumer.tail, s.consumer.n, j)
  }

  lemma InvConserves(s: State)
    requires Inv(s)
    ensures Conserves(s)
  {
    hide Place, WrappingSub;
    CountersDiffer(|s.pushed|, |s.drained|);
    forall i | 0 <= i < |s.pushed| - |s.drained|
      ensures s.mem[Place(s.tail, i)] == s.pushed[|s.drained| + i]
    {
      PlaceShifts(s.tail, i, |s.drained| + i, 0);
    }
  }

  lemma InvNeverTorn(s: State)
    requires Inv(s)
    ensures NeverTorn(s)
  {
    hide Place, Slot;
    if s.producer.Writing? && s.consumer.Reading? {
      forall i, j | 0 <= i < |s.producer.bytes| && 0 <= j < s.consumer.n
        ensures Slot(s.producer.head, |s.producer.bytes|, i) != Slot(s.consumer.tail, s.consumer.n, j)
      {
        SlotIs(|s.pushed|, s.producer.head, |s.producer.bytes|, i);
        SlotIs(|s.drained|, s.consumer.tail, s.consumer.n, j);
        PlacesDiffer(|s.drained| + j, |s.pushed| + i);
      }
    }
  }

  /** Every interleaving from the empty ring conserves the bytes and their order and never tears a read. */
  lemma RingIsSafe(steps: seq<Step>)
    requires CanRun(INIT, steps)
    ensures Conserves(Run(INIT, steps)) && NeverTorn(Run(INIT, steps))
  {
    RunKeeps(INIT, steps);
    InvConserves(Run(INIT, steps));
    InvNeverTorn(Run(INIT, steps));
  }

  /** A push goes ahead exactly if the bytes fit beside those not seen drained; a fresh load makes that exact. */
  lemma PushDecision(s: State, t: nat)
    requires Inv(s) && Enabled(s, LoadTailAndCheck(t))
    ensures After(s, LoadTailAndCheck(t)).producer.Writing? <==> |s.pushed| - t + |s.producer.bytes| <= RING_CAP
  {
    CountersDiffer(|s.pushed|, t);
  }

  /** The bytes a finished drain hands out are the next ones in order. */
  lemma DrainTakesNext(s: State)
    requires Inv(s) && Enabled(s, PublishTail)
    ensures After(s, PublishTail).drained == s.pushed[..|s.drained| + s.consumer.n]
  {
    PublishTailKeeps(s);
  }
}
