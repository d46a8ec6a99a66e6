/** Which tiles get through a ring, and what becomes of the result (network.rs). */
module Dispatch {
  import opened Words
  import opened BitOps
  import opened Ring
  import opened RingProtocol
  import opened Wire
  import opened Tiles
  import Transport

  // ------------------------------------------------------------ message lengths

  function BufsLength(bufs: seq<seq<byte>>): nat {
    if bufs == [] then 0 else 4 + |bufs[0]| + BufsLength(bufs[1..])
  }

  function MessageLength(t: Tile): nat { 21 + BufsLength(t.inputBufs) }

  lemma {:induction false} BufsEncodedLength(bufs: seq<seq<byte>>)
    ensures |EncodeBufs(bufs)| == BufsLength(bufs)
  {
    if bufs != [] {
      BufsEncodedLength(bufs[1..]);
    }
  }

  lemma EncodedLength(t: Tile)
    ensures |EncodeTile(t)| == MessageLength(t)
  {
    BufsEncodedLength(t.inputBufs);
  }

  // ----------------------------------------------------------------- one push

  /** The dispatcher has loaded its own counter to push the message of `t`, and will next see `seen` bytes drained. */
  ghost predicate AboutToPush(s: State, t: Tile, seen: nat) {
    s.producer.Loaded? && s.producer.bytes == EncodeTile(t) && s.seenTail <= seen <= |s.drained|
  }

  /** In every interleaving, a tile is sent exactly if its message fits beside the bytes not seen drained. */
  lemma DispatchDecision(steps: seq<Step>, t: Tile, seen: nat)
    requires CanRun(INIT, steps) && AboutToPush(Run(INIT, steps), t, seen)
    ensures After(Run(INIT, steps), LoadTailAndCheck(seen)).producer.Writing?
       <==> MessageLength(t) + (|Run(INIT, steps).pushed| - seen) <= 0x40_0000
  {
    hide Inv, Run, CanRun, EncodeTile, MessageLength;
    InitHolds();
    RunKeeps(INIT, steps);
    PushDecision(Run(INIT, steps), seen);
    EncodedLength(t);
  }

  lemma InitHolds()
    ensures Inv(INIT)
  {
  }

  /** Some push of the tile goes ahead, in some run. */
  ghost predicate CanBeSent(t: Tile) {
    exists steps: seq<Step>, seen: nat :: SentBy(steps, t, seen)
  }

  ghost predicate SentBy(steps: seq<Step>, t: Tile, seen: nat) {
    && CanRun(INIT, steps) && AboutToPush(Run(INIT, steps), t, seen)
    && CanRun(INIT, steps + [LoadTailAndCheck(seen)]) && Run(INIT, steps + [LoadTailAndCheck(seen)]).producer.Writing?
  }

  /** A tile can be sent exactly if its message is no longer than the ring; a longer one is refused for ever. */
  lemma SendableTiles(t: Tile)
    ensures CanBeSent(t) <==> MessageLength(t) <= 0x40_0000
  {
    hide EncodeTile, MessageLength, AboutToPush, CanRun, Run;
    if CanBeSent(t) {
      var steps: seq<Step>, seen: nat :| SentBy(steps, t, seen);
      DispatchDecision(steps, t, seen);
      SeenAtMost(steps, t, seen);
      CheckLast(steps, t, seen);
    }
    if MessageLength(t) <= RING_CAP {
      var steps := [LoadHead(EncodeTile(t))];
      FirstPush(t, steps);
      DispatchDecision(steps, t, 0);
      CheckLast(steps, t, 0);
      assert SentBy(steps, t, 0);
    }
  }

  lemma CheckLast(steps: seq<Step>, t: Tile, seen: nat)
    requires CanRun(INIT, steps) && AboutToPush(Run(INIT, steps), t, seen)
    ensures CanRun(INIT, steps + [LoadTailAndCheck(seen)])
    ensures Run(INIT, steps + [LoadTailAndCheck(seen)]) == After(Run(INIT, steps), LoadTailAndCheck(seen))
  {
    hide EncodeTile, CanRun, Run;
    RunLast(INIT, steps, LoadTailAndCheck(seen));
  }

  lemma {:induction false} RunLast(s: State, steps: seq<Step>, last: Step)
    requires CanRun(s, steps) && Enabled(Run(s, steps), last)
    ensures CanRun(s, steps + [last]) && Run(s, steps + [last]) == After(Run(s, steps), last)
    decreases |steps|
  {
    hide Enabled, After;
    var all := steps + [last];
    if steps == [] {
      assert all == [last] && all[1..] == [];
      assert CanRun(After(s, last), all[1..]) && Run(After(s, last), all[1..]) == After(s, last);
    } else {
      assert all[0] == steps[0] && all[1..] == steps[1..] + [last];
      RunLast(After(s, steps[0]), steps[1..], last);
    }
  }

  lemma SeenAtMost(steps: seq<Step>, t: Tile, seen: nat)
    requires CanRun(INIT, steps) && AboutToPush(Run(INIT, steps), t, seen)
    ensures seen <= |Run(INIT, steps).pushed|
  {
    hide Run, CanRun, EncodeTile;
    InitHolds();
    RunKeeps(INIT, steps);
  }

  lemma FirstPush(t: Tile, steps: seq<Step>)
    requires steps == [LoadHead(EncodeTile(t))]
    ensures CanRun(INIT, steps) && AboutToPush(Run(INIT, steps), t, 0) && Run(INIT, steps).pushed == []
  {
    hide EncodeTile;
    assert steps[1..] == [];
    assert Run(INIT, steps) == Run(After(INIT, steps[0]), steps[1..]) == After(INIT, steps[0]);
  }

  // ---------------------------------------------------------------- whole runs

  /** The messages whose push has been published, in order. */
  ghost function Sent(s: State, steps: seq<Step>): seq<seq<byte>>
    requires CanRun(s, steps)
    decreases |steps|
  {
    if steps == [] then []
    else (if steps[0].PublishHead? then [s.producer.bytes] else []) + Sent(After(s, steps[0]), steps[1..])
  }

  function Joined(messages: seq<seq<byte>>): seq<byte> {
    if messages == [] then [] else messages[0] + Joined(messages[1..])
  }

  /** What is pushed are those messages, and none is longer than the ring. */
  lemma {:induction false} SentIsPushed(s: State, steps: seq<Step>)
    requires Inv(s) && CanRun(s, steps)
    ensures Run(s, steps).pushed == s.pushed + Joined(Sent(s, steps))
    ensures forall m :: m in Sent(s, steps) ==> |m| <= RING_CAP
    decreases |steps|
  {
    hide Inv, Enabled, After;
    if steps == [] {
      assert s.pushed + [] == s.pushed;
    } else {
      var s1 := After(s, steps[0]);
      StepKeeps(s, steps[0]);
      SentIsPushed(s1, steps[1..]);
      StepPushes(s, steps[0]);
      var rest := Sent(s1, steps[1..]);
      if steps[0].PublishHead? {
        assert Sent(s, steps) == [s.producer.bytes] + rest;
        JoinedOnto(s.producer.bytes, Sent(s1, steps[1..]));
        assert s.pushed + (s.producer.bytes + Joined(Sent(s1, steps[1..]))) == s1.pushed + Joined(Sent(s1, steps[1..]));
      } else {
        assert Sent(s, steps) == [] + rest == rest;
      }
    }
  }

  lemma StepPushes(s: State, step: Step)
    requires Inv(s) && Enabled(s, step)
    ensures step.PublishHead? ==> s.producer.Writing? && |s.producer.bytes| <= RING_CAP && After(s, step).pushed == s.pushed + s.producer.bytes
    ensures !step.PublishHead? ==> After(s, step).pushed == s.pushed
  {
  }

  lemma JoinedOnto(m: seq<byte>, rest: seq<seq<byte>>)
    ensures Joined([m] + rest) == m + Joined(rest)
  {
    assert ([m] + rest)[1..] == rest;
  }

  function Encodings(ts: seq<Tile>): (messages: seq<seq<byte>>)
    ensures |messages| == |ts| && forall i :: 0 <= i < |ts| ==> messages[i] == EncodeTile(ts[i])
  {
    seq(|ts|, i requires 0 <= i < |ts| => EncodeTile(ts[i]))
  }

  lemma {:induction false} JoinedEncodings(ts: seq<Tile>)
    ensures Joined(Encodings(ts)) == Messages(ts)
  {
    hide EncodeTile;
    if ts == [] {
      assert Encodings(ts) == [];
    } else {
      JoinedEncodings(ts[1..]);
      assert Encodings(ts)[1..] == Encodings(ts[1..]);
    }
  }

  /**
   * Every worker's ring has run from empty to empty, and the messages that went
   * through it are those of the tiles assigned to the worker.
   */
  ghost predicate Delivered(tiles: seq<Tile>, assign: Assignment, runs: nat -> seq<Step>) {
    forall w: nat :: DeliveredTo(tiles, assign, runs(w), w)
  }

  ghost predicate DeliveredTo(tiles: seq<Tile>, assign: Assignment, steps: seq<Step>, w: nat) {
    && CanRun(INIT, steps) && Run(INIT, steps).head == Run(INIT, steps).tail
    && Sent(INIT, steps) == Encodings(AssignedTo(tiles, assign, w, |tiles|))
  }

  /** What the coordinator receives are the answers of the workers to what they drained, in any order. */
  ghost predicate Collected(runs: nat -> seq<Step>, arrivals: seq<TileResult>) {
    && (forall w: nat, r :: AnsweredBy(runs(w), r) ==> r in arrivals)
    && (forall r :: r in arrivals ==> exists w: nat :: AnsweredBy(runs(w), r))
  }

  ghost predicate AnsweredBy(steps: seq<Step>, r: TileResult) {
    CanRun(INIT, steps) && r in Answered(steps)
  }

  ghost function Answered(steps: seq<Step>): seq<TileResult>
    requires CanRun(INIT, steps)
  {
    Received(Responses(Served(Run(INIT, steps).drained)))
  }

  lemma DeliveredAnswers(tiles: seq<Tile>, assign: Assignment, steps: seq<Step>, w: nat)
    requires AllExchangeable(tiles) && DeliveredTo(tiles, assign, steps, w)
    ensures Answered(steps) == Answers(tiles, assign, w)
    ensures forall p :: 1 <= p < |tiles| && assign(p) == Some(w) ==> MessageLength(tiles[p]) <= RING_CAP
  {
    hide Run, CanRun, Sent, Joined, Messages, Served, Received, Responses, EncodeTile, MessageLength, Echo, Carried;
    var ts := AssignedTo(tiles, assign, w, |tiles|);
    AssignedIs(tiles, assign, w, |tiles|);
    assert forall i :: 0 <= i < |ts| ==> Exchangeable(ts[i]) by {
      assert forall i :: 0 <= i < |ts| ==> ts[i] in ts;
    }
    InitHolds();
    SentIsPushed(INIT, steps);
    JoinedEncodings(ts);
    assert [] + Joined(Encodings(ts)) == Joined(Encodings(ts));
    Transport.RingToWorker(steps, ts);
    TilesServed(ts);
    forall p | 1 <= p < |tiles| && assign(p) == Some(w)
      ensures MessageLength(tiles[p]) <= RING_CAP
    {
      var i :| 0 <= i < |ts| && ts[i] == tiles[p];
      assert Encodings(ts)[i] in Sent(INIT, steps);
      EncodedLength(tiles[p]);
    }
  }

  /**
   * From the rings to the result: whatever the interleavings of dispatching and
   * draining, the output is that of all tiles exactly if every remote tile was
   * sent, and only tiles whose message fits the ring can have been.
   */
  lemma WholeIffSent(inputs: seq<seq<byte>>, size: nat, parts: nat, bits: u32, firstId: u64,
                     assign: Assignment, runs: nat -> seq<Step>, arrivals: seq<TileResult>)
    requires inputs != [] && 1 <= parts <= size && parts <= TWO_64 && bits >= 1
    requires AllExchangeable(AllTiles(inputs, size, parts, bits, firstId))
    requires Delivered(AllTiles(inputs, size, parts, bits, firstId), assign, runs) && Collected(runs, arrivals)
    ensures var tiles := AllTiles(inputs, size, parts, bits, firstId);
            && |tiles[0].inputBufs| > 0 && FirstBytes(size, parts, bits) <= AllBytes(size, bits)
            && (Reassembled(tiles[0].inputBufs[0], Arrived(arrivals), tiles, parts)
                == Whole(inputs[0], FirstBytes(size, parts, bits), AllBytes(size, bits))
                <==> forall p :: 1 <= p < parts ==> assign(p).Some?)
            && forall p :: 1 <= p < parts && assign(p).Some? ==> MessageLength(tiles[p]) <= RING_CAP
  {
    hide AllExchangeable, Arrived, Reassembled, Whole, FirstBytes, AllBytes, TileAt, Answers, Answered, DeliveredTo, CanRun, MessageLength;
    var tiles := AllTiles(inputs, size, parts, bits, firstId);
    CollectedArrives(tiles, assign, runs, arrivals);
    WholeIffDispatched(inputs, size, parts, bits, firstId, assign, arrivals);
    forall p | 1 <= p < parts && assign(p).Some?
      ensures MessageLength(tiles[p]) <= RING_CAP
    {
      assert DeliveredTo(tiles, assign, runs(assign(p).value), assign(p).value);
      DeliveredAnswers(tiles, assign, runs(assign(p).value), assign(p).value);
    }
  }

  lemma CollectedArrives(tiles: seq<Tile>, assign: Assignment, runs: nat -> seq<Step>, arrivals: seq<TileResult>)
    requires AllExchangeable(tiles) && Delivered(tiles, assign, runs) && Collected(runs, arrivals)
    ensures AllArrived(tiles, assign, arrivals)
  {
    hide AllExchangeable, Answers, Answered, CanRun, Sent, Run;
    forall w: nat
      ensures CanRun(INIT, runs(w)) && Answered(runs(w)) == Answers(tiles, assign, w)
    {
      assert DeliveredTo(tiles, assign, runs(w), w);
      DeliveredAnswers(tiles, assign, runs(w), w);
    }
    forall w: nat, r | r in Answers(tiles, assign, w)
      ensures r in arrivals
    {
      assert AnsweredBy(runs(w), r);
    }
    forall r | r in arrivals
      ensures exists w: nat :: r in Answers(tiles, assign, w)
    {
      var w: nat :| AnsweredBy(runs(w), r);
      assert r in Answers(tiles, assign, w);
    }
  }

  // --------------------------------------------------------- doubles, one worker

  /** Every array of doubles large enough to be cut is too large for one worker: its tile is never sent. */
  lemma DoublesNeverSent(inputs: seq<seq<byte>>, size: nat, firstId: u64)
    requires size > LOCAL_TILE_THRESHOLD && inputs != [] && 8 * size <= |inputs[0]|
    ensures Parts(size, 1) == 2
    ensures MessageLength(AllTiles(inputs, size, 2, 64, firstId)[1]) > RING_CAP
    ensures !CanBeSent(AllTiles(inputs, size, 2, 64, firstId)[1])
  {
    hide MessageLength, CanBeSent, PartStart, PartCount, AllTiles;
    var t := AllTiles(inputs, size, 2, 64, firstId)[1];
    assert BytesPerElem(64) == 8;
    Partition(size, 2, 1);
    TileIs(inputs, size, 2, 64, firstId, 1);
    SliceFits(inputs[0], PartStart(size, 2, 1), PartCount(size, 2, 1), 8, size);
    assert |t.inputBufs[0]| >= 8 * (size / 2);
    OneBufLength(t);
    SendableTiles(t);
  }

  lemma OneBufLength(t: Tile)
    requires t.inputBufs != []
    ensures MessageLength(t) >= 25 + |t.inputBufs[0]|
  {
  }
}
