/** From the coordinator's ring to a worker's answers (network.rs, the send thread of WorkerConn). */
module Transport {
  import opened Words
  import opened Ring
  import opened RingProtocol
  import opened Wire

  lemma {:induction false} ParseBufsMore(s: seq<byte>, t: seq<byte>, n: nat)
    requires ParseBufs(s, n).Done?
    ensures ParseBufs(s + t, n) == Done(ParseBufs(s, n).value, ParseBufs(s, n).rest + t)
    decreases n
  {
    hide FromLe, FromLe32;
    if n > 0 {
      var len := TakeU32(s).value;
      assert (s + t)[..4] == s[..4] && (s + t)[4..4 + len] == s[4..4 + len];
      assert (s + t)[4 + len..] == s[4 + len..] + t;
      ParseBufsMore(s[4 + len..], t, n - 1);
    }
  }

  /** What has been understood does not depend on what follows. */
  lemma ParseMore(s: seq<byte>, t: seq<byte>)
    requires ParseRequest(s).Done?
    ensures ParseRequest(s + t) == Done(ParseRequest(s).value, ParseRequest(s).rest + t)
  {
    hide FromLe32, FromLe64, ParseBufs;
    assert (s + t)[..8] == s[..8] && (s + t)[8..12] == s[8..12];
    assert (s + t)[12..16] == s[12..16] && (s + t)[16..20] == s[16..20];
    assert (s + t)[20..] == s[20..] + t;
    ParseBufsMore(s[20..], t, FromLe32(s[16..20]));
  }

  /** A worker that has seen part of the stream has answered a prefix of what it will answer. */
  lemma {:induction false} ServedGrows(s: seq<byte>, t: seq<byte>)
    ensures Served(s) <= Served(s + t)
    decreases |s|
  {
    hide ParseRequest, Echo;
    if s != [] && s[0] == TAG_TILE_REQ && ParseRequest(s[1..]).Done? {
      var rest := ParseRequest(s[1..]).rest;
      ParseMore(s[1..], t);
      assert (s + t)[1..] == s[1..] + t;
      ParseShrinks(s[1..]);
      ServedGrows(rest, t);
    }
  }

  /**
   * However pushing and draining interleave, once the messages of some tiles
   * have been pushed, the answers to what has been drained are the first echoes
   * of those tiles, in order; and all of them once the ring is empty.
   */
  lemma RingToWorker(steps: seq<Step>, ts: seq<Tile>)
    requires CanRun(INIT, steps) && Run(INIT, steps).pushed == Messages(ts)
    requires forall i :: 0 <= i < |ts| ==> Sendable(ts[i])
    ensures Served(Run(INIT, steps).drained) <= Echoes(ts)
    ensures Run(INIT, steps).head == Run(INIT, steps).tail ==> Served(Run(INIT, steps).drained) == Echoes(ts)
  {
    hide Served, Run, CanRun, Messages, Window;
    var s := Run(INIT, steps);
    RingIsSafe(steps);
    TilesServed(ts);
    ServedGrows(s.drained, Window(s.mem, s.tail, WrappingSub(s.head, s.tail)));
    if s.head == s.tail {
      assert s.drained == s.pushed;
    }
  }
}
