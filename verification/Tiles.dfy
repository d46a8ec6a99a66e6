/** Cutting an array into tiles, echoing them on workers, and putting the results together (network.rs). */
module Tiles {
  import opened Words
  import opened Expr
  import opened Graph
  import opened BitOps
  import opened Wire
  import Packing

  const LOCAL_TILE_THRESHOLD := 0x10_0000

  // ------------------------------------------------------------ the partition

  /** How many elements part `p` of `parts` gets. */
  function PartCount(size: nat, parts: nat, p: nat): nat
    requires parts >= 1
  {
    size / parts + if p < size % parts then 1 else 0
  }

  /** Where part `p` starts: the parts before it, each with its extra element while there are any. */
  function PartStart(size: nat, parts: nat, p: nat): nat
    requires parts >= 1
  {
    p * (size / parts) + if p < size % parts then p else size % parts
  }

  lemma PartFollows(size: nat, parts: nat, p: nat)
    requires parts >= 1
    ensures PartStart(size, parts, p + 1) == PartStart(size, parts, p) + PartCount(size, parts, p)
    ensures PartStart(size, parts, 0) == 0
  {
    assert (p + 1) * (size / parts) == p * (size / parts) + size / parts;
  }

  /** The parts cover 0..size, are not empty, and differ by at most one element. */
  lemma Partition(size: nat, parts: nat, p: nat)
    requires 1 <= parts <= size && p < parts
    ensures PartStart(size, parts, parts) == size
    ensures 1 <= size / parts <= PartCount(size, parts, p) <= size / parts + 1
    ensures PartStart(size, parts, p) + PartCount(size, parts, p) <= size
  {
    var q := size / parts;
    assert size == parts * q + size % parts;
    assert q >= 1 by {
      if q < 1 {
        LeTimes(parts, q, 0);
      }
    }
    PartFollows(size, parts, p);
    PartsBelow(size, parts, p + 1);
  }

  lemma {:induction false} PartsBelow(size: nat, parts: nat, p: nat)
    requires parts >= 1 && p <= parts
    ensures PartStart(size, parts, p) <= PartStart(size, parts, parts)
    decreases parts - p
  {
    if p < parts {
      PartsBelow(size, parts, p + 1);
      PartFollows(size, parts, p);
      assert PartCount(size, parts, p) >= 0 by { DivNat(size, parts); }
    }
  }

  // ------------------------------------------------------------- the tiles

  /** A tile's share of one input buffer; past the end of the buffer, zeros. */
  function TileSlice(src: seq<byte>, start: nat, count: nat, bpe: nat): seq<byte> {
    MulNat(start, bpe);
    MulNat(start + count, bpe);
    MulNat(count, bpe);
    RangeOrder(start, count, bpe);
    if start * bpe < |src| then
      src[start * bpe..if (start + count) * bpe < |src| then (start + count) * bpe else |src|]
    else
      seq(count * bpe, _ => 0)
  }

  lemma RangeOrder(start: nat, count: nat, bpe: nat)
    ensures start * bpe <= (start + count) * bpe == start * bpe + count * bpe
  {
  }

  function TileSlices(inputs: seq<seq<byte>>, start: nat, count: nat, bpe: nat): (bufs: seq<seq<byte>>)
    ensures |bufs| == |inputs|
  {
    seq(|inputs|, k requires 0 <= k < |inputs| => TileSlice(inputs[k], start, count, bpe))
  }

  /** Tile `p`; ids come from a counter that wraps. */
  function TileAt(inputs: seq<seq<byte>>, size: nat, parts: nat, bits: u32, firstId: u64, p: nat): Tile
    requires parts >= 1
  {
    PartNat(size, parts, p);
    Tile((firstId + p) % TWO_64, PartStart(size, parts, p), PartCount(size, parts, p), bits,
         TileSlices(inputs, PartStart(size, parts, p), PartCount(size, parts, p), BytesPerElem(bits)))
  }

  lemma PartNat(size: nat, parts: nat, p: nat)
    requires parts >= 1
    ensures size / parts >= 0 && PartStart(size, parts, p) >= 0 && PartCount(size, parts, p) >= 0
  {
    DivNat(size, parts);
  }

  function AllTiles(inputs: seq<seq<byte>>, size: nat, parts: nat, bits: u32, firstId: u64): (tiles: seq<Tile>)
    requires parts >= 1
    ensures |tiles| == parts && forall p :: 0 <= p < parts ==> tiles[p] == TileAt(inputs, size, parts, bits, firstId, p)
  {
    seq(parts, p requires 0 <= p < parts => TileAt(inputs, size, parts, bits, firstId, p))
  }

  function Parts(size: nat, numNodes: nat): nat { if numNodes + 1 < size then numNodes + 1 else size }

  /** The width tiles are cut at: that of a plain float or integer root, 64 for all other types. */
  function RootBits(g: Graph): nat
    requires WellFormed(g)
  {
    match DataTypeOf(g.nodes, g.root)
    case Float(b) => b
    case Int(b) => b
    case _ => 64
  }

  function Buffers(vs: seq<Variable>): (bufs: seq<seq<byte>>)
    ensures |bufs| == |vs| && forall k :: 0 <= k < |vs| ==> bufs[k] == vs[k].data
  {
    seq(|vs|, k requires 0 <= k < |vs| => vs[k].data)
  }

  /** The buffers of the distinct variables of an arena, in order of first occurrence. */
  function InputsOf(g: Graph): seq<seq<byte>> { Buffers(FirstOnto([], VarsOf(g.nodes))) }

  method CollectBuffers(g: Graph) returns (inputs: seq<seq<byte>>)
    ensures inputs == InputsOf(g)
  {
    hide FirstOnto, Ids, VarsOf;
    var found: seq<Variable> := [];
    assert g.nodes[0..] == g.nodes;
    for k := 0 to |g.nodes|
      invariant FirstOnto(found, VarsOf(g.nodes[k..])) == FirstOnto([], VarsOf(g.nodes))
    {
      NextNode(g.nodes, k);
      if g.nodes[k].VarNode? {
        var v := g.nodes[k].v;
        OneMore(found, v, VarsOf(g.nodes[k + 1..]));
        if v.id !in Ids(found) {
          found := found + [v];
        }
      }
    }
    NoMore(found, g.nodes[|g.nodes|..]);
    inputs := Buffers(found);
  }

  lemma NextNode(nodes: seq<Node>, k: nat)
    requires k < |nodes|
    ensures VarsOf(nodes[k..]) == (if nodes[k].VarNode? then [nodes[k].v] else []) + VarsOf(nodes[k + 1..])
    ensures !nodes[k].VarNode? ==> VarsOf(nodes[k..]) == VarsOf(nodes[k + 1..])
  {
    assert nodes[k..][1..] == nodes[k + 1..];
  }

  lemma OneMore(acc: seq<Variable>, v: Variable, rest: seq<Variable>)
    ensures FirstOnto(acc, [v] + rest) == FirstOnto(if v.id in Ids(acc) then acc else acc + [v], rest)
  {
    assert ([v] + rest)[1..] == rest;
  }

  lemma NoMore(acc: seq<Variable>, nodes: seq<Node>)
    requires nodes == []
    ensures FirstOnto(acc, VarsOf(nodes)) == acc
  {
  }

  /** The arena of an expression is cut like the expression: its size, its width, and the buffers its kernel is called with. */
  lemma ArenaInputs(g: Graph, e: Expr)
    requires WellFormed(g) && IsArenaOf(g, e)
    ensures InputsOf(g) == Buffers(FirstOnto([], e.Leaves()))
    ensures !e.HasMatmul() ==> SizeOf(g.nodes, g.root) == e.Size()
    ensures RootBits(g) == match e.DataType() case Float(b) => b case Int(b) => b case _ => 64
  {
    hide FirstOnto, VarsOf, Holds;
    HoldsVars(g.nodes, 0, e);
    assert g.nodes[0..0 + e.Count()] == g.nodes;
    HoldsDataType(g.nodes, 0, e);
    if !e.HasMatmul() {
      HoldsSize(g.nodes, 0, e);
    }
  }

  /** decompose: nothing for a small array or without other nodes; else the tiles, the first for the caller itself. */
  method Decompose(g: Graph, numNodes: nat, firstId: u64) returns (r: Option<seq<Tile>>)
    requires WellFormed(g) && RootBits(g) < TWO_32
    ensures var size := SizeOf(g.nodes, g.root);
            && r == (if numNodes == 0 || size <= 0x10_0000 then None
                     else Some(AllTiles(InputsOf(g), size, Parts(size, numNodes), RootBits(g), firstId)))
            && (r.Some? ==> |r.value| <= numNodes + 1 && |r.value| <= size && (|r.value| == numNodes + 1 || |r.value| == size))
  {
    hide InputsOf, AllTiles, SizeOf, RootBits;
    if numNodes == 0 {
      return None;
    }
    var size := SizeOf(g.nodes, g.root);
    if size <= LOCAL_TILE_THRESHOLD {
      return None;
    }
    var inputs := CollectBuffers(g);
    var tiles := CutTiles(inputs, size, RootBits(g), Parts(size, numNodes), firstId);
    r := Some(tiles);
  }

  method CutTiles(inputs: seq<seq<byte>>, size: nat, bits: u32, totalParts: nat, firstId: u64) returns (tiles: seq<Tile>)
    requires 1 <= totalParts <= size
    ensures tiles == AllTiles(inputs, size, totalParts, bits, firstId)
  {
    hide TileSlice, PartStart, PartCount, TileAt;
    var bpe := BytesPerElem(bits);
    tiles := [];
    var offset := 0;
    PartFollows(size, totalParts, 0);
    for p := 0 to totalParts
      invariant offset == PartStart(size, totalParts, p)
      invariant tiles == AllTiles(inputs, size, totalParts, bits, firstId)[..p]
    {
      var count: nat := CountOf(size, totalParts, p);
      var bufs := CutInputs(inputs, offset, count, bpe);
      TileIs(inputs, size, totalParts, bits, firstId, p);
      tiles := tiles + [Tile((firstId + p) % TWO_64, offset, count, bits, bufs)];
      PartFollows(size, totalParts, p);
      offset := offset + count;
    }
    assert AllTiles(inputs, size, totalParts, bits, firstId)[..totalParts] == AllTiles(inputs, size, totalParts, bits, firstId);
  }

  /** The count of one part; the source's skip of an empty part never applies. */
  method CountOf(size: nat, parts: nat, p: nat) returns (count: nat)
    requires 1 <= parts <= size && p < parts
    ensures count == PartCount(size, parts, p) && count > 0
  {
    Partition(size, parts, p);
    PartNat(size, parts, p);
    var baseSize := size / parts;
    var remainder := size % parts;
    count := baseSize + if p < remainder then 1 else 0;
  }

  lemma TileIs(inputs: seq<seq<byte>>, size: nat, parts: nat, bits: u32, firstId: u64, p: nat)
    requires parts >= 1
    ensures PartStart(size, parts, p) >= 0 && PartCount(size, parts, p) >= 0
    ensures TileAt(inputs, size, parts, bits, firstId, p) ==
            Tile((firstId + p) % TWO_64, PartStart(size, parts, p), PartCount(size, parts, p), bits,
                 TileSlices(inputs, PartStart(size, parts, p), PartCount(size, parts, p), BytesPerElem(bits)))
  {
    PartNat(size, parts, p);
  }

  method CutInputs(inputs: seq<seq<byte>>, offset: nat, count: nat, bpe: nat) returns (bufs: seq<seq<byte>>)
    ensures bufs == TileSlices(inputs, offset, count, bpe)
  {
    bufs := [];
    for k := 0 to |inputs|
      invariant bufs == TileSlices(inputs, offset, count, bpe)[..k]
    {
      var src := inputs[k];
      MulNat(offset, bpe);
      RangeOrder(offset, count, bpe);
      MulNat(count, bpe);
      var startByte := offset * bpe;
      var endByte := (offset + count) * bpe;
      endByte := if endByte < |src| then endByte else |src|;
      if startByte < |src| {
        bufs := bufs + [src[startByte..endByte]];
      } else {
        bufs := bufs + [seq(count * bpe, _ => 0)];
      }
    }
  }

  /** The slices of one buffer, joined, are the buffer again. */
  function Joined(src: seq<byte>, size: nat, parts: nat, bpe: nat, n: nat): seq<byte>
    requires parts >= 1
  {
    if n == 0 then []
    else
      PartNat(size, parts, n - 1);
      Joined(src, size, parts, bpe, n - 1) + TileSlice(src, PartStart(size, parts, n - 1), PartCount(size, parts, n - 1), bpe)
  }

  lemma {:induction false} SlicesJoin(src: seq<byte>, size: nat, parts: nat, bpe: nat, n: nat)
    requires 1 <= parts <= size && n <= parts && size * bpe <= |src|
    ensures 0 <= PartStart(size, parts, n) * bpe <= |src|
    ensures Joined(src, size, parts, bpe, n) == src[..PartStart(size, parts, n) * bpe]
  {
    hide PartStart, PartCount;
    if n == 0 {
      PartFollows(size, parts, 0);
    } else {
      SlicesJoin(src, size, parts, bpe, n - 1);
      Partition(size, parts, n - 1);
      PartFollows(size, parts, n - 1);
      PartNat(size, parts, n - 1);
      SliceFits(src, PartStart(size, parts, n - 1), PartCount(size, parts, n - 1), bpe, size);
    }
  }

  /** In a buffer that covers the array, a slice is the bytes of its elements. */
  lemma SliceFits(src: seq<byte>, start: nat, count: nat, bpe: nat, size: nat)
    requires start + count <= size && size * bpe <= |src|
    ensures 0 <= start * bpe <= (start + count) * bpe <= |src|
    ensures TileSlice(src, start, count, bpe) == src[start * bpe..(start + count) * bpe]
    ensures |TileSlice(src, start, count, bpe)| == count * bpe
  {
    RangeOrder(start, count, bpe);
    RangeOrder(start + count, size - start - count, bpe);
    MulNat(start, bpe);
    MulNat(count, bpe);
    MulNat(size - start - count, bpe);
    if start * bpe >= |src| {
      assert count * bpe == 0;
    }
  }

  // ------------------------------------------------------------- the results

  lemma {:induction false} ArrivedHolds(arrivals: seq<TileResult>, r: TileResult)
    requires r in arrivals && forall s :: s in arrivals && s.id == r.id ==> s == r
    ensures r.id in Arrived(arrivals) && Arrived(arrivals)[r.id] == r
    decreases |arrivals|
  {
    var n := |arrivals| - 1;
    if arrivals[n].id == r.id {
      assert arrivals[n] in arrivals;
    } else {
      assert forall s :: s in arrivals[..n] ==> s in arrivals;
      ArrivedHolds(arrivals[..n], r);
    }
  }

  lemma {:induction false} ArrivedOnly(arrivals: seq<TileResult>, id: u64)
    requires id in Arrived(arrivals)
    ensures Arrived(arrivals)[id] in arrivals && Arrived(arrivals)[id].id == id
    decreases |arrivals|
  {
    var n := |arrivals| - 1;
    if arrivals[n].id != id {
      ArrivedOnly(arrivals[..n], id);
    }
  }

  /** The local output, then the results found, in tile order; a missing one is skipped. */
  function Reassembled(localOutput: seq<byte>, results: map<u64, TileResult>, tiles: seq<Tile>, n: nat): seq<byte>
    requires 1 <= n <= |tiles|
  {
    if n == 1 then localOutput
    else
      var id := tiles[n - 1].id;
      Reassembled(localOutput, results, tiles, n - 1) + if id in results then results[id].output else []
  }

  method Reassemble(localOutput: seq<byte>, results: map<u64, TileResult>, tiles: seq<Tile>) returns (out: seq<byte>)
    requires |tiles| >= 1
    ensures out == Reassembled(localOutput, results, tiles, |tiles|)
  {
    out := localOutput;
    for k := 1 to |tiles|
      invariant out == Reassembled(localOutput, results, tiles, k)
    {
      if tiles[k].id in results {
        out := out + results[tiles[k].id].output;
      }
    }
  }

  // --------------------------------------------------------- all of it together

  /** Whom each tile is sent to; None for a tile that is not dispatched. Tile 0 stays with the caller. */
  type Assignment = nat -> Option<nat>

  /** The tiles a worker is sent, in order, under some assignment of tiles to workers. */
  function AssignedTo(tiles: seq<Tile>, assign: Assignment, worker: nat, n: nat): seq<Tile>
    requires n <= |tiles|
  {
    if n <= 1 then []
    else AssignedTo(tiles, assign, worker, n - 1) + if assign(n - 1) == Some(worker) then [tiles[n - 1]] else []
  }

  lemma {:induction false} AssignedIs(tiles: seq<Tile>, assign: Assignment, worker: nat, n: nat)
    requires n <= |tiles|
    ensures forall t :: t in AssignedTo(tiles, assign, worker, n) ==> exists p :: 1 <= p < n && t == tiles[p] && assign(p) == Some(worker)
    ensures forall p :: 1 <= p < n && assign(p) == Some(worker) ==> tiles[p] in AssignedTo(tiles, assign, worker, n)
  {
    if n > 1 {
      AssignedIs(tiles, assign, worker, n - 1);
    }
  }

  /** Request and echo fit the 32-bit fields of their messages. */
  predicate Exchangeable(t: Tile) { Sendable(t) && Carried(Echo(RequestOf(t))) }

  ghost predicate AllExchangeable(tiles: seq<Tile>) { forall p :: 0 <= p < |tiles| ==> Exchangeable(tiles[p]) }

  /** What the coordinator receives from worker `worker`, which reads the bytes it is sent and writes its responses. */
  ghost function Answers(tiles: seq<Tile>, assign: Assignment, worker: nat): seq<TileResult> {
    Received(Responses(Served(Messages(AssignedTo(tiles, assign, worker, |tiles|)))))
  }

  /** Everything the workers answered has arrived, in any order, and nothing else. */
  ghost predicate AllArrived(tiles: seq<Tile>, assign: Assignment, arrivals: seq<TileResult>) {
    && (forall w: nat, r :: r in Answers(tiles, assign, w) ==> r in arrivals)
    && (forall r :: r in arrivals ==> exists w: nat :: r in Answers(tiles, assign, w))
  }

  lemma AnswersAre(tiles: seq<Tile>, assign: Assignment, worker: nat)
    requires AllExchangeable(tiles)
    ensures forall p :: 1 <= p < |tiles| && assign(p) == Some(worker) ==> Echo(RequestOf(tiles[p])) in Answers(tiles, assign, worker)
    ensures forall r :: r in Answers(tiles, assign, worker) ==>
      exists p :: 1 <= p < |tiles| && r == Echo(RequestOf(tiles[p])) && assign(p) == Some(worker)
  {
    hide Echo, Served, Messages, Received, Responses, Carried;
    var ts := AssignedTo(tiles, assign, worker, |tiles|);
    AssignedIs(tiles, assign, worker, |tiles|);
    assert forall i :: 0 <= i < |ts| ==> Exchangeable(ts[i]) by {
      assert forall i :: 0 <= i < |ts| ==> ts[i] in ts;
    }
    TilesServed(ts);
    ResponsesReceived(Echoes(ts));
    forall p | 1 <= p < |tiles| && assign(p) == Some(worker)
      ensures Echo(RequestOf(tiles[p])) in Answers(tiles, assign, worker)
    {
      var i :| 0 <= i < |ts| && ts[i] == tiles[p];
      assert Echoes(ts)[i] == Echo(RequestOf(tiles[p]));
    }
    forall r | r in Answers(tiles, assign, worker)
      ensures exists p :: 1 <= p < |tiles| && r == Echo(RequestOf(tiles[p])) && assign(p) == Some(worker)
    {
      var i :| 0 <= i < |ts| && Echoes(ts)[i] == r;
      assert ts[i] in ts;
    }
  }

  ghost predicate DistinctIds(tiles: seq<Tile>) {
    forall p, q :: 0 <= p < q < |tiles| ==> tiles[p].id != tiles[q].id
  }

  /** Once everything has arrived, the map holds the echoes of exactly the tiles that were dispatched. */
  lemma EveryEchoFound(tiles: seq<Tile>, assign: Assignment, arrivals: seq<TileResult>, p: nat)
    requires AllExchangeable(tiles) && DistinctIds(tiles) && AllArrived(tiles, assign, arrivals) && 1 <= p < |tiles|
    ensures tiles[p].id in Arrived(arrivals) <==> assign(p).Some?
    ensures assign(p).Some? ==> Arrived(arrivals)[tiles[p].id] == Echo(RequestOf(tiles[p]))
  {
    hide EchoOutput, Answers, Arrived;
    var r := Echo(RequestOf(tiles[p]));
    forall s | s in arrivals && s.id == tiles[p].id
      ensures s == r && assign(p).Some?
    {
      var w: nat :| s in Answers(tiles, assign, w);
      AnswersAre(tiles, assign, w);
      var q :| 1 <= q < |tiles| && s == Echo(RequestOf(tiles[q])) && assign(q) == Some(w);
      assert tiles[q].id == tiles[p].id;
    }
    if assign(p).Some? {
      AnswersAre(tiles, assign, assign(p).value);
      ArrivedHolds(arrivals, r);
    } else if tiles[p].id in Arrived(arrivals) {
      ArrivedOnly(arrivals, tiles[p].id);
    }
  }

  lemma IdsDistinct(inputs: seq<seq<byte>>, size: nat, parts: nat, bits: u32, firstId: u64)
    requires 1 <= parts <= TWO_64
    ensures DistinctIds(AllTiles(inputs, size, parts, bits, firstId))
  {
    hide TileSlices, PartStart, PartCount;
    var tiles := AllTiles(inputs, size, parts, bits, firstId);
    forall p, q | 0 <= p < q < |tiles|
      ensures tiles[p].id != tiles[q].id
    {
      assert tiles[p] == TileAt(inputs, size, parts, bits, firstId, p);
      assert tiles[q] == TileAt(inputs, size, parts, bits, firstId, q);
    }
  }

  // ------------------------------------------------------- what the echoes make

  /** Cutting or padding a piece of a buffer is taking the same piece of the cut or padded buffer. */
  lemma SliceShare(src: seq<byte>, start: nat, count: nat, bpe: nat, size: nat)
    requires start + count <= size
    ensures count * bpe >= 0 && 0 <= start * bpe <= (start + count) * bpe <= size * bpe
    ensures Resized(TileSlice(src, start, count, bpe), count * bpe) == Resized(src, size * bpe)[start * bpe..(start + count) * bpe]
  {
    RangeOrder(start, count, bpe);
    RangeOrder(start + count, size - start - count, bpe);
    MulNat(start, bpe);
    MulNat(count, bpe);
    MulNat(size - start - count, bpe);
    Share(src, start * bpe, (start + count) * bpe, size * bpe, TileSlice(src, start, count, bpe));
  }

  lemma Share(src: seq<byte>, a: nat, b: nat, total: nat, slice: seq<byte>)
    requires a <= b <= total
    requires slice == if a < |src| then src[a..if b < |src| then b else |src|] else seq(b - a, _ => 0)
    ensures Resized(slice, b - a) == Resized(src, total)[a..b]
  {
  }

  lemma ResizedTwice(buf: seq<byte>, n: nat)
    ensures Resized(Resized(buf, if n < |buf| then n else |buf|), n) == Resized(buf, n)
  {
  }

  /** The echo of a tile is its share of the first input, padded with zeros where the input is too short. */
  lemma EchoIsShare(inputs: seq<seq<byte>>, size: nat, parts: nat, bits: u32, firstId: u64, p: nat)
    requires inputs != [] && 1 <= parts <= size && p < parts
    requires Sendable(TileAt(inputs, size, parts, bits, firstId, p))
    ensures var bpe, a, b := BytesPerElem(bits), PartStart(size, parts, p), PartStart(size, parts, p + 1);
            && a >= 0 && b >= 0 && 0 <= a * bpe <= b * bpe <= size * bpe
            && EchoOutput(RequestOf(TileAt(inputs, size, parts, bits, firstId, p))) == Resized(inputs[0], size * bpe)[a * bpe..b * bpe]
  {
    hide PartStart, PartCount, BytesPerElem, TileSlice, Resized;
    PartNat(size, parts, p);
    PartNat(size, parts, p + 1);
    PartFollows(size, parts, p);
    Partition(size, parts, p);
    TileIs(inputs, size, parts, bits, firstId, p);
    var start, count, bpe := PartStart(size, parts, p), PartCount(size, parts, p), BytesPerElem(bits);
    SliceShare(inputs[0], start, count, bpe, size);
    ResizedTwice(TileSlice(inputs[0], start, count, bpe), count * bpe);
  }

  /** The reassembled output when every remote tile comes back, tile by tile: the caller's own slice, then the shares. */
  lemma {:induction false} EchoRestores(inputs: seq<seq<byte>>, size: nat, parts: nat, bits: u32, firstId: u64,
                                        assign: Assignment, arrivals: seq<TileResult>, n: nat)
    requires inputs != [] && 1 <= parts <= size && parts <= TWO_64
    requires AllExchangeable(AllTiles(inputs, size, parts, bits, firstId))
    requires AllArrived(AllTiles(inputs, size, parts, bits, firstId), assign, arrivals) && 1 <= n <= parts
    requires forall p :: 1 <= p < n ==> assign(p).Some?
    ensures var tiles, bpe := AllTiles(inputs, size, parts, bits, firstId), BytesPerElem(bits);
            var first, next := PartStart(size, parts, 1), PartStart(size, parts, n);
            && |tiles[0].inputBufs| > 0 && 0 <= first * bpe <= next * bpe <= size * bpe
            && Reassembled(tiles[0].inputBufs[0], Arrived(arrivals), tiles, n)
            == tiles[0].inputBufs[0] + Resized(inputs[0], size * bpe)[first * bpe..next * bpe]
  {
    hide AllArrived, Arrived, AllExchangeable, EchoOutput, TileSlice, PartStart, PartCount, TileAt, Resized, BytesPerElem;
    var tiles := AllTiles(inputs, size, parts, bits, firstId);
    TileIs(inputs, size, parts, bits, firstId, 0);
    if n == 1 {
      FirstEnds(size, parts, BytesPerElem(bits));
    } else {
      EchoRestores(inputs, size, parts, bits, firstId, assign, arrivals, n - 1);
      IdsDistinct(inputs, size, parts, bits, firstId);
      EveryEchoFound(tiles, assign, arrivals, n - 1);
      SendableAt(tiles, n - 1);
      EchoIsShare(inputs, size, parts, bits, firstId, n - 1);
    }
  }

  lemma FirstEnds(size: nat, parts: nat, bpe: nat)
    requires 1 <= parts <= size
    ensures 0 <= PartStart(size, parts, 1) * bpe <= size * bpe
  {
    hide PartStart, PartCount;
    PartNat(size, parts, 1);
    PartsBelow(size, parts, 1);
    Partition(size, parts, 0);
    MulNat(PartStart(size, parts, 1), bpe);
    LeTimes(bpe, PartStart(size, parts, 1), size);
  }

  lemma SendableAt(tiles: seq<Tile>, p: nat)
    requires AllExchangeable(tiles) && p < |tiles|
    ensures Sendable(tiles[p])
  {
  }

  /** What all tiles together give back: the caller's own slice is not padded, unless the buffer is empty. */
  function Whole(src: seq<byte>, first: nat, total: nat): seq<byte>
    requires first <= total
  {
    if src == [] || first <= |src| then Resized(src, total) else src + seq(total - first, _ => 0)
  }

  lemma WholeIs(src: seq<byte>, local: seq<byte>, first: nat, total: nat)
    requires first <= total
    requires local == if 0 < |src| then src[..if first < |src| then first else |src|] else seq(first, _ => 0)
    ensures local + Resized(src, total)[first..total] == Whole(src, first, total)
  {
  }

  /** How many bytes the caller's own tile stands for, and all tiles together. */
  function FirstBytes(size: nat, parts: nat, bits: u32): nat
    requires 1 <= parts <= size
  {
    FirstEnds(size, parts, BytesPerElem(bits));
    PartStart(size, parts, 1) * BytesPerElem(bits)
  }

  function AllBytes(size: nat, bits: u32): nat {
    MulNat(size, BytesPerElem(bits));
    size * BytesPerElem(bits)
  }

  /** Cut an array, let any workers echo all its tiles, receive the answers in any order, and reassemble. */
  lemma EchoRestoresAll(inputs: seq<seq<byte>>, size: nat, parts: nat, bits: u32, firstId: u64,
                        assign: Assignment, arrivals: seq<TileResult>)
    requires inputs != [] && 1 <= parts <= size && parts <= TWO_64
    requires AllExchangeable(AllTiles(inputs, size, parts, bits, firstId))
    requires AllArrived(AllTiles(inputs, size, parts, bits, firstId), assign, arrivals)
    requires forall p :: 1 <= p < parts ==> assign(p).Some?
    ensures var tiles := AllTiles(inputs, size, parts, bits, firstId);
            && |tiles[0].inputBufs| > 0 && FirstBytes(size, parts, bits) <= AllBytes(size, bits)
            && Reassembled(tiles[0].inputBufs[0], Arrived(arrivals), tiles, parts)
            == Whole(inputs[0], FirstBytes(size, parts, bits), AllBytes(size, bits))
  {
    hide AllArrived, Arrived, AllExchangeable, Reassembled, AllTiles, PartStart, PartCount, BytesPerElem, Whole, TileSlice, Resized;
    EchoRestores(inputs, size, parts, bits, firstId, assign, arrivals, parts);
    Partition(size, parts, 0);
    FirstEnds(size, parts, BytesPerElem(bits));
    FirstTile(inputs, size, parts, bits, firstId);
    WholeIs(inputs[0], AllTiles(inputs, size, parts, bits, firstId)[0].inputBufs[0], FirstBytes(size, parts, bits), AllBytes(size, bits));
  }

  lemma FirstTile(inputs: seq<seq<byte>>, size: nat, parts: nat, bits: u32, firstId: u64)
    requires inputs != [] && 1 <= parts <= size
    ensures var src, first, bufs := inputs[0], FirstBytes(size, parts, bits), AllTiles(inputs, size, parts, bits, firstId)[0].inputBufs;
            && |bufs| > 0
            && bufs[0] == if 0 < |src| then src[..if first < |src| then first else |src|] else seq(first, _ => 0)
  {
    hide PartStart, PartCount, BytesPerElem;
    PartFollows(size, parts, 0);
    TileIs(inputs, size, parts, bits, firstId, 0);
    FirstSlice(inputs[0], PartCount(size, parts, 0), BytesPerElem(bits));
  }

  lemma FirstSlice(src: seq<byte>, count: nat, bpe: nat)
    ensures var first := count * bpe;
            first >= 0 && TileSlice(src, 0, count, bpe) == if 0 < |src| then src[..if first < |src| then first else |src|] else seq(first, _ => 0)
  {
    MulNat(count, bpe);
    assert 0 * bpe == 0 && (0 + count) * bpe == count * bpe;
  }

  /** With a tile for someone else, the array comes back as it was exactly if its buffer has whole bytes for every element. */
  lemma RestoredExactly(src: seq<byte>, size: nat, parts: nat, bits: u32)
    requires 2 <= parts <= size
    ensures FirstBytes(size, parts, bits) <= AllBytes(size, bits)
    ensures Whole(src, FirstBytes(size, parts, bits), AllBytes(size, bits)) == src <==> |src| == AllBytes(size, bits)
  {
    hide PartStart, PartCount, BytesPerElem, Whole;
    FirstEnds(size, parts, BytesPerElem(bits));
    if BytesPerElem(bits) > 0 {
      FirstSmaller(size, parts, BytesPerElem(bits));
    }
    WholeExactly(src, FirstBytes(size, parts, bits), AllBytes(size, bits));
  }

  lemma FirstSmaller(size: nat, parts: nat, bpe: nat)
    requires 2 <= parts <= size && bpe > 0
    ensures PartStart(size, parts, 1) * bpe < size * bpe
  {
    hide PartStart, PartCount;
    PartFollows(size, parts, 0);
    PartFollows(size, parts, 1);
    Partition(size, parts, 1);
    PartNat(size, parts, 1);
    LessScaled(PartStart(size, parts, 1), size, bpe);
  }

  lemma WholeExactly(src: seq<byte>, first: nat, total: nat)
    requires first < total || first == total == 0
    ensures Whole(src, first, total) == src <==> |src| == total
  {
    if |src| == total {
      assert src[..total] == src;
    }
  }

  /**
   * A packed array comes back as it was exactly if the bits that whole bytes
   * would add to its elements do not fill a byte.
   */
  lemma PackedRestored(src: seq<byte>, size: nat, parts: nat, bits: u32)
    requires 2 <= parts <= size && |src| == Packing.PackedBytes(size * bits)
    ensures FirstBytes(size, parts, bits) <= AllBytes(size, bits)
    ensures Whole(src, FirstBytes(size, parts, bits), AllBytes(size, bits)) == src <==> size * ((8 - bits % 8) % 8) < 8
  {
    hide Whole, FirstBytes, BytesPerElem;
    RestoredExactly(src, size, parts, bits);
    var q, r := BytesPerElem(bits), (8 - bits % 8) % 8;
    PaddedElement(bits);
    MulNat(size, r);
    PaddedElements(size, bits, q, r);
    RoundedUp(size * bits, size * q, size * r);
  }

  lemma PaddedElement(bits: nat)
    ensures bits == 8 * BytesPerElem(bits) - (8 - bits % 8) % 8
  {
  }

  lemma PaddedElements(size: nat, bits: nat, q: nat, r: nat)
    requires bits == 8 * q - r
    ensures size * bits == 8 * (size * q) - size * r
  {
    assert size * (8 * q - r) == size * (8 * q) - size * r;
    assert size * (8 * q) == 8 * (size * q);
  }

  lemma RoundedUp(n: nat, q: nat, r: nat)
    requires n == 8 * q - r
    ensures (n + 7) / 8 == q <==> r < 8
  {
  }

  /** An array of 7-bit integers large enough to be cut comes back longer than it was, padded with zeros. */
  lemma SevenBitsGrow(src: seq<byte>, size: nat, parts: nat)
    requires size > LOCAL_TILE_THRESHOLD && 2 <= parts <= size && |src| == (7 * size + 7) / 8
    ensures AllBytes(size, 7) == size > |src| && FirstBytes(size, parts, 7) <= |src|
    ensures Whole(src, FirstBytes(size, parts, 7), AllBytes(size, 7)) == src + seq(size - |src|, _ => 0) != src
  {
    assert BytesPerElem(7) == 1;
    hide PartStart, PartCount;
    PartFollows(size, parts, 0);
    Partition(size, parts, 0);
    HalfAtMost(size, parts);
  }

  lemma HalfAtMost(size: nat, parts: nat)
    requires 2 <= parts <= size
    ensures PartCount(size, parts, 0) <= size / 2 + 1
  {
    var q := size / parts;
    DivNat(size, parts);
    assert size == q * parts + size % parts;
    LeTimes(q, 2, parts);
  }

  /** What is reassembled from a map of right results is shorter by exactly the missing ones. */
  lemma {:induction false} MissingShortens(localOutput: seq<byte>, some: map<u64, TileResult>, all: map<u64, TileResult>, tiles: seq<Tile>, n: nat)
    requires 1 <= n <= |tiles|
    requires forall p :: 1 <= p < |tiles| ==> tiles[p].id in all && all[tiles[p].id].output != []
    requires forall p :: 1 <= p < |tiles| && tiles[p].id in some ==> some[tiles[p].id] == all[tiles[p].id]
    ensures |Reassembled(localOutput, some, tiles, n)| <= |Reassembled(localOutput, all, tiles, n)|
    ensures Reassembled(localOutput, some, tiles, n) == Reassembled(localOutput, all, tiles, n)
       <==> forall p :: 1 <= p < n ==> tiles[p].id in some
  {
    if n > 1 {
      MissingShortens(localOutput, some, all, tiles, n - 1);
      if tiles[n - 1].id !in some {
        assert |Reassembled(localOutput, some, tiles, n)| < |Reassembled(localOutput, all, tiles, n)|;
      } else {
        var a, b := Reassembled(localOutput, some, tiles, n - 1), Reassembled(localOutput, all, tiles, n - 1);
        SameTail(a, b, all[tiles[n - 1].id].output);
      }
    }
  }

  lemma SameTail(a: seq<byte>, b: seq<byte>, c: seq<byte>)
    ensures a + c == b + c <==> a == b
  {
    if a + c == b + c {
      assert |a| == |b|;
      assert (a + c)[..|a|] == a && (b + c)[..|b|] == b;
    }
  }

  /** For every tile an assignment that dispatches it. */
  function Everyone(): Assignment { _ => Some(0) }

  /** The reassembled output is that of all tiles exactly if all remote tiles were dispatched. */
  lemma WholeIffDispatched(inputs: seq<seq<byte>>, size: nat, parts: nat, bits: u32, firstId: u64,
                           assign: Assignment, arrivals: seq<TileResult>)
    requires inputs != [] && 1 <= parts <= size && parts <= TWO_64 && bits >= 1
    requires AllExchangeable(AllTiles(inputs, size, parts, bits, firstId))
    requires AllArrived(AllTiles(inputs, size, parts, bits, firstId), assign, arrivals)
    ensures var tiles := AllTiles(inputs, size, parts, bits, firstId);
            && |tiles[0].inputBufs| > 0 && FirstBytes(size, parts, bits) <= AllBytes(size, bits)
            && (Reassembled(tiles[0].inputBufs[0], Arrived(arrivals), tiles, parts)
                == Whole(inputs[0], FirstBytes(size, parts, bits), AllBytes(size, bits))
                <==> forall p :: 1 <= p < parts ==> assign(p).Some?)
  {
    hide AllArrived, Arrived, AllExchangeable, Reassembled, Whole, FirstBytes, AllBytes, TileAt, Echo, Answers;
    var tiles := AllTiles(inputs, size, parts, bits, firstId);
    var everything := Answers(tiles, Everyone(), 0);
    EveryoneArrives(tiles);
    EchoRestoresAll(inputs, size, parts, bits, firstId, Everyone(), everything);
    IdsDistinct(inputs, size, parts, bits, firstId);
    forall p | 1 <= p < parts
      ensures tiles[p].id in Arrived(everything) && Arrived(everything)[tiles[p].id].output != []
      ensures tiles[p].id in Arrived(arrivals) <==> assign(p).Some?
      ensures tiles[p].id in Arrived(arrivals) ==> Arrived(arrivals)[tiles[p].id] == Arrived(everything)[tiles[p].id]
    {
      EveryEchoFound(tiles, Everyone(), everything, p);
      EveryEchoFound(tiles, assign, arrivals, p);
      SendableAt(tiles, p);
      EchoNotEmpty(inputs, size, parts, bits, firstId, p);
    }
    MissingShortens(tiles[0].inputBufs[0], Arrived(arrivals), Arrived(everything), tiles, parts);
  }

  lemma EveryoneArrives(tiles: seq<Tile>)
    requires AllExchangeable(tiles)
    ensures AllArrived(tiles, Everyone(), Answers(tiles, Everyone(), 0))
  {
    hide AllExchangeable, Answers;
    forall w: nat, r | r in Answers(tiles, Everyone(), w)
      ensures r in Answers(tiles, Everyone(), 0)
    {
      AnswersAre(tiles, Everyone(), w);
    }
  }

  lemma EchoNotEmpty(inputs: seq<seq<byte>>, size: nat, parts: nat, bits: u32, firstId: u64, p: nat)
    requires 1 <= parts <= size && p < parts && bits >= 1
    requires Sendable(TileAt(inputs, size, parts, bits, firstId, p))
    ensures Echo(RequestOf(TileAt(inputs, size, parts, bits, firstId, p))).output != []
  {
    hide PartStart, PartCount, TileSlices;
    TileIs(inputs, size, parts, bits, firstId, p);
    Partition(size, parts, p);
    LessScaled(0, PartCount(size, parts, p), BytesPerElem(bits));
  }
}
