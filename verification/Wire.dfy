/** Tiles on the wire (network.rs): framing, reading in chunks, the echo worker, and its responses. */
module Wire {
  import opened Words

  datatype Tile = Tile(id: u64, elemStart: nat, elemCount: nat, bits: u32, inputBufs: seq<seq<byte>>)

  datatype TileResult = TileResult(id: u64, elemCount: nat, bits: u32, output: seq<byte>)

  const TAG_TILE_REQ: byte := 0x01
  const TAG_TILE_RESP: byte := 0x02

  // ---------------------------------------------------------------- requests

  /** A length-prefixed buffer; the length is cut to 32 bits. */
  function EncodeBuf(buf: seq<byte>): seq<byte> { LeBytes(|buf| % TWO_32, 4) + buf }

  function EncodeBufs(bufs: seq<seq<byte>>): seq<byte> {
    if bufs == [] then [] else EncodeBuf(bufs[0]) + EncodeBufs(bufs[1..])
  }

  function Header(id: u64, elemCount: nat, bits: u32, n: nat): (bytes: seq<byte>)
    ensures |bytes| == 20
  {
    LeBytes(id, 8) + LeBytes(elemCount % TWO_32, 4) + LeBytes(bits, 4) + LeBytes(n % TWO_32, 4)
  }

  function EncodeTile(t: Tile): (msg: seq<byte>) {
    [TAG_TILE_REQ] + Header(t.id, t.elemCount, t.bits, |t.inputBufs|) + EncodeBufs(t.inputBufs)
  }

  lemma {:induction false} EncodeBufsConcat(a: seq<seq<byte>>, b: seq<seq<byte>>)
    ensures EncodeBufs(a + b) == EncodeBufs(a) + EncodeBufs(b)
  {
    if a == [] {
      assert a + b == b;
    } else {
      hide EncodeBuf;
      EncodeBufsConcat(a[1..], b);
      assert (a + b)[1..] == a[1..] + b;
    }
  }

  method EncodeTileReq(t: Tile) returns (msg: seq<byte>)
    ensures msg == EncodeTile(t) && msg[0] == 0x01
  {
    msg := [TAG_TILE_REQ];
    msg := msg + LeBytes(t.id, 8);
    msg := msg + LeBytes(t.elemCount % TWO_32, 4);
    msg := msg + LeBytes(t.bits, 4);
    msg := msg + LeBytes(|t.inputBufs| % TWO_32, 4);
    ghost var head := msg;
    assert head == [TAG_TILE_REQ] + Header(t.id, t.elemCount, t.bits, |t.inputBufs|);
    for i := 0 to |t.inputBufs|
      invariant msg == head + EncodeBufs(t.inputBufs[..i])
    {
      var buf := t.inputBufs[i];
      EncodeBufsConcat(t.inputBufs[..i], [buf]);
      assert t.inputBufs[..i + 1] == t.inputBufs[..i] + [buf];
      OneBuf(buf);
      msg := msg + LeBytes(|buf| % TWO_32, 4);
      msg := msg + buf;
    }
    assert t.inputBufs[..|t.inputBufs|] == t.inputBufs;
  }

  lemma OneBuf(buf: seq<byte>)
    ensures EncodeBufs([buf]) == LeBytes(|buf| % TWO_32, 4) + buf
  {
    hide LeBytes;
    assert [buf][1..] == [];
  }

  // ------------------------------------------------------- reading in chunks

  function Flatten(chunks: seq<seq<byte>>): seq<byte> {
    if chunks == [] then [] else chunks[0] + Flatten(chunks[1..])
  }

  /** A connection that hands out what arrives in pieces of any size. */
  class TcpStream {
    /** The pieces still to arrive; after the last one the stream is closed. */
    var chunks: seq<seq<byte>>

    ghost predicate Valid()
      reads this
    {
      forall i :: 0 <= i < |chunks| ==> chunks[i] != []
    }

    ghost function Pending(): seq<byte>
      reads this
    {
      Flatten(chunks)
    }

    constructor (pieces: seq<seq<byte>>)
      requires forall i :: 0 <= i < |pieces| ==> pieces[i] != []
      ensures Valid() && chunks == pieces
    {
      chunks := pieces;
    }

    /** One read: at least one byte unless the stream is closed, and no more than asked for. */
    method Read(max: nat) returns (got: seq<byte>)
      requires Valid() && max > 0
      modifies this
      ensures Valid() && |got| <= max && (got == [] <==> old(Pending()) == [])
      ensures old(Pending()) == got + Pending()
    {
      if chunks == [] {
        return [];
      }
      var first := chunks[0];
      if |first| <= max {
        got := first;
        chunks := chunks[1..];
      } else {
        got := first[..max];
        ghost var rest := chunks[1..];
        chunks := [first[max..]] + chunks[1..];
        assert chunks[1..] == rest;
      }
    }

    /** Reads until `n` bytes are there; None if the stream closes before. */
    method ReadExact(n: nat) returns (r: Option<seq<byte>>)
      requires Valid()
      modifies this
      ensures Valid()
      ensures r == if |old(Pending())| >= n then Some(old(Pending())[..n]) else None
      ensures r.Some? ==> Pending() == old(Pending())[n..]
      ensures r.None? ==> Pending() == []
    {
      ghost var all := Pending();
      var buf := [];
      while |buf| < n
        invariant Valid() && |buf| <= n && all == buf + Pending()
        decreases n - |buf|
      {
        var got := Read(n - |buf|);
        if got == [] {
          return None;
        }
        buf := buf + got;
      }
      r := Some(buf);
    }

    method ReadU32() returns (r: Option<u32>)
      requires Valid()
      modifies this
      ensures Valid() && r == TakeU32(old(Pending()))
      ensures r.Some? ==> Pending() == old(Pending())[4..]
      ensures r.None? ==> Pending() == []
    {
      var b := ReadExact(4);
      r := if b.Some? then Some(FromLe32(b.value)) else None;
    }

    method ReadU64() returns (r: Option<u64>)
      requires Valid()
      modifies this
      ensures Valid() && r == TakeU64(old(Pending()))
      ensures r.Some? ==> Pending() == old(Pending())[8..]
      ensures r.None? ==> Pending() == []
    {
      var b := ReadExact(8);
      r := if b.Some? then Some(FromLe64(b.value)) else None;
    }
  }

  function TakeU32(s: seq<byte>): (r: Option<u32>)
    ensures r.Some? <==> |s| >= 4
  {
    if |s| >= 4 then Some(FromLe32(s[..4])) else None
  }

  function TakeU64(s: seq<byte>): (r: Option<u64>)
    ensures r.Some? <==> |s| >= 8
  {
    if |s| >= 8 then Some(FromLe64(s[..8])) else None
  }

  // ------------------------------------------------------------- the parser

  /** What a parser takes from the front of the stream, and what it leaves. */
  datatype Parsed<T> = Fail | Done(value: T, rest: seq<byte>)

  function ParseBufs(s: seq<byte>, n: nat): Parsed<seq<seq<byte>>>
    decreases n
  {
    if n == 0 then Done([], s)
    else if TakeU32(s).None? || |s| - 4 < TakeU32(s).value then Fail
    else
      var len := TakeU32(s).value;
      match ParseBufs(s[4 + len..], n - 1)
      case Fail => Fail
      case Done(bufs, rest) => Done([s[4..4 + len]] + bufs, rest)
  }

  /** The request as the worker sees it; it is not told where the tile starts. */
  datatype Request = Request(id: u64, elemCount: u32, bits: u32, inputBufs: seq<seq<byte>>)

  function ParseRequest(s: seq<byte>): Parsed<Request> {
    if |s| < 20 then Fail
    else
      match ParseBufs(s[20..], FromLe32(s[16..20]))
      case Fail => Fail
      case Done(bufs, rest) => Done(Request(FromLe64(s[..8]), FromLe32(s[8..12]), FromLe32(s[12..16]), bufs), rest)
  }

  method ReadRequest(stream: TcpStream) returns (r: Option<Request>)
    requires stream.Valid()
    modifies stream
    ensures stream.Valid()
    ensures match ParseRequest(old(stream.Pending()))
            case Fail => r == None
            case Done(request, rest) => r == Some(request) && stream.Pending() == rest
  {
    hide FromLe, Flatten, FromLe32, FromLe64;
    ghost var s := stream.Pending();
    var id := stream.ReadU64();
    if id.None? { return None; }
    var elemCount := stream.ReadU32();
    if elemCount.None? { return None; }
    var bits := stream.ReadU32();
    if bits.None? { return None; }
    var numInputs := stream.ReadU32();
    if numInputs.None? { return None; }
    HeaderSlices(s);
    assert stream.Pending() == s[20..];
    var bufs := ReadBufs(stream, numInputs.value);
    if bufs.None? { return None; }
    r := Some(Request(id.value, elemCount.value, bits.value, bufs.value));
  }

  lemma HeaderSlices(s: seq<byte>)
    requires |s| >= 20
    ensures s[8..][..4] == s[8..12] && s[8..][4..] == s[12..]
    ensures s[12..][..4] == s[12..16] && s[12..][4..] == s[16..]
    ensures s[16..][..4] == s[16..20] && s[16..][4..] == s[20..]
  {
  }

  method ReadBufs(stream: TcpStream, n: nat) returns (r: Option<seq<seq<byte>>>)
    requires stream.Valid()
    modifies stream
    ensures stream.Valid()
    ensures match ParseBufs(old(stream.Pending()), n)
            case Fail => r == None
            case Done(bufs, rest) => r == Some(bufs) && stream.Pending() == rest
  {
    hide FromLe, Flatten, FromLe32;
    ghost var s := stream.Pending();
    var bufs := [];
    PrefixedNothing(ParseBufs(s, n));
    var i := 0;
    while i < n
      invariant 0 <= i <= n && stream.Valid()
      invariant ParseBufs(s, n) == Prefixed(bufs, ParseBufs(stream.Pending(), n - i))
    {
      ghost var t := stream.Pending();
      var len := stream.ReadU32();
      if len.None? { return None; }
      var buf := stream.ReadExact(len.value);
      if buf.None? { return None; }
      BufSlices(t, len.value);
      PrefixedMore(bufs, buf.value, ParseBufs(stream.Pending(), n - i - 1));
      bufs := bufs + [buf.value];
      i := i + 1;
    }
    r := Some(bufs);
    assert bufs + [] == bufs;
  }

  function Prefixed(bufs: seq<seq<byte>>, p: Parsed<seq<seq<byte>>>): Parsed<seq<seq<byte>>> {
    match p
    case Fail => Fail
    case Done(more, rest) => Done(bufs + more, rest)
  }

  lemma PrefixedNothing(p: Parsed<seq<seq<byte>>>)
    ensures Prefixed([], p) == p
  {
    if p.Done? {
      assert [] + p.value == p.value;
    }
  }

  lemma PrefixedMore(bufs: seq<seq<byte>>, buf: seq<byte>, p: Parsed<seq<seq<byte>>>)
    ensures Prefixed(bufs, Prefixed([buf], p)) == Prefixed(bufs + [buf], p)
  {
    if p.Done? {
      assert bufs + ([buf] + p.value) == bufs + [buf] + p.value;
    }
  }

  lemma BufSlices(t: seq<byte>, len: nat)
    requires 4 + len <= |t|
    ensures t[4..][..len] == t[4..4 + len] && t[4..][len..] == t[4 + len..]
  {
  }

  // ------------------------------------------------------- requests round trip

  /** Sizes the 32-bit fields of a request can carry. */
  predicate Sendable(t: Tile) {
    t.elemCount < TWO_32 && |t.inputBufs| < TWO_32 && forall i :: 0 <= i < |t.inputBufs| ==> |t.inputBufs[i]| < TWO_32
  }

  function RequestOf(t: Tile): Request
    requires Sendable(t)
  {
    Request(t.id, t.elemCount, t.bits, t.inputBufs)
  }

  lemma ParseOne(s: seq<byte>, n: nat, buf: seq<byte>, tail: seq<byte>)
    requires n > 0 && |buf| < TWO_32 && s == LeBytes(|buf|, 4) + buf + tail
    ensures ParseBufs(s, n) == Prefixed([buf], ParseBufs(tail, n - 1))
  {
    hide FromLe, LeBytes;
    Le32(|buf|);
    assert s[..4] == LeBytes(|buf|, 4) && s[4..4 + |buf|] == buf && s[4 + |buf|..] == tail;
  }

  lemma {:induction false} BufsRoundTrip(bufs: seq<seq<byte>>, rest: seq<byte>)
    requires forall i :: 0 <= i < |bufs| ==> |bufs[i]| < TWO_32
    ensures ParseBufs(EncodeBufs(bufs) + rest, |bufs|) == Done(bufs, rest)
  {
    if bufs == [] {
      assert EncodeBufs(bufs) + rest == rest;
    } else {
      BufsRoundTrip(bufs[1..], rest);
      BufsStep(bufs, rest);
    }
  }

  lemma BufsStep(bufs: seq<seq<byte>>, rest: seq<byte>)
    requires bufs != [] && |bufs[0]| < TWO_32
    requires ParseBufs(EncodeBufs(bufs[1..]) + rest, |bufs| - 1) == Done(bufs[1..], rest)
    ensures ParseBufs(EncodeBufs(bufs) + rest, |bufs|) == Done(bufs, rest)
  {
    hide LeBytes, ParseBufs;
    var tail := EncodeBufs(bufs[1..]) + rest;
    assert EncodeBufs(bufs) + rest == LeBytes(|bufs[0]|, 4) + bufs[0] + tail;
    ParseOne(EncodeBufs(bufs) + rest, |bufs|, bufs[0], tail);
    assert bufs == [bufs[0]] + bufs[1..];
  }

  /** The fields of a header, read back. */
  lemma HeaderParts(id: u64, elemCount: u32, bits: u32, n: u32, tail: seq<byte>, s: seq<byte>)
    requires s == Header(id, elemCount, bits, n) + tail
    ensures FromLe64(s[..8]) == id && FromLe32(s[8..12]) == elemCount && FromLe32(s[12..16]) == bits && FromLe32(s[16..20]) == n
    ensures s[20..] == tail
  {
    hide FromLe, LeBytes;
    assert s[..8] == LeBytes(id, 8) && s[8..12] == LeBytes(elemCount, 4);
    assert s[12..16] == LeBytes(bits, 4) && s[16..20] == LeBytes(n, 4);
    Le64(id);
    Le32(elemCount);
    Le32(bits);
    Le32(n);
  }

  lemma RequestRoundTrip(t: Tile, rest: seq<byte>)
    requires Sendable(t)
    ensures ParseRequest((EncodeTile(t) + rest)[1..]) == Done(RequestOf(t), rest)
  {
    hide FromLe64, FromLe32, EncodeBufs, Header, ParseBufs;
    var s := (EncodeTile(t) + rest)[1..];
    assert s == Header(t.id, t.elemCount, t.bits, |t.inputBufs|) + (EncodeBufs(t.inputBufs) + rest);
    HeaderParts(t.id, t.elemCount, t.bits, |t.inputBufs|, EncodeBufs(t.inputBufs) + rest, s);
    BufsRoundTrip(t.inputBufs, rest);
  }

  // ---------------------------------------------------------------- the worker

  function BytesPerElem(bits: nat): nat { (bits + 7) / 8 }

  /** Vec::resize with zeros. */
  function Resized(s: seq<byte>, n: nat): (r: seq<byte>)
    ensures |r| == n
  {
    if n <= |s| then s[..n] else s + seq(n - |s|, _ => 0)
  }

  /** The echo of the first input, cut or padded to the tile's size. */
  function EchoOutput(r: Request): (output: seq<byte>)
    ensures |output| == r.elemCount * BytesPerElem(r.bits)
  {
    var size := r.elemCount * BytesPerElem(r.bits);
    Resized(if r.inputBufs == [] then [] else Resized(r.inputBufs[0], if size < |r.inputBufs[0]| then size else |r.inputBufs[0]|), size)
  }

  function EncodeResponse(r: TileResult): seq<byte> {
    [TAG_TILE_RESP] + Header(r.id, r.elemCount, r.bits, |r.output|) + r.output
  }

  function Echo(r: Request): TileResult { TileResult(r.id, r.elemCount, r.bits, EchoOutput(r)) }

  /** The echo of a tile carries the tile's own id, count and width. */
  lemma EchoKeeps(t: Tile)
    requires Sendable(t)
    ensures Echo(RequestOf(t)).id == t.id && Echo(RequestOf(t)).elemCount == t.elemCount && Echo(RequestOf(t)).bits == t.bits
  {
  }

  /** The worker's connection loop: what it answers to a byte stream, until the stream ends or is not understood. */
  function Served(s: seq<byte>): seq<TileResult>
    decreases |s|
  {
    if s == [] || s[0] != TAG_TILE_REQ then []
    else
      match ParseRequest(s[1..])
      case Fail => []
      case Done(request, rest) =>
        ParseShrinks(s[1..]);
        [Echo(request)] + Served(rest)
  }

  lemma {:induction false} ParseBufsShrinks(s: seq<byte>, n: nat)
    ensures ParseBufs(s, n).Done? ==> |ParseBufs(s, n).rest| <= |s|
    decreases n
  {
    if n > 0 && TakeU32(s).Some? && |s| - 4 >= TakeU32(s).value {
      ParseBufsShrinks(s[4 + TakeU32(s).value..], n - 1);
    }
  }

  lemma ParseShrinks(s: seq<byte>)
    ensures ParseRequest(s).Done? ==> |ParseRequest(s).rest| <= |s|
  {
    if |s| >= 20 {
      ParseBufsShrinks(s[20..], FromLe32(s[16..20]));
    }
  }

  method HandleConnection(stream: TcpStream) returns (written: seq<byte>)
    requires stream.Valid()
    modifies stream
    ensures written == Responses(Served(old(stream.Pending())))
  {
    hide ParseRequest, Flatten, EncodeResponse, Echo;
    ghost var s := stream.Pending();
    written := [];
    while true
      invariant stream.Valid()
      invariant Responses(Served(s)) == written + Responses(Served(stream.Pending()))
      decreases |stream.Pending()|
    {
      ghost var t := stream.Pending();
      var tag := stream.ReadExact(1);
      if tag.None? || tag.value[0] != TAG_TILE_REQ {
        break;
      }
      assert t[0] == TAG_TILE_REQ;
      ParseShrinks(t[1..]);
      var request := ReadRequest(stream);
      if request.None? {
        break;
      }
      ServedOne(t, request.value, stream.Pending());
      written := written + EncodeResponse(Echo(request.value));
    }
  }

  function Responses(rs: seq<TileResult>): seq<byte> {
    if rs == [] then [] else EncodeResponse(rs[0]) + Responses(rs[1..])
  }

  lemma ServedOne(s: seq<byte>, request: Request, rest: seq<byte>)
    requires s != [] && s[0] == TAG_TILE_REQ && ParseRequest(s[1..]) == Done(request, rest)
    ensures Responses(Served(s)) == EncodeResponse(Echo(request)) + Responses(Served(rest))
  {
    hide ParseRequest, EncodeResponse, Echo;
    assert Served(s)[1..] == Served(rest);
  }

  function Messages(ts: seq<Tile>): seq<byte> {
    if ts == [] then [] else EncodeTile(ts[0]) + Messages(ts[1..])
  }

  function Echoes(ts: seq<Tile>): (rs: seq<TileResult>)
    requires forall i :: 0 <= i < |ts| ==> Sendable(ts[i])
    ensures |rs| == |ts| && forall i :: 0 <= i < |ts| ==> rs[i] == Echo(RequestOf(ts[i]))
  {
    seq(|ts|, i requires 0 <= i < |ts| => Echo(RequestOf(ts[i])))
  }

  /**
   * Tiles sent one after another are served one by one, in order, with nothing
   * left over, however the bytes are cut into chunks.
   */
  lemma {:induction false} TilesServed(ts: seq<Tile>)
    requires forall i :: 0 <= i < |ts| ==> Sendable(ts[i])
    ensures Served(Messages(ts)) == Echoes(ts)
  {
    hide ParseRequest, EncodeTile, Echo;
    if ts == [] {
      assert Messages(ts) == [];
    } else {
      var s := Messages(ts);
      TilesServed(ts[1..]);
      RequestRoundTrip(ts[0], Messages(ts[1..]));
      FirstByte(ts[0], Messages(ts[1..]));
      assert Echoes(ts) == [Echo(RequestOf(ts[0]))] + Echoes(ts[1..]);
    }
  }

  lemma FirstByte(t: Tile, rest: seq<byte>)
    ensures EncodeTile(t) + rest != [] && (EncodeTile(t) + rest)[0] == TAG_TILE_REQ
  {
  }

  // --------------------------------------------------------------- the receiver

  function ParseResponse(s: seq<byte>): Parsed<TileResult> {
    if |s| < 20 || |s| - 20 < FromLe32(s[16..20]) then Fail
    else
      var len := FromLe32(s[16..20]);
      Done(TileResult(FromLe64(s[..8]), FromLe32(s[8..12]), FromLe32(s[12..16]), s[20..20 + len]), s[20 + len..])
  }

  method DecodeTileResp(stream: TcpStream) returns (r: Option<TileResult>)
    requires stream.Valid()
    modifies stream
    ensures stream.Valid()
    ensures match ParseResponse(old(stream.Pending()))
            case Fail => r == None && stream.Pending() == []
            case Done(result, rest) => r == Some(result) && stream.Pending() == rest
  {
    hide FromLe, Flatten, FromLe32, FromLe64;
    ghost var s := stream.Pending();
    var id := stream.ReadU64();
    if id.None? { return None; }
    var elemCount := stream.ReadU32();
    if elemCount.None? { return None; }
    var bits := stream.ReadU32();
    if bits.None? { return None; }
    var dataLen := stream.ReadU32();
    if dataLen.None? { return None; }
    HeaderSlices(s);
    assert stream.Pending() == s[20..];
    var output := stream.ReadExact(dataLen.value);
    if output.None? { return None; }
    DataSlices(s, dataLen.value);
    r := Some(TileResult(id.value, elemCount.value, bits.value, output.value));
  }

  lemma DataSlices(s: seq<byte>, len: nat)
    requires 20 + len <= |s|
    ensures s[20..][..len] == s[20..20 + len] && s[20..][len..] == s[20 + len..]
  {
  }

  /** A response decodes to what was sent, if its sizes fit 32 bits. */
  lemma ResponseRoundTrip(r: TileResult, rest: seq<byte>)
    requires r.elemCount < TWO_32 && |r.output| < TWO_32
    ensures EncodeResponse(r)[0] == 0x02 && ParseResponse((EncodeResponse(r) + rest)[1..]) == Done(r, rest)
  {
    hide FromLe64, FromLe32, Header;
    var n := |r.output|;
    var s := (EncodeResponse(r) + rest)[1..];
    assert s == Header(r.id, r.elemCount, r.bits, n) + (r.output + rest);
    HeaderParts(r.id, r.elemCount, r.bits, n, r.output + rest, s);
    assert s[20..20 + n] == s[20..][..n] && s[20 + n..] == s[20..][n..];
  }

  /** What the receive loop takes from a byte stream, until the stream ends or is not understood. */
  function Received(s: seq<byte>): seq<TileResult>
    decreases |s|
  {
    if s == [] || s[0] != TAG_TILE_RESP then []
    else
      match ParseResponse(s[1..])
      case Fail => []
      case Done(result, rest) => [result] + Received(rest)
  }

  /** The results map as results arrive, a later one replacing an earlier one of the same id. */
  function Arrived(arrivals: seq<TileResult>): map<u64, TileResult>
    decreases |arrivals|
  {
    if arrivals == [] then map[]
    else
      var n := |arrivals| - 1;
      Arrived(arrivals[..n])[arrivals[n].id := arrivals[n]]
  }

  lemma ArrivedMore(arrivals: seq<TileResult>, r: TileResult)
    ensures Arrived(arrivals + [r]) == Arrived(arrivals)[r.id := r]
  {
    assert (arrivals + [r])[..|arrivals|] == arrivals;
  }

  /** The coordinator's receive thread: one response after another goes into the results map. */
  method ReceiveResults(stream: TcpStream) returns (results: map<u64, TileResult>)
    requires stream.Valid()
    modifies stream
    ensures results == Arrived(Received(old(stream.Pending())))
  {
    hide ParseResponse, Flatten, Arrived;
    ghost var s := stream.Pending();
    ghost var arrivals := [];
    NoneArrived();
    results := map[];
    while true
      invariant stream.Valid() && results == Arrived(arrivals)
      invariant Received(s) == arrivals + Received(stream.Pending())
      decreases |stream.Pending()|
    {
      ghost var t := stream.Pending();
      var tag := stream.ReadExact(1);
      if tag.None? || tag.value[0] != TAG_TILE_RESP {
        break;
      }
      ParseResponseShrinks(t[1..]);
      var res := DecodeTileResp(stream);
      if res.Some? {
        ArrivedMore(arrivals, res.value);
        AppendOne(arrivals, res.value, Received(stream.Pending()));
        arrivals := arrivals + [res.value];
        results := results[res.value.id := res.value];
      }
    }
    assert arrivals + [] == arrivals;
  }

  lemma NoneArrived()
    ensures Arrived([]) == map[]
  {
  }

  lemma AppendOne(a: seq<TileResult>, r: TileResult, rest: seq<TileResult>)
    ensures a + ([r] + rest) == a + [r] + rest
  {
  }

  lemma ParseResponseShrinks(s: seq<byte>)
    ensures ParseResponse(s).Done? ==> |ParseResponse(s).rest| < |s|
  {
  }

  /** Sizes the 32-bit fields of a response can carry. */
  predicate Carried(r: TileResult) { r.elemCount < TWO_32 && |r.output| < TWO_32 }

  /** Responses sent one after another are received one by one, in order, with nothing left over. */
  lemma {:induction false} ResponsesReceived(rs: seq<TileResult>)
    requires forall i :: 0 <= i < |rs| ==> Carried(rs[i])
    ensures Received(Responses(rs)) == rs
  {
    hide ParseResponse, EncodeResponse;
    if rs == [] {
      assert Responses(rs) == [];
    } else {
      ResponsesReceived(rs[1..]);
      ResponseRoundTrip(rs[0], Responses(rs[1..]));
      FirstResponseByte(rs[0], Responses(rs[1..]));
      assert rs == [rs[0]] + rs[1..];
    }
  }

  lemma FirstResponseByte(r: TileResult, rest: seq<byte>)
    ensures EncodeResponse(r) + rest != [] && (EncodeResponse(r) + rest)[0] == TAG_TILE_RESP
  {
  }
}
