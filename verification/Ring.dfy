/**
 * The single-producer single-consumer byte ring (network.rs, RingBuffer), with
 * counters that wrap around at 64 bits.
 */
module Ring {
  import opened Words

  const RING_CAP := 0x40_0000

  /** u64::wrapping_sub and u64::wrapping_add. */
  function WrappingSub(a: u64, b: u64): u64 { (a - b) % TWO_64 }

  function WrappingAdd(a: u64, b: nat): u64 { (a + b) % TWO_64 }

  /** Where byte `i` of a transfer of `len` bytes lies that starts at counter `c`: one piece, or two across the end. */
  function Slot(c: u64, len: nat, i: nat): (slot: nat)
    requires i < len <= RING_CAP
    ensures slot < RING_CAP
  {
    var start := c % RING_CAP;
    if start + len <= RING_CAP then start + i
    else if i < RING_CAP - start then start + i
    else i - (RING_CAP - start)
  }

  /** The slot `i` places after counter value `c`. */
  function Place(c: nat, i: nat): (slot: nat)
    ensures slot < RING_CAP
  {
    (c + i) % RING_CAP
  }

  /** The two pieces put byte `i` at the counter's value plus i, modulo the capacity, also past the wrap of the counter. */
  lemma SlotIsPlace(count: nat, c: u64, len: nat, i: nat)
    requires i < len <= RING_CAP && c == count % TWO_64
    ensures Slot(c, len, i) == Place(count, i)
  {
    assert c % RING_CAP == count % RING_CAP;
  }

  /** Counters that differ by less than the capacity have different slots. */
  lemma PlacesDiffer(a: nat, b: nat)
    requires a < b < a + RING_CAP
    ensures Place(a, 0) != Place(b, 0)
  {
  }

  /** Only the sum matters, and only modulo 2^64. */
  lemma PlaceShifts(c: nat, i: nat, d: nat, j: nat)
    requires (c + i) % TWO_64 == (d + j) % TWO_64
    ensures Place(c, i) == Place(d, j)
  {
    assert (c + i) % RING_CAP == (c + i) % TWO_64 % RING_CAP;
    assert (d + j) % RING_CAP == (d + j) % TWO_64 % RING_CAP;
  }

  lemma CountersDiffer(pushed: nat, drained: nat)
    requires drained <= pushed <= drained + RING_CAP
    ensures WrappingSub(pushed % TWO_64, drained % TWO_64) == pushed - drained
  {
  }

  lemma CounterAdvances(count: nat, n: nat)
    ensures WrappingAdd(count % TWO_64, n) == (count + n) % TWO_64
  {
    WholeTurns(count / TWO_64, count % TWO_64 + n);
  }

  lemma WholeTurns(q: nat, s: nat)
    ensures (q * TWO_64 + s) % TWO_64 == s % TWO_64
  {
    var t, r := s / TWO_64, s % TWO_64;
    assert q * TWO_64 + s == (q + t) * TWO_64 + r;
  }

  /** The `n` bytes from counter `c` on. */
  function Window(data: seq<byte>, c: u64, n: nat): (s: seq<byte>)
    requires |data| == RING_CAP
    ensures |s| == n && forall i :: 0 <= i < n ==> s[i] == data[Place(c, i)]
  {
    seq(n, i requires 0 <= i < n => data[Place(c, i)])
  }

  /** `after` is `before` with `bytes` written from counter `c` on. */
  ghost predicate Written(before: seq<byte>, after: seq<byte>, c: u64, bytes: seq<byte>) {
    && |before| == |after| == RING_CAP && |bytes| <= RING_CAP
    && (forall i :: 0 <= i < |bytes| ==> after[Slot(c, |bytes|, i)] == bytes[i])
    && (forall k :: 0 <= k < RING_CAP && (forall i :: 0 <= i < |bytes| ==> Slot(c, |bytes|, i) != k) ==> after[k] == before[k])
  }

  /** What one or two copies do. */
  function Spliced(before: seq<byte>, c: u64, bytes: seq<byte>): (after: seq<byte>)
    requires |before| == RING_CAP && |bytes| <= RING_CAP
    ensures |after| == RING_CAP
  {
    var start := c % RING_CAP;
    var first := RING_CAP - start;
    if |bytes| <= first then before[..start] + bytes + before[start + |bytes|..]
    else bytes[first..] + before[|bytes| - first..start] + bytes[..first]
  }

  lemma SplicedIsWritten(before: seq<byte>, c: u64, bytes: seq<byte>)
    requires |before| == RING_CAP && |bytes| <= RING_CAP
    ensures Written(before, Spliced(before, c, bytes), c, bytes)
  {
    var start := c % RING_CAP;
    var after := Spliced(before, c, bytes);
    forall k | 0 <= k < RING_CAP && forall i :: 0 <= i < |bytes| ==> Slot(c, |bytes|, i) != k
      ensures after[k] == before[k]
    {
      var i := if k >= start then k - start else k + (RING_CAP - start);
      assert i < |bytes| ==> Slot(c, |bytes|, i) == k;
    }
  }

  lemma WindowGrows(before: seq<byte>, after: seq<byte>, tail: u64, head: u64, bytes: seq<byte>)
    requires WrappingSub(head, tail) + |bytes| <= RING_CAP && Written(before, after, head, bytes)
    ensures Window(after, tail, WrappingSub(head, tail) + |bytes|) == Window(before, tail, WrappingSub(head, tail)) + bytes
  {
    hide Place, Slot, Window;
    var used := WrappingSub(head, tail);
    forall i | 0 <= i < used + |bytes|
      ensures Window(after, tail, used + |bytes|)[i] == (Window(before, tail, used) + bytes)[i]
    {
      if i < used {
        Untouched(before, after, tail, head, bytes, i);
      } else {
        Touched(before, after, tail, head, bytes, i - used);
      }
    }
  }

  lemma Untouched(before: seq<byte>, after: seq<byte>, tail: u64, head: u64, bytes: seq<byte>, i: nat)
    requires i < WrappingSub(head, tail) && WrappingSub(head, tail) + |bytes| <= RING_CAP && Written(before, after, head, bytes)
    ensures after[Place(tail, i)] == before[Place(tail, i)]
  {
    hide Place, Slot;
    var count := tail + WrappingSub(head, tail);
    forall j | 0 <= j < |bytes|
      ensures Slot(head, |bytes|, j) != Place(tail, i)
    {
      SlotIsPlace(count, head, |bytes|, j);
      PlacesDiffer(tail + i, count + j);
      PlaceShifts(tail, i, tail + i, 0);
      PlaceShifts(count, j, count + j, 0);
    }
  }

  lemma Touched(before: seq<byte>, after: seq<byte>, tail: u64, head: u64, bytes: seq<byte>, j: nat)
    requires j < |bytes| && Written(before, after, head, bytes)
    ensures after[Place(tail, WrappingSub(head, tail) + j)] == bytes[j]
  {
    hide Place, Slot;
    var count := tail + WrappingSub(head, tail);
    SlotIsPlace(count, head, |bytes|, j);
    PlaceShifts(tail, WrappingSub(head, tail) + j, count, j);
    assert after[Slot(head, |bytes|, j)] == bytes[j];
  }

  lemma HeadAdvances(tail: u64, head: u64, n: nat)
    requires WrappingSub(head, tail) + n <= RING_CAP
    ensures WrappingSub(WrappingAdd(head, n), tail) == WrappingSub(head, tail) + n
  {
  }

  lemma TailAdvances(tail: u64, head: u64, n: nat)
    requires n <= WrappingSub(head, tail)
    ensures WrappingSub(head, WrappingAdd(tail, n)) == WrappingSub(head, tail) - n
  {
    var d := if head >= tail then head - tail else head + TWO_64 - tail;
    assert WrappingSub(head, tail) == d;
    var t := if tail + n < TWO_64 then tail + n else tail + n - TWO_64;
    assert WrappingAdd(tail, n) == t;
  }

  lemma WindowShrinks(data: seq<byte>, tail: u64, head: u64, n: nat)
    requires |data| == RING_CAP && n <= WrappingSub(head, tail)
    ensures Window(data, tail, WrappingSub(head, tail))
         == Window(data, tail, n) + Window(data, WrappingAdd(tail, n), WrappingSub(head, tail) - n)
  {
    hide Place, Window;
    var rest := Window(data, WrappingAdd(tail, n), WrappingSub(head, tail) - n);
    forall i | 0 <= i < |rest|
      ensures rest[i] == data[Place(tail, n + i)]
    {
      PlaceShifts(WrappingAdd(tail, n), i, tail, n + i);
    }
  }

  /** A window read in one piece or two. */
  lemma WindowPieces(data: seq<byte>, c: u64, n: nat)
    requires |data| == RING_CAP && n <= RING_CAP
    ensures var start := c % RING_CAP;
            Window(data, c, n) == if start + n <= RING_CAP then data[start..start + n]
                                  else data[start..] + data[..n - (RING_CAP - start)]
  {
    hide Place;
    forall i | 0 <= i < n
      ensures data[Place(c, i)] == data[Slot(c, n, i)]
    {
      SlotIsPlace(c, c, n, i);
    }
  }

  /** The ring as one thread sees it. */
  class RingBuffer {
    const data: array<byte>
    var head: u64
    var tail: u64

    ghost predicate Valid()
      reads this
    {
      data.Length == RING_CAP && WrappingSub(head, tail) <= RING_CAP
    }

    /** The bytes pushed and not yet drained, oldest first. */
    ghost function Contents(): (s: seq<byte>)
      reads this, data
      requires Valid()
      ensures |s| == WrappingSub(head, tail)
    {
      Window(data[..], tail, WrappingSub(head, tail))
    }

    constructor ()
      ensures Valid() && fresh(data) && Contents() == []
    {
      data := new byte[RING_CAP](_ => 0);
      head, tail := 0, 0;
    }

    method Push(bytes: seq<byte>) returns (ok: bool)
      requires Valid()
      modifies this`head, data
      ensures Valid()
      ensures ok <==> |old(Contents())| + |bytes| <= RING_CAP
      ensures Contents() == if ok then old(Contents()) + bytes else old(Contents())
    {
      hide Window, Place;
      var used := WrappingSub(head, tail);
      if used + |bytes| > RING_CAP {
        return false;
      }
      ghost var before := data[..];
      var start := head % RING_CAP;
      var end := start + |bytes|;
      if end <= RING_CAP {
        forall i | 0 <= i < |bytes| {
          data[start + i] := bytes[i];
        }
      } else {
        var first := RING_CAP - start;
        forall i | 0 <= i < first {
          data[start + i] := bytes[i];
        }
        forall i | 0 <= i < |bytes| - first {
          data[i] := bytes[first + i];
        }
      }
      assert data[..] == Spliced(before, head, bytes);
      SplicedIsWritten(before, head, bytes);
      WindowGrows(before, data[..], tail, head, bytes);
      HeadAdvances(tail, head, |bytes|);
      head := WrappingAdd(head, |bytes|);
      ok := true;
    }

    method Drain(max: nat) returns (out: seq<byte>)
      requires Valid()
      modifies this`tail
      ensures Valid()
      ensures |out| == if max < |old(Contents())| then max else |old(Contents())|
      ensures out + Contents() == old(Contents())
    {
      hide Window, Place, WrappingAdd;
      var available := WrappingSub(head, tail);
      var toRead := if max < available then max else available;
      if toRead == 0 {
        return [];
      }
      var start := tail % RING_CAP;
      var end := start + toRead;
      if end <= RING_CAP {
        out := data[start..start + toRead];
      } else {
        var first := RING_CAP - start;
        out := data[start..start + first] + data[..toRead - first];
      }
      WindowShrinks(data[..], tail, head, toRead);
      WindowPieces(data[..], tail, toRead);
      TailAdvances(tail, head, toRead);
      tail := WrappingAdd(tail, toRead);
    }
  }
}
