/**
 * Machine words as bounded integers, their little-endian byte strings, and the
 * signed readings of 32- and 64-bit words that the other modules share.
 */
module Words {
  const TWO_31 := 0x8000_0000
  const TWO_32 := 0x1_0000_0000
  const TWO_63 := 0x8000_0000_0000_0000
  const TWO_64 := 0x1_0000_0000_0000_0000

  type byte = b: int | 0 <= b < 256
  type u32 = w: int | 0 <= w < TWO_32
  type u64 = w: int | 0 <= w < TWO_64

  datatype Option<+T> = None | Some(value: T)

  /** The `len` low-order bytes of `v`, least significant first (`to_le_bytes`). */
  function LeBytes(v: nat, len: nat): (bs: seq<byte>)
    ensures |bs| == len
  {
    if len == 0 then [] else [v % 256] + LeBytes(v / 256, len - 1)
  }

  /** The number a little-endian byte string denotes (`from_le_bytes`). */
  function FromLe(bs: seq<byte>): nat {
    if bs == [] then 0 else bs[0] + 256 * FromLe(bs[1..])
  }

  function Pow256(n: nat): (p: nat)
    ensures p >= 1
  {
    if n == 0 then 1 else 256 * Pow256(n - 1)
  }

  lemma Pow256Words()
    ensures Pow256(4) == TWO_32 && Pow256(8) == TWO_64
  {
    assert Pow256(4) == 256 * 256 * 256 * 256;
    assert Pow256(8) == 256 * 256 * 256 * 256 * Pow256(4);
  }

  lemma {:induction false} FromLeBound(bs: seq<byte>)
    ensures FromLe(bs) < Pow256(|bs|)
  {
    if bs != [] {
      FromLeBound(bs[1..]);
    }
  }

  lemma {:induction false} LeRoundTrip(v: nat, len: nat)
    requires v < Pow256(len)
    ensures FromLe(LeBytes(v, len)) == v
  {
    if len > 0 {
      LeRoundTrip(v / 256, len - 1);
      assert LeBytes(v, len)[1..] == LeBytes(v / 256, len - 1);
    }
  }

  lemma {:induction false} FromLeRoundTrip(bs: seq<byte>)
    ensures LeBytes(FromLe(bs), |bs|) == bs
  {
    if bs != [] {
      FromLeRoundTrip(bs[1..]);
      var n := FromLe(bs);
      assert n % 256 == bs[0] && n / 256 == FromLe(bs[1..]);
      assert bs == [bs[0]] + bs[1..];
    }
  }

  function FromLe64(bs: seq<byte>): (v: u64)
    requires |bs| == 8
  {
    FromLeBound(bs); Pow256Words();
    FromLe(bs)
  }

  function FromLe32(bs: seq<byte>): (v: u32)
    requires |bs| == 4
  {
    FromLeBound(bs); Pow256Words();
    FromLe(bs)
  }

  lemma Le64(v: u64)
    ensures FromLe(LeBytes(v, 8)) == v
  {
    Pow256Words();
    LeRoundTrip(v, 8);
  }

  lemma Le32(v: u32)
    ensures FromLe(LeBytes(v, 4)) == v
  {
    Pow256Words();
    LeRoundTrip(v, 4);
  }

  /** Two's complement reading of a 32-bit and of a 64-bit word. */
  function Signed32(w: u32): int { if w < TWO_31 then w else w - TWO_32 }

  function Signed64(w: u64): int { if w < TWO_63 then w else w - TWO_64 }

  function Max(a: int, b: int): int { if a > b then a else b }

  function AbsInt(x: int): nat { if x < 0 then -x else x }
}
