/** Broadcasting shapes and reading a broadcast array (array.rs). */
module Broadcast {
  import opened Words
  import opened BitOps
  import opened Views

  // ------------------------------------------------------------------ shapes

  /** The common size of two dimensions; None where the source panics. */
  function Dim(x: nat, y: nat): Option<nat> {
    if x == y then Some(x) else if x == 1 then Some(y) else if y == 1 then Some(x) else None
  }

  /** Size number `i` from the right, 1 beyond the left end. */
  function FromRight(shape: seq<nat>, i: nat): nat {
    if i < |shape| then shape[|shape| - 1 - i] else 1
  }

  function Rank(a: seq<nat>, b: seq<nat>): nat { if |a| > |b| then |a| else |b| }

  predicate Compatible(a: seq<nat>, b: seq<nat>) {
    forall i :: 0 <= i < Rank(a, b) ==> Dim(FromRight(a, i), FromRight(b, i)).Some?
  }

  function Common(a: seq<nat>, b: seq<nat>): (r: Option<seq<nat>>)
    ensures r.Some? <==> Compatible(a, b)
    ensures r.Some? ==> |r.value| == Rank(a, b)
  {
    if Compatible(a, b) then
      Some(seq(Rank(a, b), k requires 0 <= k < Rank(a, b) =>
        assert Dim(FromRight(a, Rank(a, b) - 1 - k), FromRight(b, Rank(a, b) - 1 - k)).Some?;
        Dim(FromRight(a, Rank(a, b) - 1 - k), FromRight(b, Rank(a, b) - 1 - k)).value))
    else None
  }

  /**
   * Aligned at the right, a common shape exists exactly if sizes facing each
   * other are equal or one of them is 1; it has the other size there, and the
   * sizes of the longer shape beyond the shorter one.
   */
  lemma CommonMeans(a: seq<nat>, b: seq<nat>)
    ensures Common(a, b).Some? <==>
      forall j :: 0 <= j < |a| && 0 <= j + |b| - |a| ==> var k := j + |b| - |a|; a[j] == b[k] || a[j] == 1 || b[k] == 1
    ensures Common(a, b).Some? ==> var r := Common(a, b).value;
      forall k :: 0 <= k < |r| ==> var i, j := k + |a| - |r|, k + |b| - |r|;
        r[k] == if j < 0 then a[i] else if i < 0 || a[i] == 1 then b[j] else a[i]
  {
    hide Common;
    if Compatible(a, b) {
      forall j | 0 <= j < |a| && 0 <= j + |b| - |a|
        ensures var k := j + |b| - |a|; a[j] == b[k] || a[j] == 1 || b[k] == 1
      {
        CommonAt(a, b, |a| - 1 - j);
      }
      var r := Common(a, b).value;
      forall k | 0 <= k < |r|
        ensures var i, j := k + |a| - |r|, k + |b| - |r|;
                r[k] == if j < 0 then a[i] else if i < 0 || a[i] == 1 then b[j] else a[i]
      {
        CommonAt(a, b, |r| - 1 - k);
      }
    } else {
      var i :| 0 <= i < Rank(a, b) && Dim(FromRight(a, i), FromRight(b, i)).None?;
      assert i < |a| && i < |b|;
      assert a[|a| - 1 - i] != 1;
    }
  }

  method BroadcastShape(a: seq<nat>, b: seq<nat>) returns (r: Option<seq<nat>>)
    ensures r == Common(a, b)
  {
    var rank := Rank(a, b);
    var out := new nat[rank](_ => 1);
    for i := 0 to rank
      invariant forall j :: 0 <= j < i ==> Dim(FromRight(a, j), FromRight(b, j)) == Some(out[rank - 1 - j])
    {
      var ai, bi := FromRight(a, i), FromRight(b, i);
      if Dim(ai, bi).None? {
        return None;
      }
      out[rank - 1 - i] := Dim(ai, bi).value;
    }
    forall k | 0 <= k < rank
      ensures out[k] == Common(a, b).value[k]
    {
      assert Dim(FromRight(a, rank - 1 - k), FromRight(b, rank - 1 - k)) == Some(out[rank - 1 - (rank - 1 - k)]);
    }
    assert Compatible(a, b);
    assert out[..] == Common(a, b).value;
    r := Some(out[..]);
  }

  /** The sizes of a common shape, from the right; beyond both operands they are 1. */
  lemma CommonAt(a: seq<nat>, b: seq<nat>, i: nat)
    requires Compatible(a, b)
    ensures Dim(FromRight(a, i), FromRight(b, i)) == Some(FromRight(Common(a, b).value, i))
  {
    var rank := Rank(a, b);
    if i < rank {
      var k := rank - 1 - i;
      assert FromRight(Common(a, b).value, i) == Common(a, b).value[k];
    }
  }

  /** A shape is determined by its length and its sizes from the right. */
  lemma SameShape(s: seq<nat>, t: seq<nat>)
    requires |s| == |t| && forall i :: 0 <= i < |s| ==> FromRight(s, i) == FromRight(t, i)
    ensures s == t
  {
    forall k | 0 <= k < |s|
      ensures s[k] == t[k]
    {
      assert FromRight(s, |s| - 1 - k) == FromRight(t, |s| - 1 - k);
    }
  }

  lemma CompatibleCommutes(a: seq<nat>, b: seq<nat>)
    requires Compatible(a, b)
    ensures Compatible(b, a)
  {
    forall i | 0 <= i < Rank(b, a)
      ensures Dim(FromRight(b, i), FromRight(a, i)).Some?
    {
      assert Dim(FromRight(a, i), FromRight(b, i)).Some?;
    }
  }

  lemma CommonCommutes(a: seq<nat>, b: seq<nat>)
    ensures Common(a, b) == Common(b, a)
  {
    hide Common, FromRight;
    if Compatible(a, b) {
      CompatibleCommutes(a, b);
      forall i | 0 <= i < Rank(a, b)
        ensures FromRight(Common(a, b).value, i) == FromRight(Common(b, a).value, i)
      {
        CommonAt(a, b, i);
        CommonAt(b, a, i);
      }
      SameShape(Common(a, b).value, Common(b, a).value);
    } else if Compatible(b, a) {
      CompatibleCommutes(b, a);
    }
  }

  /** Incompatible shapes stay so. */
  function CommonOpt(a: Option<seq<nat>>, b: Option<seq<nat>>): Option<seq<nat>> {
    if a.None? || b.None? then None else Common(a.value, b.value)
  }

  /** No dimension has two different sizes other than 1. */
  predicate Agree(x: nat, y: nat, z: nat) {
    (x == y || x == 1 || y == 1) && (x == z || x == 1 || z == 1) && (y == z || y == 1 || z == 1)
  }

  ghost predicate AllAgree(a: seq<nat>, b: seq<nat>, c: seq<nat>) {
    forall i: nat :: Agree(FromRight(a, i), FromRight(b, i), FromRight(c, i))
  }

  lemma AssociateOnce(a: seq<nat>, b: seq<nat>, c: seq<nat>)
    ensures CommonOpt(Common(a, b), Some(c)).Some? <==> AllAgree(a, b, c)
  {
    hide Common, FromRight;
    if CommonOpt(Common(a, b), Some(c)).Some? {
      forall i: nat
        ensures Agree(FromRight(a, i), FromRight(b, i), FromRight(c, i))
      {
        CommonAt(a, b, i);
        CommonAt(Common(a, b).value, c, i);
      }
    } else if AllAgree(a, b, c) {
      AgreeCombines(a, b, c);
    }
  }

  lemma AgreeCombines(a: seq<nat>, b: seq<nat>, c: seq<nat>)
    requires AllAgree(a, b, c)
    ensures Compatible(a, b) && Compatible(Common(a, b).value, c)
  {
    hide Common, FromRight;
    forall i | 0 <= i < Rank(a, b)
      ensures Dim(FromRight(a, i), FromRight(b, i)).Some?
    {
      assert Agree(FromRight(a, i), FromRight(b, i), FromRight(c, i));
    }
    var ab := Common(a, b).value;
    forall i | 0 <= i < Rank(ab, c)
      ensures Dim(FromRight(ab, i), FromRight(c, i)).Some?
    {
      assert Agree(FromRight(a, i), FromRight(b, i), FromRight(c, i));
      CommonAt(a, b, i);
    }
  }

  lemma AgreeRotates(a: seq<nat>, b: seq<nat>, c: seq<nat>)
    requires AllAgree(a, b, c)
    ensures AllAgree(b, c, a)
  {
    forall i: nat
      ensures Agree(FromRight(b, i), FromRight(c, i), FromRight(a, i))
    {
      assert Agree(FromRight(a, i), FromRight(b, i), FromRight(c, i));
    }
  }

  /** Broadcasting three shapes does not depend on which two are combined first. */
  lemma CommonAssociates(a: seq<nat>, b: seq<nat>, c: seq<nat>)
    ensures CommonOpt(Common(a, b), Some(c)) == CommonOpt(Some(a), Common(b, c))
  {
    hide Common, FromRight, Compatible, AllAgree;
    AssociateOnce(a, b, c);
    AssociateOnce(b, c, a);
    SwapOption(b, c, a);
    if AllAgree(a, b, c) {
      AgreeRotates(a, b, c);
      SameEitherWay(a, b, c, Common(a, b).value, Common(b, c).value);
    } else if AllAgree(b, c, a) {
      AgreeRotates(b, c, a);
      AgreeRotates(c, a, b);
    }
  }

  lemma SameEitherWay(a: seq<nat>, b: seq<nat>, c: seq<nat>, ab: seq<nat>, bc: seq<nat>)
    requires Compatible(a, b) && Compatible(b, c) && ab == Common(a, b).value && bc == Common(b, c).value
    requires Compatible(ab, c) && Compatible(a, bc)
    ensures Common(ab, c) == Common(a, bc)
  {
    hide Common, FromRight, Compatible;
    var s, t := Common(ab, c).value, Common(a, bc).value;
    forall i | 0 <= i < |s|
      ensures FromRight(s, i) == FromRight(t, i)
    {
      CommonAt(a, b, i);
      CommonAt(ab, c, i);
      CommonAt(b, c, i);
      CommonAt(a, bc, i);
    }
    SameShape(s, t);
  }

  lemma SwapOption(b: seq<nat>, c: seq<nat>, a: seq<nat>)
    ensures CommonOpt(Common(b, c), Some(a)) == CommonOpt(Some(a), Common(b, c))
  {
    if Common(b, c).Some? {
      CommonCommutes(Common(b, c).value, a);
    }
  }

  // --------------------------------------------------------------- broadcasting

  /** Ones on the left up to `rank` dimensions. */
  function Padded(shape: seq<nat>, rank: nat): (r: seq<nat>)
    requires |shape| <= rank
    ensures |r| == rank
  {
    seq(rank - |shape|, _ => 1) + shape
  }

  /** The checks of broadcast_to: no target dimension is missing, and each source size is the target's or 1. */
  predicate BroadcastsTo(src: seq<nat>, target: seq<nat>) {
    |src| <= |target| && forall d :: 0 <= d < |target| ==> Padded(src, |target|)[d] == target[d] || Padded(src, |target|)[d] == 1
  }

  /** Both operands can be broadcast to their common shape. */
  lemma CommonAccepts(a: seq<nat>, b: seq<nat>)
    requires Compatible(a, b)
    ensures BroadcastsTo(a, Common(a, b).value) && BroadcastsTo(b, Common(a, b).value)
  {
    var t := Common(a, b).value;
    forall d | 0 <= d < |t|
      ensures Padded(a, |t|)[d] == t[d] || Padded(a, |t|)[d] == 1
      ensures Padded(b, |t|)[d] == t[d] || Padded(b, |t|)[d] == 1
    {
      var i := |t| - 1 - d;
      CommonAt(a, b, i);
      assert FromRight(t, i) == t[d] && Padded(a, |t|)[d] == FromRight(a, i) && Padded(b, |t|)[d] == FromRight(b, i);
    }
  }

  /** Element strides, with those of size-1 axes set to 0. */
  function SourceStrides(src: seq<nat>): (strides: seq<nat>)
    ensures |strides| == |src|
  {
    seq(|src|, d requires 0 <= d < |src| => if src[d] == 1 then 0 else RowMajor(src, 1)[d])
  }

  /** The coordinates with size-1 axes set to 0. */
  function Collapsed(coords: seq<nat>, src: seq<nat>): (r: seq<nat>)
    requires |coords| == |src|
    ensures |r| == |src|
  {
    seq(|src|, d requires 0 <= d < |src| => if src[d] == 1 then 0 else coords[d])
  }

  /** The coordinate loop of broadcast_to, by dimensions. */
  function SourceIndex(flat: nat, target: seq<nat>, strides: seq<nat>): nat
    requires |target| == |strides|
  {
    if target == [] then 0
    else
      var stride := Max(Product(target[1..]), 1);
      DivNat(flat, stride);
      flat / stride * strides[0] + SourceIndex(flat % stride, target[1..], strides[1..])
  }

  method BroadcastIndex(flat: nat, target: seq<nat>, src: seq<nat>) returns (index: nat)
    requires |src| == |target|
    ensures index == SourceIndex(flat, target, SourceStrides(src))
  {
    hide SourceIndex, RowMajor, SourceStrides;
    var tgtStrides := RowMajor(target, 1);
    var srcStrides := SourceStrides(src);
    index := 0;
    var remaining: nat := flat;
    assert target[0..] == target && srcStrides[0..] == srcStrides;
    for dim := 0 to |target|
      invariant index + SourceIndex(remaining, target[dim..], srcStrides[dim..]) == SourceIndex(flat, target, srcStrides)
    {
      StrideAt(target, dim);
      IndexUnfolds(remaining, target, srcStrides, dim);
      var stride: nat := Max(tgtStrides[dim], 1);
      DivNat(remaining, stride);
      var coord := remaining / stride;
      remaining := remaining % stride;
      index := index + coord * srcStrides[dim];
    }
    IndexDone(remaining, target[|target|..], srcStrides[|target|..]);
  }

  lemma IndexDone(flat: nat, target: seq<nat>, strides: seq<nat>)
    requires target == [] && strides == []
    ensures SourceIndex(flat, target, strides) == 0
  {
  }

  lemma IndexUnfolds(flat: nat, target: seq<nat>, strides: seq<nat>, dim: nat)
    requires |target| == |strides| && dim < |target|
    ensures flat / Max(Product(target[dim + 1..]), 1) >= 0
    ensures SourceIndex(flat, target[dim..], strides[dim..])
         == flat / Max(Product(target[dim + 1..]), 1) * strides[dim]
            + SourceIndex(flat % Max(Product(target[dim + 1..]), 1), target[dim + 1..], strides[dim + 1..])
  {
    assert target[dim..][1..] == target[dim + 1..] && strides[dim..][1..] == strides[dim + 1..];
    DivNat(flat, Max(Product(target[dim + 1..]), 1));
  }

  lemma {:induction false} StrideAt(shape: seq<nat>, d: nat)
    requires d < |shape|
    ensures RowMajor(shape, 1)[d] == Product(shape[d + 1..])
  {
    if d == 0 {
      assert 1 * Product(shape[1..]) == Product(shape[1..]);
    } else {
      StrideAt(shape[1..], d - 1);
      assert shape[1..][d..] == shape[d + 1..];
    }
  }

  /** The loop adds up the coordinates of the target times the given strides. */
  lemma {:induction false} IndexIsDot(flat: nat, target: seq<nat>, strides: seq<nat>)
    requires |target| == |strides| && forall d :: 0 <= d < |target| ==> target[d] >= 1
    ensures SourceIndex(flat, target, strides) == Dot(Unflatten(target, flat), strides)
  {
    if target != [] {
      ProductPositive(target[1..]);
      var p := Product(target[1..]);
      DivNat(flat, p);
      IndexIsDot(flat % p, target[1..], strides[1..]);
      assert Unflatten(target, flat)[1..] == Unflatten(target[1..], flat % p);
    }
  }

  /** Zero strides on size-1 axes read the same element as zero coordinates there. */
  lemma {:induction false} CollapsedDot(coords: seq<nat>, src: seq<nat>)
    requires |coords| == |src|
    ensures Dot(coords, SourceStrides(src)) == Flat(src, Collapsed(coords, src))
  {
    if src != [] {
      CollapsedDot(coords[1..], src[1..]);
      assert RowMajor(src, 1)[1..] == RowMajor(src[1..], 1);
      assert SourceStrides(src)[1..] == SourceStrides(src[1..]);
      assert Collapsed(coords, src)[1..] == Collapsed(coords[1..], src[1..]);
      var p := Product(src[1..]);
      assert RowMajor(src, 1)[0] == 1 * p == p;
      if src[0] == 1 {
        assert coords[0] * 0 == 0 && 0 * p == 0;
      }
    }
  }

  /**
   * The index computed for an element of the target is that of its coordinates
   * with size-1 axes collapsed, and lies inside the source: clamping it to the
   * last element never changes it.
   */
  lemma BroadcastReads(flat: nat, target: seq<nat>, src: seq<nat>)
    requires BroadcastsTo(src, target) && flat < Product(target)
    ensures var p := Padded(src, |target|);
            && (forall d :: 0 <= d < |target| ==> target[d] >= 1)
            && SourceIndex(flat, target, SourceStrides(p)) == Flat(p, Collapsed(Unflatten(target, flat), p)) < Product(p) == Product(src)
  {
    var p := Padded(src, |target|);
    NoEmpty(target);
    IndexIsDot(flat, target, SourceStrides(p));
    var coords := Unflatten(target, flat);
    CollapsedDot(coords, p);
    FlatUnflatten(target, flat);
    forall d | 0 <= d < |p|
      ensures Collapsed(coords, p)[d] < p[d]
    {
      assert p[d] == target[d] || p[d] == 1;
    }
    FlatBound(p, Collapsed(coords, p));
    PaddedProduct(src, |target|);
  }

  lemma BothPositive(x: nat, y: nat)
    requires x * y > 0
    ensures x > 0 && y > 0
  {
  }

  lemma {:induction false} NoEmpty(shape: seq<nat>)
    requires Product(shape) > 0
    ensures forall d :: 0 <= d < |shape| ==> shape[d] >= 1
  {
    if shape != [] {
      BothPositive(shape[0], Product(shape[1..]));
      NoEmpty(shape[1..]);
      assert forall d :: 1 <= d < |shape| ==> shape[d] == shape[1..][d - 1];
    }
  }

  lemma {:induction false} PaddedProduct(shape: seq<nat>, rank: nat)
    requires |shape| <= rank
    ensures Product(Padded(shape, rank)) == Product(shape)
    decreases rank
  {
    if |shape| == rank {
      assert Padded(shape, rank) == shape;
    } else {
      PaddedProduct(shape, rank - 1);
      assert Padded(shape, rank)[1..] == Padded(shape, rank - 1);
    }
  }
}
