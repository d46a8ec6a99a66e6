/** From a flat index to a bit position (fuser.rs, emit_compute_bit_offset). */
module BitOffset {
  import opened Words
  import opened BitOps
  import opened Views

  /** What the instructions of the dimension loop add up, when `inner` elements remain inside and `rem` is the remainder. */
  function Walk(rem: nat, inner: nat, shape: seq<nat>, strides: seq<nat>): nat
    requires |shape| == |strides|
    decreases |shape|
  {
    if shape == [] then 0
    else
      var inside := inner / Max(shape[0], 1);
      if inside > 1 then
        DivNat(rem, inside);
        rem / inside * strides[0] + Walk(rem % inside, inside, shape[1..], strides[1..])
      else
        DivNat(inner, Max(shape[0], 1));
        rem * strides[0] + Walk(rem, inside, shape[1..], strides[1..])
  }

  /** The emitted position of flat index `i`. */
  function EmittedOffset(v: View, i: nat): nat
    requires v.Valid()
  {
    if |v.shape| == 1 then v.offset + i * v.strides[0]
    else v.offset + Walk(i, Product(v.shape), v.shape, v.strides)
  }

  method ComputeBitOffset(i: nat, shape: seq<nat>, strides: seq<nat>, base: nat) returns (total: nat)
    requires |shape| == |strides|
    ensures total == EmittedOffset(View(shape, strides, base), i)
  {
    hide Walk, Product;
    var rem: nat := i;
    total := base;
    var rank := |shape|;
    if rank == 1 {
      total := total + rem * strides[0];
      return;
    }
    var inner: nat := Elements(shape);
    assert shape[0..] == shape && strides[0..] == strides;
    for dim := 0 to rank
      invariant total + Walk(rem, inner, shape[dim..], strides[dim..]) == base + Walk(i, Product(shape), shape, strides)
    {
      WalkUnfolds(rem, inner, shape[dim..], strides[dim..]);
      assert shape[dim..][1..] == shape[dim + 1..] && strides[dim..][1..] == strides[dim + 1..];
      DivNat(inner, Max(shape[dim], 1));
      inner := inner / Max(shape[dim], 1);
      if inner > 1 {
        DivNat(rem, inner);
        var coord := rem / inner;
        rem := rem % inner;
        if strides[dim] > 0 {
          total := total + coord * strides[dim];
        }
      } else if strides[dim] > 0 {
        total := total + rem * strides[dim];
      }
    }
    WalkNothing(rem, inner, shape[rank..], strides[rank..]);
  }

  lemma WalkUnfolds(rem: nat, inner: nat, shape: seq<nat>, strides: seq<nat>)
    requires |shape| == |strides| > 0
    ensures var inside := inner / Max(shape[0], 1);
            && inside >= 0
            && Walk(rem, inner, shape, strides) ==
               if inside > 1 then rem / inside * strides[0] + Walk(rem % inside, inside, shape[1..], strides[1..])
               else rem * strides[0] + Walk(rem, inside, shape[1..], strides[1..])
  {
    DivNat(inner, Max(shape[0], 1));
  }

  lemma WalkNothing(rem: nat, inner: nat, shape: seq<nat>, strides: seq<nat>)
    requires shape == [] && strides == []
    ensures Walk(rem, inner, shape, strides) == 0
  {
  }

  /** The product of the sizes, as the source's first loop accumulates it. */
  method Elements(shape: seq<nat>) returns (n: nat)
    ensures n == Product(shape)
  {
    n := 1;
    assert shape[0..] == shape;
    for d := 0 to |shape|
      invariant n * Product(shape[d..]) == Product(shape)
    {
      assert shape[d..][1..] == shape[d + 1..];
      Associate(n, shape[d], Product(shape[d + 1..]));
      n := n * shape[d];
    }
  }

  lemma Associate(a: nat, b: nat, c: nat)
    ensures a * (b * c) == a * b * c
  {
  }

  function Sum(s: seq<nat>): nat { if s == [] then 0 else s[0] + Sum(s[1..]) }

  /**
   * The remainder is not cleared once a single element remains inside, so each
   * dimension after the last one of size above 1 adds it again.
   */
  function Excess(i: nat, shape: seq<nat>, strides: seq<nat>): nat
    requires |shape| == |strides| && forall d :: 0 <= d < |shape| ==> shape[d] >= 1
  {
    if shape == [] then 0
    else if Product(shape[1..]) > 1 then
      Excess(i % Product(shape[1..]), shape[1..], strides[1..])
    else
      i * Sum(strides[1..])
  }

  ghost predicate NoEmptyDim(shape: seq<nat>) { forall d :: 0 <= d < |shape| ==> shape[d] >= 1 }

  lemma {:induction false} WalkInUnitDims(rem: nat, shape: seq<nat>, strides: seq<nat>)
    requires |shape| == |strides| && NoEmptyDim(shape) && Product(shape) == 1
    ensures Walk(rem, 1, shape, strides) == rem * Sum(strides)
    ensures forall d :: 0 <= d < |shape| ==> shape[d] == 1
  {
    if shape != [] {
      ProductPositive(shape[1..]);
      UnitFactors(shape[0], Product(shape[1..]));
      WalkInUnitDims(rem, shape[1..], strides[1..]);
      assert rem * (strides[0] + Sum(strides[1..])) == rem * strides[0] + rem * Sum(strides[1..]);
    }
  }

  lemma UnitFactors(a: nat, b: nat)
    requires a * b == 1
    ensures a == 1 && b == 1
  {
    if a >= 2 && b >= 1 {
      MulStep(1, a, b);
    } else if b >= 2 && a >= 1 {
      MulStep(1, b, a);
    }
  }

  lemma {:induction false} DotOfZeros(shape: seq<nat>, strides: seq<nat>)
    requires |shape| == |strides| && forall d :: 0 <= d < |shape| ==> shape[d] == 1
    ensures NoEmptyDim(shape) && Dot(Unflatten(shape, 0), strides) == 0
  {
    if shape != [] {
      DotOfZeros(shape[1..], strides[1..]);
      ProductPositive(shape[1..]);
      DivUnique(0, Product(shape[1..]), 0, 0);
      UnflattenUnfolds(shape, 0, strides);
    }
  }

  lemma UnflattenUnfolds(shape: seq<nat>, i: nat, strides: seq<nat>)
    requires |shape| == |strides| > 0 && NoEmptyDim(shape)
    ensures Product(shape[1..]) >= 1
    ensures Dot(Unflatten(shape, i), strides)
         == i / Product(shape[1..]) * strides[0] + Dot(Unflatten(shape[1..], i % Product(shape[1..])), strides[1..])
  {
    ProductPositive(shape[1..]);
    var p := Product(shape[1..]);
    assert Unflatten(shape, i)[1..] == Unflatten(shape[1..], i % p);
  }

  lemma {:induction false} WalkIsDot(i: nat, shape: seq<nat>, strides: seq<nat>)
    requires |shape| == |strides| && NoEmptyDim(shape) && i < Product(shape)
    ensures Walk(i, Product(shape), shape, strides) == Dot(Unflatten(shape, i), strides) + Excess(i, shape, strides)
  {
    if shape != [] {
      UnflattenUnfolds(shape, i, strides);
      var p := Product(shape[1..]);
      DivUnique(Product(shape), shape[0], p, 0);
      if p > 1 {
        WalkIsDot(i % p, shape[1..], strides[1..]);
      } else {
        WalkInUnitDims(i, shape[1..], strides[1..]);
        DotOfZeros(shape[1..], strides[1..]);
        DivUnique(i, 1, i, 0);
      }
    }
  }

  /** The strides of the dimensions after the last one of size above 1. */
  function TrailingStrides(shape: seq<nat>, strides: seq<nat>): seq<nat>
    requires |shape| == |strides|
  {
    if shape == [] then [] else if Product(shape[1..]) > 1 then TrailingStrides(shape[1..], strides[1..]) else strides[1..]
  }

  predicate AllZero(s: seq<nat>) { forall k :: 0 <= k < |s| ==> s[k] == 0 }

  lemma {:induction false} SumZero(s: seq<nat>)
    ensures Sum(s) == 0 <==> AllZero(s)
  {
    if s != [] {
      SumZero(s[1..]);
      if AllZero(s) {
        assert s[0] == 0 && forall k :: 0 <= k < |s[1..]| ==> s[1..][k] == s[k + 1];
      } else if AllZero(s[1..]) {
        var k :| 0 <= k < |s| && s[k] != 0;
        assert k > 0 ==> s[1..][k - 1] == s[k];
      }
    }
  }

  lemma {:induction false} ExcessZero(i: nat, shape: seq<nat>, strides: seq<nat>)
    requires |shape| == |strides| && NoEmptyDim(shape) && AllZero(TrailingStrides(shape, strides))
    ensures Excess(i, shape, strides) == 0
  {
    if shape != [] {
      var p := Product(shape[1..]);
      if p > 1 {
        DivNat(i % p, 1);
        ExcessZero(i % p, shape[1..], strides[1..]);
      } else {
        SumZero(strides[1..]);
        assert i * 0 == 0;
      }
    }
  }

  lemma {:induction false} ExcessOfOne(shape: seq<nat>, strides: seq<nat>)
    requires |shape| == |strides| && NoEmptyDim(shape) && Product(shape) > 1 && Excess(1, shape, strides) == 0
    ensures AllZero(TrailingStrides(shape, strides))
  {
    var p := Product(shape[1..]);
    if p > 1 {
      DivUnique(1, p, 0, 1);
      ExcessOfOne(shape[1..], strides[1..]);
    } else {
      SumZero(strides[1..]);
    }
  }

  /** Every flat index is sent to the address of its coordinates. */
  ghost predicate OffsetsRight(v: View)
    requires v.Valid() && NoEmptyDim(v.shape)
  {
    forall i: nat :: i < Product(v.shape) ==> EmittedOffset(v, i) == Address(v, Unflatten(v.shape, i))
  }

  /**
   * The emitted arithmetic is right on all elements exactly when the view has
   * one dimension, or one element, or its trailing dimensions of size 1 all
   * have stride 0.
   */
  lemma OffsetExact(v: View)
    requires v.Valid() && NoEmptyDim(v.shape)
    ensures OffsetsRight(v) <==> |v.shape| == 1 || Product(v.shape) == 1 || AllZero(TrailingStrides(v.shape, v.strides))
  {
    ProductPositive(v.shape);
    var good := |v.shape| == 1 || Product(v.shape) == 1 || AllZero(TrailingStrides(v.shape, v.strides));
    if good {
      forall i: nat | i < Product(v.shape)
        ensures EmittedOffset(v, i) == Address(v, Unflatten(v.shape, i))
      {
        OffsetRightAt(v, i);
      }
    }
    if OffsetsRight(v) && Product(v.shape) > 1 {
      assert EmittedOffset(v, 1) == Address(v, Unflatten(v.shape, 1));
      WalkIsDot(1, v.shape, v.strides);
      if |v.shape| != 1 {
        ExcessOfOne(v.shape, v.strides);
      }
    }
  }

  lemma OffsetRightAt(v: View, i: nat)
    requires v.Valid() && NoEmptyDim(v.shape) && i < Product(v.shape)
    requires |v.shape| == 1 || Product(v.shape) == 1 || AllZero(TrailingStrides(v.shape, v.strides))
    ensures EmittedOffset(v, i) == Address(v, Unflatten(v.shape, i))
  {
    if |v.shape| == 1 {
      UnflattenUnfolds(v.shape, i, v.strides);
      DivUnique(i, 1, i, 0);
    } else {
      WalkIsDot(i, v.shape, v.strides);
      if AllZero(TrailingStrides(v.shape, v.strides)) {
        ExcessZero(i, v.shape, v.strides);
      } else {
        ExcessOfFirst(v.shape, v.strides);
      }
    }
  }

  lemma {:induction false} ExcessOfFirst(shape: seq<nat>, strides: seq<nat>)
    requires |shape| == |strides| && NoEmptyDim(shape)
    ensures Excess(0, shape, strides) == 0
  {
    if shape != [] && Product(shape[1..]) > 1 {
      ExcessOfFirst(shape[1..], strides[1..]);
    }
  }

  /** If the last dimension is not of size 1 there is no trailing dimension to go wrong. */
  lemma {:induction false} LastNotOne(shape: seq<nat>, strides: seq<nat>)
    requires |shape| == |strides| > 0 && NoEmptyDim(shape) && shape[|shape| - 1] > 1
    ensures TrailingStrides(shape, strides) == []
  {
    if |shape| > 1 {
      LastNotOne(shape[1..], strides[1..]);
      ProductAtLeast(shape[1..]);
    }
  }

  lemma {:induction false} ProductAtLeast(shape: seq<nat>)
    requires |shape| > 0 && NoEmptyDim(shape)
    ensures Product(shape) >= shape[|shape| - 1]
  {
    if |shape| == 1 {
      assert shape[0] * Product(shape[1..]) == shape[0];
    } else {
      ProductAtLeast(shape[1..]);
      ProductPositive(shape[1..]);
      assert (shape[0] - 1) * Product(shape[1..]) >= 0;
    }
  }

  /** A row-major matrix of one column: each element is fetched from twice its position. */
  lemma ColumnGoesWrong(bits: nat)
    requires bits >= 1
    ensures var v := View([3, 1], RowMajor([3, 1], bits), 0);
            EmittedOffset(v, 1) == 2 * bits && Address(v, Unflatten(v.shape, 1)) == bits
  {
    var v := View([3, 1], RowMajor([3, 1], bits), 0);
    assert [3, 1][1..] == [1] && [1][1..] == [];
    assert Product([]) == 1 && Product([1]) == 1 && Product([3, 1]) == 3;
    assert RowMajor([1], bits) == [bits * 1] + RowMajor([], bits);
    assert v.strides == [bits, bits];
    assert v.strides[1..] == [bits] && [bits][1..] == [];
    WalkIsDot(1, v.shape, v.strides);
    assert Sum([bits]) == bits;
    FlatUnflatten(v.shape, 1);
    RowMajorDot(v.shape, bits, Unflatten(v.shape, 1));
  }
}
