/** Strided views: transposing and slicing without copying (array.rs, lib.rs). */
module Views {
  import opened BitOps

  /** Sizes and bit strides per dimension, and the bit position of coordinate zero. */
  datatype View = View(shape: seq<nat>, strides: seq<nat>, offset: nat)
  {
    predicate Valid() { |shape| == |strides| }
  }

  function Product(shape: seq<nat>): nat { if shape == [] then 1 else shape[0] * Product(shape[1..]) }

  function Dot(coords: seq<nat>, strides: seq<nat>): nat
    requires |coords| == |strides|
  {
    if coords == [] then 0 else coords[0] * strides[0] + Dot(coords[1..], strides[1..])
  }

  ghost predicate InShape(coords: seq<nat>, shape: seq<nat>) {
    |coords| == |shape| && forall d :: 0 <= d < |shape| ==> coords[d] < shape[d]
  }

  /** The bit position of the element at `coords`. */
  function Address(v: View, coords: seq<nat>): nat
    requires v.Valid() && |coords| == |v.shape|
  {
    v.offset + Dot(coords, v.strides)
  }

  // ------------------------------------------------------------- transposing

  function Reversed<T>(s: seq<T>): (r: seq<T>)
    ensures |r| == |s|
  {
    if s == [] then [] else Reversed(s[1..]) + [s[0]]
  }

  function Transpose(v: View): View { View(Reversed(v.shape), Reversed(v.strides), v.offset) }

  lemma {:induction false} ReversedAt<T>(s: seq<T>, k: nat)
    requires k < |s|
    ensures Reversed(s)[k] == s[|s| - 1 - k]
  {
    if k < |s| - 1 {
      ReversedAt(s[1..], k);
    }
  }

  lemma {:induction false} ReversedTwice<T>(s: seq<T>)
    ensures Reversed(Reversed(s)) == s
  {
    forall k | 0 <= k < |s|
      ensures Reversed(Reversed(s))[k] == s[k]
    {
      ReversedAt(Reversed(s), k);
      ReversedAt(s, |s| - 1 - k);
    }
  }

  lemma {:induction false} DotConcat(a: seq<nat>, b: seq<nat>, s: seq<nat>, t: seq<nat>)
    requires |a| == |s| && |b| == |t|
    ensures Dot(a + b, s + t) == Dot(a, s) + Dot(b, t)
  {
    if a == [] {
      assert a + b == b && s + t == t;
    } else {
      assert (a + b)[1..] == a[1..] + b && (s + t)[1..] == s[1..] + t;
      DotConcat(a[1..], b, s[1..], t);
    }
  }

  lemma {:induction false} DotReversed(coords: seq<nat>, strides: seq<nat>)
    requires |coords| == |strides|
    ensures Dot(Reversed(coords), Reversed(strides)) == Dot(coords, strides)
  {
    if coords != [] {
      DotReversed(coords[1..], strides[1..]);
      DotConcat(Reversed(coords[1..]), [coords[0]], Reversed(strides[1..]), [strides[0]]);
    }
  }

  // ----------------------------------------------------------------- slicing

  datatype Range = Range(start: nat, stop: nat, step: nat)

  /** min(stop, dim) saturating_sub start */
  function SpanOf(r: Range, dim: nat): nat {
    var stop := if r.stop < dim then r.stop else dim;
    if stop > r.start then stop - r.start else 0
  }

  /** How many elements a range picks. */
  function Picked(r: Range, dim: nat): nat
    requires r.step >= 1
  {
    if SpanOf(r, dim) > 0 then (SpanOf(r, dim) + r.step - 1) / r.step else 0
  }

  /** The picked elements are those whose index stays below both the stop and the size. */
  lemma PickedExactly(r: Range, dim: nat, k: nat)
    requires r.step >= 1
    ensures k < Picked(r, dim) <==> r.start + k * r.step < r.stop && r.start + k * r.step < dim
  {
    var span, step := SpanOf(r, dim), r.step;
    MulNat(k, step);
    if span > 0 {
      var n := (span + step - 1) / step;
      assert span + step - 1 == step * n + (span + step - 1) % step;
      if k < n {
        LeTimes(step, k + 1, n);
        assert step * (k + 1) == k * step + step;
      } else {
        LeTimes(step, n, k);
        assert step * k == k * step;
      }
    }
  }

  predicate Sliceable(v: View, ranges: seq<Range>) {
    v.Valid() && |ranges| <= |v.shape| && forall d :: 0 <= d < |ranges| ==> ranges[d].step >= 1
  }

  function SliceShape(shape: seq<nat>, ranges: seq<Range>): (r: seq<nat>)
    requires |ranges| <= |shape| && forall d :: 0 <= d < |ranges| ==> ranges[d].step >= 1
    ensures |r| == |shape|
  {
    seq(|shape|, d requires 0 <= d < |shape| => if d < |ranges| then Picked(ranges[d], shape[d]) else shape[d])
  }

  function SliceStrides(shape: seq<nat>, strides: seq<nat>, ranges: seq<Range>): (r: seq<nat>)
    requires |ranges| <= |shape| == |strides|
    ensures |r| == |shape|
  {
    seq(|shape|, d requires 0 <= d < |shape| =>
      if d < |ranges| && SpanOf(ranges[d], shape[d]) > 0 then strides[d] * ranges[d].step else strides[d])
  }

  /** What slicing adds to the offset: the starts of the ranges that pick anything. */
  function Skipped(shape: seq<nat>, strides: seq<nat>, ranges: seq<Range>): nat
    requires |ranges| <= |shape| == |strides|
    decreases |ranges|
  {
    if ranges == [] then 0
    else
      var last := |ranges| - 1;
      Skipped(shape, strides, ranges[..last])
      + if SpanOf(ranges[last], shape[last]) > 0 then ranges[last].start * strides[last] else 0
  }

  function Slice(v: View, ranges: seq<Range>): (r: View)
    requires Sliceable(v, ranges)
    ensures r.Valid()
  {
    View(SliceShape(v.shape, ranges), SliceStrides(v.shape, v.strides, ranges), v.offset + Skipped(v.shape, v.strides, ranges))
  }

  /** Ranges that take everything: from the start, to the end or beyond, in steps of 1. */
  predicate TakesAll(v: View, ranges: seq<Range>) {
    |ranges| <= |v.shape| && forall d :: 0 <= d < |ranges| ==> ranges[d].start == 0 && ranges[d].stop >= v.shape[d] && ranges[d].step == 1
  }

  /** Slicing by them is possible and changes nothing. */
  lemma {:induction false} SliceOfAll(v: View, ranges: seq<Range>)
    requires v.Valid() && TakesAll(v, ranges)
    ensures Sliceable(v, ranges) && Slice(v, ranges) == v
    decreases |ranges|
  {
    if ranges != [] {
      SliceOfAll(v, ranges[..|ranges| - 1]);
    }
    assert SliceShape(v.shape, ranges) == v.shape;
    assert SliceStrides(v.shape, v.strides, ranges) == v.strides;
  }

  /** The source's loop over the ranges, then over the remaining dimensions. */
  method SliceAndDice(v: View, ranges: seq<Range>) returns (r: View)
    requires Sliceable(v, ranges)
    ensures r == Slice(v, ranges)
  {
    var shape, strides, offset := [], [], v.offset;
    var d := 0;
    while d < |ranges|
      invariant 0 <= d <= |ranges|
      invariant shape == SliceShape(v.shape, ranges)[..d]
      invariant strides == SliceStrides(v.shape, v.strides, ranges)[..d]
      invariant offset == v.offset + Skipped(v.shape, v.strides, ranges[..d])
    {
      var range := ranges[d];
      assert ranges[..d + 1][..d] == ranges[..d];
      var span := SpanOf(range, v.shape[d]);
      if span > 0 {
        shape := shape + [(span + range.step - 1) / range.step];
        strides := strides + [v.strides[d] * range.step];
        offset := offset + range.start * v.strides[d];
      } else {
        shape := shape + [0];
        strides := strides + [v.strides[d]];
      }
      d := d + 1;
    }
    assert ranges[..d] == ranges;
    while d < |v.shape|
      invariant |ranges| <= d <= |v.shape|
      invariant shape == SliceShape(v.shape, ranges)[..d]
      invariant strides == SliceStrides(v.shape, v.strides, ranges)[..d]
    {
      shape := shape + [v.shape[d]];
      strides := strides + [v.strides[d]];
      d := d + 1;
    }
    r := View(shape, strides, offset);
  }

  /** Where a coordinate of the slice lies in the original. */
  function SliceIndex(ranges: seq<Range>, coords: seq<nat>): (r: seq<nat>)
    ensures |r| == |coords|
  {
    seq(|coords|, d requires 0 <= d < |coords| =>
      if d < |ranges| then ranges[d].start + coords[d] * ranges[d].step else coords[d])
  }

  lemma PickedInside(r: Range, dim: nat, c: nat)
    requires r.step >= 1 && c < Picked(r, dim)
    ensures SpanOf(r, dim) > 0 && r.start + c * r.step < dim
  {
    var span := SpanOf(r, dim);
    var n := (span + r.step - 1) / r.step;
    assert n * r.step <= span + r.step - 1;
    MulStep(c, n, r.step);
  }

  lemma SliceInShape(v: View, ranges: seq<Range>, coords: seq<nat>)
    requires Sliceable(v, ranges) && InShape(coords, Slice(v, ranges).shape)
    ensures InShape(SliceIndex(ranges, coords), v.shape)
    ensures forall d :: 0 <= d < |ranges| ==> SpanOf(ranges[d], v.shape[d]) > 0
  {
    forall d | 0 <= d < |v.shape|
      ensures SliceIndex(ranges, coords)[d] < v.shape[d] && (d < |ranges| ==> SpanOf(ranges[d], v.shape[d]) > 0)
    {
      if d < |ranges| {
        PickedInside(ranges[d], v.shape[d], coords[d]);
      }
    }
  }

  /** The first `n` dimensions contribute the same, and the skipped starts. */
  lemma {:induction false} SliceDot(v: View, ranges: seq<Range>, coords: seq<nat>, n: nat)
    requires Sliceable(v, ranges) && |coords| == |v.shape| && n <= |v.shape|
    requires forall d :: 0 <= d < |ranges| ==> SpanOf(ranges[d], v.shape[d]) > 0
    ensures Dot(SliceIndex(ranges, coords)[..n], v.strides[..n])
         == Dot(coords[..n], SliceStrides(v.shape, v.strides, ranges)[..n])
            + Skipped(v.shape, v.strides, ranges[..if n < |ranges| then n else |ranges|])
  {
    var index, strides := SliceIndex(ranges, coords), SliceStrides(v.shape, v.strides, ranges);
    if n > 0 {
      var k := n - 1;
      SliceDot(v, ranges, coords, k);
      LastTerm(index, v.strides, k);
      LastTerm(coords, strides, k);
      if k < |ranges| {
        var r := ranges[k];
        assert ranges[..n][..k] == ranges[..k];
        Distribute(r.start, coords[k], r.step, v.strides[k]);
      } else {
        assert ranges[..|ranges|] == ranges;
      }
    }
  }

  lemma Distribute(a: nat, c: nat, step: nat, stride: nat)
    ensures (a + c * step) * stride == a * stride + c * (stride * step)
  {
    assert (a + c * step) * stride == a * stride + c * step * stride;
  }

  lemma LastTerm(coords: seq<nat>, strides: seq<nat>, k: nat)
    requires |coords| == |strides| && k < |coords|
    ensures Dot(coords[..k + 1], strides[..k + 1]) == Dot(coords[..k], strides[..k]) + coords[k] * strides[k]
  {
    assert coords[..k + 1] == coords[..k] + [coords[k]];
    assert strides[..k + 1] == strides[..k] + [strides[k]];
    DotConcat(coords[..k], [coords[k]], strides[..k], [strides[k]]);
    DotOne(coords[k], strides[k]);
  }

  lemma DotOne(c: nat, s: nat)
    ensures Dot([c], [s]) == c * s
  {
    assert Dot([c][1..], [s][1..]) == 0;
  }

  /** A slice addresses the picked elements of the original. */
  lemma SliceAddress(v: View, ranges: seq<Range>, coords: seq<nat>)
    requires Sliceable(v, ranges) && InShape(coords, Slice(v, ranges).shape)
    ensures InShape(SliceIndex(ranges, coords), v.shape)
    ensures Address(Slice(v, ranges), coords) == Address(v, SliceIndex(ranges, coords))
  {
    SliceInShape(v, ranges, coords);
    var n := |v.shape|;
    SliceDot(v, ranges, coords, n);
    assert ranges[..|ranges|] == ranges && coords[..n] == coords && v.strides[..n] == v.strides;
    assert SliceIndex(ranges, coords)[..n] == SliceIndex(ranges, coords);
    assert SliceStrides(v.shape, v.strides, ranges)[..n] == SliceStrides(v.shape, v.strides, ranges);
  }

  lemma TransposeAddress(v: View, coords: seq<nat>)
    requires v.Valid() && InShape(coords, Transpose(v).shape)
    ensures InShape(Reversed(coords), v.shape)
    ensures Address(Transpose(v), coords) == Address(v, Reversed(coords))
  {
    forall d | 0 <= d < |coords|
      ensures Reversed(coords)[d] < v.shape[d]
    {
      ReversedAt(coords, d);
      ReversedAt(v.shape, |coords| - 1 - d);
    }
    DotReversed(Reversed(coords), v.strides);
    ReversedTwice(coords);
  }

  // ------------------------------------------------------ sequences of views

  datatype ViewOp = Flip | Cut(ranges: seq<Range>)

  /** One operation can be applied: the source's own panics excluded. */
  predicate CanApply(v: View, op: ViewOp) { v.Valid() && (op.Cut? ==> Sliceable(v, op.ranges)) }

  function Apply(v: View, op: ViewOp): (r: View)
    requires CanApply(v, op)
    ensures r.Valid()
  {
    match op
    case Flip => Transpose(v)
    case Cut(ranges) => Slice(v, ranges)
  }

  predicate CanApplyAll(v: View, ops: seq<ViewOp>)
    decreases |ops|
  {
    v.Valid() && (ops == [] || (CanApply(v, ops[0]) && CanApplyAll(Apply(v, ops[0]), ops[1..])))
  }

  function ApplyAll(v: View, ops: seq<ViewOp>): (r: View)
    requires CanApplyAll(v, ops)
    ensures r.Valid()
    decreases |ops|
  {
    if ops == [] then v else ApplyAll(Apply(v, ops[0]), ops[1..])
  }

  function IndexOf(op: ViewOp, coords: seq<nat>): seq<nat> {
    match op
    case Flip => Reversed(coords)
    case Cut(ranges) => SliceIndex(ranges, coords)
  }

  /** The element of the original that a coordinate of the final view stands for. */
  function IndexAll(ops: seq<ViewOp>, coords: seq<nat>): seq<nat> {
    if ops == [] then coords else IndexOf(ops[0], IndexAll(ops[1..], coords))
  }

  /** After any sequence of transposes and slices, a view addresses the original element at the composed index. */
  lemma {:induction false} ViewsCompose(v: View, ops: seq<ViewOp>, coords: seq<nat>)
    requires CanApplyAll(v, ops) && InShape(coords, ApplyAll(v, ops).shape)
    ensures InShape(IndexAll(ops, coords), v.shape)
    ensures Address(ApplyAll(v, ops), coords) == Address(v, IndexAll(ops, coords))
    decreases |ops|
  {
    if ops != [] {
      var inner := IndexAll(ops[1..], coords);
      ViewsCompose(Apply(v, ops[0]), ops[1..], coords);
      match ops[0]
      case Flip => TransposeAddress(v, inner);
      case Cut(ranges) => SliceAddress(v, ranges, inner);
    }
  }

  lemma IndexInjective(v: View, op: ViewOp, a: seq<nat>, b: seq<nat>)
    requires CanApply(v, op) && |a| == |b| == |v.shape| && IndexOf(op, a) == IndexOf(op, b)
    ensures a == b
  {
    match op
    case Flip =>
      ReversedTwice(a);
      ReversedTwice(b);
    case Cut(ranges) =>
      forall d | 0 <= d < |a|
        ensures a[d] == b[d]
      {
        assert SliceIndex(ranges, a)[d] == SliceIndex(ranges, b)[d];
        if d < |ranges| {
          SameProduct(a[d], b[d], ranges[d].step);
        }
      }
  }

  lemma SameProduct(x: nat, y: nat, m: nat)
    requires m >= 1 && x * m == y * m
    ensures x == y
  {
    if x < y {
      MulStep(x, y, m);
    } else if y < x {
      MulStep(y, x, m);
    }
  }

  lemma {:induction false} ViewsInjective(v: View, ops: seq<ViewOp>, a: seq<nat>, b: seq<nat>)
    requires CanApplyAll(v, ops) && InShape(a, ApplyAll(v, ops).shape) && InShape(b, ApplyAll(v, ops).shape)
    requires IndexAll(ops, a) == IndexAll(ops, b)
    ensures a == b
    decreases |ops|
  {
    if ops != [] {
      var w := Apply(v, ops[0]);
      ViewsCompose(w, ops[1..], a);
      ViewsCompose(w, ops[1..], b);
      IndexInjective(v, ops[0], IndexAll(ops[1..], a), IndexAll(ops[1..], b));
      ViewsInjective(w, ops[1..], a, b);
    }
  }

  // -------------------------------------------------------------- row-major arrays

  function RowMajor(shape: seq<nat>, bits: nat): (strides: seq<nat>)
    ensures |strides| == |shape|
  {
    if shape == [] then [] else [bits * Product(shape[1..])] + RowMajor(shape[1..], bits)
  }

  method RowMajorBitStrides(shape: seq<nat>, bits: nat) returns (strides: array<nat>)
    ensures fresh(strides) && strides[..] == RowMajor(shape, bits)
  {
    strides := new nat[|shape|](_ => bits);
    if |shape| == 0 {
      return;
    }
    var i := |shape| - 1;
    RowMajorTail(shape, bits, i);
    while i > 0
      invariant 0 <= i < |shape| == strides.Length
      invariant forall d :: 0 <= d < i ==> strides[d] == bits
      invariant strides[i..] == RowMajor(shape[i..], bits)
    {
      i := i - 1;
      RowMajorStep(shape, bits, i);
      ghost var rest := strides[i + 1..];
      strides[i] := strides[i + 1] * shape[i + 1];
      assert strides[i + 1..] == rest;
      assert strides[i..] == [strides[i]] + strides[i + 1..];
    }
    assert shape[0..] == shape && strides[0..] == strides[..];
  }

  lemma RowMajorTail(shape: seq<nat>, bits: nat, i: nat)
    requires |shape| > 0 && i == |shape| - 1
    ensures RowMajor(shape[i..], bits) == [bits]
  {
    assert shape[i..][1..] == [];
    assert bits * Product(shape[i..][1..]) == bits;
  }

  lemma RowMajorStep(shape: seq<nat>, bits: nat, i: nat)
    requires i + 1 < |shape|
    ensures RowMajor(shape[i + 1..], bits)[0] * shape[i + 1] == bits * Product(shape[i + 1..])
    ensures RowMajor(shape[i..], bits) == [bits * Product(shape[i + 1..])] + RowMajor(shape[i + 1..], bits)
  {
    assert shape[i..][1..] == shape[i + 1..];
    var rest := shape[i + 1..];
    var p := Product(rest[1..]);
    assert bits * p * rest[0] == bits * (rest[0] * p);
  }

  /** The position of `coords` in row-major order. */
  function Flat(shape: seq<nat>, coords: seq<nat>): nat
    requires |coords| == |shape|
  {
    if shape == [] then 0 else coords[0] * Product(shape[1..]) + Flat(shape[1..], coords[1..])
  }

  lemma {:induction false} RowMajorDot(shape: seq<nat>, bits: nat, coords: seq<nat>)
    requires |coords| == |shape|
    ensures Dot(coords, RowMajor(shape, bits)) == bits * Flat(shape, coords)
  {
    if shape != [] {
      RowMajorDot(shape[1..], bits, coords[1..]);
      hide Product;
      RowMajorUnfolds(shape, bits, coords);
      Scaled(coords[0], bits, Product(shape[1..]), Flat(shape[1..], coords[1..]));
    }
  }

  lemma RowMajorUnfolds(shape: seq<nat>, bits: nat, coords: seq<nat>)
    requires |coords| == |shape| > 0
    ensures Dot(coords, RowMajor(shape, bits)) == coords[0] * (bits * Product(shape[1..])) + Dot(coords[1..], RowMajor(shape[1..], bits))
  {
    assert RowMajor(shape, bits)[1..] == RowMajor(shape[1..], bits);
  }

  lemma Scaled(c: nat, bits: nat, p: nat, f: nat)
    ensures c * (bits * p) + bits * f == bits * (c * p + f)
  {
    assert c * (bits * p) == bits * (c * p);
  }

  lemma {:induction false} FlatBound(shape: seq<nat>, coords: seq<nat>)
    requires InShape(coords, shape)
    ensures Flat(shape, coords) < Product(shape)
  {
    if shape != [] {
      FlatBound(shape[1..], coords[1..]);
      var p := Product(shape[1..]);
      MulStep(coords[0], shape[0], p);
    }
  }

  /** The coordinates at a row-major position. */
  function Unflatten(shape: seq<nat>, i: nat): (coords: seq<nat>)
    requires forall d :: 0 <= d < |shape| ==> shape[d] >= 1
    ensures |coords| == |shape|
  {
    if shape == [] then []
    else
      ProductPositive(shape[1..]);
      var p := Product(shape[1..]);
      DivNat(i, p);
      [i / p] + Unflatten(shape[1..], i % p)
  }

  lemma {:induction false} ProductPositive(shape: seq<nat>)
    requires forall d :: 0 <= d < |shape| ==> shape[d] >= 1
    ensures Product(shape) >= 1
  {
    if shape != [] {
      ProductPositive(shape[1..]);
      assert shape[0] * Product(shape[1..]) >= Product(shape[1..]) by {
        assert (shape[0] - 1) * Product(shape[1..]) >= 0;
      }
    }
  }

  lemma {:induction false} UnflattenFlat(shape: seq<nat>, coords: seq<nat>)
    requires InShape(coords, shape)
    ensures forall d :: 0 <= d < |shape| ==> shape[d] >= 1
    ensures Unflatten(shape, Flat(shape, coords)) == coords
  {
    if shape != [] {
      UnflattenFlat(shape[1..], coords[1..]);
      FlatBound(shape[1..], coords[1..]);
      var p, f := Product(shape[1..]), Flat(shape[1..], coords[1..]);
      DivUnique(coords[0] * p + f, p, coords[0], f);
      assert coords == [coords[0]] + coords[1..];
    }
  }

  lemma {:induction false} FlatUnflatten(shape: seq<nat>, i: nat)
    requires (forall d :: 0 <= d < |shape| ==> shape[d] >= 1) && i < Product(shape)
    ensures Flat(shape, Unflatten(shape, i)) == i && InShape(Unflatten(shape, i), shape)
  {
    if shape != [] {
      ProductPositive(shape[1..]);
      var p := Product(shape[1..]);
      FlatUnflatten(shape[1..], i % p);
      assert i == i / p * p + i % p;
      QuotientBelow(i, shape[0], p);
    }
  }

  /** A view of a row-major array: every address is that of a whole element of the array. */
  lemma ViewElement(shape: seq<nat>, bits: nat, ops: seq<ViewOp>, a: seq<nat>)
    requires CanApplyAll(View(shape, RowMajor(shape, bits), 0), ops)
    requires InShape(a, ApplyAll(View(shape, RowMajor(shape, bits), 0), ops).shape)
    ensures var w := ApplyAll(View(shape, RowMajor(shape, bits), 0), ops);
            && InShape(IndexAll(ops, a), shape)
            && Address(w, a) == bits * Flat(shape, IndexAll(ops, a))
            && Address(w, a) + bits <= bits * Product(shape)
  {
    hide ApplyAll, IndexAll, CanApplyAll, Product, Dot, RowMajor, Flat;
    ViewsCompose(View(shape, RowMajor(shape, bits), 0), ops, a);
    var x := IndexAll(ops, a);
    RowMajorDot(shape, bits, x);
    FlatBound(shape, x);
    WholeElement(bits, Flat(shape, x), Product(shape));
  }

  /** No two coordinates of the view share an address. */
  lemma ViewElementsDiffer(shape: seq<nat>, bits: nat, ops: seq<ViewOp>, a: seq<nat>, b: seq<nat>)
    requires bits >= 1 && CanApplyAll(View(shape, RowMajor(shape, bits), 0), ops)
    requires InShape(a, ApplyAll(View(shape, RowMajor(shape, bits), 0), ops).shape)
    requires InShape(b, ApplyAll(View(shape, RowMajor(shape, bits), 0), ops).shape)
    requires Address(ApplyAll(View(shape, RowMajor(shape, bits), 0), ops), a)
          == Address(ApplyAll(View(shape, RowMajor(shape, bits), 0), ops), b)
    ensures a == b
  {
    hide ApplyAll, IndexAll, CanApplyAll, Product, Dot, RowMajor, Flat;
    ViewElement(shape, bits, ops, a);
    ViewElement(shape, bits, ops, b);
    var x, y := IndexAll(ops, a), IndexAll(ops, b);
    assert Flat(shape, x) * bits == Flat(shape, y) * bits;
    SameProduct(Flat(shape, x), Flat(shape, y), bits);
    UnflattenFlat(shape, x);
    UnflattenFlat(shape, y);
    ViewsInjective(View(shape, RowMajor(shape, bits), 0), ops, a, b);
  }

  lemma WholeElement(bits: nat, i: nat, n: nat)
    requires i < n
    ensures bits * i + bits <= bits * n
  {
    MulStep(i, n, bits);
    assert i * bits == bits * i && n * bits == bits * n;
  }
}
