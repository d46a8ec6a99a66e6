/** The fused integer kernel over whole buffers (fuser.rs, compile_packed_kernel and store_result). */
module PackedKernel {
  import opened Words
  import opened DataTypes
  import opened Expr
  import opened BitOps
  import opened BitBuffer
  import opened PackedAccess
  import opened TwosComplement
  import opened DoubleInt
  import opened IntKernel

  /** The bits a result leaves in its output field. */
  function ResultBits(r: OpResult, bits: nat): (piece: seq<bool>)
    ensures |piece| == Low(bits)
  {
    BitsOf(Value(r), Low(bits))
  }

  lemma BitsOfWide(lo: u64, hi: u64, n: nat)
    ensures BitsOf(Wide(lo, hi), 64 + n) == BitsOf(lo, 64) + BitsOf(hi, n)
  {
    hide BitsOf, Pow2;
    Pow2Words();
    BitsOfSplit(Wide(lo, hi), 64, n);
    DivUnique(Wide(lo, hi), TWO_64, hi, lo);
    ModCongruent(Wide(lo, hi), TWO_64);
    BitsOfMod(Wide(lo, hi), lo, 64);
  }

  lemma SpliceTwice(bits: seq<bool>, p: nat, a: seq<bool>, b: seq<bool>)
    requires p + |a| + |b| <= |bits|
    ensures Splice(Splice(bits, p, a), p + |a|, b) == Splice(bits, p, a + b)
  {
  }

  method StoreResult(out: array<byte>, r: OpResult, position: nat, bits: nat)
    requires position + bits <= 8 * out.Length && (ByteWise(bits) ==> position % 8 == 0)
    requires r.Int64? <==> bits <= 64
    modifies out
    ensures Bits(out[..]) == Splice(Bits(old(out[..])), position, ResultBits(r, bits))
  {
    hide Bits, BitsOf, Splice;
    if bits == 0 {
      StoreU64(out, position, 0, 0, r.v);
      SpliceNothing(Bits(out[..]), position, ResultBits(r, 0));
    } else if bits <= 64 {
      SpanInside(position, bits, 8 * out.Length, 0);
      StoreU64(out, position, bits, 0, r.v);
    } else {
      SpanInside(position, bits, 8 * out.Length, 0);
      SpanInside(position, bits, 8 * out.Length, 1);
      ghost var before := Bits(out[..]);
      StoreU64(out, position, bits, 0, r.lo);
      StoreU64(out, position, bits, 1, r.hi);
      SpliceTwice(before, position, BitsOf(r.lo, 64), BitsOf(r.hi, Span(bits, 1)));
      BitsOfWide(r.lo, r.hi, Span(bits, 1));
    }
  }

  lemma FieldRoom(i: nat, len: nat, bits: nat, total: nat)
    requires i < len && len * bits <= total
    ensures 0 <= i * bits <= i * bits + bits <= total && (i + 1) * bits == i * bits + bits
  {
    MulStep(i, len, bits);
  }

  // ------------------------------------------------------- fields side by side

  /** One piece per field, none larger than the field, all within `total` bits. */
  ghost predicate Fit(pieces: seq<seq<bool>>, bits: nat, total: nat) {
    |pieces| * bits <= total && forall i :: 0 <= i < |pieces| ==> |pieces[i]| <= bits
  }

  lemma FitPrefix(pieces: seq<seq<bool>>, bits: nat, total: nat, n: nat)
    requires Fit(pieces, bits, total) && n <= |pieces|
    ensures Fit(pieces[..n], bits, total)
  {
    if n < |pieces| {
      MulStep(n, |pieces|, bits);
    }
  }

  /** `before` with piece i written at the start of field i, in order. */
  ghost function Filled(before: seq<bool>, bits: nat, pieces: seq<seq<bool>>): (after: seq<bool>)
    requires Fit(pieces, bits, |before|)
    ensures |after| == |before|
    decreases |pieces|
  {
    if pieces == [] then before
    else
      var n := |pieces| - 1;
      FitPrefix(pieces, bits, |before|, n);
      FieldRoom(n, n + 1, bits, |before|);
      Splice(Filled(before, bits, pieces[..n]), n * bits, pieces[n])
  }

  lemma FilledMore(before: seq<bool>, bits: nat, pieces: seq<seq<bool>>, i: nat)
    requires Fit(pieces, bits, |before|) && i < |pieces|
    ensures Fit(pieces[..i], bits, |before|) && Fit(pieces[..i + 1], bits, |before|) && 0 <= i * bits <= i * bits + bits <= |before|
    ensures Filled(before, bits, pieces[..i + 1]) == Splice(Filled(before, bits, pieces[..i]), i * bits, pieces[i])
  {
    FitPrefix(pieces, bits, |before|, i);
    FitPrefix(pieces, bits, |before|, i + 1);
    FieldRoom(i, i + 1, bits, |before|);
    assert pieces[..i + 1][..i] == pieces[..i];
  }

  lemma BelowSplice(bits: seq<bool>, p: nat, piece: seq<bool>, a: nat, b: nat)
    requires p + |piece| <= |bits| && a <= b <= p
    ensures Splice(bits, p, piece)[a..b] == bits[a..b]
  {
  }

  lemma AtSplice(bits: seq<bool>, p: nat, piece: seq<bool>)
    requires p + |piece| <= |bits|
    ensures Splice(bits, p, piece)[p..p + |piece|] == piece
  {
  }

  /** Every field holds its own piece. */
  lemma {:induction false} FilledField(before: seq<bool>, bits: nat, pieces: seq<seq<bool>>, i: nat)
    requires Fit(pieces, bits, |before|) && i < |pieces|
    ensures i * bits + |pieces[i]| <= |before|
    ensures Filled(before, bits, pieces)[i * bits..i * bits + |pieces[i]|] == pieces[i]
    decreases |pieces|
  {
    hide Splice, Filled;
    var n := |pieces| - 1;
    FilledMore(before, bits, pieces, n);
    assert pieces[..n + 1] == pieces;
    var last := Filled(before, bits, pieces[..n]);
    if i < n {
      FilledField(before, bits, pieces[..n], i);
      assert pieces[..n][i] == pieces[i];
      MulStep(i, n, bits);
      BelowSplice(last, n * bits, pieces[n], i * bits, i * bits + |pieces[i]|);
    } else {
      AtSplice(last, n * bits, pieces[n]);
    }
  }

  /** Bit `q` lies in piece `i`. */
  ghost predicate InPiece(q: nat, pieces: seq<seq<bool>>, bits: nat, i: nat)
    requires i < |pieces|
  {
    i * bits <= q < i * bits + |pieces[i]|
  }

  /** All other bits are as they were. */
  lemma {:induction false} FilledFrame(before: seq<bool>, bits: nat, pieces: seq<seq<bool>>, q: nat)
    requires Fit(pieces, bits, |before|) && q < |before|
    requires forall i :: 0 <= i < |pieces| ==> !InPiece(q, pieces, bits, i)
    ensures Filled(before, bits, pieces)[q] == before[q]
    decreases |pieces|
  {
    if pieces != [] {
      var n := |pieces| - 1;
      FilledMore(before, bits, pieces, n);
      assert pieces[..n + 1] == pieces;
      forall i | 0 <= i < n
        ensures !InPiece(q, pieces[..n], bits, i)
      {
        assert !InPiece(q, pieces, bits, i);
      }
      FilledFrame(before, bits, pieces[..n], q);
      assert !InPiece(q, pieces, bits, n);
    }
  }

  // ------------------------------------------------------------------ the kernel

  ghost predicate KernelCall(e: Expr, bits: nat, len: nat) {
    IntTree(e) && forall i: nat :: i < len ==> AllReadable(e, i)
  }

  ghost function Output(e: Expr, bits: nat, len: nat, i: nat): (piece: seq<bool>)
    requires KernelCall(e, bits, len) && i < len
    ensures |piece| == Low(bits)
  {
    ResultBits(Meaning(e, bits, i), bits)
  }

  ghost function Outputs(e: Expr, bits: nat, len: nat): (pieces: seq<seq<bool>>)
    requires KernelCall(e, bits, len)
    ensures |pieces| == len && forall i :: 0 <= i < len ==> pieces[i] == Output(e, bits, len, i)
  {
    seq(len, i requires 0 <= i < len => Output(e, bits, len, i))
  }

  lemma OutputsFit(e: Expr, bits: nat, len: nat, total: nat)
    requires KernelCall(e, bits, len) && len * bits <= total
    ensures Fit(Outputs(e, bits, len), bits, total)
  {
  }

  /** One element: evaluate and store. */
  method Element(e: Expr, out: array<byte>, i: nat, bits: nat, ghost len: nat, ghost before: seq<bool>, ghost pieces: seq<seq<bool>>)
    requires KernelCall(e, bits, len) && i < len && pieces == Outputs(e, bits, len)
    requires |before| == 8 * out.Length && Fit(pieces, bits, |before|) && Fit(pieces[..i], bits, |before|)
    requires Bits(out[..]) == Filled(before, bits, pieces[..i])
    modifies out
    ensures Fit(pieces[..i + 1], bits, |before|) && Bits(out[..]) == Filled(before, bits, pieces[..i + 1])
  {
    hide Bits, Filled, Meaning, AllReadable, ResultBits, Splice, Fit, Outputs;
    FilledMore(before, bits, pieces, i);
    if ByteWise(bits) { FieldAligned(i, bits); }
    MeaningShape(e, bits, i);
    assert pieces[i] == ResultBits(Meaning(e, bits, i), bits);
    StoreResult(out, Meaning(e, bits, i), i * bits, bits);
  }

  /** The compiled kernel: eight elements a turn, then the rest one by one. */
  method RunKernel(e: Expr, out: array<byte>, len: nat)
    requires IntTree(e) && IntegerRoot(e) && KernelCall(e, OutBits(e), len) && len * OutBits(e) <= 8 * out.Length
    modifies out
    ensures Fit(Outputs(e, OutBits(e), len), OutBits(e), 8 * out.Length)
    ensures Bits(out[..]) == Filled(Bits(old(out[..])), OutBits(e), Outputs(e, OutBits(e), len))
  {
    hide Bits, Filled, KernelCall, OutBits, Fit, Outputs;
    var bits := OutBits(e);
    ghost var before := Bits(out[..]);
    ghost var pieces := Outputs(e, bits, len);
    OutputsFit(e, bits, len, |before|);
    FitPrefix(pieces, bits, |before|, 0);
    FilledNothing(before, bits, pieces[..0]);
    var i := 0;
    while i + 8 <= len
      invariant 0 <= i <= len && Fit(pieces[..i], bits, |before|)
      invariant Bits(out[..]) == Filled(before, bits, pieces[..i])
    {
      var offset := 0;
      while offset < 8
        invariant 0 <= offset <= 8 && Fit(pieces[..i + offset], bits, |before|)
        invariant Bits(out[..]) == Filled(before, bits, pieces[..i + offset])
      {
        Element(e, out, i + offset, bits, len, before, pieces);
        offset := offset + 1;
      }
      i := i + 8;
    }
    while i < len
      invariant 0 <= i <= len && Fit(pieces[..i], bits, |before|)
      invariant Bits(out[..]) == Filled(before, bits, pieces[..i])
    {
      Element(e, out, i, bits, len, before, pieces);
      i := i + 1;
    }
    assert pieces[..len] == pieces;
  }

  lemma FilledNothing(before: seq<bool>, bits: nat, pieces: seq<seq<bool>>)
    requires pieces == [] && Fit(pieces, bits, |before|)
    ensures Filled(before, bits, pieces) == before
  {
  }

  /** One output is the exact value reduced to the width. */
  lemma OutputRight(e: Expr, bits: nat, len: nat, i: nat)
    requires KernelCall(e, bits, len) && i < len && OperandsRight(e, bits, i)
    ensures Num(Output(e, bits, len, i)) == Exact(e, i) % Pow2(Low(bits))
  {
    hide Exact, Meaning, AllReadable, BitsOf, Num, Pow2, OperandsRight;
    MeaningRight(e, bits, i);
    var n := Value(Meaning(e, bits, i));
    CongruentLow(n, Exact(e, i), Modulus(bits), Low(bits));
    NumBitsOf(n, Low(bits));
  }

  /**
   * The kernel on whole buffers: field i of the output is the exact integer
   * value of the tree at element i, reduced modulo 2^bits (for outputs over 128
   * bits, its low 128 bits).
   */
  lemma KernelOutput(before: seq<bool>, e: Expr, bits: nat, len: nat, i: nat)
    requires IntTree(e) && bits == OutBits(e) && KernelCall(e, bits, len) && len * bits <= |before| && i < len
    requires OperandsRight(e, bits, i)
    ensures Fit(Outputs(e, bits, len), bits, |before|) && 0 <= i * bits <= i * bits + Low(bits) <= |before|
    ensures Num(Filled(before, bits, Outputs(e, bits, len))[i * bits..i * bits + Low(bits)]) == Exact(e, i) % Pow2(Low(bits))
  {
    hide Exact, Meaning, AllReadable, Filled, BitsOf, Num, Pow2, OutBits, Output, IntTree, Fit, OperandsRight;
    OutputsFit(e, bits, len, |before|);
    FieldRoom(i, len, bits, |before|);
    FilledField(before, bits, Outputs(e, bits, len), i);
    OutputRight(e, bits, len, i);
  }

  /** A value that fits the width is read back exactly. */
  lemma KernelExactWhenFits(before: seq<bool>, e: Expr, bits: nat, len: nat, i: nat)
    requires IntTree(e) && bits == OutBits(e) && KernelCall(e, bits, len) && len * bits <= |before| && i < len
    requires OperandsRight(e, bits, i)
    requires 1 <= bits <= 128 && 0 - Pow2(bits - 1) <= Exact(e, i) < Pow2(bits - 1)
    ensures Fit(Outputs(e, bits, len), bits, |before|) && 0 <= i * bits <= i * bits + bits <= |before|
    ensures Signed(Num(Filled(before, bits, Outputs(e, bits, len))[i * bits..i * bits + bits]), bits) == Exact(e, i)
  {
    hide Exact, Filled, Num, Pow2, OutBits, Outputs, IntTree, Fit, AllReadable, OperandsRight;
    KernelOutput(before, e, bits, len, i);
    SignedInverts(Exact(e, i), bits);
  }

  /** Up to 128 bits the fields cover the output completely; beyond, the bits of a field above 128 keep their value. */
  lemma KernelFrame(before: seq<bool>, e: Expr, len: nat, q: nat)
    requires IntTree(e) && KernelCall(e, OutBits(e), len) && len * OutBits(e) <= |before| && q < |before|
    requires OutBits(e) >= 1 && (q >= len * OutBits(e) || q % OutBits(e) >= 128)
    ensures Fit(Outputs(e, OutBits(e), len), OutBits(e), |before|)
    ensures Filled(before, OutBits(e), Outputs(e, OutBits(e), len))[q] == before[q]
  {
    hide Exact, Meaning, AllReadable, Filled, OutBits, Output;
    var bits := OutBits(e);
    var pieces := Outputs(e, bits, len);
    OutputsFit(e, bits, len, |before|);
    forall i | 0 <= i < |pieces|
      ensures !InPiece(q, pieces, bits, i)
    {
      MulStep(i, len, bits);
      if InPiece(q, pieces, bits, i) {
        DivUnique(q, bits, i, q - i * bits);
      }
    }
    FilledFrame(before, bits, pieces, q);
  }

  // ------------------------------------------------------- outputs over 128 bits

  /** A stretch of bits that ends in zeros. */
  lemma ZerosOnTop(bits: seq<bool>, start: nat, n: nat, m: nat)
    requires n <= m && start + m <= |bits| && forall p :: start + n <= p < start + m ==> !bits[p]
    ensures Num(bits[start..start + m]) == Num(bits[start..start + n])
  {
    hide Num, Pow2;
    var low, high := bits[start..start + n], bits[start + n..start + m];
    NumConcat(low, high);
    assert low + high == bits[start..start + m];
    NumZero(high);
    assert Pow2(n) * 0 == 0;
  }

  lemma AboveLow(before: seq<bool>, e: Expr, bits: nat, len: nat, i: nat, start: nat, p: nat)
    requires IntTree(e) && bits == OutBits(e) && KernelCall(e, bits, len) && len * bits <= |before|
    requires start == i * bits && start + Low(bits) <= p < start + bits && p < |before|
    ensures Fit(Outputs(e, bits, len), bits, |before|)
    ensures Filled(before, bits, Outputs(e, bits, len))[p] == before[p]
  {
    hide Filled, OutBits, IntTree, KernelCall, Fit, Outputs;
    DivUnique(p, bits, i, p - start);
    KernelFrame(before, e, len, p);
  }

  lemma LowAtMost(bits: nat)
    ensures Low(bits) <= bits
  {
  }

  lemma HighStaysZero(before: seq<bool>, e: Expr, bits: nat, len: nat, i: nat, start: nat)
    requires IntTree(e) && bits == OutBits(e) && KernelCall(e, bits, len) && len * bits <= |before|
    requires start == i * bits && start + bits <= |before| && forall q :: 0 <= q < |before| ==> !before[q]
    ensures Fit(Outputs(e, bits, len), bits, |before|)
    ensures forall p :: start + Low(bits) <= p < start + bits ==> !Filled(before, bits, Outputs(e, bits, len))[p]
  {
    hide Filled, OutBits, IntTree, KernelCall, Fit, Outputs, AllReadable;
    OutputsFit(e, bits, len, |before|);
    forall p | start + Low(bits) <= p < start + bits
      ensures !Filled(before, bits, Outputs(e, bits, len))[p]
    {
      AboveLow(before, e, bits, len, i, start, p);
    }
  }

  /** In zeroed memory, a whole field of the output is the low 128 bits of the value. */
  lemma WholeField(before: seq<bool>, e: Expr, bits: nat, len: nat, i: nat)
    requires IntTree(e) && bits == OutBits(e) >= 1 && KernelCall(e, bits, len) && len * bits <= |before| && i < len
    requires OperandsRight(e, bits, i) && forall q :: 0 <= q < |before| ==> !before[q]
    ensures Fit(Outputs(e, bits, len), bits, |before|) && 0 <= i * bits <= i * bits + bits <= |before|
    ensures Num(Filled(before, bits, Outputs(e, bits, len))[i * bits..i * bits + bits]) == Exact(e, i) % Pow2(Low(bits))
  {
    hide Exact, AllReadable, Filled, Num, Pow2, OutBits, IntTree, Fit, OperandsRight, Outputs, KernelCall, Low;
    assert Low(bits) <= bits by { LowAtMost(bits); }
    KernelOutput(before, e, bits, len, i);
    FieldRoom(i, len, bits, |before|);
    HighStaysZero(before, e, bits, len, i, i * bits);
    ZerosOnTop(Filled(before, bits, Outputs(e, bits, len)), i * bits, Low(bits), bits);
  }

  /** Reducing to the low 128 bits of a wider field loses nothing exactly when no bit above is set. */
  lemma LowLosesNothing(x: int, bits: nat)
    ensures x % Pow2(bits) >= 0
    ensures x % Pow2(Low(bits)) == x % Pow2(bits) <==> bits <= 128 || x % Pow2(bits) < Pow2(128)
  {
    hide Pow2;
    ModBounds(x, Pow2(bits));
    if bits > 128 {
      var y := x % Pow2(bits);
      ModCongruent(x, Pow2(bits));
      CongruentLow(y, x, bits, 128);
      ModBounds(y, Pow2(128));
      if y < Pow2(128) {
        DivUnique(y, Pow2(128), 0, y);
      }
    }
  }

  /**
   * Into zeroed memory the kernel writes the value modulo 2^bits exactly if the
   * output has at most 128 bits, or no bit above 128 is set in the value.
   */
  lemma WholeFieldRight(before: seq<bool>, e: Expr, bits: nat, len: nat, i: nat)
    requires IntTree(e) && bits == OutBits(e) >= 1 && KernelCall(e, bits, len) && len * bits <= |before| && i < len
    requires OperandsRight(e, bits, i) && forall q :: 0 <= q < |before| ==> !before[q]
    ensures Fit(Outputs(e, bits, len), bits, |before|) && 0 <= i * bits <= i * bits + bits <= |before|
    ensures Num(Filled(before, bits, Outputs(e, bits, len))[i * bits..i * bits + bits]) == Exact(e, i) % Pow2(bits)
       <==> bits <= 128 || Exact(e, i) % Pow2(bits) < Pow2(128)
  {
    hide Exact, AllReadable, Filled, Num, Pow2, OutBits, IntTree, Fit, OperandsRight, Outputs, Low;
    WholeField(before, e, bits, len, i);
    LowLosesNothing(Exact(e, i), bits);
  }

  /** The constant -1 at 129 bits: every negative value of that width loses its sign bit. */
  lemma WideGoesWrong(before: seq<bool>)
    requires |before| == 136 && forall q :: 0 <= q < |before| ==> !before[q]
    ensures var e := Const(IntConst(-1, 129));
            && IntTree(e) && OutBits(e) == 129 && KernelCall(e, 129, 1) && Exact(e, 0) == -1
            && Fit(Outputs(e, 129, 1), 129, |before|)
            && Num(Filled(before, 129, Outputs(e, 129, 1))[0..129]) == Pow2(128) - 1
            && -1 % Pow2(129) == Pow2(129) - 1
  {
    hide Filled, Num, Pow2, Outputs, Fit, Nearest, BitLength;
    var e := Const(IntConst(-1, 129));
    MinusOne();
    WholeField(before, e, 129, 1, 0);
    assert 0 * 129 == 0 && 0 * 129 + 129 == 129;
    Pow2Monotone(0, 128);
    Pow2Monotone(0, 129);
    DivUnique(-1, Pow2(128), -1, Pow2(128) - 1);
    DivUnique(-1, Pow2(129), -1, Pow2(129) - 1);
  }

  lemma MinusOne()
    ensures ThroughDouble(-1) == -1
  {
    ConstantExact(-1);
  }
}
