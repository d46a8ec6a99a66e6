/** What the fused integer kernel computes for one element (fuser.rs, compile_arena_op). */
module IntKernel {
  import opened Words
  import opened DataTypes
  import opened Expr
  import opened BitOps
  import opened BitBuffer
  import opened PackedAccess
  import opened TwosComplement
  import opened Views
  import opened BitOffset
  import opened DoubleInt
  import opened KernelConstants

  // ---------------------------------------------------------------- the trees

  /** Integer types; the storage width of an element. */
  predicate IntegerType(t: DataType) { (t.Int? || t.ScalableInt?) && t.bits >= 1 }

  /** Integer variables and constants under additions, subtractions and multiplications. */
  predicate IntTree(e: Expr) {
    match e
    case Var(v) => IntegerType(v.dtype) && |v.shape| == |v.bitStrides|
    case Const(c) => KernelConstant(c)
    case Bin(op, l, r) => op != Div && IntTree(l) && IntTree(r)
    case DequantizeMatmul(_, _, _, _, _) => false
  }

  /** The type of the root, which decides that the kernel is one over integers. */
  predicate IntegerRoot(e: Expr) { e.DataType().Int? || e.DataType().ScalableInt? }

  /** The width of the output; scalable integers are widened to 64 bits. */
  function OutBits(e: Expr): nat
    requires IntTree(e)
  {
    match e.DataType()
    case Int(b) => b
    case _ => 64
  }

  function ViewOf(v: Variable): View { View(v.shape, v.bitStrides, v.bitOffset) }

  /** The bit position the kernel computes for element `i`. */
  function Position(v: Variable, i: nat): nat
    requires |v.shape| == |v.bitStrides|
  {
    EmittedOffset(ViewOf(v), i)
  }

  /** Element `i` lies in the buffer, and on a byte boundary if its width is read byte-wise. */
  predicate Readable(v: Variable, i: nat)
    requires IntegerType(v.dtype) && |v.shape| == |v.bitStrides|
  {
    && Position(v, i) + v.dtype.bits <= 8 * |v.data|
    && (ByteWise(v.dtype.bits) ==> Position(v, i) % 8 == 0)
  }

  predicate AllReadable(e: Expr, i: nat)
    requires IntTree(e)
  {
    match e
    case Var(v) => Readable(v, i)
    case Const(_) => true
    case Bin(_, l, r) => AllReadable(l, i) && AllReadable(r, i)
  }

  /** The kernel carries at most 128 bits. */
  function Low(bits: nat): nat { if bits <= 128 then bits else 128 }

  // ------------------------------------------------------------ exact arithmetic

  /** The stored bits of element `i`. */
  function Field(v: Variable, i: nat): nat
    requires IntegerType(v.dtype) && |v.shape| == |v.bitStrides| && Readable(v, i)
  {
    Num(Bits(v.data)[Position(v, i)..Position(v, i) + v.dtype.bits])
  }

  /** The exact integer value of the tree at element `i`; constants as the kernel receives them. */
  function Exact(e: Expr, i: nat): int
    requires IntTree(e) && AllReadable(e, i)
  {
    match e
    case Var(v) => Signed(Field(v, i), v.dtype.bits)
    case Const(c) => KernelInt(c)
    case Bin(op, l, r) =>
      (match op
       case Add => Exact(l, i) + Exact(r, i)
       case Sub => Exact(l, i) - Exact(r, i)
       case Mul => Exact(l, i) * Exact(r, i))
  }

  function ApplyExact(op: BinOp, a: int, b: int): int
    requires op != Div
  {
    match op
    case Add => a + b
    case Sub => a - b
    case Mul => a * b
  }

  // -------------------------------------------------------- the emitted operations

  datatype OpResult = Int64(v: u64) | Int128(lo: u64, hi: u64)

  /** What a load returns. */
  function LoadValue(data: seq<byte>, bitOffset: nat, width: nat, limb: nat): (v: u64)
    requires Inside(8 * |data|, bitOffset, width, limb)
  {
    LimbBound(Touched(Bits(data), bitOffset, width, limb));
    Num(Touched(Bits(data), bitOffset, width, limb))
  }

  const TWO_128: nat := TWO_64 * TWO_64

  /** Two limbs as one 128-bit number. */
  function Wide(lo: u64, hi: u64): nat { lo + TWO_64 * hi }

  /** One limb of a 128-bit number. */
  function LimbOf128(n: nat, limb: nat): (v: u64)
    requires n < TWO_128
  {
    DivNat(n, TWO_64);
    HighLimb(n);
    if limb == 0 then n % TWO_64 else n / TWO_64
  }

  lemma HighLimb(n: nat)
    requires n < TWO_128
    ensures n / TWO_64 < TWO_64
  {
    QuotientBelow(n, TWO_64, TWO_64);
  }

  /** helper_add_i128, helper_sub_i128 and helper_mul_i128 */
  function Helper128(op: BinOp, l0: u64, l1: u64, r0: u64, r1: u64, limb: nat): u64
    requires op != Div
  {
    ModBounds(ApplyExact(op, Wide(l0, l1), Wide(r0, r1)), TWO_128);
    LimbOf128(ApplyExact(op, Wide(l0, l1), Wide(r0, r1)) % TWO_128, limb)
  }

  /** The result of the instructions emitted for one node at element `i`. */
  function Meaning(e: Expr, bits: nat, i: nat): OpResult
    requires IntTree(e) && AllReadable(e, i)
  {
    match e
    case Var(v) => LoadMeaning(v, bits, i)
    case Const(c) =>
      var n := KernelInt(c);
      if bits <= 64 then Int64(n % TWO_64)
      else Int128(n % TWO_64, if n < 0 then TWO_64 - 1 else 0)
    case Bin(op, l, r) =>
      (match (Meaning(l, bits, i), Meaning(r, bits, i))
       case (Int64(a), Int64(b)) => Int64(ApplyExact(op, a, b) % TWO_64)
       case (Int128(l0, l1), Int128(r0, r1)) => Int128(Helper128(op, l0, l1, r0, r1, 0), Helper128(op, l0, l1, r0, r1, 1))
       case _ => Int64(0))
  }

  function LoadMeaning(v: Variable, bits: nat, i: nat): OpResult
    requires IntegerType(v.dtype) && |v.shape| == |v.bitStrides| && Readable(v, i)
  {
    var at, w := Position(v, i), v.dtype.bits;
    ReadInside(at, w, 8 * |v.data|);
    var low := LoadValue(v.data, at, w, 0);
    if bits <= 64 then
      Int64(if w < 64 then Sshr(Ishl(low, 64 - w), 64 - w) else low)
    else
      Int128(low, LoadValue(v.data, at, w, 1))
  }

  /** The two loads of a readable element stay inside the buffer, whatever its width. */
  lemma ReadInside(at: nat, w: nat, total: nat)
    requires w >= 1 && at + w <= total && (ByteWise(w) ==> at % 8 == 0)
    ensures Inside(total, at, w, 0) && Inside(total, at, w, 1)
  {
    SpanInside(at, w, total, 0);
    if w > 64 {
      SpanInside(at, w, total, 1);
    }
  }

  // ----------------------------------------------------------------- correctness

  function Value(r: OpResult): nat {
    match r
    case Int64(v) => v
    case Int128(lo, hi) => Wide(lo, hi)
  }

  /** The modulus up to which a result of this shape is right. */
  function Modulus(bits: nat): nat { if bits <= 64 then 64 else Low(bits) }

  lemma LowField(v: Variable, i: nat, n: nat)
    requires IntegerType(v.dtype) && |v.shape| == |v.bitStrides| && Readable(v, i) && n <= v.dtype.bits
    ensures Num(Bits(v.data)[Position(v, i)..Position(v, i) + n]) == Field(v, i) % Pow2(n)
  {
    hide Bits, Num, Pow2, EmittedOffset;
    var at := Position(v, i);
    var field := Bits(v.data)[at..at + v.dtype.bits];
    assert field[..n] == Bits(v.data)[at..at + n];
    NumPrefix(field, n);
  }

  /**
   * Whether a kernel over 64 bits, which extends no signs, takes a field of `w`
   * bits for the number it stands for, modulo 2^low. A field read bit by bit is
   * filled up with zeros; one of a native width is read twice, as low and high
   * limb.
   */
  predicate TakenRight(field: nat, w: nat, low: nat)
    requires w >= 1 && low > 64
  {
    if w >= low then true
    else if !NativeWidth(w) then field < Pow2(w - 1)
    else if field < Pow2(w - 1) then field % Pow2(low - 64) == 0
    else w == 64 && (field + 1) % Pow2(low - 64) == 0
  }

  /** Up to 64 bits the sign is extended; beyond, see TakenRight. */
  predicate OperandRight(v: Variable, bits: nat, i: nat)
    requires IntegerType(v.dtype) && |v.shape| == |v.bitStrides| && Readable(v, i)
  {
    bits <= 64 || TakenRight(Field(v, i), v.dtype.bits, Low(bits))
  }

  predicate OperandsRight(e: Expr, bits: nat, i: nat)
    requires IntTree(e) && AllReadable(e, i)
  {
    match e
    case Var(v) => OperandRight(v, bits, i)
    case Const(_) => true
    case Bin(_, l, r) => OperandsRight(l, bits, i) && OperandsRight(r, bits, i)
  }

  /** The widths alone: no operand is narrower than the result. */
  predicate WideEnough(e: Expr, bits: nat)
    requires IntTree(e)
  {
    match e
    case Var(v) => bits <= 64 || v.dtype.bits >= Low(bits)
    case Const(_) => true
    case Bin(_, l, r) => WideEnough(l, bits) && WideEnough(r, bits)
  }

  lemma {:induction false} WideEnoughRight(e: Expr, bits: nat, i: nat)
    requires IntTree(e) && AllReadable(e, i) && WideEnough(e, bits)
    ensures OperandsRight(e, bits, i)
  {
    hide Readable, TakenRight;
    match e
    case Var(v) =>
      if bits > 64 {
        WideTakenRight(Field(v, i), v.dtype.bits, Low(bits));
      }
    case Const(_) =>
    case Bin(_, l, r) =>
      WideEnoughRight(l, bits, i);
      WideEnoughRight(r, bits, i);
  }

  lemma WideTakenRight(field: nat, w: nat, low: nat)
    requires w >= low > 64
    ensures TakenRight(field, w, low)
  {
  }

  /** A load is congruent to the signed element, exactly if the operand is one the kernel takes right. */
  lemma LoadRight(v: Variable, bits: nat, i: nat)
    requires IntegerType(v.dtype) && |v.shape| == |v.bitStrides| && Readable(v, i)
    ensures LoadMeaning(v, bits, i).Int64? <==> bits <= 64
    ensures Congruent(Value(LoadMeaning(v, bits, i)), Signed(Field(v, i), v.dtype.bits), Pow2(Modulus(bits))) <==> OperandRight(v, bits, i)
  {
    hide Signed, Field, Touched, Bits, Num, Pow2, EmittedOffset, Congruent, Sshr, Ishl, TakenRight;
    if bits <= 64 {
      LoadRight64(v, bits, i);
    } else if v.dtype.bits >= Low(bits) {
      LoadRight128(v, bits, i);
      WideTakenRight(Field(v, i), v.dtype.bits, Low(bits));
    } else {
      NarrowOperand(v, bits, i);
    }
  }

  lemma LoadRight64(v: Variable, bits: nat, i: nat)
    requires IntegerType(v.dtype) && |v.shape| == |v.bitStrides| && Readable(v, i) && bits <= 64
    ensures LoadMeaning(v, bits, i).Int64?
    ensures Congruent(LoadMeaning(v, bits, i).v, Signed(Field(v, i), v.dtype.bits), Pow2(64))
  {
    hide Bits, Num, Pow2, EmittedOffset, Sshr, Ishl, Signed;
    var w := v.dtype.bits;
    var n := Signed(Field(v, i), w);
    SpanInside(Position(v, i), w, 8 * |v.data|, 0);
    Pow2Words();
    if w < 64 {
      FieldBound(v, i);
      SignExtension(Field(v, i), w);
      ModCongruent(n, TWO_64);
    } else {
      LowField(v, i, 64);
      ModCongruent(Field(v, i), TWO_64);
      SignedCongruent(Field(v, i), w);
      CongruentLow(n, Field(v, i), w, 64);
    }
  }

  lemma FieldBound(v: Variable, i: nat)
    requires IntegerType(v.dtype) && |v.shape| == |v.bitStrides| && Readable(v, i)
    ensures Field(v, i) < Pow2(v.dtype.bits)
    ensures v.dtype.bits <= 64 ==> Field(v, i) < TWO_64
  {
    hide EmittedOffset, Bits, Num, Pow2;
    NumBound(Bits(v.data)[Position(v, i)..Position(v, i) + v.dtype.bits]);
    if v.dtype.bits <= 64 {
      Pow2Words();
      Pow2Monotone(v.dtype.bits, 64);
    }
  }

  lemma LoadRight128(v: Variable, bits: nat, i: nat)
    requires IntegerType(v.dtype) && |v.shape| == |v.bitStrides| && Readable(v, i) && bits > 64 && v.dtype.bits >= Low(bits)
    ensures LoadMeaning(v, bits, i).Int128?
    ensures Congruent(Value(LoadMeaning(v, bits, i)), Signed(Field(v, i), v.dtype.bits), Pow2(Low(bits)))
  {
    hide Bits, Num, Pow2, EmittedOffset, Signed, Congruent;
    var w := v.dtype.bits;
    var at := Position(v, i);
    var n := Signed(Field(v, i), w);
    LowLimbs(v, bits, i);
    ModCongruent(Field(v, i), Pow2(Low(w)));
    CongruentLow(Field(v, i) % Pow2(Low(w)), Field(v, i), Low(w), Low(bits));
    SignedCongruent(Field(v, i), w);
    CongruentLow(n, Field(v, i), w, Low(bits));
    Transitive(Field(v, i) % Pow2(Low(w)), Field(v, i), n, Pow2(Low(bits)));
  }

  /** An element over 64 bits is read as its low 128 bits. */
  lemma LowLimbs(v: Variable, bits: nat, i: nat)
    requires IntegerType(v.dtype) && |v.shape| == |v.bitStrides| && Readable(v, i) && bits > 64 && v.dtype.bits > 64
    ensures LoadMeaning(v, bits, i).Int128?
    ensures Value(LoadMeaning(v, bits, i)) == Field(v, i) % Pow2(Low(v.dtype.bits))
  {
    hide Bits, Num, Pow2, EmittedOffset;
    var w := v.dtype.bits;
    var at := Position(v, i);
    SpanInside(at, w, 8 * |v.data|, 0);
    SpanInside(at, w, 8 * |v.data|, 1);
    TwoLimbs(Bits(v.data), at, Span(w, 1));
    LowField(v, i, Low(w));
  }

  lemma Transitive(a: int, b: int, c: int, m: nat)
    requires m > 0 && Congruent(a, b, m) && Congruent(c, b, m)
    ensures Congruent(a, c, m)
  {
  }

  /** Two loads side by side are one wider number. */
  lemma TwoLimbs(bits: seq<bool>, at: nat, n: nat)
    requires at + 64 + n <= |bits|
    ensures Num(bits[at..at + 64]) + TWO_64 * Num(bits[at + 64..at + 64 + n]) == Num(bits[at..at + 64 + n])
  {
    hide Num, Pow2;
    Pow2Words();
    NumConcat(bits[at..at + 64], bits[at + 64..at + 64 + n]);
    assert bits[at..at + 64] + bits[at + 64..at + 64 + n] == bits[at..at + 64 + n];
  }

  lemma ApplyCongruent(op: BinOp, a: int, b: int, c: int, d: int, m: nat)
    requires op != Div && m > 0 && Congruent(a, b, m) && Congruent(c, d, m)
    ensures Congruent(ApplyExact(op, a, c), ApplyExact(op, b, d), m)
  {
    if op == Mul {
      CongruentMul(a, b, c, d, m);
    } else {
      CongruentAdd(a, b, c, d, m);
    }
  }

  lemma LimbsRebuild(n: nat)
    requires n < TWO_128
    ensures Wide(LimbOf128(n, 0), LimbOf128(n, 1)) == n
  {
    assert n == TWO_64 * (n / TWO_64) + n % TWO_64;
  }

  /** One operation on two congruent operands. */
  lemma OpRight(op: BinOp, l: OpResult, r: OpResult, x: int, y: int, bits: nat)
    requires op != Div && (l.Int64? <==> bits <= 64) && (r.Int64? <==> bits <= 64)
    requires Congruent(Value(l), x, Pow2(Modulus(bits))) && Congruent(Value(r), y, Pow2(Modulus(bits)))
    ensures bits <= 64 ==> Congruent(ApplyExact(op, Value(l), Value(r)) % TWO_64, ApplyExact(op, x, y), Pow2(64))
    ensures bits > 64 ==>
      Congruent(Wide(Helper128(op, l.lo, l.hi, r.lo, r.hi, 0), Helper128(op, l.lo, l.hi, r.lo, r.hi, 1)),
                ApplyExact(op, x, y), Pow2(Low(bits)))
  {
    hide Pow2, ApplyExact, Congruent, Wide, LimbOf128;
    var n := ApplyExact(op, Value(l), Value(r));
    Pow2Words();
    ApplyCongruent(op, Value(l), x, Value(r), y, Pow2(Modulus(bits)));
    if bits <= 64 {
      ModCongruent(n, TWO_64);
      Chain(n % TWO_64, n, ApplyExact(op, x, y), TWO_64);
    } else {
      ModBounds(n, TWO_128);
      LimbsRebuild(n % TWO_128);
      ModCongruent(n, TWO_128);
      Pow2Add(64, 64);
      CongruentLow(n % TWO_128, n, 128, Low(bits));
      Chain(n % TWO_128, n, ApplyExact(op, x, y), Pow2(Low(bits)));
    }
  }

  lemma Chain(a: int, b: int, c: int, m: nat)
    requires m > 0 && Congruent(a, b, m) && Congruent(b, c, m)
    ensures Congruent(a, c, m)
  {
  }

  lemma ConstantRight(n: int, bits: nat)
    requires -TWO_63 <= n < TWO_63
    ensures bits <= 64 ==> Congruent(n % TWO_64, n, Pow2(64))
    ensures bits > 64 ==> Congruent(Wide(n % TWO_64, if n < 0 then TWO_64 - 1 else 0), n, Pow2(Low(bits)))
  {
    hide Pow2;
    Pow2Words();
    if bits <= 64 {
      ModCongruent(n, TWO_64);
    } else {
      Pow2Add(64, 64);
      if n < 0 {
        CongruentBy(Wide(n % TWO_64, TWO_64 - 1), n, 1, TWO_128);
      }
      CongruentLow(Wide(n % TWO_64, if n < 0 then TWO_64 - 1 else 0), n, 128, Low(bits));
    }
  }

  lemma ThroughDoubleRange(n: int)
    requires -TWO_63 <= n < TWO_63
    ensures -TWO_63 <= ThroughDouble(n) < TWO_63
  {
    hide Round53;
    if n < 0 {
      if n == -TWO_63 {
        LowestExact();
      } else {
        RoundBound(-n);
      }
    }
  }

  lemma KernelIntRange(c: Scalar)
    requires KernelConstant(c)
    ensures -TWO_63 <= KernelInt(c) < TWO_63
  {
    hide PatternInt, ThroughDouble;
    if c.IntConst? || c.ScalableIntConst? {
      ThroughDoubleRange(c.int_);
    }
  }

  lemma LowestExact()
    ensures Round53(TWO_63) == TWO_63
  {
    hide BitLength, Pow2;
    Pow2Words();
    var len := BitLength(TWO_63);
    if len < 64 {
      Pow2Monotone(len, 63);
    } else if len > 64 {
      Pow2Monotone(64, len - 1);
    }
    Pow2Add(8, 3);
    assert Unit(TWO_63) == 2048;
    NearestExact(TWO_63, 2048);
  }

  /** Below and above 64 bits the results have one limb and two. */
  lemma {:induction false} MeaningShape(e: Expr, bits: nat, i: nat)
    requires IntTree(e) && AllReadable(e, i)
    ensures Meaning(e, bits, i).Int64? <==> bits <= 64
  {
    hide Helper128, ApplyExact, KernelInt, Readable, LoadValue, Sshr, Ishl;
    match e
    case Var(v) =>
    case Const(c) =>
    case Bin(op, l, r) =>
      MeaningShape(l, bits, i);
      MeaningShape(r, bits, i);
  }

  /** The kernel computes the exact integer value of the tree, modulo the width of its registers, if it takes its operands right. */
  lemma {:induction false} MeaningRight(e: Expr, bits: nat, i: nat)
    requires IntTree(e) && AllReadable(e, i) && OperandsRight(e, bits, i)
    ensures Meaning(e, bits, i).Int64? <==> bits <= 64
    ensures Congruent(Value(Meaning(e, bits, i)), Exact(e, i), Pow2(Modulus(bits)))
  {
    hide Congruent, Pow2, ApplyExact, Helper128, Wide, LoadMeaning, Signed, Field, KernelInt, Readable, TakenRight;
    match e
    case Var(v) => LoadRight(v, bits, i);
    case Const(c) =>
      KernelIntRange(c);
      ConstantRight(KernelInt(c), bits);
    case Bin(op, l, r) =>
      MeaningRight(l, bits, i);
      MeaningRight(r, bits, i);
      OpRight(op, Meaning(l, bits, i), Meaning(r, bits, i), Exact(l, i), Exact(r, i), bits);
      Applied(op, Exact(l, i), Exact(r, i));
  }

  lemma Applied(op: BinOp, a: int, b: int)
    requires op != Div
    ensures ApplyExact(op, a, b) == match op case Add => a + b case Sub => a - b case Mul => a * b
  {
  }

  // ------------------------------------------------ operands narrower than the result

  /** The high limb of an element of up to 64 bits is read as zero, or once more as the low limb. */
  lemma NarrowLimb(data: seq<byte>, at: nat, w: nat)
    requires 1 <= w <= 64 && at + w <= 8 * |data| && (NativeWidth(w) ==> at % 8 == 0)
    ensures Inside(8 * |data|, at, w, 0) && Inside(8 * |data|, at, w, 1)
    ensures LoadValue(data, at, w, 1) == if NativeWidth(w) then LoadValue(data, at, w, 0) else 0
    ensures LoadValue(data, at, w, 0) == Num(Bits(data)[at..at + w])
  {
    hide Bits, Num, Begin, Span, Inside, Touched, NativeWidth, ByteWise;
    ByteWiseUpTo64(w);
    ReadInside(at, w, 8 * |data|);
    LowTouched(Bits(data), at, w);
    HighTouched(Bits(data), at, w);
    NumEmpty();
  }

  lemma ByteWiseUpTo64(w: nat)
    requires 1 <= w <= 64
    ensures ByteWise(w) <==> NativeWidth(w)
  {
  }

  lemma LowTouched(bits: seq<bool>, at: nat, w: nat)
    requires 1 <= w <= 64 && at + w <= |bits| && (NativeWidth(w) ==> at % 8 == 0)
    ensures Inside(|bits|, at, w, 0) && Touched(bits, at, w, 0) == bits[at..at + w]
  {
    SpanInside(at, w, |bits|, 0);
  }

  lemma HighTouched(bits: seq<bool>, at: nat, w: nat)
    requires 1 <= w <= 64 && Inside(|bits|, at, w, 0) && Inside(|bits|, at, w, 1)
    ensures Touched(bits, at, w, 1) == if NativeWidth(w) then Touched(bits, at, w, 0) else []
  {
  }

  /** In a kernel over 64 bits, a variable narrower than the result is taken right exactly under TakenRight. */
  lemma NarrowOperand(v: Variable, bits: nat, i: nat)
    requires IntegerType(v.dtype) && |v.shape| == |v.bitStrides| && Readable(v, i)
    requires bits > 64 && v.dtype.bits < Low(bits)
    ensures LoadMeaning(v, bits, i).Int128?
    ensures Congruent(Value(LoadMeaning(v, bits, i)), Signed(Field(v, i), v.dtype.bits), Pow2(Low(bits)))
       <==> TakenRight(Field(v, i), v.dtype.bits, Low(bits))
  {
    hide Bits, Num, Pow2, EmittedOffset, Signed, Congruent, LoadValue;
    var w, field, low := v.dtype.bits, Field(v, i), Low(bits);
    FieldBound(v, i);
    if w > 64 {
      LowLimbs(v, bits, i);
      ModSmall(field, Pow2(w));
      FilledWithZeros(field, w, low);
    } else {
      NarrowLimb(v.data, Position(v, i), w);
      if NativeWidth(w) {
        ReadTwice(field, w, low);
      } else {
        FilledWithZeros(field, w, low);
      }
    }
  }

  lemma FilledWithZeros(field: nat, w: nat, low: nat)
    requires 1 <= w < low && field < Pow2(w)
    ensures Congruent(field, Signed(field, w), Pow2(low)) <==> field < Pow2(w - 1)
  {
    if field >= Pow2(w - 1) {
      Pow2Monotone(w + 1, low);
      NotCongruent(field, Pow2(w), Pow2(low));
    }
  }

  lemma NotCongruent(a: nat, d: nat, m: nat)
    requires a < d && 2 * d <= m
    ensures m > 0 && !Congruent(a, a - d, m)
  {
    DivUnique(a, m, 0, a);
    DivUnique(a - d, m, -1, a - d + m);
  }

  /** A field as low and as high limb. */
  lemma ReadTwice(field: nat, w: nat, low: nat)
    requires NativeWidth(w) && 64 < low && field < Pow2(w)
    ensures Congruent(field + TWO_64 * field, Signed(field, w), Pow2(low))
       <==> if field < Pow2(w - 1) then field % Pow2(low - 64) == 0 else w == 64 && (field + 1) % Pow2(low - 64) == 0
  {
    hide Pow2;
    var p := Pow2(low - 64);
    Pow2Words();
    Pow2Sum(64, low - 64, low);
    if field < Pow2(w - 1) {
      CongruentDifference(field + TWO_64 * field, field, Pow2(low));
      ScaledMultiple(TWO_64, field, p);
    } else if w == 64 {
      CongruentDifference(field + TWO_64 * field, field - TWO_64, Pow2(low));
      assert field + TWO_64 * field - (field - TWO_64) == TWO_64 * (field + 1);
      ScaledMultiple(TWO_64, field + 1, p);
    } else {
      NativeBelow(w);
      OffBy(field, Pow2(w), low);
    }
  }

  lemma NativeBelow(w: nat)
    requires NativeWidth(w) && w != 64
    ensures Pow2(w) < TWO_64
  {
    hide Pow2;
    Pow2Words();
    Pow2Monotone(w, 32);
  }

  /** 2^64 copies of anything cannot make up for a difference below 2^64. */
  lemma OffBy(field: nat, d: nat, low: nat)
    requires low > 64 && 0 < d < TWO_64
    ensures !Congruent(field + TWO_64 * field, field - d, Pow2(low))
  {
    hide Pow2;
    Pow2Words();
    if Congruent(field + TWO_64 * field, field - d, Pow2(low)) {
      CongruentLow(field + TWO_64 * field, field - d, low, 64);
      CongruentDifference(field + TWO_64 * field, field - d, TWO_64);
      DivUnique(TWO_64 * field + d, TWO_64, field, d);
    }
  }

  lemma CongruentDifference(a: int, b: int, m: nat)
    requires m > 0
    ensures Congruent(a, b, m) <==> (a - b) % m == 0
  {
    if Congruent(a, b, m) {
      var k := Difference(a, b, m);
      assert a - b == m * k + 0;
      DivUnique(a - b, m, k, 0);
    } else if (a - b) % m == 0 {
      assert a - b == m * ((a - b) / m);
      CongruentBy(a, b, (a - b) / m, m);
    }
  }

  lemma ScaledMultiple(k: nat, n: nat, p: nat)
    requires k > 0 && p > 0
    ensures 0 < k * p && (k * n % (k * p) == 0 <==> n % p == 0)
  {
    LessScaled(0, k, p);
    var q, r := n / p, n % p;
    assert n == p * q + r;
    assert k * n == k * p * q + k * r by {
      assert k * (p * q + r) == k * (p * q) + k * r;
      assert k * (p * q) == k * p * q;
    }
    assert 0 <= k * r < k * p by {
      if r > 0 {
        LessScaled(0, r, k);
      }
      LessScaled(r, p, k);
    }
    DivUnique(k * n, k * p, q, k * r);
    if r > 0 {
      LessScaled(0, r, k);
    }
  }

  /** In a kernel of 100 bits, -1 in 7 bits is taken for 127, and 1 in 8 bits for 2^64 + 1. */
  lemma NarrowGoesWrong(v: Variable, w: Variable)
    requires v.dtype == Int(7) && v.shape == [1] && v.bitStrides == [7] && v.bitOffset == 0 && v.data == [127]
    requires w.dtype == Int(8) && w.shape == [1] && w.bitStrides == [8] && w.bitOffset == 0 && w.data == [1]
    ensures Readable(v, 0) && Signed(Field(v, 0), 7) == -1 && Value(LoadMeaning(v, 100, 0)) == 127 && !OperandRight(v, 100, 0)
    ensures Readable(w, 0) && Signed(Field(w, 0), 8) == 1 && Value(LoadMeaning(w, 100, 0)) == TWO_64 + 1 && !OperandRight(w, 100, 0)
  {
    hide Bits, Num, Pow2;
    assert Position(v, 0) == 0 && Position(w, 0) == 0;
    Pow2Words();
    Pow2Sevens();
    SmallField(127, 7);
    SmallField(1, 8);
    NarrowLimb([127], 0, 7);
    NarrowLimb([1], 0, 8);
    Pow2Monotone(1, 36);
    DivUnique(1, Pow2(36), 0, 1);
  }

  lemma Pow2Sevens()
    ensures Pow2(1) == 2 && Pow2(6) == 64 && Pow2(7) == 128
  {
    Pow2Small();
    assert Pow2(6) == 8 * Pow2(3);
  }

  lemma SmallField(b: byte, w: nat)
    requires w <= 8 && b < Pow2(w)
    ensures Num(Bits([b])[0..w]) == b
  {
    hide Num, Pow2, BitsOf;
    BitsOfByte(b, []);
    BitsOfPrefix(b, w, 8);
    assert [b] + [] == [b];
    assert Bits([b])[0..w] == BitsOf(b, 8)[..w];
    NumBitsOf(b, w);
    DivUnique(b, Pow2(w), 0, b);
  }
}
