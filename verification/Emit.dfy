/**
 * The x86-64 emitter (jit/emit.rs): from an allocated program to machine code,
 * with the jumps patched once their targets are known.
 */
module Emit {
  import opened Words
  import opened DataTypes
  import opened Lower
  import opened Intervals
  import opened LinearScan
  import opened Bounds
  import opened TryLower
  import opened X86
  import opened Encode

  predicate AllEncodable(prog: seq<Ins>) {
    forall k :: 0 <= k < |prog| ==> Encodable(prog[k])
  }

  type Code = prog: seq<Ins> | AllEncodable(prog)

  /** The byte stream of an instruction list. */
  function EncAll(prog: seq<Ins>): seq<byte>
    requires AllEncodable(prog)
  {
    if prog == [] then [] else Enc(prog[0]) + EncAll(prog[1..])
  }

  lemma {:induction false} EncAllConcat(a: seq<Ins>, b: seq<Ins>)
    requires AllEncodable(a) && AllEncodable(b)
    ensures AllEncodable(a + b) && EncAll(a + b) == EncAll(a) + EncAll(b)
    decreases |a|
  {
    hide Enc, Encodable;
    if a == [] {
      assert a + b == b;
    } else {
      assert (a + b)[1..] == a[1..] + b;
      EncAllConcat(a[1..], b);
    }
  }

  lemma EncAllAppend(a: seq<Ins>, i: Ins)
    requires AllEncodable(a) && Encodable(i)
    ensures AllEncodable(a + [i]) && EncAll(a + [i]) == EncAll(a) + Enc(i)
  {
    assert EncAll([i]) == Enc(i) by {
      assert [i][1..] == [];
    }
    EncAllConcat(a, [i]);
  }

  predicate RegOk(alloc: seq<nat>, v: VReg) { v < |alloc| && alloc[v] < NUM_PHYS_REGS }

  /** Registers are allocated and slot offsets fit a displacement. */
  predicate InstOk(alloc: seq<nat>, inst: Inst) {
    match inst
    case Load(dst, slot, _) => RegOk(alloc, dst) && slot < MAX_INPUTS
    case ConstInst(dst, _, _) => RegOk(alloc, dst)
    case BinInst(dst, _, lhs, rhs) => RegOk(alloc, dst) && RegOk(alloc, lhs) && RegOk(alloc, rhs)
    case Store(src, _) => RegOk(alloc, src)
  }

  predicate AllInstOk(alloc: seq<nat>, insts: seq<Inst>) {
    forall k :: 0 <= k < |insts| ==> InstOk(alloc, insts[k])
  }

  /** The machine instructions of one SSA instruction, in two-address form. */
  function InsOf(fpu: Fpu, alloc: seq<nat>, inst: Inst): (code: seq<Ins>)
    requires InstOk(alloc, inst)
    ensures AllEncodable(code)
  {
    match inst
    case Load(dst, slot, bits) =>
      var x := alloc[dst];
      if bits == 64 then [LoadDisp(RAX, RBX, 8 * slot), MovsdLoad(x, RAX, R10, 8)]
      else [LoadDisp(RAX, RBX, 8 * slot), Load32(RAX, RAX, R10, 4), MovdToXmm(x, RAX), Cvtss2sd(x, x)]
    case ConstInst(dst, val, bits) =>
      var x := alloc[dst];
      if bits == 64 then [MovImm64(RAX, val), MovqToXmm(x, RAX)]
      else [MovImm32(RAX, fpu.narrow(val)), MovdToXmm(x, RAX), Cvtss2sd(x, x)]
    case BinInst(dst, op, lhs, rhs) =>
      var xd, xl, xr := alloc[dst], alloc[lhs], alloc[rhs];
      if xd != xl then [MovsdXmm(xd, xl), Sse(op, xd, xr)] else [Sse(op, xd, xr)]
    case Store(src, bits) =>
      var x := alloc[src];
      if bits == 64 then [MovsdStore(R14, R10, 8, x)]
      else [Cvtsd2ss(x, x), MovdFromXmm(RAX, x), Store32(R14, R10, 4, RAX)]
  }

  function Body(fpu: Fpu, alloc: seq<nat>, insts: seq<Inst>): (code: seq<Ins>)
    requires AllInstOk(alloc, insts)
    ensures AllEncodable(code)
  {
    if insts == [] then []
    else
      var n := |insts| - 1;
      Body(fpu, alloc, insts[..n]) + InsOf(fpu, alloc, insts[n])
  }

  // System V calling convention: rdi = inputs, rsi = output, rdx = count.
  const Prologue: Code := [
    Push(RBP), MovRR(RBP, RSP), Push(RBX), Push(R14), Push(R15), SubImm8(RSP, 8),
    MovRR(RBX, RDI), MovRR(R14, RSI), MovRR(R15, RDX), XorRR(R10, R10)]

  const Epilogue: Code := [AddImm8(RSP, 8), Pop(R15), Pop(R14), Pop(RBX), Pop(RBP), Ret]

  const LOOP_OVERHEAD: nat := 8   // bytes of inc and of the jump back
  const HEAD_LEN: nat := 9        // bytes of cmp and of jge

  /** Distance from behind jge to the epilogue, given the length of the loop body. */
  function ExitDistance(bodyLen: nat): u32
    requires bodyLen + LOOP_OVERHEAD < TWO_31
  {
    bodyLen + LOOP_OVERHEAD
  }

  /** Distance from behind the jump back to cmp: negative. */
  function BackDistance(bodyLen: nat): u32
    requires bodyLen + LOOP_OVERHEAD + HEAD_LEN < TWO_31
  {
    TWO_32 - (bodyLen + LOOP_OVERHEAD + HEAD_LEN)
  }

  /** The kernel: prologue; loop head; body; loop end; epilogue. */
  function Kernel(fpu: Fpu, alloc: seq<nat>, insts: seq<Inst>): (code: seq<Ins>)
    requires AllInstOk(alloc, insts)
    requires |EncAll(Body(fpu, alloc, insts))| + LOOP_OVERHEAD + HEAD_LEN < TWO_31
    ensures AllEncodable(code)
  {
    var body := Body(fpu, alloc, insts);
    var len := |EncAll(body)|;
    Prologue + [CmpRR(R10, R15), Jge(ExitDistance(len))] + body +
    [Inc(R10), Jmp(BackDistance(len))] + Epilogue
  }

  lemma {:induction false} EncAllLength(code: seq<Ins>)
    requires AllEncodable(code)
    ensures |EncAll(code)| <= 10 * |code|
  {
    if code != [] {
      EncAllLength(code[1..]);
      assert |Enc(code[0])| <= 10;
    }
  }

  lemma EncAllTwo(a: Ins, b: Ins)
    requires Encodable(a) && Encodable(b)
    ensures EncAll([a, b]) == Enc(a) + Enc(b)
  {
    assert [a, b] == [a] + [b];
    EncAllAppend([a], b);
    EncAllAppend([], a);
    assert [] + [a] == [a];
  }

  lemma EncAllThree(a: Ins, b: Ins, c: Ins)
    requires Encodable(a) && Encodable(b) && Encodable(c)
    ensures EncAll([a, b, c]) == Enc(a) + Enc(b) + Enc(c)
  {
    assert [a, b, c] == [a, b] + [c];
    EncAllTwo(a, b);
    EncAllAppend([a, b], c);
  }

  /** At most four machine instructions of at most ten bytes for each SSA instruction. */
  lemma {:induction false} BodyLength(fpu: Fpu, alloc: seq<nat>, insts: seq<Inst>)
    requires AllInstOk(alloc, insts)
    ensures |EncAll(Body(fpu, alloc, insts))| <= 40 * |insts|
    decreases |insts|
  {
    if insts != [] {
      var n := |insts| - 1;
      BodyLength(fpu, alloc, insts[..n]);
      EncAllConcat(Body(fpu, alloc, insts[..n]), InsOf(fpu, alloc, insts[n]));
      EncAllLength(InsOf(fpu, alloc, insts[n]));
    }
  }

  const SAVE_BYTES: seq<byte> := [0x55, 0x48, 0x89, 0xE5, 0x53, 0x41, 0x56, 0x41, 0x57, 0x48, 0x83, 0xEC, 0x08]
  const MOVE_BYTES: seq<byte> := [0x48, 0x89, 0xFB, 0x49, 0x89, 0xF6, 0x49, 0x89, 0xD7, 0x4D, 0x31, 0xD2]

  lemma Assoc(s: seq<byte>, a: seq<byte>, b: seq<byte>)
    ensures s + a + b == s + (a + b)
  {
  }

  lemma AppendTwo(start: seq<byte>, a: Ins, b: Ins)
    requires Encodable(a) && Encodable(b)
    ensures start + Enc(a) + Enc(b) == start + EncAll([a, b])
  {
    EncAllTwo(a, b);
  }

  lemma AppendThree(start: seq<byte>, a: Ins, b: Ins, c: Ins)
    requires Encodable(a) && Encodable(b) && Encodable(c)
    ensures start + Enc(a) + Enc(b) + Enc(c) == start + EncAll([a, b, c])
  {
    EncAllThree(a, b, c);
  }

  lemma AppendFour(start: seq<byte>, a: Ins, b: Ins, c: Ins, d: Ins)
    requires Encodable(a) && Encodable(b) && Encodable(c) && Encodable(d)
    ensures start + Enc(a) + Enc(b) + Enc(c) + Enc(d) == start + EncAll([a, b, c, d])
  {
    AppendThree(start, a, b, c);
    EncAllAppend([a, b, c], d);
    assert [a, b, c] + [d] == [a, b, c, d];
    Assoc(start, EncAll([a, b, c]), Enc(d));
  }

  /** Appends machine code to a buffer; forward jumps are patched in place. */
  class Assembler {
    var buf: seq<byte>

    constructor ()
      ensures buf == []
    {
      buf := [];
    }

    method PushU8(b: byte)
      modifies this
      ensures buf == old(buf) + [b]
    {
      buf := buf + [b];
    }

    /** Several PushU8 in a row. */
    method PushBytes(bs: seq<byte>)
      modifies this
      ensures buf == old(buf) + bs
    {
      buf := buf + bs;
    }

    method PushU32Le(v: u32)
      modifies this
      ensures buf == old(buf) + LeBytes(v, 4)
    {
      buf := buf + LeBytes(v, 4);
    }

    method PushU64Le(v: u64)
      modifies this
      ensures buf == old(buf) + LeBytes(v, 8)
    {
      buf := buf + LeBytes(v, 8);
    }

    method EmitRex(w: bool, r: bool, x: bool, b: bool)
      modifies this
      ensures buf == old(buf) + [RexByte(w, r, x, b)]
    {
      var bits := 0x40 + (if w then 0x08 else 0) + (if r then 0x04 else 0) + (if x then 0x02 else 0) + if b then 0x01 else 0;
      PushU8(bits);
    }

    method EmitPrologue()
      modifies this
      ensures buf == old(buf) + EncAll(Prologue)
    {
      ghost var start := buf;
      PushBytes([0x55]);                            // push rbp
      PushBytes([0x48, 0x89, 0xE5]);                // mov rbp, rsp
      PushBytes([0x53]);                            // push rbx
      PushBytes([0x41, 0x56, 0x41, 0x57]);          // push r14; push r15
      PushBytes([0x48, 0x83, 0xEC, 0x08]);          // sub rsp, 8
      assert buf == start + SAVE_BYTES;
      EmitArguments();
      assert buf == start + (SAVE_BYTES + MOVE_BYTES);
      PrologueBytes();
    }

    method EmitArguments()
      modifies this
      ensures buf == old(buf) + MOVE_BYTES
    {
      ghost var start := buf;
      PushBytes([0x48, 0x89, 0xFB]);                // mov rbx, rdi
      PushBytes([0x49, 0x89, 0xF6]);                // mov r14, rsi
      PushBytes([0x49, 0x89, 0xD7]);                // mov r15, rdx
      PushBytes([0x4D, 0x31, 0xD2]);                // xor r10, r10
      assert buf == start + MOVE_BYTES;
    }

    method EmitEpilogue()
      modifies this
      ensures buf == old(buf) + EncAll(Epilogue)
    {
      PushBytes([0x48, 0x83, 0xC4, 0x08]);          // add rsp, 8
      PushBytes([0x41, 0x5F, 0x41, 0x5E]);          // pop r15; pop r14
      PushBytes([0x5B, 0x5D, 0xC3]);                // pop rbx; pop rbp; ret
      EpilogueBytes();
    }

    method CmpR64R64(l: reg, r: reg)
      modifies this
      ensures buf == old(buf) + Enc(CmpRR(l, r))
    {
      EmitRex(true, l >= 8, false, r >= 8);
      PushU8(0x3B);
      PushU8(ModRmRR(l, r));
    }

    /** A jge whose distance is not known yet; returns where the distance goes. */
    method JgeRel32Placeholder() returns (site: nat)
      modifies this
      ensures buf == old(buf) + Enc(Jge(0)) && site == |buf| - 4
    {
      PushU8(0x0F); PushU8(0x8D);
      site := |buf|;
      PushU32Le(0);
    }

    method PatchJge(site: nat)
      requires site + 4 <= |buf| < TWO_31
      modifies this
      ensures buf == old(buf)[..site] + LeBytes(|old(buf)| - (site + 4), 4) + old(buf)[site + 4..]
    {
      var rel := |buf| - (site + 4);
      buf := buf[..site] + LeBytes(rel, 4) + buf[site + 4..];
    }

    method JmpRel32Back(loopTop: nat, ghost distance: u32)
      requires loopTop <= |buf| && |buf| + 5 < TWO_31
      requires distance == TWO_32 - (|buf| + 5 - loopTop)
      modifies this
      ensures buf == old(buf) + Enc(Jmp(distance))
    {
      ghost var start := buf;
      PushU8(0xE9);
      var src := |buf| + 4;
      var rel: int := loopTop - src;
      PushU32Le(rel + TWO_32);
      Assoc(start, [0xE9], LeBytes(distance, 4));
    }

    method IncR64(r: reg)
      modifies this
      ensures buf == old(buf) + Enc(X86.Inc(r))
    {
      EmitRex(true, false, false, r >= 8);
      PushU8(0xFF);
      PushU8(0xC0 + r % 8);
    }

    method LoadInputPtr(dst: reg, base: reg, inputIdx: nat)
      requires inputIdx < MAX_INPUTS && base % 8 != 4
      modifies this
      ensures buf == old(buf) + Enc(LoadDisp(dst, base, 8 * inputIdx))
    {
      EmitRex(true, dst >= 8, false, base >= 8);
      PushU8(0x8B);
      PushU8(ModRmDisp(dst, base));
      PushU32Le(inputIdx * 8);
    }

    method MovsdXmmMemR10x8(dst: reg, base: reg)
      requires IndexedOk(base, R10, 8)
      modifies this
      ensures buf == old(buf) + Enc(MovsdLoad(dst, base, R10, 8))
    {
      PushU8(0xF2);
      EmitRex(false, dst >= 8, true, base >= 8);
      PushU8(0x0F); PushU8(0x10);
      PushU8(ModRmSib(dst));
      PushU8(3 * 64 + 2 * 8 + base % 8);
    }

    method MovsdMemR10x8Xmm(base: reg, src: reg)
      requires IndexedOk(base, R10, 8)
      modifies this
      ensures buf == old(buf) + Enc(MovsdStore(base, R10, 8, src))
    {
      PushU8(0xF2);
      EmitRex(false, src >= 8, true, base >= 8);
      PushU8(0x0F); PushU8(0x11);
      PushU8(ModRmSib(src));
      PushU8(3 * 64 + 2 * 8 + base % 8);
    }

    /** movd between a vector register and a register below 8. */
    method EmitMovd(op: byte, x: reg, r: reg)
      requires r < 8
      modifies this
      ensures buf == old(buf) + ([0x66] + OptRex(x, r) + [0x0F, op, ModRmRR(x, r)])
    {
      PushU8(0x66);
      if x >= 8 { PushU8(0x44); }
      PushBytes([0x0F, op, ModRmRR(x, r)]);
    }

    /** mov between eax and [base + r10*4]. */
    method EmitMovEax(op: byte, base: reg)
      requires IndexedOk(base, R10, 4)
      modifies this
      ensures buf == old(buf) + [RexByte(false, false, true, base >= 8), op, ModRmSib(RAX), Sib(4, R10, base)]
    {
      EmitRex(false, false, true, base >= 8);
      PushBytes([op, 4, 2 * 64 + 2 * 8 + base % 8]);
    }

    method LoadF32ToXmm(dst: reg, base: reg)
      requires IndexedOk(base, R10, 4)
      modifies this
      ensures buf == old(buf) + Enc(Load32(RAX, base, R10, 4)) + Enc(MovdToXmm(dst, RAX)) + Enc(Cvtss2sd(dst, dst))
    {
      EmitMovEax(0x8B, base);
      EmitMovd(0x6E, dst, RAX);
      EmitCvtss2sd(dst, dst);
    }

    method StoreXmmF32(base: reg, src: reg)
      requires IndexedOk(base, R10, 4)
      modifies this
      ensures buf == old(buf) + Enc(Cvtsd2ss(src, src)) + Enc(MovdFromXmm(RAX, src)) + Enc(Store32(base, R10, 4, RAX))
    {
      EmitCvtsd2ss(src, src);
      EmitMovd(0x7E, src, RAX);
      EmitMovEax(0x89, base);
    }

    method MovsdXmmXmm(dst: reg, src: reg)
      modifies this
      ensures buf == old(buf) + Enc(MovsdXmm(dst, src))
    {
      PushU8(0xF2);
      EmitRex(false, dst >= 8, false, src >= 8);
      PushU8(0x0F); PushU8(0x10);
      PushU8(ModRmRR(dst, src));
    }

    method MovRaxImm64(bits: u64)
      modifies this
      ensures buf == old(buf) + Enc(MovImm64(RAX, bits))
    {
      ghost var start := buf;
      PushBytes([0x48, 0xB8]);
      PushU64Le(bits);
      Assoc(start, [0x48, 0xB8], LeBytes(bits, 8));
    }

    method MovqXmmImm64(dst: reg, bits: u64)
      modifies this
      ensures buf == old(buf) + Enc(MovImm64(RAX, bits)) + Enc(MovqToXmm(dst, RAX))
    {
      MovRaxImm64(bits);
      PushU8(0x66);
      EmitRex(true, dst >= 8, false, false);
      PushBytes([0x0F, 0x6E, ModRmRR(dst, RAX)]);
    }

    method MovEaxImm32(bits: u32)
      modifies this
      ensures buf == old(buf) + Enc(MovImm32(RAX, bits))
    {
      ghost var start := buf;
      PushU8(0xB8);
      PushU32Le(bits);
      Assoc(start, [0xB8], LeBytes(bits, 4));
      assert OptRex(0, RAX) + [0xB8 + RAX % 8] == [0xB8];
    }

    method MovdXmmImm32(dst: reg, bits: u32)
      modifies this
      ensures buf == old(buf) + Enc(MovImm32(RAX, bits)) + Enc(MovdToXmm(dst, RAX))
    {
      MovEaxImm32(bits);
      EmitMovd(0x6E, dst, RAX);
    }

    /** A scalar operation with prefix `prefix`; the REX byte only when needed. */
    method EmitScalar(prefix: byte, op: byte, dst: reg, src: reg)
      modifies this
      ensures buf == old(buf) + ([prefix] + OptRex(dst, src) + [0x0F, op, ModRmRR(dst, src)])
    {
      PushU8(prefix);
      if dst >= 8 || src >= 8 { EmitRex(false, dst >= 8, false, src >= 8); }
      PushU8(0x0F); PushU8(op);
      PushU8(ModRmRR(dst, src));
    }

    method EmitCvtss2sd(dst: reg, src: reg)
      modifies this
      ensures buf == old(buf) + Enc(Cvtss2sd(dst, src))
    {
      EmitScalar(0xF3, 0x5A, dst, src);
    }

    method EmitCvtsd2ss(dst: reg, src: reg)
      modifies this
      ensures buf == old(buf) + Enc(Cvtsd2ss(dst, src))
    {
      EmitScalar(0xF2, 0x5A, dst, src);
    }

    method EmitOp(op: BinOp, xd: reg, xr: reg)
      modifies this
      ensures buf == old(buf) + Enc(Sse(op, xd, xr))
    {
      match op
      case Add => EmitScalar(0xF2, 0x58, xd, xr);
      case Sub => EmitScalar(0xF2, 0x5C, xd, xr);
      case Mul => EmitScalar(0xF2, 0x59, xd, xr);
      case Div => EmitScalar(0xF2, 0x5E, xd, xr);
    }

    method EmitLoad(dst: reg, inputIdx: nat, bits: nat)
      requires inputIdx < MAX_INPUTS
      modifies this
      ensures buf == old(buf) + (
        if bits == 64 then EncAll([LoadDisp(RAX, RBX, 8 * inputIdx), MovsdLoad(dst, RAX, R10, 8)])
        else EncAll([LoadDisp(RAX, RBX, 8 * inputIdx), Load32(RAX, RAX, R10, 4), MovdToXmm(dst, RAX), Cvtss2sd(dst, dst)]))
    {
      ghost var start := buf;
      ghost var ptr := LoadDisp(RAX, RBX, 8 * inputIdx);
      LoadInputPtr(RAX, RBX, inputIdx);
      if bits == 64 {
        MovsdXmmMemR10x8(dst, RAX);
        AppendTwo(start, ptr, MovsdLoad(dst, RAX, R10, 8));
      } else {
        LoadF32ToXmm(dst, RAX);
        AppendFour(start, ptr, Load32(RAX, RAX, R10, 4), MovdToXmm(dst, RAX), Cvtss2sd(dst, dst));
      }
    }

    method EmitConst(dst: reg, val: u64, narrowed: u32, bits: nat)
      modifies this
      ensures buf == old(buf) + (
        if bits == 64 then EncAll([MovImm64(RAX, val), MovqToXmm(dst, RAX)])
        else EncAll([MovImm32(RAX, narrowed), MovdToXmm(dst, RAX), Cvtss2sd(dst, dst)]))
    {
      ghost var start := buf;
      if bits == 64 {
        MovqXmmImm64(dst, val);
        AppendTwo(start, MovImm64(RAX, val), MovqToXmm(dst, RAX));
      } else {
        MovdXmmImm32(dst, narrowed);
        EmitCvtss2sd(dst, dst);
        AppendThree(start, MovImm32(RAX, narrowed), MovdToXmm(dst, RAX), Cvtss2sd(dst, dst));
      }
    }

    method EmitBin(op: BinOp, xd: reg, xl: reg, xr: reg)
      modifies this
      ensures buf == old(buf) + (
        if xd != xl then EncAll([MovsdXmm(xd, xl), Sse(op, xd, xr)]) else EncAll([Sse(op, xd, xr)]))
    {
      ghost var start := buf;
      if xd != xl {
        MovsdXmmXmm(xd, xl);
      }
      EmitOp(op, xd, xr);
      AppendTwo(start, MovsdXmm(xd, xl), Sse(op, xd, xr));
      EncAllOne(Sse(op, xd, xr));
    }

    method EmitStore(src: reg, bits: nat)
      modifies this
      ensures buf == old(buf) + (
        if bits == 64 then EncAll([MovsdStore(R14, R10, 8, src)])
        else EncAll([Cvtsd2ss(src, src), MovdFromXmm(RAX, src), Store32(R14, R10, 4, RAX)]))
    {
      ghost var start := buf;
      if bits == 64 {
        MovsdMemR10x8Xmm(R14, src);
        EncAllOne(MovsdStore(R14, R10, 8, src));
      } else {
        StoreXmmF32(R14, src);
        AppendThree(start, Cvtsd2ss(src, src), MovdFromXmm(RAX, src), Store32(R14, R10, 4, RAX));
      }
    }

    /** The code of one SSA instruction. */
    method EmitInst(fpu: Fpu, alloc: seq<nat>, inst: Inst)
      requires InstOk(alloc, inst)
      modifies this
      ensures buf == old(buf) + EncAll(InsOf(fpu, alloc, inst))
    {
      match inst
      case Load(dst, inputIdx, bits) => EmitLoad(alloc[dst], inputIdx, bits);
      case ConstInst(dst, val, bits) => EmitConst(alloc[dst], val, fpu.narrow(val), bits);
      case BinInst(dst, op, lhs, rhs) => EmitBin(op, alloc[dst], alloc[lhs], alloc[rhs]);
      case Store(src, bits) => EmitStore(alloc[src], bits);
    }
  }

  lemma EncAllOne(a: Ins)
    requires Encodable(a)
    ensures EncAll([a]) == Enc(a)
  {
    EncAllAppend([], a);
    assert [] + [a] == [a];
  }

  lemma EncAllJoin4(a: seq<Ins>, b: seq<Ins>, c: seq<Ins>, d: seq<Ins>)
    requires AllEncodable(a) && AllEncodable(b) && AllEncodable(c) && AllEncodable(d)
    ensures AllEncodable(a + b + c + d)
    ensures EncAll(a + b + c + d) == EncAll(a) + EncAll(b) + EncAll(c) + EncAll(d)
  {
    EncAllConcat(a, b);
    EncAllConcat(a + b, c);
    EncAllConcat(a + b + c, d);
  }

  lemma SaveBytes()
    ensures EncAll([Push(RBP), MovRR(RBP, RSP), Push(RBX)]) + EncAll([Push(R14), Push(R15), SubImm8(RSP, 8)]) == SAVE_BYTES
  {
    hide EncAll;
    EncAllThree(Push(RBP), MovRR(RBP, RSP), Push(RBX));
    EncAllThree(Push(R14), Push(R15), SubImm8(RSP, 8));
  }

  lemma MoveBytes()
    ensures EncAll([MovRR(RBX, RDI), MovRR(R14, RSI), MovRR(R15, RDX)]) + EncAll([XorRR(R10, R10)]) == MOVE_BYTES
  {
    hide EncAll;
    EncAllThree(MovRR(RBX, RDI), MovRR(R14, RSI), MovRR(R15, RDX));
    EncAllOne(XorRR(R10, R10));
  }

  lemma PrologueBytes()
    ensures EncAll(Prologue) == SAVE_BYTES + MOVE_BYTES
  {
    hide EncAll;
    var a := [Push(RBP), MovRR(RBP, RSP), Push(RBX)];
    var b := [Push(R14), Push(R15), SubImm8(RSP, 8)];
    var c := [MovRR(RBX, RDI), MovRR(R14, RSI), MovRR(R15, RDX)];
    var d := [XorRR(R10, R10)];
    assert Prologue == a + b + c + d;
    EncAllJoin4(a, b, c, d);
    SaveBytes();
    MoveBytes();
  }

  lemma EpilogueBytes()
    ensures EncAll(Epilogue) == [0x48, 0x83, 0xC4, 0x08, 0x41, 0x5F, 0x41, 0x5E, 0x5B, 0x5D, 0xC3]
  {
    hide EncAll;
    var a := [AddImm8(RSP, 8), Pop(R15), Pop(R14)];
    var b := [Pop(RBX), Pop(RBP), Ret];
    EncAllThree(a[0], a[1], a[2]);
    EncAllThree(b[0], b[1], b[2]);
    assert Epilogue == a + b;
    EncAllConcat(a, b);
  }

  /** The code before the jump distance: prologue, cmp, and the opcode of jge. */
  function FrontHead(): seq<byte> {
    EncAll(Prologue) + Enc(CmpRR(R10, R15)) + [0x0F, 0x8D]
  }

  /** The code after the front: the body and the end of the loop. */
  function Rest(fpu: Fpu, alloc: seq<nat>, insts: seq<Inst>, bodyLen: nat): seq<byte>
    requires AllInstOk(alloc, insts) && bodyLen + LOOP_OVERHEAD + HEAD_LEN < TWO_31
  {
    EncAll(Body(fpu, alloc, insts)) + Enc(X86.Inc(R10)) + Enc(Jmp(BackDistance(bodyLen)))
  }

  lemma FrontBytes(rel: u32)
    ensures EncAll(Prologue + [CmpRR(R10, R15), Jge(rel)]) == FrontHead() + LeBytes(rel, 4)
  {
    EncAllTwo(CmpRR(R10, R15), Jge(rel));
    EncAllConcat(Prologue, [CmpRR(R10, R15), Jge(rel)]);
    Assoc(EncAll(Prologue), Enc(CmpRR(R10, R15)), Enc(Jge(rel)));
    Assoc(EncAll(Prologue) + Enc(CmpRR(R10, R15)), [0x0F, 0x8D], LeBytes(rel, 4));
  }

  lemma Regroup(a: seq<byte>, b: seq<byte>, c: seq<byte>, d: seq<byte>)
    ensures a + b + c + d == a + (b + c + d) && a + b + (c + d) == a + (b + c + d)
  {
  }

  lemma KernelBytes(fpu: Fpu, alloc: seq<nat>, insts: seq<Inst>, bodyLen: nat)
    requires AllInstOk(alloc, insts) && bodyLen == |EncAll(Body(fpu, alloc, insts))|
    requires bodyLen + LOOP_OVERHEAD + HEAD_LEN < TWO_31
    ensures EncAll(Kernel(fpu, alloc, insts)) ==
      FrontHead() + LeBytes(ExitDistance(bodyLen), 4) + Rest(fpu, alloc, insts, bodyLen) + EncAll(Epilogue)
  {
    var body := Body(fpu, alloc, insts);
    var head := Prologue + [CmpRR(R10, R15), Jge(ExitDistance(bodyLen))];
    var tail := [X86.Inc(R10), Jmp(BackDistance(bodyLen))];
    FrontBytes(ExitDistance(bodyLen));
    EncAllTwo(tail[0], tail[1]);
    EncAllJoin4(head, body, tail, Epilogue);
    Regroup(EncAll(head), EncAll(body), Enc(tail[0]), Enc(tail[1]));
  }

  lemma ProgramInstsOk(p: NtProgram)
    requires ValidProgram(p)
    ensures AllInstOk(p.alloc, p.insts)
  {
    InOrderIntervals(p.insts, p.numVregs);
    assert forall v :: 0 <= v < p.numVregs ==> p.intervals[v].vreg == v;
    forall v | 0 <= v < p.numVregs
      ensures RegOk(p.alloc, v)
    {
      assert p.intervals[v].vreg == v;
    }
    forall k | 0 <= k < |p.insts|
      ensures InstOk(p.alloc, p.insts[k])
    {
      if k < p.numVregs {
        assert DefinesInOrder(p.insts[k], k) && WidthAndSlot(p.insts[k], p.bits, p.numInputs);
      }
    }
  }

  /** Emits the kernel; the jge out of the loop gets its distance at the end. */
  method EmitKernel(fpu: Fpu, p: NtProgram) returns (code: seq<byte>)
    requires ValidProgram(p)
    ensures AllInstOk(p.alloc, p.insts)
    ensures |EncAll(Body(fpu, p.alloc, p.insts))| + LOOP_OVERHEAD + HEAD_LEN < TWO_31
    ensures code == EncAll(Kernel(fpu, p.alloc, p.insts))
  {
    ProgramInstsOk(p);
    BodyLength(fpu, p.alloc, p.insts);
    var e := new Assembler();
    var loopTop, fixup := EmitFront(e);
    EmitLoop(e, fpu, p, loopTop, fixup, FrontHead());
    e.EmitEpilogue();
    KernelBytes(fpu, p.alloc, p.insts, |EncAll(Body(fpu, p.alloc, p.insts))|);
    code := e.buf;
  }

  method EmitFront(e: Assembler) returns (loopTop: nat, fixup: nat)
    requires e.buf == []
    modifies e
    ensures e.buf == FrontHead() + LeBytes(0, 4)
    ensures fixup == |FrontHead()| == loopTop + HEAD_LEN - 4 && loopTop <= 100
  {
    EncAllLength(Prologue);
    e.EmitPrologue();
    assert [] + EncAll(Prologue) == EncAll(Prologue);
    loopTop := |e.buf|;
    e.CmpR64R64(R10, R15);
    fixup := e.JgeRel32Placeholder();
    Assoc(EncAll(Prologue) + Enc(CmpRR(R10, R15)), [0x0F, 0x8D], LeBytes(0, 4));
  }

  /** Body, increment, jump back to `loopTop`; then the distance of the jump out goes to `fixup`. */
  method EmitLoop(e: Assembler, fpu: Fpu, p: NtProgram, loopTop: nat, fixup: nat, ghost head: seq<byte>)
    requires AllInstOk(p.alloc, p.insts)
    requires e.buf == head + LeBytes(0, 4) && fixup == |head| == loopTop + HEAD_LEN - 4
    requires |e.buf| + |EncAll(Body(fpu, p.alloc, p.insts))| + LOOP_OVERHEAD < TWO_31
    modifies e
    ensures var len := |EncAll(Body(fpu, p.alloc, p.insts))|;
      e.buf == head + LeBytes(ExitDistance(len), 4) + Rest(fpu, p.alloc, p.insts, len)
  {
    ghost var len := |EncAll(Body(fpu, p.alloc, p.insts))|;
    ghost var rest := Rest(fpu, p.alloc, p.insts, len);
    EmitLoopBody(e, fpu, p, loopTop);
    assert |e.buf| - (fixup + 4) == ExitDistance(len);
    Patched(head, LeBytes(0, 4), LeBytes(ExitDistance(len), 4), rest);
    e.PatchJge(fixup);
  }

  lemma Patched(head: seq<byte>, hole: seq<byte>, value: seq<byte>, rest: seq<byte>)
    requires |hole| == |value|
    ensures var buf := head + hole + rest;
      buf[..|head|] + value + buf[|head| + |hole|..] == head + value + rest
  {
  }

  /** The loop body, the increment, and the jump back to `loopTop`. */
  method EmitLoopBody(e: Assembler, fpu: Fpu, p: NtProgram, loopTop: nat)
    requires AllInstOk(p.alloc, p.insts) && loopTop + HEAD_LEN == |e.buf|
    requires |e.buf| + |EncAll(Body(fpu, p.alloc, p.insts))| + LOOP_OVERHEAD < TWO_31
    modifies e
    ensures e.buf == old(e.buf) + Rest(fpu, p.alloc, p.insts, |EncAll(Body(fpu, p.alloc, p.insts))|)
  {
    ghost var start := e.buf;
    ghost var body := EncAll(Body(fpu, p.alloc, p.insts));
    EmitBody(e, fpu, p);
    e.IncR64(R10);
    ghost var rel := BackDistance(|body|);
    assert TWO_32 - (|e.buf| + 5 - loopTop) == rel;
    e.JmpRel32Back(loopTop, rel);
    Regroup(start, body, Enc(X86.Inc(R10)), Enc(Jmp(rel)));
  }

  lemma BodyStep(fpu: Fpu, alloc: seq<nat>, insts: seq<Inst>, k: nat, start: seq<byte>)
    requires AllInstOk(alloc, insts) && k < |insts|
    ensures start + EncAll(Body(fpu, alloc, insts[..k])) + EncAll(InsOf(fpu, alloc, insts[k])) ==
      start + EncAll(Body(fpu, alloc, insts[..k + 1]))
  {
    assert insts[..k + 1][..k] == insts[..k];
    var a, b := Body(fpu, alloc, insts[..k]), InsOf(fpu, alloc, insts[k]);
    EncAllConcat(a, b);
    Assoc(start, EncAll(a), EncAll(b));
  }

  method EmitBody(e: Assembler, fpu: Fpu, p: NtProgram)
    requires AllInstOk(p.alloc, p.insts)
    modifies e
    ensures e.buf == old(e.buf) + EncAll(Body(fpu, p.alloc, p.insts))
  {
    ghost var start := e.buf;
    for k := 0 to |p.insts|
      invariant e.buf == start + EncAll(Body(fpu, p.alloc, p.insts[..k]))
    {
      e.EmitInst(fpu, p.alloc, p.insts[k]);
      BodyStep(fpu, p.alloc, p.insts, k, start);
    }
    assert p.insts[..|p.insts|] == p.insts;
  }
}
