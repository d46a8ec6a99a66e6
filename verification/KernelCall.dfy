/** A whole call of an emitted kernel, from its first byte to its return. */
module KernelCall {
  import opened Words
  import opened DataTypes
  import opened Lower
  import opened Ssa
  import opened X86
  import opened Encode
  import opened Emit
  import opened Simulation
  import opened KernelRun
  import opened KernelLoop

  lemma StepPush(fpu: Fpu, s: Cpu, r: reg, sp: int)
    requires ValidCpu(s) && s.gpr[RSP] == sp >= 8 && Mapped(s.mem, sp - 8, 8)
    ensures Executor(fpu)(Push(r), s) == Running(After(s, Push(r)).(
      gpr := s.gpr[RSP := sp - 8], mem := Write(s.mem, sp - 8, LeBytes(s.gpr[r], 8))))
  {
    hide Write, LeBytes;
    var s1 := After(s, Push(r));
    assert Wrap64(s1.gpr[RSP] as int - 8) == sp - 8;
    assert Exec(fpu, Push(r), s1) ==
      Running(s1.(gpr := s1.gpr[RSP := sp - 8], mem := Write(s1.mem, sp - 8, LeBytes(s1.gpr[r], 8))));
  }

  lemma StepPop(fpu: Fpu, s: Cpu, r: reg, sp: int)
    requires ValidCpu(s) && s.gpr[RSP] == sp && sp + 8 < TWO_64 && Mapped(s.mem, sp, 8)
    ensures Executor(fpu)(Pop(r), s) == Running(After(s, Pop(r)).(
      gpr := s.gpr[RSP := sp + 8][r := FromLe64(Bytes(s.mem, sp, 8))]))
  {
    hide FromLe;
    var s1 := After(s, Pop(r));
    assert Wrap64(s1.gpr[RSP] as int + 8) == sp + 8;
    assert Exec(fpu, Pop(r), s1) ==
      Running(s1.(gpr := s1.gpr[RSP := sp + 8][r := FromLe64(Bytes(s1.mem, sp, 8))]));
  }

  lemma StepMov(fpu: Fpu, s: Cpu, dst: reg, src: reg)
    requires ValidCpu(s)
    ensures Executor(fpu)(MovRR(dst, src), s) == Running(After(s, MovRR(dst, src)).(gpr := s.gpr[dst := s.gpr[src]]))
  {
    var s1 := After(s, MovRR(dst, src));
    assert Exec(fpu, MovRR(dst, src), s1) == Running(s1.(gpr := s1.gpr[dst := s1.gpr[src]]));
  }

  lemma StepSub8(fpu: Fpu, s: Cpu, sp: int)
    requires ValidCpu(s) && s.gpr[RSP] == sp >= 8
    ensures Executor(fpu)(SubImm8(RSP, 8), s) ==
      Running(After(s, SubImm8(RSP, 8)).(gpr := s.gpr[RSP := sp - 8], ge := None))
  {
    var s1 := After(s, SubImm8(RSP, 8));
    assert Imm8(8) == 8 && Wrap64(sp - 8) == sp - 8;
    assert Exec(fpu, SubImm8(RSP, 8), s1) == Running(s1.(gpr := s1.gpr[RSP := Wrap64(s1.gpr[RSP] - Imm8(8))], ge := None));
  }

  lemma StepAdd8(fpu: Fpu, s: Cpu, sp: int)
    requires ValidCpu(s) && s.gpr[RSP] == sp && sp + 8 < TWO_64
    ensures Executor(fpu)(AddImm8(RSP, 8), s) ==
      Running(After(s, AddImm8(RSP, 8)).(gpr := s.gpr[RSP := sp + 8], ge := None))
  {
    var s1 := After(s, AddImm8(RSP, 8));
    assert Imm8(8) == 8 && Wrap64(sp + 8) == sp + 8;
    assert Exec(fpu, AddImm8(RSP, 8), s1) == Running(s1.(gpr := s1.gpr[RSP := Wrap64(s1.gpr[RSP] + Imm8(8))], ge := None));
  }

  lemma StepZero(fpu: Fpu, s: Cpu, r: reg)
    requires ValidCpu(s)
    ensures Executor(fpu)(XorRR(r, r), s) == Running(After(s, XorRR(r, r)).(gpr := s.gpr[r := 0], ge := None))
  {
  }

  const PUSH_A: seq<Ins> := [Push(RBP), MovRR(RBP, RSP), Push(RBX)]
  const PUSH_B: seq<Ins> := [Push(R14), Push(R15), SubImm8(RSP, 8)]
  const ARGS: seq<Ins> := [MovRR(RBX, RDI), MovRR(R14, RSI), MovRR(R15, RDX), XorRR(R10, R10)]

  /** The stack words below `sp` hold the four saved registers. */
  ghost predicate Saved(mem: Memory, sp: int, rbp: u64, rbx: u64, r14: u64, r15: u64) {
    Word(mem, sp - 8, rbp) && Word(mem, sp - 16, rbx) && Word(mem, sp - 24, r14) && Word(mem, sp - 32, r15)
  }

  ghost predicate Word(mem: Memory, a: int, v: u64) {
    Mapped(mem, a, 8) && FromLe64(Bytes(mem, a, 8)) == v
  }

  lemma WriteWord(mem: Memory, a: int, v: u64)
    requires Mapped(mem, a, 8)
    ensures Word(Write(mem, a, LeBytes(v, 8)), a, v)
    ensures forall p: int :: p in mem && !(a <= p < a + 8) ==> Write(mem, a, LeBytes(v, 8))[p] == mem[p]
  {
    hide LeBytes;
    assert Bytes(Write(mem, a, LeBytes(v, 8)), a, 8) == LeBytes(v, 8);
    Le64(v);
  }

  lemma WordKept(mem: Memory, mem': Memory, a: int, v: u64)
    requires Word(mem, a, v) && mem'.Keys == mem.Keys
    requires forall p: int :: a <= p < a + 8 ==> mem'[p] == mem[p]
    ensures Word(mem', a, v)
  {
    hide FromLe;
    BytesSame(mem, mem', a, 8);
  }

  /** Memory after saving the registers. */
  ghost function SavedMemory(mem: Memory, sp: int, rbp: u64, rbx: u64, r14: u64, r15: u64): Memory {
    Write(Write(Write(Write(mem, sp - 8, LeBytes(rbp, 8)), sp - 16, LeBytes(rbx, 8)),
                sp - 24, LeBytes(r14, 8)), sp - 32, LeBytes(r15, 8))
  }

  lemma SavedMemoryHolds(mem: Memory, sp: int, rbp: u64, rbx: u64, r14: u64, r15: u64)
    requires Mapped(mem, sp - 32, 32)
    ensures var m := SavedMemory(mem, sp, rbp, rbx, r14, r15);
      m.Keys == mem.Keys && Saved(m, sp, rbp, rbx, r14, r15) &&
      forall p: int :: p in mem && !(sp - 32 <= p < sp) ==> m[p] == mem[p]
  {
    hide LeBytes, Write, Word;
    var m1 := Write(mem, sp - 8, LeBytes(rbp, 8));
    var m2 := Write(m1, sp - 16, LeBytes(rbx, 8));
    var m3 := Write(m2, sp - 24, LeBytes(r14, 8));
    var m4 := Write(m3, sp - 32, LeBytes(r15, 8));
    WriteWord(mem, sp - 8, rbp);
    WriteWord(m1, sp - 16, rbx);
    WriteWord(m2, sp - 24, r14);
    WriteWord(m3, sp - 32, r15);
    assert forall p: int :: p in mem <==> p in m1;
    assert forall p: int :: p in mem <==> p in m2;
    assert forall p: int :: p in mem <==> p in m3;
    WordKept(m1, m2, sp - 8, rbp);
    WordKept(m2, m3, sp - 8, rbp);
    WordKept(m3, m4, sp - 8, rbp);
    WordKept(m2, m3, sp - 16, rbx);
    WordKept(m3, m4, sp - 16, rbx);
    WordKept(m3, m4, sp - 24, r14);
  }

  lemma ExecPushA(fpu: Fpu, s: Cpu, sp: int) returns (s': Cpu)
    requires ValidCpu(s) && s.gpr[RSP] == sp >= 40 && Mapped(s.mem, sp - 32, 32)
    ensures ExecAll(Executor(fpu), PUSH_A, s) == Running(s') && ValidCpu(s')
    ensures s'.gpr == s.gpr[RSP := sp - 16][RBP := sp - 8]
    ensures s'.mem == Write(Write(s.mem, sp - 8, LeBytes(s.gpr[RBP], 8)), sp - 16, LeBytes(s.gpr[RBX], 8))
  {
    hide Executor, Enc, LeBytes, Write;
    StepPush(fpu, s, RBP, sp);
    var s1 := After(s, Push(RBP)).(gpr := s.gpr[RSP := sp - 8], mem := Write(s.mem, sp - 8, LeBytes(s.gpr[RBP], 8)));
    StepMov(fpu, s1, RBP, RSP);
    var s2 := After(s1, MovRR(RBP, RSP)).(gpr := s1.gpr[RBP := sp - 8]);
    StepPush(fpu, s2, RBX, sp - 8);
    s' := After(s2, Push(RBX)).(gpr := s2.gpr[RSP := sp - 16], mem := Write(s2.mem, sp - 16, LeBytes(s.gpr[RBX], 8)));
    ExecThree(Executor(fpu), Push(RBP), MovRR(RBP, RSP), Push(RBX), s, s1, s2, s');
  }

  lemma ExecPushB(fpu: Fpu, s: Cpu, sp: int) returns (s': Cpu)
    requires ValidCpu(s) && s.gpr[RSP] == sp - 16 && sp >= 40 && Mapped(s.mem, sp - 32, 32)
    ensures ExecAll(Executor(fpu), PUSH_B, s) == Running(s') && ValidCpu(s')
    ensures s'.gpr == s.gpr[RSP := sp - 40]
    ensures s'.mem == Write(Write(s.mem, sp - 24, LeBytes(s.gpr[R14], 8)), sp - 32, LeBytes(s.gpr[R15], 8))
  {
    hide Executor, Enc, LeBytes, Write;
    StepPush(fpu, s, R14, sp - 16);
    var s1 := After(s, Push(R14)).(gpr := s.gpr[RSP := sp - 24], mem := Write(s.mem, sp - 24, LeBytes(s.gpr[R14], 8)));
    StepPush(fpu, s1, R15, sp - 24);
    var s2 := After(s1, Push(R15)).(gpr := s1.gpr[RSP := sp - 32], mem := Write(s1.mem, sp - 32, LeBytes(s.gpr[R15], 8)));
    StepSub8(fpu, s2, sp - 32);
    s' := After(s2, SubImm8(RSP, 8)).(gpr := s2.gpr[RSP := sp - 40], ge := None);
    ExecThree(Executor(fpu), Push(R14), Push(R15), SubImm8(RSP, 8), s, s1, s2, s');
  }

  lemma ExecArgs(fpu: Fpu, s: Cpu) returns (s': Cpu)
    requires ValidCpu(s)
    ensures ExecAll(Executor(fpu), ARGS, s) == Running(s') && ValidCpu(s') && s'.mem == s.mem
    ensures s'.gpr == s.gpr[RBX := s.gpr[RDI]][R14 := s.gpr[RSI]][R15 := s.gpr[RDX]][R10 := 0]
  {
    hide Executor, Enc;
    StepMov(fpu, s, RBX, RDI);
    var s1 := After(s, MovRR(RBX, RDI)).(gpr := s.gpr[RBX := s.gpr[RDI]]);
    StepMov(fpu, s1, R14, RSI);
    var s2 := After(s1, MovRR(R14, RSI)).(gpr := s1.gpr[R14 := s.gpr[RSI]]);
    StepMov(fpu, s2, R15, RDX);
    var s3 := After(s2, MovRR(R15, RDX)).(gpr := s2.gpr[R15 := s.gpr[RDX]]);
    StepZero(fpu, s3, R10);
    s' := After(s3, XorRR(R10, R10)).(gpr := s3.gpr[R10 := 0], ge := None);
    ExecFour(Executor(fpu), MovRR(RBX, RDI), MovRR(R14, RSI), MovRR(R15, RDX), XorRR(R10, R10), s, s1, s2, s3, s');
  }

  /** The prologue saves four registers and puts the arguments where the loop wants them. */
  lemma ExecPrologue(fpu: Fpu, s: Cpu, sp: int) returns (s': Cpu)
    requires ValidCpu(s) && s.gpr[RSP] == sp >= 40 && Mapped(s.mem, sp - 32, 32)
    ensures ExecAll(Executor(fpu), Prologue, s) == Running(s') && ValidCpu(s')
    ensures s'.gpr == s.gpr[RSP := sp - 40][RBP := sp - 8][RBX := s.gpr[RDI]][R14 := s.gpr[RSI]][R15 := s.gpr[RDX]][R10 := 0]
    ensures s'.mem == SavedMemory(s.mem, sp, s.gpr[RBP], s.gpr[RBX], s.gpr[R14], s.gpr[R15])
  {
    hide Executor, ExecAll, Enc, LeBytes, Write;
    var a := ExecPushA(fpu, s, sp);
    var b := ExecPushB(fpu, a, sp);
    s' := ExecArgs(fpu, b);
    ExecAllConcat(Executor(fpu), PUSH_A, PUSH_B, s, a);
    ExecAllConcat(Executor(fpu), PUSH_A + PUSH_B, ARGS, s, b);
    assert Prologue == PUSH_A + PUSH_B + ARGS;
  }

  const POPS_A: seq<Ins> := [AddImm8(RSP, 8), Pop(R15), Pop(R14)]
  const POPS_B: seq<Ins> := [Pop(RBX), Pop(RBP)]

  /** The epilogue up to `ret` restores them. */
  lemma ExecPops(fpu: Fpu, s: Cpu, sp: int, rbp: u64, rbx: u64, r14: u64, r15: u64) returns (s': Cpu)
    requires ValidCpu(s) && s.gpr[RSP] == sp - 40 && 40 <= sp && sp + 8 <= TWO_64
    requires Saved(s.mem, sp, rbp, rbx, r14, r15)
    ensures ExecAll(Executor(fpu), POPS_A + POPS_B, s) == Running(s') && ValidCpu(s') && s'.mem == s.mem
    ensures s'.gpr == s.gpr[RSP := sp][R15 := r15][R14 := r14][RBX := rbx][RBP := rbp]
  {
    hide Executor, ExecAll, Enc, FromLe;
    StepAdd8(fpu, s, sp - 40);
    var s1 := After(s, AddImm8(RSP, 8)).(gpr := s.gpr[RSP := sp - 32], ge := None);
    StepPop(fpu, s1, R15, sp - 32);
    var s2 := After(s1, Pop(R15)).(gpr := s1.gpr[RSP := sp - 24][R15 := r15]);
    StepPop(fpu, s2, R14, sp - 24);
    var s3 := After(s2, Pop(R14)).(gpr := s2.gpr[RSP := sp - 16][R14 := r14]);
    StepPop(fpu, s3, RBX, sp - 16);
    var s4 := After(s3, Pop(RBX)).(gpr := s3.gpr[RSP := sp - 8][RBX := rbx]);
    StepPop(fpu, s4, RBP, sp - 8);
    s' := After(s4, Pop(RBP)).(gpr := s4.gpr[RSP := sp][RBP := rbp]);
    ExecThree(Executor(fpu), AddImm8(RSP, 8), Pop(R15), Pop(R14), s, s1, s2, s3);
    ExecTwo(Executor(fpu), Pop(RBX), Pop(RBP), s3, s4, s');
    ExecAllConcat(Executor(fpu), POPS_A, POPS_B, s, s3);
    assert s'.gpr == s.gpr[RSP := sp][R15 := r15][R14 := r14][RBX := rbx][RBP := rbp];
  }

  lemma StepRet(fpu: Fpu, s: Cpu, sp: int, target: u64)
    requires ValidCpu(s) && s.gpr[RSP] == sp && sp + 8 < TWO_64 && Word(s.mem, sp, target)
    ensures Executor(fpu)(Ret, s) == Returned(After(s, Ret).(gpr := s.gpr[RSP := sp + 8]), target)
  {
    hide FromLe;
    var s1 := After(s, Ret);
    assert Wrap64(sp + 8) == sp + 8;
    assert FromLe64(Bytes(s1.mem, sp, 8)) == target;
    assert Exec(fpu, Ret, s1) == Returned(s1.(gpr := s1.gpr[RSP := sp + 8]), FromLe64(Bytes(s1.mem, sp, 8)));
  }

  // ------------------------------------------------------------------ layout

  lemma CodeAtMiddle(a: seq<byte>, b: seq<byte>, c: seq<byte>)
    ensures CodeAt(a + b + c, |a|, b)
  {
  }

  /** Where the parts of the kernel's code lie. */
  lemma KernelLayout(fpu: Fpu, alloc: seq<nat>, insts: seq<Inst>, len: nat, code: seq<byte>)
    requires AllInstOk(alloc, insts) && len == |EncAll(Body(fpu, alloc, insts))|
    requires len + LOOP_OVERHEAD + HEAD_LEN < TWO_31 && code == EncAll(Kernel(fpu, alloc, insts))
    ensures var top := |EncAll(Prologue)|;
      CodeAt(code, 0, EncAll(Prologue)) && LoopAt(fpu, code, alloc, insts, top, len) &&
      CodeAt(code, ExitOf(top, len), EncAll(Epilogue))
  {
    hide EncAll, Body, Enc, LeBytes;
    var p, e := EncAll(Prologue), EncAll(Epilogue);
    var cmp, jge := Enc(CmpRR(R10, R15)), Enc(Jge(ExitDistance(len)));
    var body := EncAll(Body(fpu, alloc, insts));
    var inc, jmp := Enc(X86.Inc(R10)), Enc(Jmp(BackDistance(len)));
    KernelParts(fpu, alloc, insts, len);
    LengthsOfLoop(len);
    CodeAtMiddle([], p, cmp + jge + body + inc + jmp + e);
    assert code == [] + p + (cmp + jge + body + inc + jmp + e);
    CodeAtMiddle(p, cmp, jge + body + inc + jmp + e);
    assert code == p + cmp + (jge + body + inc + jmp + e);
    CodeAtMiddle(p + cmp, jge, body + inc + jmp + e);
    assert code == p + cmp + jge + (body + inc + jmp + e);
    CodeAtMiddle(p + cmp + jge, body, inc + jmp + e);
    assert code == p + cmp + jge + body + (inc + jmp + e);
    CodeAtMiddle(p + cmp + jge + body, inc, jmp + e);
    assert code == p + cmp + jge + body + inc + (jmp + e);
    CodeAtMiddle(p + cmp + jge + body + inc, jmp, e);
    CodeAtMiddle(p + cmp + jge + body + inc + jmp, e, []);
    assert code == p + cmp + jge + body + inc + jmp + e + [];
  }

  lemma LengthsOfLoop(len: nat)
    requires len + LOOP_OVERHEAD + HEAD_LEN < TWO_31
    ensures |Enc(CmpRR(R10, R15))| == 3 && |Enc(Jge(ExitDistance(len)))| == 6
    ensures |Enc(X86.Inc(R10))| == 3 && |Enc(Jmp(BackDistance(len)))| == 5
  {
  }

  lemma KernelParts(fpu: Fpu, alloc: seq<nat>, insts: seq<Inst>, len: nat)
    requires AllInstOk(alloc, insts) && len == |EncAll(Body(fpu, alloc, insts))|
    requires len + LOOP_OVERHEAD + HEAD_LEN < TWO_31
    ensures EncAll(Kernel(fpu, alloc, insts)) ==
      EncAll(Prologue) + Enc(CmpRR(R10, R15)) + Enc(Jge(ExitDistance(len))) + EncAll(Body(fpu, alloc, insts)) +
      Enc(X86.Inc(R10)) + Enc(Jmp(BackDistance(len))) + EncAll(Epilogue)
  {
    hide EncAll, Enc, Body, LeBytes;
    var body := Body(fpu, alloc, insts);
    var head := [CmpRR(R10, R15), Jge(ExitDistance(len))];
    var tail := [X86.Inc(R10), Jmp(BackDistance(len))];
    EncAllTwo(head[0], head[1]);
    EncAllTwo(tail[0], tail[1]);
    EncAllConcat(Prologue, head);
    EncAllJoin4(Prologue + head, body, tail, Epilogue);
    Assoc(EncAll(Prologue), Enc(head[0]), Enc(head[1]));
    Assoc(EncAll(Prologue) + Enc(head[0]) + Enc(head[1]) + EncAll(body), Enc(tail[0]), Enc(tail[1]));
  }

  // ---------------------------------------------------------------- the call

  /** Only what each slot delivers matters for a value. */
  lemma {:induction false} ValueSameLoads(fpu: Fpu, ssa: seq<Inst>, slots: nat, bits: nat, a: nat -> u64, b: nat -> u64, v: VReg)
    requires Ordered(ssa) && v < |ssa|
    requires forall j :: 0 <= j < |ssa| ==> WidthAndSlot(ssa[j], bits, slots)
    requires forall slot :: 0 <= slot < slots ==> a(slot) == b(slot)
    ensures Value(fpu, ssa, a, v) == Value(fpu, ssa, b, v)
    decreases v
  {
    assert DefinesInOrder(ssa[v], v) && WidthAndSlot(ssa[v], bits, slots);
    if ssa[v].BinInst? {
      ValueSameLoads(fpu, ssa, slots, bits, a, b, ssa[v].lhs);
      ValueSameLoads(fpu, ssa, slots, bits, a, b, ssa[v].rhs);
    }
  }

  /** The stack frame is mapped and overlaps neither the output nor anything the kernel reads. */
  ghost predicate GoodStack(k: Kern, c: Call, mem: Memory, sp: int) {
    var w := Width(k.bits);
    40 <= sp && sp + 8 < TWO_64 && Mapped(mem, sp - 32, 40) && Apart(sp - 32, 40, c.out, w * c.count) &&
    forall slot :: 0 <= slot < k.slots ==> StackApart(k, c, mem, sp, slot)
  }

  ghost predicate StackApart(k: Kern, c: Call, mem: Memory, sp: int, slot: nat) {
    Mapped(mem, c.table + 8 * slot, 8) && Apart(sp - 32, 32, c.table + 8 * slot, 8) &&
    Apart(sp - 32, 32, SlotPtr(mem, c.table, slot), Width(k.bits) * c.count)
  }

  /** Two memories agree on everything a call reads or writes. */
  ghost predicate SameBuffers(k: Kern, c: Call, mem0: Memory, mem: Memory) {
    mem.Keys == mem0.Keys &&
    forall slot :: 0 <= slot < k.slots ==> SameSlot(k, c, mem0, mem, slot)
  }

  ghost predicate SameSlot(k: Kern, c: Call, mem0: Memory, mem: Memory, slot: nat) {
    SlotReadable(mem0, c.table, k.bits, slot, c.count) && SlotReadable(mem, c.table, k.bits, slot, c.count) &&
    SlotPtr(mem, c.table, slot) == SlotPtr(mem0, c.table, slot) &&
    forall j :: 0 <= j < c.count ==> LoadsSame(k, c, mem0, mem, slot, j)
  }

  ghost predicate LoadsSame(k: Kern, c: Call, mem0: Memory, mem: Memory, slot: nat, j: nat) {
    SlotReadable(mem0, c.table, k.bits, slot, j + 1) && SlotReadable(mem, c.table, k.bits, slot, j + 1) &&
    var w := Width(k.bits);
    var ptr := SlotPtr(mem0, c.table, slot);
    Mapped(mem0, ptr + w * j, w) && Mapped(mem, ptr + w * j, w) && Bytes(mem, ptr + w * j, w) == Bytes(mem0, ptr + w * j, w)
  }

  lemma SlotSurvives(k: Kern, c: Call, mem0: Memory, mem: Memory, sp: int, slot: nat)
    requires k.bits == 32 || k.bits == 64
    requires GoodSlot(k, c, mem0, slot) && StackApart(k, c, mem0, sp, slot) && mem.Keys == mem0.Keys
    requires forall p: int :: p in mem0 && !(sp - 32 <= p < sp) ==> mem[p] == mem0[p]
    ensures SameSlot(k, c, mem0, mem, slot) && GoodSlot(k, c, mem, slot)
  {
    hide FromLe64, Bytes, LoadsSame;
    OffStack(mem0, mem, sp, c.table + 8 * slot, 8);
    OffStack(mem0, mem, sp, SlotPtr(mem0, c.table, slot), Width(k.bits) * c.count);
    forall j | 0 <= j < c.count
      ensures LoadsSame(k, c, mem0, mem, slot, j)
    {
      LoadSurvives(k, c, mem0, mem, sp, slot, j);
    }
  }

  lemma LoadSurvives(k: Kern, c: Call, mem0: Memory, mem: Memory, sp: int, slot: nat, j: nat)
    requires (k.bits == 32 || k.bits == 64) && j < c.count
    requires GoodSlot(k, c, mem0, slot) && StackApart(k, c, mem0, sp, slot) && mem.Keys == mem0.Keys
    requires forall p: int :: p in mem0 && !(sp - 32 <= p < sp) ==> mem[p] == mem0[p]
    ensures LoadsSame(k, c, mem0, mem, slot, j)
  {
    hide FromLe64, Bytes;
    var w := Width(k.bits);
    var ptr := SlotPtr(mem0, c.table, slot);
    OffStack(mem0, mem, sp, c.table + 8 * slot, 8);
    WithinCount(w, j, c.count);
    OffStack(mem0, mem, sp, ptr, w * (j + 1));
    OffStack(mem0, mem, sp, ptr + w * j, w);
  }

  /** What does not overlap the four saved registers is as it was. */
  lemma OffStack(mem0: Memory, mem: Memory, sp: int, a: int, n: nat)
    requires Mapped(mem0, a, n) && Apart(sp - 32, 32, a, n) && mem.Keys == mem0.Keys
    requires forall p: int :: p in mem0 && !(sp - 32 <= p < sp) ==> mem[p] == mem0[p]
    ensures Mapped(mem, a, n) && Bytes(mem, a, n) == Bytes(mem0, a, n)
  {
    BytesSame(mem0, mem, a, n);
  }

  lemma BuffersSurvive(k: Kern, c: Call, mem0: Memory, mem: Memory, sp: int)
    requires ValidKern(k) && GoodBuffers(k, c, mem0) && GoodStack(k, c, mem0, sp) && mem.Keys == mem0.Keys
    requires forall p: int :: p in mem0 && !(sp - 32 <= p < sp) ==> mem[p] == mem0[p]
    ensures SameBuffers(k, c, mem0, mem) && GoodBuffers(k, c, mem)
  {
    hide GoodSlot, SameSlot, StackApart;
    forall slot | 0 <= slot < k.slots
      ensures SameSlot(k, c, mem0, mem, slot) && GoodSlot(k, c, mem, slot)
    {
      SlotSurvives(k, c, mem0, mem, sp, slot);
    }
    assert forall p: int :: c.out <= p < c.out + Width(k.bits) * c.count ==> p in mem0;
  }

  lemma ResultSame(fpu: Fpu, k: Kern, c: Call, mem0: Memory, mem: Memory, j: nat)
    requires ValidKern(k) && SameBuffers(k, c, mem0, mem) && j < c.count
    ensures ResultBytes(fpu, k, c, mem, j) == ResultBytes(fpu, k, c, mem0, j)
  {
    hide FromLe, LeBytes, Allocated;
    forall slot | 0 <= slot < k.slots
      ensures LoadOf(fpu, k, c, mem, j)(slot) == LoadOf(fpu, k, c, mem0, j)(slot)
    {
      assert SameSlot(k, c, mem0, mem, slot) && LoadsSame(k, c, mem0, mem, slot, j);
    }
    assert Allocated(k.insts, k.n, k.alloc);
    KernSource(k);
    ValueSameLoads(fpu, k.insts[..k.n], k.slots, k.bits, LoadOf(fpu, k, c, mem, j), LoadOf(fpu, k, c, mem0, j), k.insts[k.n].src);
  }

  lemma KernSource(k: Kern)
    requires ValidKern(k)
    ensures |k.insts| == k.n + 1 && k.insts[k.n].Store? && k.insts[k.n].src < k.n
  {
  }

  /** What a caller gets back. */
  ghost predicate Result(fpu: Fpu, k: Kern, c: Call, s: Cpu, s': Cpu)
    requires ValidKern(k) && ValidCpu(s)
  {
    var w := Width(k.bits);
    var sp := s.gpr[RSP] as int;
    ValidCpu(s') && s'.mem.Keys == s.mem.Keys &&
    (forall j, b :: 0 <= j < c.count && 0 <= b < w ==> ByteFilled(fpu, k, c, s.mem, s'.mem, j, b)) &&
    (forall p: int :: p in s.mem && !(c.out <= p < c.out + w * c.count) && !(sp - 32 <= p < sp) ==> s'.mem[p] == s.mem[p]) &&
    s'.gpr[RSP] == sp + 8 && s'.gpr[RBP] == s.gpr[RBP] && s'.gpr[RBX] == s.gpr[RBX] &&
    (forall r :: 12 <= r < 16 ==> s'.gpr[r] == s.gpr[r])
  }

  /**
   * Calling the kernel returns to the caller with every output element in place,
   * the callee-saved registers and the stack pointer restored, and no memory
   * changed outside the output buffer and the four words below the return address.
   */
  lemma KernelReturns(fpu: Fpu, k: Kern, c: Call, code: seq<byte>, len: nat, s: Cpu, target: u64)
    returns (steps: nat, s': Cpu)
    requires ValidKern(k) && len == |EncAll(Body(fpu, k.alloc, k.insts))| && len + LOOP_OVERHEAD + HEAD_LEN < TWO_31
    requires code == EncAll(Kernel(fpu, k.alloc, k.insts))
    requires ValidCpu(s) && s.rip == 0 && c == Call(s.gpr[RDI], s.gpr[RSI], s.gpr[RDX])
    requires GoodBuffers(k, c, s.mem) && GoodStack(k, c, s.mem, s.gpr[RSP]) && Word(s.mem, s.gpr[RSP], target)
    ensures Run(Machine(fpu, code), s, steps) == Returned(s', target) && Result(fpu, k, c, s, s')
  {
    hide Machine, Executor, ExecAll, EncAll, Enc, Body, Kernel, Filled, LoopAt, SavedMemory, Saved, Word, ByteFilled, GoodBuffers;
    var sp := s.gpr[RSP];
    KernelLayout(fpu, k.alloc, k.insts, len, code);
    var top := |EncAll(Prologue)|;
    var s1 := ExecPrologue(fpu, s, sp);
    RunStraight(fpu, code, Prologue, s, s1);
    SavedMemoryHolds(s.mem, sp, s.gpr[RBP], s.gpr[RBX], s.gpr[R14], s.gpr[R15]);
    BuffersSurvive(k, c, s.mem, s1.mem, sp);
    FilledNone(fpu, k, c, s1.mem);
    var m, s2 := LoopRuns(fpu, code, k, c, s1.mem, top, len, s1, 0);
    FrameSurvives(fpu, k, c, s.mem, s1.mem, s2.mem, sp, s.gpr[RBP], s.gpr[RBX], s.gpr[R14], s.gpr[R15], target);
    var s3 := ExecPops(fpu, s2, sp, s.gpr[RBP], s.gpr[RBX], s.gpr[R14], s.gpr[R15]);
    EpilogueSplit(code, ExitOf(top, len));
    RunStraight(fpu, code, POPS_A + POPS_B, s2, s3);
    MachineStep(fpu, code, Ret, s3);
    StepRet(fpu, s3, sp, target);
    s' := After(s3, Ret).(gpr := s3.gpr[RSP := sp + 8]);
    var machine := Machine(fpu, code);
    assert Run(machine, s3, 1) == Returned(s', target);
    RunThen(machine, s2, |POPS_A + POPS_B|, s3, 1);
    RunThen(machine, s1, m, s2, |POPS_A + POPS_B| + 1);
    RunThen(machine, s, |Prologue|, s1, m + (|POPS_A + POPS_B| + 1));
    steps := |Prologue| + (m + (|POPS_A + POPS_B| + 1));
    ResultHolds(fpu, k, c, s, s1.mem, s');
  }

  lemma FilledNone(fpu: Fpu, k: Kern, c: Call, mem: Memory)
    requires ValidKern(k)
    ensures Filled(fpu, k, c, mem, mem, 0)
  {
  }

  /** The loop touches neither the saved registers nor the return address. */
  lemma FrameSurvives(fpu: Fpu, k: Kern, c: Call, mem0: Memory, mem1: Memory, mem2: Memory, sp: int,
                      rbp: u64, rbx: u64, r14: u64, r15: u64, target: u64)
    requires ValidKern(k) && GoodStack(k, c, mem0, sp) && Word(mem0, sp, target)
    requires Saved(mem1, sp, rbp, rbx, r14, r15) && mem1.Keys == mem0.Keys
    requires forall p: int :: p in mem0 && !(sp - 32 <= p < sp) ==> mem1[p] == mem0[p]
    requires Filled(fpu, k, c, mem1, mem2, c.count)
    ensures Saved(mem2, sp, rbp, rbx, r14, r15) && Word(mem2, sp, target)
  {
    hide ValidKern, ByteFilled, StackApart, Word;
    assert forall p: int :: sp - 32 <= p < sp + 8 ==> p in mem0;
    assert forall p: int :: sp - 32 <= p < sp + 8 ==> mem2[p] == mem1[p];
    WordKept(mem1, mem2, sp - 8, rbp);
    WordKept(mem1, mem2, sp - 16, rbx);
    WordKept(mem1, mem2, sp - 24, r14);
    WordKept(mem1, mem2, sp - 32, r15);
    WordKept(mem0, mem2, sp, target);
  }

  lemma EpilogueSplit(code: seq<byte>, at: int)
    requires CodeAt(code, at, EncAll(Epilogue))
    ensures CodeAt(code, at, EncAll(POPS_A + POPS_B)) && CodeAt(code, at + |EncAll(POPS_A + POPS_B)|, Enc(Ret))
  {
    hide EncAll, Enc;
    var pops, ret := EncAll(POPS_A + POPS_B), Enc(Ret);
    assert Epilogue == POPS_A + POPS_B + [Ret];
    EncAllAppend(POPS_A + POPS_B, Ret);
    var all := code[at..at + |pops + ret|];
    assert all == pops + ret;
    assert code[at..at + |pops|] == all[..|pops|];
    assert code[at + |pops|..at + |pops| + |ret|] == all[|pops|..];
  }

  lemma ResultHolds(fpu: Fpu, k: Kern, c: Call, s: Cpu, mem1: Memory, s': Cpu)
    requires ValidKern(k) && ValidCpu(s) && ValidCpu(s') && SameBuffers(k, c, s.mem, mem1)
    requires forall p: int :: p in s.mem && !(s.gpr[RSP] as int - 32 <= p < s.gpr[RSP]) ==> mem1[p] == s.mem[p]
    requires Filled(fpu, k, c, mem1, s'.mem, c.count)
    requires s'.gpr[RSP] == s.gpr[RSP] as int + 8 && s'.gpr[RBP] == s.gpr[RBP] && s'.gpr[RBX] == s.gpr[RBX]
    requires forall r :: 12 <= r < 16 ==> s'.gpr[r] == s.gpr[r]
    ensures Result(fpu, k, c, s, s')
  {
    hide ValidKern, SameSlot, ResultBytes;
    forall j, b | 0 <= j < c.count && 0 <= b < Width(k.bits)
      ensures ByteFilled(fpu, k, c, s.mem, s'.mem, j, b)
    {
      assert ByteFilled(fpu, k, c, mem1, s'.mem, j, b);
      ResultSame(fpu, k, c, s.mem, mem1, j);
    }
    var w := Width(k.bits);
    var sp := s.gpr[RSP] as int;
    forall p: int | p in s.mem && !(c.out <= p < c.out + w * c.count) && !(sp - 32 <= p < sp)
      ensures s'.mem[p] == s.mem[p]
    {
      assert p in mem1 && mem1[p] == s.mem[p];
    }
  }
}
