/**
 * The loop body of a kernel computes its SSA program, whatever registers were
 * assigned: instruction by instruction, the machine's vector registers hold the
 * values of the virtual registers that are live.
 */
module Simulation {
  import opened Words
  import opened DataTypes
  import opened Expr
  import opened Lower
  import opened Intervals
  import opened LinearScan
  import opened Bounds
  import opened TryLower
  import opened Ssa
  import opened X86
  import opened Encode
  import opened Emit

  /** Executes one emitted instruction and moves past its encoding. */
  ghost function Executor(fpu: Fpu): (Ins, Cpu) -> Outcome {
    (ins: Ins, s: Cpu) =>
      if ValidCpu(s) && Encodable(ins) then Exec(fpu, ins, s.(rip := s.rip + |Enc(ins)|)) else Stuck
  }

  /** The code of a load (see Emit.InsOf). */
  function LoadCode(x: reg, slot: nat, bits: nat): seq<Ins>
    requires slot < MAX_INPUTS
  {
    if bits == 64 then [LoadDisp(RAX, RBX, 8 * slot), MovsdLoad(x, RAX, R10, 8)]
    else [LoadDisp(RAX, RBX, 8 * slot), Load32(RAX, RAX, R10, 4), MovdToXmm(x, RAX), Cvtss2sd(x, x)]
  }

  /** Runs straight-line code. */
  ghost function ExecAll(exec: (Ins, Cpu) -> Outcome, code: seq<Ins>, s: Cpu): Outcome
    decreases |code|
  {
    if code == [] then Running(s)
    else
      match exec(code[0], s)
      case Running(s') => ExecAll(exec, code[1..], s')
      case other => other
  }

  lemma {:induction false} ExecAllConcat(exec: (Ins, Cpu) -> Outcome, a: seq<Ins>, b: seq<Ins>, s: Cpu, s': Cpu)
    requires ExecAll(exec, a, s) == Running(s')
    ensures ExecAll(exec, a + b, s) == ExecAll(exec, b, s')
    decreases |a|
  {
    if a == [] {
      assert a + b == b;
    } else {
      assert (a + b)[1..] == a[1..] + b;
      ExecAllConcat(exec, a[1..], b, exec(a[0], s).s, s');
    }
  }

  lemma ExecOne(exec: (Ins, Cpu) -> Outcome, a: Ins, s0: Cpu, s1: Cpu)
    requires exec(a, s0) == Running(s1)
    ensures ExecAll(exec, [a], s0) == Running(s1)
  {
    assert [a][1..] == [];
  }

  lemma ExecTwo(exec: (Ins, Cpu) -> Outcome, a: Ins, b: Ins, s0: Cpu, s1: Cpu, s2: Cpu)
    requires exec(a, s0) == Running(s1) && exec(b, s1) == Running(s2)
    ensures ExecAll(exec, [a, b], s0) == Running(s2)
  {
    assert [a, b][1..] == [b];
    ExecOne(exec, b, s1, s2);
  }

  lemma ExecThree(exec: (Ins, Cpu) -> Outcome, a: Ins, b: Ins, c: Ins, s0: Cpu, s1: Cpu, s2: Cpu, s3: Cpu)
    requires exec(a, s0) == Running(s1) && exec(b, s1) == Running(s2) && exec(c, s2) == Running(s3)
    ensures ExecAll(exec, [a, b, c], s0) == Running(s3)
  {
    assert [a, b, c][1..] == [b, c];
    ExecTwo(exec, b, c, s1, s2, s3);
  }

  lemma ExecFour(exec: (Ins, Cpu) -> Outcome, a: Ins, b: Ins, c: Ins, d: Ins, s0: Cpu, s1: Cpu, s2: Cpu, s3: Cpu, s4: Cpu)
    requires exec(a, s0) == Running(s1) && exec(b, s1) == Running(s2)
    requires exec(c, s2) == Running(s3) && exec(d, s3) == Running(s4)
    ensures ExecAll(exec, [a, b, c, d], s0) == Running(s4)
  {
    assert [a, b, c, d][1..] == [b, c, d];
    ExecThree(exec, b, c, d, s1, s2, s3, s4);
  }

  /** Width in bytes of an element. */
  function Width(bits: nat): nat { if bits == 64 then 8 else 4 }

  /** The address in slot `slot` of the pointer table. */
  ghost function SlotPtr(mem: Memory, table: u64, slot: nat): u64
    requires Mapped(mem, table + 8 * slot, 8)
  {
    FromLe64(Bytes(mem, table + 8 * slot, 8))
  }

  ghost predicate SlotReadable(mem: Memory, table: u64, bits: nat, slot: nat, count: nat) {
    table + 8 * slot + 8 <= TWO_64 && Mapped(mem, table + 8 * slot, 8) &&
    SlotPtr(mem, table, slot) + Width(bits) * count <= TWO_64 &&
    Mapped(mem, SlotPtr(mem, table, slot), Width(bits) * count)
  }

  /** Element `i` of the buffer in slot `slot`, as the kernel reads it. */
  ghost function SlotElement(fpu: Fpu, mem: Memory, table: u64, bits: nat, slot: nat, i: nat): u64
    requires SlotReadable(mem, table, bits, slot, i + 1)
  {
    var ptr := SlotPtr(mem, table, slot);
    if bits == 64 then FromLe64(Bytes(mem, ptr + 8 * i, 8))
    else fpu.widen(FromLe32(Bytes(mem, ptr + 4 * i, 4)))
  }

  /** All slots can be read at element `i`, and `load` is what is read there. */
  ghost predicate LoadsFrom(fpu: Fpu, mem: Memory, table: u64, bits: nat, slots: nat, i: nat, load: nat -> u64) {
    forall slot: nat :: slot < slots ==> SlotLoads(fpu, mem, table, bits, slot, i, load)
  }

  ghost predicate SlotLoads(fpu: Fpu, mem: Memory, table: u64, bits: nat, slot: nat, i: nat, load: nat -> u64) {
    SlotReadable(mem, table, bits, slot, i + 1) && load(slot) == SlotElement(fpu, mem, table, bits, slot, i)
  }

  /** The fixed registers of the loop. */
  ghost predicate InLoop(s: Cpu, table: u64, out: u64, count: u64, i: nat) {
    ValidCpu(s) && s.gpr[RBX] == table && s.gpr[R14] == out && s.gpr[R15] == count && s.gpr[R10] == i
  }

  /** `s'` differs from `s` in rax, vector registers and position only. */
  ghost predicate OnlyScratch(s: Cpu, s': Cpu) {
    ValidCpu(s) && ValidCpu(s') && s'.mem == s.mem && s'.gpr == s.gpr[RAX := s'.gpr[RAX]]
  }

  /** `s` moved past `ins`. */
  function After(s: Cpu, ins: Ins): Cpu
    requires Encodable(ins)
  {
    s.(rip := s.rip + |Enc(ins)|)
  }

  lemma StepLoadPtr(fpu: Fpu, s: Cpu, slot: nat)
    requires ValidCpu(s) && slot < MAX_INPUTS && s.gpr[RBX] + 8 * slot + 8 <= TWO_64
    requires Mapped(s.mem, s.gpr[RBX] + 8 * slot, 8)
    ensures Executor(fpu)(LoadDisp(RAX, RBX, 8 * slot), s) ==
      Running(After(s, LoadDisp(RAX, RBX, 8 * slot)).(gpr := s.gpr[RAX := SlotPtr(s.mem, s.gpr[RBX], slot)]))
  {
    assert Wrap64(s.gpr[RBX] + Signed32(8 * slot)) == s.gpr[RBX] + 8 * slot;
  }

  lemma StepMovsdLoad(fpu: Fpu, s: Cpu, x: reg, i: nat)
    requires ValidCpu(s) && s.gpr[R10] == i && s.gpr[RAX] + 8 * i + 8 <= TWO_64
    requires Mapped(s.mem, s.gpr[RAX] + 8 * i, 8)
    ensures Executor(fpu)(MovsdLoad(x, RAX, R10, 8), s) ==
      Running(After(s, MovsdLoad(x, RAX, R10, 8)).(xmm := s.xmm[x := FromLe64(Bytes(s.mem, s.gpr[RAX] + 8 * i, 8))]))
  {
    assert Wrap64(s.gpr[RAX] + s.gpr[R10] * 8) == s.gpr[RAX] + 8 * i;
  }

  lemma StepLoad32(fpu: Fpu, s: Cpu, i: nat)
    requires ValidCpu(s) && s.gpr[R10] == i && s.gpr[RAX] + 4 * i + 4 <= TWO_64
    requires Mapped(s.mem, s.gpr[RAX] + 4 * i, 4)
    ensures Executor(fpu)(Load32(RAX, RAX, R10, 4), s) ==
      Running(After(s, Load32(RAX, RAX, R10, 4)).(gpr := s.gpr[RAX := FromLe32(Bytes(s.mem, s.gpr[RAX] + 4 * i, 4))]))
  {
    assert Wrap64(s.gpr[RAX] + s.gpr[R10] * 4) == s.gpr[RAX] + 4 * i;
  }

  lemma StepMovd(fpu: Fpu, s: Cpu, x: reg)
    requires ValidCpu(s) && s.gpr[RAX] < TWO_32
    ensures Executor(fpu)(MovdToXmm(x, RAX), s) == Running(After(s, MovdToXmm(x, RAX)).(xmm := s.xmm[x := s.gpr[RAX]]))
  {
  }

  lemma StepWiden(fpu: Fpu, s: Cpu, x: reg)
    requires ValidCpu(s) && s.xmm[x] < TWO_32
    ensures Executor(fpu)(Cvtss2sd(x, x), s) == Running(After(s, Cvtss2sd(x, x)).(xmm := s.xmm[x := fpu.widen(s.xmm[x])]))
  {
  }

  lemma SimLoad64(fpu: Fpu, s: Cpu, s1: Cpu, x: reg, slot: nat, ptr: u64, i: nat)
    returns (s': Cpu)
    requires ValidCpu(s) && ValidCpu(s1) && slot < MAX_INPUTS && s1.gpr[R10] == i && s1.gpr[RAX] == ptr
    requires ptr + 8 * i + 8 <= TWO_64 && Mapped(s1.mem, ptr + 8 * i, 8)
    requires Executor(fpu)(LoadDisp(RAX, RBX, 8 * slot), s) == Running(s1)
    ensures ExecAll(Executor(fpu), LoadCode(x, slot, 64), s) == Running(s')
    ensures ValidCpu(s') && s'.mem == s1.mem && s'.gpr == s1.gpr
    ensures s'.xmm == s1.xmm[x := FromLe64(Bytes(s1.mem, ptr + 8 * i, 8))]
  {
    hide Executor, Enc;
    s' := After(s1, MovsdLoad(x, RAX, R10, 8)).(xmm := s1.xmm[x := FromLe64(Bytes(s1.mem, ptr + 8 * i, 8))]);
    StepMovsdLoad(fpu, s1, x, i);
    ExecTwo(Executor(fpu), LoadDisp(RAX, RBX, 8 * slot), MovsdLoad(x, RAX, R10, 8), s, s1, s');
  }

  lemma SimLoad32(fpu: Fpu, s: Cpu, s1: Cpu, x: reg, slot: nat, ptr: u64, i: nat)
    returns (s': Cpu)
    requires ValidCpu(s) && ValidCpu(s1) && slot < MAX_INPUTS && s1.gpr[R10] == i && s1.gpr[RAX] == ptr
    requires ptr + 4 * i + 4 <= TWO_64 && Mapped(s1.mem, ptr + 4 * i, 4)
    requires Executor(fpu)(LoadDisp(RAX, RBX, 8 * slot), s) == Running(s1)
    ensures ExecAll(Executor(fpu), LoadCode(x, slot, 32), s) == Running(s')
    ensures ValidCpu(s') && s'.mem == s1.mem && s'.gpr == s1.gpr[RAX := s'.gpr[RAX]]
    ensures s'.xmm == s1.xmm[x := fpu.widen(FromLe32(Bytes(s1.mem, ptr + 4 * i, 4)))]
  {
    hide Executor, Enc, FromLe;
    var v := FromLe32(Bytes(s1.mem, ptr + 4 * i, 4));
    var s2 := After(s1, Load32(RAX, RAX, R10, 4)).(gpr := s1.gpr[RAX := v]);
    StepLoad32(fpu, s1, i);
    var s3 := After(s2, MovdToXmm(x, RAX)).(xmm := s2.xmm[x := v]);
    StepMovd(fpu, s2, x);
    s' := After(s3, Cvtss2sd(x, x)).(xmm := s3.xmm[x := fpu.widen(v)]);
    StepWiden(fpu, s3, x);
    ExecFour(Executor(fpu), LoadDisp(RAX, RBX, 8 * slot), Load32(RAX, RAX, R10, 4), MovdToXmm(x, RAX), Cvtss2sd(x, x),
             s, s1, s2, s3, s');
  }

  /** Loading: the destination register receives the element, the others keep their values. */
  lemma SimLoad(fpu: Fpu, s: Cpu, x: reg, slot: nat, bits: nat, table: u64, out: u64, count: u64, i: nat)
    returns (s': Cpu)
    requires InLoop(s, table, out, count, i) && (bits == 32 || bits == 64) && slot < MAX_INPUTS
    requires SlotReadable(s.mem, table, bits, slot, i + 1)
    ensures ExecAll(Executor(fpu), LoadCode(x, slot, bits), s) == Running(s')
    ensures OnlyScratch(s, s') && s'.xmm == s.xmm[x := SlotElement(fpu, s.mem, table, bits, slot, i)]
  {
    hide Executor, Enc;
    var ptr := SlotPtr(s.mem, table, slot);
    var s1 := After(s, LoadDisp(RAX, RBX, 8 * slot)).(gpr := s.gpr[RAX := ptr]);
    StepLoadPtr(fpu, s, slot);
    if bits == 64 {
      s' := SimLoad64(fpu, s, s1, x, slot, ptr, i);
    } else {
      s' := SimLoad32(fpu, s, s1, x, slot, ptr, i);
    }
  }

  lemma StepMovImm64(fpu: Fpu, s: Cpu, v: u64)
    requires ValidCpu(s)
    ensures Executor(fpu)(MovImm64(RAX, v), s) == Running(After(s, MovImm64(RAX, v)).(gpr := s.gpr[RAX := v]))
  {
  }

  lemma StepMovImm32(fpu: Fpu, s: Cpu, v: u32)
    requires ValidCpu(s)
    ensures Executor(fpu)(MovImm32(RAX, v), s) == Running(After(s, MovImm32(RAX, v)).(gpr := s.gpr[RAX := v]))
  {
  }

  lemma StepMovq(fpu: Fpu, s: Cpu, x: reg)
    requires ValidCpu(s)
    ensures Executor(fpu)(MovqToXmm(x, RAX), s) == Running(After(s, MovqToXmm(x, RAX)).(xmm := s.xmm[x := s.gpr[RAX]]))
  {
  }

  lemma StepMovsd(fpu: Fpu, s: Cpu, xd: reg, xl: reg)
    requires ValidCpu(s)
    ensures Executor(fpu)(MovsdXmm(xd, xl), s) == Running(After(s, MovsdXmm(xd, xl)).(xmm := s.xmm[xd := s.xmm[xl]]))
  {
  }

  lemma StepSse(fpu: Fpu, s: Cpu, op: BinOp, xd: reg, xr: reg)
    requires ValidCpu(s)
    ensures Executor(fpu)(Sse(op, xd, xr), s) ==
      Running(After(s, Sse(op, xd, xr)).(xmm := s.xmm[xd := fpu.Apply(op, s.xmm[xd], s.xmm[xr])]))
  {
  }

  function ConstCode(fpu: Fpu, x: reg, val: u64, bits: nat): seq<Ins> {
    if bits == 64 then [MovImm64(RAX, val), MovqToXmm(x, RAX)]
    else [MovImm32(RAX, fpu.narrow(val)), MovdToXmm(x, RAX), Cvtss2sd(x, x)]
  }

  /** A constant arrives rounded to the width of the kernel. */
  lemma SimConst(fpu: Fpu, s: Cpu, x: reg, val: u64, bits: nat) returns (s': Cpu)
    requires ValidCpu(s) && (bits == 32 || bits == 64)
    ensures ExecAll(Executor(fpu), ConstCode(fpu, x, val, bits), s) == Running(s')
    ensures OnlyScratch(s, s') && s'.xmm == s.xmm[x := Rounded(fpu, bits, val)]
  {
    hide Executor, Enc;
    if bits == 64 {
      var s1 := After(s, MovImm64(RAX, val)).(gpr := s.gpr[RAX := val]);
      StepMovImm64(fpu, s, val);
      s' := After(s1, MovqToXmm(x, RAX)).(xmm := s1.xmm[x := val]);
      StepMovq(fpu, s1, x);
      ExecTwo(Executor(fpu), MovImm64(RAX, val), MovqToXmm(x, RAX), s, s1, s');
    } else {
      var v := fpu.narrow(val);
      var s1 := After(s, MovImm32(RAX, v)).(gpr := s.gpr[RAX := v]);
      StepMovImm32(fpu, s, v);
      var s2 := After(s1, MovdToXmm(x, RAX)).(xmm := s1.xmm[x := v]);
      StepMovd(fpu, s1, x);
      s' := After(s2, Cvtss2sd(x, x)).(xmm := s2.xmm[x := fpu.widen(v)]);
      StepWiden(fpu, s2, x);
      ExecThree(Executor(fpu), MovImm32(RAX, v), MovdToXmm(x, RAX), Cvtss2sd(x, x), s, s1, s2, s');
    }
  }

  function BinCode(op: BinOp, xd: reg, xl: reg, xr: reg): seq<Ins> {
    if xd != xl then [MovsdXmm(xd, xl), Sse(op, xd, xr)] else [Sse(op, xd, xr)]
  }

  /**
   * The two-address form computes the three-address operation, provided the
   * destination is not the right operand: the move would destroy it.
   */
  lemma SimBin(fpu: Fpu, s: Cpu, op: BinOp, xd: reg, xl: reg, xr: reg) returns (s': Cpu)
    requires ValidCpu(s) && xd != xr
    ensures ExecAll(Executor(fpu), BinCode(op, xd, xl, xr), s) == Running(s')
    ensures OnlyScratch(s, s') && s'.xmm == s.xmm[xd := fpu.Apply(op, s.xmm[xl], s.xmm[xr])]
  {
    hide Executor, Enc;
    if xd != xl {
      var s1 := After(s, MovsdXmm(xd, xl)).(xmm := s.xmm[xd := s.xmm[xl]]);
      StepMovsd(fpu, s, xd, xl);
      s' := After(s1, Sse(op, xd, xr)).(xmm := s1.xmm[xd := fpu.Apply(op, s1.xmm[xd], s1.xmm[xr])]);
      StepSse(fpu, s1, op, xd, xr);
      ExecTwo(Executor(fpu), MovsdXmm(xd, xl), Sse(op, xd, xr), s, s1, s');
    } else {
      s' := After(s, Sse(op, xd, xr)).(xmm := s.xmm[xd := fpu.Apply(op, s.xmm[xd], s.xmm[xr])]);
      StepSse(fpu, s, op, xd, xr);
      ExecOne(Executor(fpu), Sse(op, xd, xr), s, s');
    }
  }

  lemma StepNarrow(fpu: Fpu, s: Cpu, x: reg)
    requires ValidCpu(s)
    ensures Executor(fpu)(Cvtsd2ss(x, x), s) == Running(After(s, Cvtsd2ss(x, x)).(
      xmm := s.xmm[x := s.xmm[x] / TWO_32 * TWO_32 + fpu.narrow(s.xmm[x])]))
  {
  }

  lemma StepMovdFrom(fpu: Fpu, s: Cpu, x: reg)
    requires ValidCpu(s)
    ensures Executor(fpu)(MovdFromXmm(RAX, x), s) ==
      Running(After(s, MovdFromXmm(RAX, x)).(gpr := s.gpr[RAX := s.xmm[x] % TWO_32]))
  {
  }

  lemma StepMovsdStore(fpu: Fpu, s: Cpu, x: reg, i: nat)
    requires ValidCpu(s) && s.gpr[R10] == i && s.gpr[R14] + 8 * i + 8 <= TWO_64
    requires Mapped(s.mem, s.gpr[R14] + 8 * i, 8)
    ensures Executor(fpu)(MovsdStore(R14, R10, 8, x), s) == Running(After(s, MovsdStore(R14, R10, 8, x)).(
      mem := Write(s.mem, s.gpr[R14] + 8 * i, LeBytes(s.xmm[x], 8))))
  {
    hide Write, LeBytes;
    assert Wrap64(s.gpr[R14] + s.gpr[R10] * 8) == s.gpr[R14] + 8 * i;
  }

  lemma StepStore32(fpu: Fpu, s: Cpu, i: nat)
    requires ValidCpu(s) && s.gpr[R10] == i && s.gpr[R14] + 4 * i + 4 <= TWO_64
    requires Mapped(s.mem, s.gpr[R14] + 4 * i, 4) && s.gpr[RAX] < TWO_32
    ensures Executor(fpu)(Store32(R14, R10, 4, RAX), s) == Running(After(s, Store32(R14, R10, 4, RAX)).(
      mem := Write(s.mem, s.gpr[R14] + 4 * i, LeBytes(s.gpr[RAX], 4))))
  {
    hide Write, LeBytes;
    assert Wrap64(s.gpr[R14] + s.gpr[R10] * 4) == s.gpr[R14] + 4 * i;
  }

  function StoreCode(x: reg, bits: nat): seq<Ins> {
    if bits == 64 then [MovsdStore(R14, R10, 8, x)]
    else [Cvtsd2ss(x, x), MovdFromXmm(RAX, x), Store32(R14, R10, 4, RAX)]
  }

  /** Storing writes the element, rounded to its width, and touches no other memory. */
  lemma SimStore(fpu: Fpu, s: Cpu, x: reg, bits: nat, table: u64, out: u64, count: u64, i: nat) returns (s': Cpu)
    requires InLoop(s, table, out, count, i) && (bits == 32 || bits == 64)
    requires out + Width(bits) * (i + 1) <= TWO_64 && Mapped(s.mem, out + Width(bits) * i, Width(bits))
    ensures ExecAll(Executor(fpu), StoreCode(x, bits), s) == Running(s')
    ensures ValidCpu(s') && s'.gpr == s.gpr[RAX := s'.gpr[RAX]]
    ensures s'.mem == Write(s.mem, out + Width(bits) * i, StoredBytes(fpu, bits, s.xmm[x]))
  {
    hide Executor, Enc, Write, LeBytes;
    if bits == 64 {
      s' := After(s, MovsdStore(R14, R10, 8, x)).(mem := Write(s.mem, out + 8 * i, LeBytes(s.xmm[x], 8)));
      StepMovsdStore(fpu, s, x, i);
      ExecOne(Executor(fpu), MovsdStore(R14, R10, 8, x), s, s');
    } else {
      var v := fpu.narrow(s.xmm[x]);
      var s1 := After(s, Cvtsd2ss(x, x)).(xmm := s.xmm[x := s.xmm[x] / TWO_32 * TWO_32 + v]);
      StepNarrow(fpu, s, x);
      assert s1.xmm[x] % TWO_32 == v;
      var s2 := After(s1, MovdFromXmm(RAX, x)).(gpr := s1.gpr[RAX := v]);
      StepMovdFrom(fpu, s1, x);
      s' := After(s2, Store32(R14, R10, 4, RAX)).(mem := Write(s2.mem, out + 4 * i, LeBytes(v, 4)));
      StepStore32(fpu, s2, i);
      ExecThree(Executor(fpu), Cvtsd2ss(x, x), MovdFromXmm(RAX, x), Store32(R14, R10, 4, RAX), s, s1, s2, s');
    }
  }

  /** Before instruction k: every value that is still needed sits in its register. */
  ghost predicate Holding(insts: seq<Inst>, alloc: seq<nat>, k: nat, xmm: seq<u64>, value: nat -> u64) {
    |xmm| == 16 &&
    forall v :: 0 <= v < k && LastUse(insts, v) >= k && v < |alloc| && alloc[v] < 16 ==> xmm[alloc[v]] == value(v)
  }

  /** The facts about an allocated program that the simulation uses. */
  ghost predicate Allocated(insts: seq<Inst>, n: nat, alloc: seq<nat>) {
    InOrder(insts, n) && |alloc| == n && AllInstOk(alloc, insts) &&
    (forall v :: 0 <= v < n ==> alloc[v] < NUM_PHYS_REGS) &&
    (forall v, w :: 0 <= v < w < n && LastUse(insts, v) >= w ==> alloc[v] != alloc[w])
  }

  lemma ProgramAllocated(p: NtProgram)
    requires ValidProgram(p)
    ensures Allocated(p.insts, p.numVregs, p.alloc)
  {
    ProgramInstsOk(p);
    InOrderIntervals(p.insts, p.numVregs);
    forall v | 0 <= v < p.numVregs
      ensures p.alloc[v] < NUM_PHYS_REGS
    {
      assert p.intervals[v].vreg == v;
    }
    forall v, w | 0 <= v < w < p.numVregs && LastUse(p.insts, v) >= w
      ensures p.alloc[v] != p.alloc[w]
    {
      assert p.intervals[v] == LiveInterval(v, v, LastUse(p.insts, v));
      assert p.intervals[w] == LiveInterval(w, w, LastUse(p.insts, w));
      assert Overlap(p.intervals[v], p.intervals[w]);
    }
  }

  /** Writing the register of value k keeps all values needed later. */
  lemma HoldingStep(insts: seq<Inst>, n: nat, alloc: seq<nat>, k: nat, xmm: seq<u64>, value: nat -> u64, result: u64)
    requires Allocated(insts, n, alloc) && k < n && Holding(insts, alloc, k, xmm, value) && result == value(k)
    ensures Holding(insts, alloc, k + 1, xmm[alloc[k] := result], value)
  {
  }

  /** The operands of instruction k are in their registers, and k's register is neither. */
  lemma OperandsHeld(insts: seq<Inst>, n: nat, alloc: seq<nat>, k: nat, xmm: seq<u64>, value: nat -> u64)
    requires Allocated(insts, n, alloc) && k < n && Holding(insts, alloc, k, xmm, value)
    requires insts[k].BinInst? && DefinesInOrder(insts[k], k)
    ensures xmm[alloc[insts[k].lhs]] == value(insts[k].lhs) && xmm[alloc[insts[k].rhs]] == value(insts[k].rhs)
    ensures alloc[k] != alloc[insts[k].lhs] && alloc[k] != alloc[insts[k].rhs]
  {
    LastUseIsLast(insts, insts[k].lhs);
    LastUseIsLast(insts, insts[k].rhs);
    assert Mentions(insts[k], insts[k].lhs) && Mentions(insts[k], insts[k].rhs);
  }

  /** The values of all registers of a program, as a function. */
  ghost function Values(fpu: Fpu, ssa: seq<Inst>, load: nat -> u64): nat -> u64
    requires Ordered(ssa)
  {
    (v: nat) => if v < |ssa| then Value(fpu, ssa, load, v) else 0
  }

  /** Everything fixed while one element is computed. */
  ghost predicate Ready(fpu: Fpu, insts: seq<Inst>, n: nat, alloc: seq<nat>, bits: nat, slots: nat,
                        s: Cpu, table: u64, out: u64, count: u64, i: nat, load: nat -> u64) {
    Allocated(insts, n, alloc) && (bits == 32 || bits == 64) && slots <= MAX_INPUTS &&
    (forall k :: 0 <= k < n ==> WidthAndSlot(insts[k], bits, slots)) &&
    InLoop(s, table, out, count, i) && LoadsFrom(fpu, s.mem, table, bits, slots, i, load)
  }

  lemma SsaOf(insts: seq<Inst>, n: nat)
    requires InOrder(insts, n)
    ensures Ordered(insts[..n])
  {
  }

  /** One SSA instruction. */
  lemma SimInst(fpu: Fpu, insts: seq<Inst>, n: nat, alloc: seq<nat>, bits: nat, slots: nat,
                s: Cpu, table: u64, out: u64, count: u64, i: nat, load: nat -> u64, k: nat)
    returns (s': Cpu)
    requires Ready(fpu, insts, n, alloc, bits, slots, s, table, out, count, i, load) && k < n
    requires Ordered(insts[..n]) && Holding(insts, alloc, k, s.xmm, Values(fpu, insts[..n], load))
    ensures ExecAll(Executor(fpu), InsOf(fpu, alloc, insts[k]), s) == Running(s')
    ensures OnlyScratch(s, s') && Holding(insts, alloc, k + 1, s'.xmm, Values(fpu, insts[..n], load))
  {
    hide Executor, ExecAll, Holding, LoadCode, ConstCode, BinCode;
    assert InstOk(alloc, insts[k]) && WidthAndSlot(insts[k], bits, slots) && DefinesInOrder(insts[k], k);
    var values := Values(fpu, insts[..n], load);
    assert insts[..n][k] == insts[k];
    var result: u64;
    match insts[k] {
      case Load(dst, slot, _) =>
        assert SlotLoads(fpu, s.mem, table, bits, slot, i, load);
        s' := SimLoad(fpu, s, alloc[k], slot, bits, table, out, count, i);
        result := SlotElement(fpu, s.mem, table, bits, slot, i);
        LoadCodeIs(fpu, alloc, insts[k]);
      case ConstInst(dst, val, _) =>
        s' := SimConst(fpu, s, alloc[k], val, bits);
        result := Rounded(fpu, bits, val);
        ConstCodeIs(fpu, alloc, insts[k]);
      case BinInst(dst, op, lhs, rhs) =>
        OperandsHeld(insts, n, alloc, k, s.xmm, values);
        s' := SimBin(fpu, s, op, alloc[k], alloc[lhs], alloc[rhs]);
        result := fpu.Apply(op, s.xmm[alloc[lhs]], s.xmm[alloc[rhs]]);
        BinCodeIs(fpu, alloc, insts[k]);
    }
    assert result == values(k);
    HoldingStep(insts, n, alloc, k, s.xmm, values, result);
  }

  lemma LoadCodeIs(fpu: Fpu, alloc: seq<nat>, inst: Inst)
    requires InstOk(alloc, inst) && inst.Load?
    ensures InsOf(fpu, alloc, inst) == LoadCode(alloc[inst.dst], inst.inputIdx, inst.bits)
  {
  }

  lemma ConstCodeIs(fpu: Fpu, alloc: seq<nat>, inst: Inst)
    requires InstOk(alloc, inst) && inst.ConstInst?
    ensures InsOf(fpu, alloc, inst) == ConstCode(fpu, alloc[inst.dst], inst.val, inst.bits)
  {
  }

  lemma BinCodeIs(fpu: Fpu, alloc: seq<nat>, inst: Inst)
    requires InstOk(alloc, inst) && inst.BinInst?
    ensures InsOf(fpu, alloc, inst) == BinCode(inst.op, alloc[inst.dst], alloc[inst.lhs], alloc[inst.rhs])
  {
  }

  lemma StoreCodeIs(fpu: Fpu, alloc: seq<nat>, inst: Inst)
    requires InstOk(alloc, inst) && inst.Store?
    ensures InsOf(fpu, alloc, inst) == StoreCode(alloc[inst.src], inst.bits)
  {
  }

  /** The first k instructions. */
  lemma {:induction false} SimPrefix(fpu: Fpu, insts: seq<Inst>, n: nat, alloc: seq<nat>, bits: nat, slots: nat,
                s: Cpu, table: u64, out: u64, count: u64, i: nat, load: nat -> u64, k: nat)
    returns (s': Cpu)
    requires Ready(fpu, insts, n, alloc, bits, slots, s, table, out, count, i, load) && k <= n
    requires Ordered(insts[..n])
    ensures ExecAll(Executor(fpu), Body(fpu, alloc, insts[..k]), s) == Running(s')
    ensures OnlyScratch(s, s') && Holding(insts, alloc, k, s'.xmm, Values(fpu, insts[..n], load))
    decreases k
  {
    hide Executor, InsOf, Holding, Body, ExecAll;
    ReadyOk(fpu, insts, n, alloc, bits, slots, s, table, out, count, i, load);
    hide Ready, Ordered, Values;
    if k == 0 {
      s' := s;
      PrefixStarts(fpu, alloc, insts, s, Values(fpu, insts[..n], load));
    } else {
      var m := SimPrefix(fpu, insts, n, alloc, bits, slots, s, table, out, count, i, load, k - 1);
      ReadyKept(fpu, insts, n, alloc, bits, slots, s, m, table, out, count, i, load);
      s' := SimInst(fpu, insts, n, alloc, bits, slots, m, table, out, count, i, load, k - 1);
      BodySplit(fpu, alloc, insts, k - 1);
      ExecAllConcat(Executor(fpu), Body(fpu, alloc, insts[..k - 1]), InsOf(fpu, alloc, insts[k - 1]), s, m);
    }
  }

  lemma ReadyOk(fpu: Fpu, insts: seq<Inst>, n: nat, alloc: seq<nat>, bits: nat, slots: nat,
                s: Cpu, table: u64, out: u64, count: u64, i: nat, load: nat -> u64)
    requires Ready(fpu, insts, n, alloc, bits, slots, s, table, out, count, i, load)
    ensures AllInstOk(alloc, insts) && n <= |insts| && n <= |alloc| && ValidCpu(s)
  {
  }

  lemma ReadyKept(fpu: Fpu, insts: seq<Inst>, n: nat, alloc: seq<nat>, bits: nat, slots: nat,
                  s: Cpu, m: Cpu, table: u64, out: u64, count: u64, i: nat, load: nat -> u64)
    requires Ready(fpu, insts, n, alloc, bits, slots, s, table, out, count, i, load) && OnlyScratch(s, m)
    ensures Ready(fpu, insts, n, alloc, bits, slots, m, table, out, count, i, load)
  {
    hide LoadsFrom, Allocated;
  }

  lemma PrefixStarts(fpu: Fpu, alloc: seq<nat>, insts: seq<Inst>, s: Cpu, values: nat -> u64)
    requires AllInstOk(alloc, insts) && ValidCpu(s)
    ensures ExecAll(Executor(fpu), Body(fpu, alloc, insts[..0]), s) == Running(s)
    ensures Holding(insts, alloc, 0, s.xmm, values)
  {
  }

  lemma BodySplit(fpu: Fpu, alloc: seq<nat>, insts: seq<Inst>, k: nat)
    requires AllInstOk(alloc, insts) && k < |insts|
    ensures Body(fpu, alloc, insts[..k + 1]) == Body(fpu, alloc, insts[..k]) + InsOf(fpu, alloc, insts[k])
  {
    assert insts[..k + 1][..k] == insts[..k];
  }

  /**
   * One turn of the loop body stores element `i` of the result: the value of the
   * stored register, whichever registers the allocator picked.
   */
  lemma SimBody(fpu: Fpu, insts: seq<Inst>, n: nat, alloc: seq<nat>, bits: nat, slots: nat,
                s: Cpu, table: u64, out: u64, count: u64, i: nat, load: nat -> u64)
    returns (s': Cpu)
    requires Ready(fpu, insts, n, alloc, bits, slots, s, table, out, count, i, load)
    requires insts[n].bits == bits && Ordered(insts[..n])
    requires out + Width(bits) * (i + 1) <= TWO_64 && Mapped(s.mem, out + Width(bits) * i, Width(bits))
    ensures ExecAll(Executor(fpu), Body(fpu, alloc, insts), s) == Running(s')
    ensures ValidCpu(s') && s'.gpr == s.gpr[RAX := s'.gpr[RAX]]
    ensures s'.mem == Write(s.mem, out + Width(bits) * i,
                            StoredBytes(fpu, bits, Value(fpu, insts[..n], load, insts[n].src)))
  {
    hide Executor, InsOf, Body, Write;
    var m := SimPrefix(fpu, insts, n, alloc, bits, slots, s, table, out, count, i, load, n);
    var src := insts[n].src;
    LastUseIsLast(insts, src);
    assert Mentions(insts[n], src);
    assert m.xmm[alloc[src]] == Values(fpu, insts[..n], load)(src);
    assert InstOk(alloc, insts[n]);
    s' := SimStore(fpu, m, alloc[src], bits, table, out, count, i);
    StoreCodeIs(fpu, alloc, insts[n]);
    BodySplit(fpu, alloc, insts, n);
    assert insts[..n + 1] == insts;
    ExecAllConcat(Executor(fpu), Body(fpu, alloc, insts[..n]), InsOf(fpu, alloc, insts[n]), s, m);
  }
}
