/**
 * The part of x86-64 the emitter uses: instruction decoding as in sections 2.1
 * and 2.2.1 of volume 2 of the Intel Software Developer's Manual, and a machine
 * that runs the decoded instructions. Nothing here depends on the emitter.
 */
module X86 {
  import opened Words
  import opened DataTypes

  const RAX := 0
  const RDX := 2
  const RBX := 3
  const RSP := 4
  const RBP := 5
  const RSI := 6
  const RDI := 7
  const R10 := 10
  const R14 := 14
  const R15 := 15

  type reg = r: int | 0 <= r < 16

  datatype Ins =
    | Push(r: reg)
    | Pop(r: reg)
    | MovRR(dst: reg, src: reg)
    | AddImm8(r: reg, imm: byte)
    | SubImm8(r: reg, imm: byte)
    | XorRR(dst: reg, src: reg)
    | CmpRR(l: reg, r_: reg)
    | Inc(r: reg)
    | Ret
    | Jge(rel: u32)
    | Jmp(rel: u32)
    | LoadDisp(dst: reg, base: reg, disp: u32)
    | Load32(dst: reg, base: reg, index: reg, scale: nat)
    | Store32(base: reg, index: reg, scale: nat, src: reg)
    | MovImm64(r: reg, imm64: u64)
    | MovImm32(r: reg, imm32: u32)
    | MovdToXmm(dst: reg, src: reg)
    | MovqToXmm(dst: reg, src: reg)
    | MovdFromXmm(dst: reg, src: reg)
    | MovsdXmm(dst: reg, src: reg)
    | MovsdLoad(dst: reg, base: reg, index: reg, scale: nat)
    | MovsdStore(base: reg, index: reg, scale: nat, src: reg)
    | Sse(op: BinOp, dst: reg, src: reg)
    | Cvtss2sd(dst: reg, src: reg)
    | Cvtsd2ss(dst: reg, src: reg)

  // ---------------------------------------------------------------- decoding

  /** A REX prefix is 0100WRXB; its absence means all four bits are 0. */
  datatype Rex = Rex(w: bool, r: bool, x: bool, b: bool)

  const NO_REX := Rex(false, false, false, false)

  function RexOf(byte_: byte): Rex {
    Rex(byte_ / 8 % 2 == 1, byte_ / 4 % 2 == 1, byte_ / 2 % 2 == 1, byte_ % 2 == 1)
  }

  function Ext(bit: bool, low: int): reg
    requires 0 <= low < 8
  {
    low + if bit then 8 else 0
  }

  datatype Decoded = Decoded(ins: Ins, len: nat)

  /** What a ModRM byte (with SIB byte and displacement, if any) designates. */
  datatype Operand =
    | Direct(rm: reg)
    | Indexed(base: reg, index: reg, scale: nat)
    | Based(base: reg, disp: u32)

  datatype ModRm = ModRm(reg_: reg, rm: Operand, len: nat)

  /** The three forms in use: register, [base + disp32], and [base + index * scale]. */
  function DecodeModRm(rex: Rex, bs: seq<byte>): Option<ModRm> {
    if bs == [] then None
    else
      var mod, r, rm := bs[0] / 64, Ext(rex.r, bs[0] / 8 % 8), bs[0] % 8;
      if mod == 3 then Some(ModRm(r, Direct(Ext(rex.b, rm)), 1))
      else if mod == 2 && rm != 4 && |bs| >= 5 then
        Some(ModRm(r, Based(Ext(rex.b, rm), FromLe32(bs[1..5])), 5))
      else if mod == 0 && rm == 4 && |bs| >= 2 then
        var scale, index, base := bs[1] / 64, Ext(rex.x, bs[1] / 8 % 8), bs[1] % 8;
        // index 100 without REX.X means no index, base 101 with mod 00 means no base
        if index == 4 || base == 5 then None
        else Some(ModRm(r, Indexed(Ext(rex.b, base), index, [1, 2, 4, 8][scale]), 2))
      else None
  }

  /** One-byte opcodes without mandatory prefix; `bs` starts after the REX prefix. */
  function DecodePlain(rex: Rex, bs: seq<byte>): Option<Decoded>
    requires |bs| >= 1
  {
    var op := bs[0];
    if 0x50 <= op < 0x58 then Some(Decoded(Push(Ext(rex.b, op - 0x50)), 1))
    else if 0x58 <= op < 0x60 then Some(Decoded(Pop(Ext(rex.b, op - 0x58)), 1))
    else if 0xB8 <= op < 0xC0 then
      var r := Ext(rex.b, op - 0xB8);
      if rex.w then
        if |bs| >= 9 then Some(Decoded(MovImm64(r, FromLe64(bs[1..9])), 9)) else None
      else
        if |bs| >= 5 then Some(Decoded(MovImm32(r, FromLe32(bs[1..5])), 5)) else None
    else if op == 0xC3 then Some(Decoded(Ret, 1))
    else if op == 0xE9 then
      if |bs| >= 5 then Some(Decoded(Jmp(FromLe32(bs[1..5])), 5)) else None
    else if op == 0x0F then
      if |bs| >= 6 && bs[1] == 0x8D then Some(Decoded(Jge(FromLe32(bs[2..6])), 6)) else None
    else
      match DecodeModRm(rex, bs[1..])
      case None => None
      case Some(m) => DecodePlainModRm(rex, op, m, bs)
  }

  function DecodePlainModRm(rex: Rex, op: byte, m: ModRm, bs: seq<byte>): Option<Decoded> {
    match m.rm
    case Direct(rm) =>
      if !rex.w then None
      else if op == 0x89 then Some(Decoded(MovRR(rm, m.reg_), 1 + m.len))
      else if op == 0x31 then Some(Decoded(XorRR(rm, m.reg_), 1 + m.len))
      else if op == 0x3B then Some(Decoded(CmpRR(m.reg_, rm), 1 + m.len))
      else if op == 0xFF && m.reg_ % 8 == 0 then Some(Decoded(Inc(rm), 1 + m.len))
      else if op == 0x83 && |bs| >= 2 + m.len && m.reg_ % 8 == 0 then
        Some(Decoded(AddImm8(rm, bs[1 + m.len]), 2 + m.len))
      else if op == 0x83 && |bs| >= 2 + m.len && m.reg_ % 8 == 5 then
        Some(Decoded(SubImm8(rm, bs[1 + m.len]), 2 + m.len))
      else None
    case Based(base, disp) =>
      if op == 0x8B && rex.w then Some(Decoded(LoadDisp(m.reg_, base, disp), 1 + m.len)) else None
    case Indexed(base, index, scale) =>
      if op == 0x8B && !rex.w then Some(Decoded(Load32(m.reg_, base, index, scale), 1 + m.len))
      else if op == 0x89 && !rex.w then Some(Decoded(Store32(base, index, scale, m.reg_), 1 + m.len))
      else None
  }

  /** Two-byte opcodes 0F xx with a mandatory prefix; `bs` starts after the REX prefix. */
  function DecodeSse(prefix: byte, rex: Rex, bs: seq<byte>): Option<Decoded>
    requires |bs| >= 1
  {
    if bs[0] != 0x0F || |bs| < 2 then None
    else
      match DecodeModRm(rex, bs[2..])
      case None => None
      case Some(m) =>
        match DecodeSseModRm(prefix, rex, bs[1], m)
        case None => None
        case Some(ins) => Some(Decoded(ins, 2 + m.len))
  }

  function DecodeSseModRm(prefix: byte, rex: Rex, op: byte, m: ModRm): Option<Ins> {
    match m.rm
    case Direct(rm) =>
      if prefix == 0xF2 then
        if op == 0x10 then Some(MovsdXmm(m.reg_, rm))
        else if op == 0x58 then Some(Sse(Add, m.reg_, rm))
        else if op == 0x5C then Some(Sse(Sub, m.reg_, rm))
        else if op == 0x59 then Some(Sse(Mul, m.reg_, rm))
        else if op == 0x5E then Some(Sse(Div, m.reg_, rm))
        else if op == 0x5A then Some(Cvtsd2ss(m.reg_, rm))
        else None
      else if prefix == 0xF3 then
        if op == 0x5A then Some(Cvtss2sd(m.reg_, rm)) else None
      else if op == 0x6E then Some(if rex.w then MovqToXmm(m.reg_, rm) else MovdToXmm(m.reg_, rm))
      else if op == 0x7E && !rex.w then Some(MovdFromXmm(rm, m.reg_))
      else None
    case Indexed(base, index, scale) =>
      if prefix != 0xF2 then None
      else if op == 0x10 then Some(MovsdLoad(m.reg_, base, index, scale))
      else if op == 0x11 then Some(MovsdStore(base, index, scale, m.reg_))
      else None
    case Based(_, _) => None
  }

  function Longer(d: Option<Decoded>, n: nat): Option<Decoded> {
    match d
    case None => None
    case Some(x) => Some(Decoded(x.ins, x.len + n))
  }

  /** The instruction at the front of a byte stream: prefixes, opcode, operands. */
  function Decode(bs: seq<byte>): Option<Decoded> {
    if bs == [] then None
    else if bs[0] == 0x66 || bs[0] == 0xF2 || bs[0] == 0xF3 then
      if |bs| >= 3 && bs[1] / 16 == 4 then Longer(DecodeSse(bs[0], RexOf(bs[1]), bs[2..]), 2)
      else if |bs| >= 2 then Longer(DecodeSse(bs[0], NO_REX, bs[1..]), 1)
      else None
    else if bs[0] / 16 == 4 then
      if |bs| >= 2 then Longer(DecodePlain(RexOf(bs[0]), bs[1..]), 1) else None
    else DecodePlain(NO_REX, bs)
  }

  // --------------------------------------------------------------- execution

  type Memory = map<int, byte>

  ghost predicate Mapped(mem: Memory, a: int, n: nat) {
    forall p: int :: a <= p < a + n ==> p in mem
  }

  ghost function Bytes(mem: Memory, a: int, n: nat): (bs: seq<byte>)
    requires Mapped(mem, a, n)
    ensures |bs| == n
  {
    seq(n, k requires 0 <= k < n => mem[a + k])
  }

  ghost function Write(mem: Memory, a: int, bs: seq<byte>): (mem': Memory)
    ensures mem'.Keys == mem.Keys
  {
    map p: int | p in mem :: if a <= p < a + |bs| then bs[p - a] else mem[p]
  }

  /**
   * `ge` is the condition of jge while it is known: set by cmp, unknown after any
   * other instruction that writes the flags. Of each vector register only the
   * low 64 bits are kept.
   */
  datatype Cpu = Cpu(rip: int, gpr: seq<u64>, xmm: seq<u64>, ge: Option<bool>, mem: Memory)

  ghost predicate ValidCpu(s: Cpu) { |s.gpr| == 16 && |s.xmm| == 16 }

  datatype Outcome = Running(s: Cpu) | Returned(s: Cpu, target: u64) | Stuck

  function Wrap64(n: int): u64 { n % TWO_64 }

  function Imm8(b: byte): int { if b < 128 then b else b - 256 }

  /** Executes one instruction; `s.rip` is already past it. Unmapped memory gets stuck. */
  ghost function Exec(fpu: Fpu, ins: Ins, s: Cpu): (o: Outcome)
    requires ValidCpu(s)
    ensures o.Running? ==> ValidCpu(o.s)
  {
    match ins
    case Push(r) =>
      var sp := Wrap64(s.gpr[RSP] as int - 8);
      if !Mapped(s.mem, sp, 8) then Stuck
      else Running(s.(gpr := s.gpr[RSP := sp], mem := Write(s.mem, sp, LeBytes(s.gpr[r], 8))))
    case Pop(r) =>
      var sp := s.gpr[RSP];
      if !Mapped(s.mem, sp, 8) then Stuck
      else Running(s.(gpr := s.gpr[RSP := Wrap64(sp as int + 8)][r := FromLe64(Bytes(s.mem, sp, 8))]))
    case MovRR(dst, src) => Running(s.(gpr := s.gpr[dst := s.gpr[src]]))
    case AddImm8(r, imm) => Running(s.(gpr := s.gpr[r := Wrap64(s.gpr[r] + Imm8(imm))], ge := None))
    case SubImm8(r, imm) => Running(s.(gpr := s.gpr[r := Wrap64(s.gpr[r] - Imm8(imm))], ge := None))
    case XorRR(dst, src) =>
      // only the zeroing idiom is given a meaning
      if dst == src then Running(s.(gpr := s.gpr[dst := 0], ge := None)) else Stuck
    case CmpRR(l, r) => Running(s.(ge := Some(Signed64(s.gpr[l]) >= Signed64(s.gpr[r]))))
    case Inc(r) => Running(s.(gpr := s.gpr[r := Wrap64(s.gpr[r] as int + 1)], ge := None))
    case Ret =>
      var sp := s.gpr[RSP];
      if !Mapped(s.mem, sp, 8) then Stuck
      else Returned(s.(gpr := s.gpr[RSP := Wrap64(sp as int + 8)]), FromLe64(Bytes(s.mem, sp, 8)))
    case Jge(rel) =>
      if s.ge.None? then Stuck
      else Running(if s.ge.value then s.(rip := s.rip + Signed32(rel)) else s)
    case Jmp(rel) => Running(s.(rip := s.rip + Signed32(rel)))
    case LoadDisp(dst, base, disp) =>
      var a := Wrap64(s.gpr[base] + Signed32(disp));
      if !Mapped(s.mem, a, 8) then Stuck
      else Running(s.(gpr := s.gpr[dst := FromLe64(Bytes(s.mem, a, 8))]))
    case Load32(dst, base, index, scale) =>
      var a := Wrap64(s.gpr[base] + s.gpr[index] * scale);
      if !Mapped(s.mem, a, 4) then Stuck
      else Running(s.(gpr := s.gpr[dst := FromLe32(Bytes(s.mem, a, 4))]))
    case Store32(base, index, scale, src) =>
      var a := Wrap64(s.gpr[base] + s.gpr[index] * scale);
      if !Mapped(s.mem, a, 4) then Stuck
      else Running(s.(mem := Write(s.mem, a, LeBytes(s.gpr[src] % TWO_32, 4))))
    case MovImm64(r, imm) => Running(s.(gpr := s.gpr[r := imm]))
    case MovImm32(r, imm) => Running(s.(gpr := s.gpr[r := imm]))
    case MovdToXmm(dst, src) => Running(s.(xmm := s.xmm[dst := s.gpr[src] % TWO_32]))
    case MovqToXmm(dst, src) => Running(s.(xmm := s.xmm[dst := s.gpr[src]]))
    case MovdFromXmm(dst, src) => Running(s.(gpr := s.gpr[dst := s.xmm[src] % TWO_32]))
    case MovsdXmm(dst, src) => Running(s.(xmm := s.xmm[dst := s.xmm[src]]))
    case MovsdLoad(dst, base, index, scale) =>
      var a := Wrap64(s.gpr[base] + s.gpr[index] * scale);
      if !Mapped(s.mem, a, 8) then Stuck
      else Running(s.(xmm := s.xmm[dst := FromLe64(Bytes(s.mem, a, 8))]))
    case MovsdStore(base, index, scale, src) =>
      var a := Wrap64(s.gpr[base] + s.gpr[index] * scale);
      if !Mapped(s.mem, a, 8) then Stuck
      else Running(s.(mem := Write(s.mem, a, LeBytes(s.xmm[src], 8))))
    case Sse(op, dst, src) => Running(s.(xmm := s.xmm[dst := fpu.Apply(op, s.xmm[dst], s.xmm[src])]))
    case Cvtss2sd(dst, src) => Running(s.(xmm := s.xmm[dst := fpu.widen(s.xmm[src] % TWO_32)]))
    case Cvtsd2ss(dst, src) =>
      // the upper half of the low quadword is kept
      Running(s.(xmm := s.xmm[dst := s.xmm[dst] / TWO_32 * TWO_32 + fpu.narrow(s.xmm[src])]))
  }

  /** One step: fetch, decode, execute. */
  ghost function Step(fpu: Fpu, code: seq<byte>, s: Cpu): (o: Outcome)
    requires ValidCpu(s)
    ensures o.Running? ==> ValidCpu(o.s)
  {
    if !(0 <= s.rip <= |code|) then Stuck
    else
      match Decode(code[s.rip..])
      case None => Stuck
      case Some(d) => Exec(fpu, d.ins, s.(rip := s.rip + d.len))
  }

  /** The machine that has `code` in its instruction memory. */
  ghost function Machine(fpu: Fpu, code: seq<byte>): Cpu -> Outcome {
    (s: Cpu) => if ValidCpu(s) then Step(fpu, code, s) else Stuck
  }

  ghost function Run(machine: Cpu -> Outcome, s: Cpu, steps: nat): Outcome
    decreases steps
  {
    if steps == 0 then Running(s)
    else
      match machine(s)
      case Running(s') => Run(machine, s', steps - 1)
      case other => other
  }

  lemma {:induction false} RunThen(machine: Cpu -> Outcome, s: Cpu, m: nat, s': Cpu, n: nat)
    requires Run(machine, s, m) == Running(s')
    ensures Run(machine, s, m + n) == Run(machine, s', n)
    decreases m
  {
    if m > 0 {
      RunThen(machine, machine(s).s, m - 1, s', n);
    }
  }
}
