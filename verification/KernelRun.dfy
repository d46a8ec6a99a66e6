/**
 * Running the loop of an emitted kernel on the machine: the instruction at a
 * place in the code is the one that is fetched, and the head and the tail of the
 * loop go where they should.
 */
module KernelRun {
  import opened Words
  import opened DataTypes
  import opened Lower
  import opened X86
  import opened Encode
  import opened Emit
  import opened Simulation

  /** The bytes `bs` stand at offset `at` of the code. */
  predicate CodeAt(code: seq<byte>, at: int, bs: seq<byte>) {
    0 <= at && at + |bs| <= |code| && code[at..at + |bs|] == bs
  }

  /** The machine does what the instruction at its instruction pointer says. */
  lemma MachineStep(fpu: Fpu, code: seq<byte>, ins: Ins, s: Cpu)
    requires ValidCpu(s) && Encodable(ins) && CodeAt(code, s.rip, Enc(ins))
    ensures Machine(fpu, code)(s) == Executor(fpu)(ins, s)
  {
    hide Exec, Enc, Decode, Encodable;
    var rest := code[s.rip + |Enc(ins)|..];
    assert code[s.rip..] == Enc(ins) + rest;
    DecodeEnc(ins, rest);
  }

  predicate Straight(ins: Ins) { !ins.Jge? && !ins.Jmp? && !ins.Ret? }

  lemma StraightRip(fpu: Fpu, ins: Ins, s: Cpu, s': Cpu)
    requires Encodable(ins) && Straight(ins) && Executor(fpu)(ins, s) == Running(s')
    ensures ValidCpu(s) && ValidCpu(s') && s'.rip == s.rip + |Enc(ins)|
  {
    hide Enc, Write, Bytes, Encodable;
  }

  /** Straight-line code runs to its end, one step an instruction. */
  lemma {:induction false} RunStraight(fpu: Fpu, code: seq<byte>, prog: seq<Ins>, s: Cpu, s': Cpu)
    requires ValidCpu(s) && AllEncodable(prog) && CodeAt(code, s.rip, EncAll(prog))
    requires forall k :: 0 <= k < |prog| ==> Straight(prog[k])
    requires ExecAll(Executor(fpu), prog, s) == Running(s')
    ensures Run(Machine(fpu, code), s, |prog|) == Running(s')
    ensures ValidCpu(s') && s'.rip == s.rip + |EncAll(prog)|
    decreases |prog|
  {
    hide Executor, Machine, Enc, Encodable;
    if prog != [] {
      var head := Enc(prog[0]);
      assert CodeAt(code, s.rip, head) by {
        assert EncAll(prog)[..|head|] == head;
        assert code[s.rip..s.rip + |head|] == code[s.rip..s.rip + |EncAll(prog)|][..|head|];
      }
      MachineStep(fpu, code, prog[0], s);
      var s1 := Executor(fpu)(prog[0], s).s;
      StraightRip(fpu, prog[0], s, s1);
      assert CodeAt(code, s1.rip, EncAll(prog[1..])) by {
        assert EncAll(prog)[|head|..] == EncAll(prog[1..]);
        assert code[s1.rip..s1.rip + |EncAll(prog[1..])|] == code[s.rip..s.rip + |EncAll(prog)|][|head|..];
      }
      RunStraight(fpu, code, prog[1..], s1, s');
    }
  }

  lemma InsOfStraight(fpu: Fpu, alloc: seq<nat>, inst: Inst)
    requires InstOk(alloc, inst)
    ensures forall k :: 0 <= k < |InsOf(fpu, alloc, inst)| ==> Straight(InsOf(fpu, alloc, inst)[k])
  {
  }

  lemma {:induction false} BodyStraight(fpu: Fpu, alloc: seq<nat>, insts: seq<Inst>)
    requires AllInstOk(alloc, insts)
    ensures forall k :: 0 <= k < |Body(fpu, alloc, insts)| ==> Straight(Body(fpu, alloc, insts)[k])
    decreases |insts|
  {
    if insts != [] {
      hide InsOf, Straight;
      BodyStraight(fpu, alloc, insts[..|insts| - 1]);
      InsOfStraight(fpu, alloc, insts[|insts| - 1]);
    }
  }

  /** The loop of a kernel, laid out from `top`; `len` is the length of the body. */
  ghost predicate LoopAt(fpu: Fpu, code: seq<byte>, alloc: seq<nat>, insts: seq<Inst>, top: nat, len: nat) {
    AllInstOk(alloc, insts) && len == |EncAll(Body(fpu, alloc, insts))| && len + LOOP_OVERHEAD + HEAD_LEN < TWO_31 &&
    CodeAt(code, top, Enc(CmpRR(R10, R15))) &&
    CodeAt(code, top + 3, Enc(Jge(ExitDistance(len)))) &&
    CodeAt(code, top + HEAD_LEN, EncAll(Body(fpu, alloc, insts))) &&
    CodeAt(code, top + HEAD_LEN + len, Enc(X86.Inc(R10))) &&
    CodeAt(code, top + HEAD_LEN + len + 3, Enc(Jmp(BackDistance(len))))
  }

  function ExitOf(top: nat, len: nat): nat { top + HEAD_LEN + len + LOOP_OVERHEAD }

  lemma StepCmp(fpu: Fpu, s: Cpu, i: nat, count: nat)
    requires ValidCpu(s) && s.gpr[R10] == i < TWO_63 && s.gpr[R15] == count < TWO_63
    ensures Executor(fpu)(CmpRR(R10, R15), s) == Running(s.(rip := s.rip + 3, ge := Some(i >= count)))
  {
  }

  lemma StepJge(fpu: Fpu, s: Cpu, rel: u32)
    requires ValidCpu(s) && s.ge.Some? && rel < TWO_31
    ensures Executor(fpu)(Jge(rel), s) == Running(s.(rip := s.rip + 6 + if s.ge.value then rel else 0))
  {
  }

  lemma StepInc(fpu: Fpu, s: Cpu, i: nat)
    requires ValidCpu(s) && s.gpr[R10] == i < TWO_63
    ensures Executor(fpu)(X86.Inc(R10), s) == Running(s.(rip := s.rip + 3, gpr := s.gpr[R10 := i + 1], ge := None))
  {
  }

  lemma StepJmp(fpu: Fpu, s: Cpu, back: nat)
    requires ValidCpu(s) && 0 < back <= TWO_31
    ensures Executor(fpu)(Jmp(TWO_32 - back), s) == Running(s.(rip := s.rip + 5 - back))
  {
  }

  lemma RunTwo(machine: Cpu -> Outcome, s: Cpu, s1: Cpu, s2: Cpu)
    requires machine(s) == Running(s1) && machine(s1) == Running(s2)
    ensures Run(machine, s, 2) == Running(s2)
  {
  }

  /** cmp and jge: out of the loop when the index has reached the count, into the body otherwise. */
  lemma RunHead(fpu: Fpu, code: seq<byte>, alloc: seq<nat>, insts: seq<Inst>, top: nat, len: nat, s: Cpu, i: nat, count: nat)
    returns (s': Cpu)
    requires LoopAt(fpu, code, alloc, insts, top, len) && ValidCpu(s) && s.rip == top
    requires s.gpr[R10] == i < TWO_63 && s.gpr[R15] == count < TWO_63
    ensures Run(Machine(fpu, code), s, 2) == Running(s')
    ensures s' == s.(rip := if i >= count then ExitOf(top, len) else top + HEAD_LEN, ge := Some(i >= count))
  {
    hide Machine, Executor, Enc, EncAll, Body;
    MachineStep(fpu, code, CmpRR(R10, R15), s);
    StepCmp(fpu, s, i, count);
    var s1 := s.(rip := s.rip + 3, ge := Some(i >= count));
    MachineStep(fpu, code, Jge(ExitDistance(len)), s1);
    StepJge(fpu, s1, ExitDistance(len));
    s' := s1.(rip := s1.rip + 6 + if i >= count then ExitDistance(len) else 0);
    RunTwo(Machine(fpu, code), s, s1, s');
  }

  /** inc and jmp: back to the top with the next index. */
  lemma RunTail(fpu: Fpu, code: seq<byte>, alloc: seq<nat>, insts: seq<Inst>, top: nat, len: nat, s: Cpu, i: nat)
    returns (s': Cpu)
    requires LoopAt(fpu, code, alloc, insts, top, len) && ValidCpu(s) && s.rip == top + HEAD_LEN + len
    requires s.gpr[R10] == i < TWO_63
    ensures Run(Machine(fpu, code), s, 2) == Running(s')
    ensures s' == s.(rip := top, gpr := s.gpr[R10 := i + 1], ge := None)
  {
    hide Machine, Executor, Enc, EncAll, Body;
    MachineStep(fpu, code, X86.Inc(R10), s);
    StepInc(fpu, s, i);
    var s1 := s.(rip := s.rip + 3, gpr := s.gpr[R10 := i + 1], ge := None);
    MachineStep(fpu, code, Jmp(BackDistance(len)), s1);
    StepJmp(fpu, s1, len + LOOP_OVERHEAD + HEAD_LEN);
    s' := s1.(rip := top);
    RunTwo(Machine(fpu, code), s, s1, s');
  }
}
