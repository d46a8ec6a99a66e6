/**
 * The loop of a kernel fills the output buffer, element by element, and leaves
 * everything else in memory as it was.
 */
module KernelLoop {
  import opened Words
  import opened DataTypes
  import opened Expr
  import opened Lower
  import opened Bounds
  import opened TryLower
  import opened Ssa
  import opened X86
  import opened Encode
  import opened Emit
  import opened Simulation
  import opened KernelRun

  /** A compiled program and the width and number of its inputs. */
  datatype Kern = Kern(insts: seq<Inst>, n: nat, alloc: seq<nat>, bits: nat, slots: nat)

  ghost predicate ValidKern(k: Kern) {
    Allocated(k.insts, k.n, k.alloc) && (k.bits == 32 || k.bits == 64) && k.slots <= MAX_INPUTS &&
    (forall j :: 0 <= j < k.n ==> WidthAndSlot(k.insts[j], k.bits, k.slots)) &&
    k.insts[k.n].bits == k.bits && Ordered(k.insts[..k.n])
  }

  lemma ProgramKern(p: NtProgram)
    requires ValidProgram(p)
    ensures ValidKern(Kern(p.insts, p.numVregs, p.alloc, p.bits, p.numInputs))
  {
    ProgramAllocated(p);
    SsaOf(p.insts, p.numVregs);
  }

  /** The arguments of a call: pointer table, output buffer, element count. */
  datatype Call = Call(table: u64, out: u64, count: u64)

  /** Addresses [a, a+n) and [b, b+m) do not overlap. */
  predicate Apart(a: int, n: nat, b: int, m: nat) {
    n == 0 || m == 0 || a + n <= b || b + m <= a
  }

  predicate Within(p: int, a: int, n: nat) { a <= p < a + n }

  /** That is, they have no address in common. */
  lemma ApartMeans(a: int, n: nat, b: int, m: nat)
    ensures Apart(a, n, b, m) <==> forall p: int :: Within(p, a, n) ==> !Within(p, b, m)
  {
    if !Apart(a, n, b, m) {
      var p := Max(a, b);
      assert Within(p, a, n) && Within(p, b, m);
    }
  }

  /** The buffers of a call are mapped, and the output overlaps neither inputs nor pointers. */
  ghost predicate GoodBuffers(k: Kern, c: Call, mem: Memory) {
    var w := Width(k.bits);
    c.out + w * c.count <= TWO_64 && Mapped(mem, c.out, w * c.count) &&
    (forall slot :: 0 <= slot < k.slots ==> GoodSlot(k, c, mem, slot))
  }

  ghost predicate GoodSlot(k: Kern, c: Call, mem: Memory, slot: nat) {
    var w := Width(k.bits);
    SlotReadable(mem, c.table, k.bits, slot, c.count) &&
    Apart(c.out, w * c.count, c.table + 8 * slot, 8) &&
    Apart(c.out, w * c.count, SlotPtr(mem, c.table, slot), w * c.count)
  }

  /** What element `j` of the inputs looks like to the kernel. */
  ghost function LoadOf(fpu: Fpu, k: Kern, c: Call, mem: Memory, j: nat): nat -> u64 {
    (slot: nat) =>
      if SlotReadable(mem, c.table, k.bits, slot, j + 1) then SlotElement(fpu, mem, c.table, k.bits, slot, j) else 0
  }

  /** The bytes of element `j` of the result. */
  ghost function ResultBytes(fpu: Fpu, k: Kern, c: Call, mem: Memory, j: nat): seq<byte>
    requires ValidKern(k)
  {
    StoredBytes(fpu, k.bits, Value(fpu, k.insts[..k.n], LoadOf(fpu, k, c, mem, j), k.insts[k.n].src))
  }

  /** `mem` is `mem0` with the first `i` elements of the output filled in. */
  ghost predicate Filled(fpu: Fpu, k: Kern, c: Call, mem0: Memory, mem: Memory, i: nat)
    requires ValidKern(k)
  {
    var w := Width(k.bits);
    mem.Keys == mem0.Keys &&
    (forall p: int :: p in mem0 && !(c.out <= p < c.out + w * i) ==> mem[p] == mem0[p]) &&
    (forall j, b :: 0 <= j < i && 0 <= b < w ==> ByteFilled(fpu, k, c, mem0, mem, j, b))
  }

  /** Byte `b` of output element `j` has its final value. */
  ghost predicate ByteFilled(fpu: Fpu, k: Kern, c: Call, mem0: Memory, mem: Memory, j: nat, b: nat)
    requires ValidKern(k)
  {
    var p := c.out + Width(k.bits) * j + b;
    var bytes := ResultBytes(fpu, k, c, mem0, j);
    b < |bytes| && p in mem && mem[p] == bytes[b]
  }

  lemma BytesSame(mem0: Memory, mem: Memory, a: int, n: nat)
    requires Mapped(mem0, a, n) && Mapped(mem, a, n)
    requires forall p: int :: a <= p < a + n ==> mem[p] == mem0[p]
    ensures Bytes(mem, a, n) == Bytes(mem0, a, n)
  {
  }

  /** Filling output elements leaves every input as it was. */
  lemma SlotUnchanged(fpu: Fpu, k: Kern, c: Call, mem0: Memory, mem: Memory, i: nat, slot: nat)
    requires ValidKern(k) && GoodBuffers(k, c, mem0) && Filled(fpu, k, c, mem0, mem, i)
    requires i < c.count && slot < k.slots
    ensures SlotReadable(mem0, c.table, k.bits, slot, i + 1) && SlotReadable(mem, c.table, k.bits, slot, i + 1)
    ensures SlotElement(fpu, mem, c.table, k.bits, slot, i) == SlotElement(fpu, mem0, c.table, k.bits, slot, i)
  {
    hide ValidKern, Filled, FromLe, Bytes, Apart;
    var w := Width(k.bits);
    assert GoodSlot(k, c, mem0, slot);
    WithinCount(w, i, c.count);
    OutsideSame(fpu, k, c, mem0, mem, i, c.table + 8 * slot, 8);
    var ptr := SlotPtr(mem0, c.table, slot);
    ApartPart(c.out, w * c.count, ptr, w * c.count, 0, w * (i + 1));
    ApartPart(c.out, w * c.count, ptr, w * c.count, w * i, w);
    OutsideSame(fpu, k, c, mem0, mem, i, ptr, w * (i + 1));
    OutsideSame(fpu, k, c, mem0, mem, i, ptr + w * i, w);
  }

  lemma ApartPart(a: int, n: nat, b: int, m: nat, at: nat, len: nat)
    requires Apart(a, n, b, m) && at + len <= m
    ensures Apart(a, n, b + at, len)
  {
  }

  /** What does not overlap the output is as it was. */
  lemma OutsideSame(fpu: Fpu, k: Kern, c: Call, mem0: Memory, mem: Memory, i: nat, a: int, n: nat)
    requires ValidKern(k) && Filled(fpu, k, c, mem0, mem, i) && i < c.count
    requires Mapped(mem0, a, n) && Apart(c.out, Width(k.bits) * c.count, a, n)
    ensures Mapped(mem, a, n) && Bytes(mem, a, n) == Bytes(mem0, a, n)
  {
    hide ValidKern, ByteFilled;
    WithinCount(Width(k.bits), i, c.count);
    BytesSame(mem0, mem, a, n);
  }

  lemma WithinCount(w: nat, i: nat, count: nat)
    requires i < count
    ensures w * i + w == w * (i + 1) <= w * count
  {
    assert w * (i + 1) + w * (count - (i + 1)) == w * count;
  }

  /** Writing element `i` extends the filled part by one. */
  lemma FilledStep(fpu: Fpu, k: Kern, c: Call, mem0: Memory, mem: Memory, mem': Memory, i: nat)
    requires ValidKern(k) && GoodBuffers(k, c, mem0) && Filled(fpu, k, c, mem0, mem, i) && i < c.count
    requires mem' == Write(mem, c.out + Width(k.bits) * i, ResultBytes(fpu, k, c, mem0, i))
    ensures Filled(fpu, k, c, mem0, mem', i + 1)
  {
    hide ValidKern, GoodSlot, ResultBytes, SlotReadable;
    var w := Width(k.bits);
    WithinCount(w, i, c.count);
    ResultLength(fpu, k, c, mem0, i);
    forall j, b | 0 <= j < i + 1 && 0 <= b < w
      ensures ByteFilled(fpu, k, c, mem0, mem', j, b)
    {
      var p := c.out + w * j + b;
      if j < i {
        assert ByteFilled(fpu, k, c, mem0, mem, j, b);
        WithinCount(w, j, i);
      } else {
        assert p in mem0;
      }
    }
  }

  lemma ResultLength(fpu: Fpu, k: Kern, c: Call, mem: Memory, j: nat)
    requires ValidKern(k)
    ensures |ResultBytes(fpu, k, c, mem, j)| == Width(k.bits)
  {
  }

  /** The kernel is at the top of its loop, about to do element `i`. */
  ghost predicate AtTop(fpu: Fpu, k: Kern, c: Call, mem0: Memory, top: nat, s: Cpu, i: nat)
    requires ValidKern(k)
  {
    InLoop(s, c.table, c.out, c.count, i) && s.rip == top && i <= c.count && Filled(fpu, k, c, mem0, s.mem, i)
  }

  /** Registers other than rax and r10. */
  ghost predicate SameSaved(s: Cpu, s': Cpu) {
    ValidCpu(s) && ValidCpu(s') && forall r :: 0 <= r < 16 && r != RAX && r != R10 ==> s'.gpr[r] == s.gpr[r]
  }

  lemma CountSmall(k: Kern, c: Call, mem: Memory)
    requires GoodBuffers(k, c, mem)
    ensures c.count < TWO_63
  {
    var w := Width(k.bits);
    assert w * c.count >= 4 * c.count;
  }

  lemma LoopReady(fpu: Fpu, k: Kern, c: Call, mem0: Memory, s: Cpu, i: nat)
    requires ValidKern(k) && GoodBuffers(k, c, mem0) && i < c.count
    requires InLoop(s, c.table, c.out, c.count, i) && Filled(fpu, k, c, mem0, s.mem, i)
    ensures Ready(fpu, k.insts, k.n, k.alloc, k.bits, k.slots, s, c.table, c.out, c.count, i, LoadOf(fpu, k, c, mem0, i))
    ensures var w := Width(k.bits);
      c.out + w * (i + 1) <= TWO_64 && Mapped(s.mem, c.out + w * i, w)
  {
    var w := Width(k.bits);
    WithinCount(w, i, c.count);
    LoadsReady(fpu, k, c, mem0, s.mem, i, LoadOf(fpu, k, c, mem0, i));
    assert forall p: int :: c.out <= p < c.out + w * c.count ==> p in mem0;
  }

  lemma LoadsReady(fpu: Fpu, k: Kern, c: Call, mem0: Memory, mem: Memory, i: nat, load: nat -> u64)
    requires ValidKern(k) && GoodBuffers(k, c, mem0) && Filled(fpu, k, c, mem0, mem, i) && i < c.count
    requires load == LoadOf(fpu, k, c, mem0, i)
    ensures LoadsFrom(fpu, mem, c.table, k.bits, k.slots, i, load)
  {
    hide ValidKern, GoodBuffers, Filled, SlotReadable, SlotElement;
    forall slot: nat | slot < k.slots
      ensures SlotLoads(fpu, mem, c.table, k.bits, slot, i, load)
    {
      SlotUnchanged(fpu, k, c, mem0, mem, i, slot);
    }
  }

  /** One turn of the loop. */
  lemma LoopTurn(fpu: Fpu, code: seq<byte>, k: Kern, c: Call, mem0: Memory, top: nat, len: nat, s: Cpu, i: nat)
    returns (steps: nat, s': Cpu)
    requires ValidKern(k) && GoodBuffers(k, c, mem0) && LoopAt(fpu, code, k.alloc, k.insts, top, len)
    requires AtTop(fpu, k, c, mem0, top, s, i) && i < c.count
    ensures Run(Machine(fpu, code), s, steps) == Running(s')
    ensures AtTop(fpu, k, c, mem0, top, s', i + 1) && SameSaved(s, s')
  {
    hide Machine, Executor, Body, ExecAll, Filled, Ready, Write, EncAll, Enc;
    CountSmall(k, c, mem0);
    var s1 := RunHead(fpu, code, k.alloc, k.insts, top, len, s, i, c.count);
    LoopReady(fpu, k, c, mem0, s1, i);
    var s2 := SimBody(fpu, k.insts, k.n, k.alloc, k.bits, k.slots, s1, c.table, c.out, c.count, i, LoadOf(fpu, k, c, mem0, i));
    var body := Body(fpu, k.alloc, k.insts);
    BodyStraight(fpu, k.alloc, k.insts);
    RunStraight(fpu, code, body, s1, s2);
    FilledStep(fpu, k, c, mem0, s1.mem, s2.mem, i);
    s' := RunTail(fpu, code, k.alloc, k.insts, top, len, s2, i);
    RunThen(Machine(fpu, code), s1, |body|, s2, 2);
    RunThen(Machine(fpu, code), s, 2, s1, |body| + 2);
    steps := 2 + (|body| + 2);
  }

  /** From the top of the loop to its exit: the rest of the output gets filled. */
  lemma {:induction false} LoopRuns(fpu: Fpu, code: seq<byte>, k: Kern, c: Call, mem0: Memory, top: nat, len: nat, s: Cpu, i: nat)
    returns (steps: nat, s': Cpu)
    requires ValidKern(k) && GoodBuffers(k, c, mem0) && LoopAt(fpu, code, k.alloc, k.insts, top, len)
    requires AtTop(fpu, k, c, mem0, top, s, i)
    ensures Run(Machine(fpu, code), s, steps) == Running(s')
    ensures s'.rip == ExitOf(top, len) && SameSaved(s, s') && Filled(fpu, k, c, mem0, s'.mem, c.count)
    decreases c.count - i
  {
    hide Machine, Filled, LoopAt, GoodBuffers, ValidKern;
    if i < c.count {
      var m, s1 := LoopTurn(fpu, code, k, c, mem0, top, len, s, i);
      var rest;
      rest, s' := LoopRuns(fpu, code, k, c, mem0, top, len, s1, i + 1);
      RunThen(Machine(fpu, code), s, m, s1, rest);
      steps := m + rest;
    } else {
      CountSmall(k, c, mem0);
      s' := RunHead(fpu, code, k.alloc, k.insts, top, len, s, i, c.count);
      steps := 2;
    }
  }
}
