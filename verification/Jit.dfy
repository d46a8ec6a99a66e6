/** The custom JIT from expression to machine code (jit/mod.rs), and what calling its code does. */
module Jit {
  import opened Words
  import opened DataTypes
  import opened Expr
  import opened Graph
  import opened Lower
  import opened Intervals
  import opened LinearScan
  import opened Pressure
  import opened TryLower
  import opened Ssa
  import opened X86
  import opened Emit
  import opened Simulation
  import opened KernelLoop
  import opened KernelCall
  import Grad

  // -------------------------------------------------------------- input order

  /** The list of distinct inputs is numbered like the slots of the compiled kernel. */
  lemma {:induction false} FirstOntoIds(acc: seq<Variable>, vs: seq<Variable>)
    ensures Ids(FirstOnto(acc, vs)) == DedupOnto(Ids(acc), Ids(vs))
    decreases |vs|
  {
    if vs != [] {
      var next := if vs[0].id in Ids(acc) then acc else acc + [vs[0]];
      assert Ids(vs)[1..] == Ids(vs[1..]);
      assert Ids(acc + [vs[0]]) == Ids(acc) + [vs[0].id];
      FirstOntoIds(next, vs[1..]);
    }
  }

  lemma {:induction false} FirstOntoFrom(acc: seq<Variable>, vs: seq<Variable>)
    ensures forall x :: x in FirstOnto(acc, vs) ==> x in acc || x in vs
    decreases |vs|
  {
    if vs != [] {
      FirstOntoFrom(if vs[0].id in Ids(acc) then acc else acc + [vs[0]], vs[1..]);
    }
  }

  /** Appends the variables of `e` to `inputs`, left to right. */
  method CollectInputs(e: Expr, inputs: seq<Variable>) returns (all: seq<Variable>)
    ensures all == inputs + e.Leaves()
    decreases e
  {
    match e
    case Var(v) => all := inputs + [v];
    case Const(_) => all := inputs;
    case Bin(_, left, right) =>
      all := CollectInputs(left, inputs);
      all := CollectInputs(right, all);
      AppendTwice(inputs, left.Leaves(), right.Leaves());
    case DequantizeMatmul(act, weights, _, _, _) =>
      all := CollectInputs(act, inputs);
      all := CollectInputs(weights, all);
      AppendTwice(inputs, act.Leaves(), weights.Leaves());
  }

  lemma AppendTwice(a: seq<Variable>, b: seq<Variable>, c: seq<Variable>)
    ensures a + b + c == a + (b + c)
  {
  }

  /** The input list of a call: variables of the expression, deduplicated by id. */
  method OrderedInputs(e: Expr) returns (ordered: seq<Variable>)
    ensures ordered == FirstOnto([], e.Leaves())
  {
    hide FirstOnto, Ids;
    var inputs := CollectInputs(e, []);
    var seenIds: set<nat> := {};
    ordered := [];
    IdsEmpty();
    for k := 0 to |inputs|
      invariant forall x :: x in seenIds <==> x in Ids(ordered)
      invariant FirstOnto(ordered, inputs[k..]) == FirstOnto([], e.Leaves())
    {
      FirstOntoStep(ordered, inputs, k);
      if inputs[k].id !in seenIds {
        seenIds := seenIds + {inputs[k].id};
        IdsAppend(ordered, inputs[k]);
        ordered := ordered + [inputs[k]];
      }
    }
    FirstOntoEnd(ordered, inputs);
  }

  // ------------------------------------------------------------ calling convention

  /** Slot `slot` of the pointer table points to a buffer that holds `data`. */
  ghost predicate SlotHolds(mem: Memory, table: u64, slot: nat, data: seq<byte>) {
    table + 8 * slot + 8 <= TWO_64 && Mapped(mem, table + 8 * slot, 8) &&
    var ptr := SlotPtr(mem, table, slot);
    ptr + |data| <= TWO_64 && Mapped(mem, ptr, |data|) && Bytes(mem, ptr, |data|) == data
  }

  /**
   * The machine is about to execute a kernel for `e` over `c.count` elements: the
   * arguments are in rdi, rsi and rdx (registers 7, 6 and 2) and the stack pointer
   * in rsp (register 4); the pointer table lists the buffers of the
   * distinct variables of `e`; output, inputs and stack frame do not overlap; the
   * return address is `target`.
   */
  ghost predicate GoodCall(e: Expr, bits: nat, c: Call, s: Cpu, target: u64) {
    var inputs := FirstOnto([], e.Leaves());
    var w := Width(bits);
    (bits == 32 || bits == 64) && e.Uniform(bits) && e.Covers(bits, c.count) && OneBufferPerId(e.Leaves()) &&
    ValidCpu(s) && s.rip == 0 && c == Call(s.gpr[7], s.gpr[6], s.gpr[2]) &&
    c.out + w * c.count <= TWO_64 && Mapped(s.mem, c.out, w * c.count) &&
    FrameOk(s.mem, s.gpr[4], c.out, w * c.count) && Word(s.mem, s.gpr[4], target) &&
    forall slot :: 0 <= slot < |inputs| ==> InputOk(s.mem, c, w, s.gpr[4], slot, inputs[slot].data)
  }

  ghost predicate FrameOk(mem: Memory, sp: int, out: u64, n: nat) {
    40 <= sp && sp + 8 < TWO_64 && Mapped(mem, sp - 32, 40) && Apart(sp - 32, 40, out, n)
  }

  ghost predicate InputOk(mem: Memory, c: Call, w: nat, sp: int, slot: nat, data: seq<byte>) {
    SlotHolds(mem, c.table, slot, data) &&
    Apart(c.out, w * c.count, c.table + 8 * slot, 8) && Apart(sp - 32, 32, c.table + 8 * slot, 8) &&
    Apart(c.out, w * c.count, SlotPtr(mem, c.table, slot), w * c.count) &&
    Apart(sp - 32, 32, SlotPtr(mem, c.table, slot), w * c.count)
  }

  lemma {:induction false} CoversFewer(bits: nat, e: Expr, m: nat, count: nat)
    requires e.Covers(bits, count) && m <= count
    ensures e.Covers(bits, m)
    decreases e
  {
    match e
    case Var(v) => assert m * (bits / 8) + (count - m) * (bits / 8) == count * (bits / 8);
    case Const(_) =>
    case Bin(_, l, r) =>
      CoversFewer(bits, l, m, count);
      CoversFewer(bits, r, m, count);
  }

  /** Element `j` of the output in `mem` is the value of `e` at `j`, in its stored form. */
  ghost predicate OutputIs(fpu: Fpu, e: Expr, bits: nat, c: Call, mem: Memory, j: nat)
    requires (bits == 32 || bits == 64) && e.Uniform(bits) && e.Covers(bits, c.count) && j < c.count
  {
    CoversFewer(bits, e, j + 1, c.count);
    var w := Width(bits);
    Mapped(mem, c.out + w * j, w) &&
    Bytes(mem, c.out + w * j, w) == StoredBytes(fpu, bits, Eval(fpu, bits, e, j))
  }

  /**
   * After the call: the whole result, and nothing else that a caller may rely on;
   * the return address is popped, and rbp, rbx and r12 to r15 are as before.
   */
  ghost predicate Returns(fpu: Fpu, e: Expr, bits: nat, c: Call, s: Cpu, s': Cpu)
    requires ValidCpu(s) && (bits == 32 || bits == 64) && e.Uniform(bits) && e.Covers(bits, c.count)
  {
    var sp := s.gpr[4] as int;
    ValidCpu(s') && s'.mem.Keys == s.mem.Keys &&
    (forall j :: 0 <= j < c.count ==> OutputIs(fpu, e, bits, c, s'.mem, j)) &&
    (forall p: int :: p in s.mem && !(c.out <= p < c.out + Width(bits) * c.count) && !(sp - 32 <= p < sp) ==>
      s'.mem[p] == s.mem[p]) &&
    s'.gpr[4] == sp + 8 && s'.gpr[5] == s.gpr[5] && s'.gpr[3] == s.gpr[3] &&
    (forall r :: 12 <= r < 16 ==> s'.gpr[r] == s.gpr[r])
  }

  /** Running `code` as a kernel for `e` comes back with the result. */
  ghost predicate CodeComputes(fpu: Fpu, e: Expr, bits: nat, code: seq<byte>, c: Call, s: Cpu, target: u64)
    requires GoodCall(e, bits, c, s, target)
  {
    exists steps: nat, s': Cpu :: Run(Machine(fpu, code), s, steps) == Returned(s', target) && Returns(fpu, e, bits, c, s, s')
  }

  // ----------------------------------------------------------------- correctness

  lemma FirstOntoBuffer(e: Expr, slot: nat, k: nat)
    requires OneBufferPerId(e.Leaves()) && slot < |FirstOnto([], e.Leaves())| && k < |e.Leaves()|
    requires FirstOnto([], e.Leaves())[slot].id == e.Leaves()[k].id
    ensures FirstOnto([], e.Leaves())[slot].data == e.Leaves()[k].data
  {
    FirstOntoFrom([], e.Leaves());
    var x := FirstOnto([], e.Leaves())[slot];
    assert x in FirstOnto([], e.Leaves());
    var a :| 0 <= a < |e.Leaves()| && e.Leaves()[a] == x;
  }

  lemma BytesSlice(mem: Memory, a: int, n: nat, at: nat, m: nat)
    requires Mapped(mem, a, n) && at + m <= n
    ensures Mapped(mem, a + at, m) && Bytes(mem, a + at, m) == Bytes(mem, a, n)[at..at + m]
  {
  }

  /** Reading an element through the pointer table reads it from the buffer. */
  lemma SlotElementIs(fpu: Fpu, mem: Memory, table: u64, bits: nat, slot: nat, data: seq<byte>, j: nat)
    requires bits == 32 || bits == 64
    requires SlotHolds(mem, table, slot, data) && (j + 1) * (bits / 8) <= |data|
    ensures SlotReadable(mem, table, bits, slot, j + 1)
    ensures SlotElement(fpu, mem, table, bits, slot, j) == Element(fpu, bits, data, j)
  {
    hide FromLe;
    var w := Width(bits);
    var ptr := SlotPtr(mem, table, slot);
    assert w * (j + 1) == (j + 1) * (bits / 8);
    BytesSlice(mem, ptr, |data|, w * j, w);
  }

  lemma {:induction false} LeavesCovered(bits: nat, e: Expr, count: nat)
    requires e.Covers(bits, count)
    ensures forall x :: x in e.Leaves() ==> count * (bits / 8) <= |x.data|
    decreases e
  {
    match e
    case Var(_) =>
    case Const(_) =>
    case Bin(_, l, r) =>
      LeavesCovered(bits, l, count);
      LeavesCovered(bits, r, count);
  }

  /** Every slot numbered by the id of `x` delivers element `j` of the buffer of `x`. */
  ghost predicate Delivered(fpu: Fpu, bits: nat, j: nat, inputMap: seq<nat>, load: nat -> u64, x: Variable) {
    (bits == 32 || bits == 64) && (j + 1) * (bits / 8) <= |x.data| &&
    forall slot :: 0 <= slot < |inputMap| && inputMap[slot] == x.id ==> load(slot) == Element(fpu, bits, x.data, j)
  }

  lemma {:induction false} LoadsFromLeaves(fpu: Fpu, bits: nat, e: Expr, j: nat, inputMap: seq<nat>, load: nat -> u64)
    requires (bits == 32 || bits == 64) && e.Uniform(bits) && e.Covers(bits, j + 1)
    requires forall x :: x in e.Leaves() ==> Delivered(fpu, bits, j, inputMap, load, x)
    ensures LoadsElement(fpu, bits, e, j, inputMap, load)
    decreases e
  {
    match e
    case Var(x) => assert x in e.Leaves();
    case Const(_) =>
    case Bin(_, l, r) =>
      hide Delivered;
      LoadsFromLeaves(fpu, bits, l, j, inputMap, load);
      LoadsFromLeaves(fpu, bits, r, j, inputMap, load);
  }

  /** A good call delivers every variable of the expression. */
  lemma CallDelivers(fpu: Fpu, e: Expr, k: Kern, c: Call, s: Cpu, target: u64, j: nat, x: Variable)
    requires GoodCall(e, k.bits, c, s, target) && j < c.count && x in e.Leaves()
    ensures Delivered(fpu, k.bits, j, Ids(FirstOnto([], e.Leaves())), LoadOf(fpu, k, c, s.mem, j), x)
  {
    hide FirstOnto, Apart, SlotHolds, SlotReadable;
    CoversFewer(k.bits, e, j + 1, c.count);
    LeavesCovered(k.bits, e, j + 1);
    var inputs := FirstOnto([], e.Leaves());
    var load := LoadOf(fpu, k, c, s.mem, j);
    var at :| 0 <= at < |e.Leaves()| && e.Leaves()[at] == x;
    forall slot | 0 <= slot < |inputs| && Ids(inputs)[slot] == x.id
      ensures load(slot) == Element(fpu, k.bits, x.data, j)
    {
      FirstOntoBuffer(e, slot, at);
      assert InputOk(s.mem, c, Width(k.bits), s.gpr[RSP], slot, inputs[slot].data);
      SlotElementIs(fpu, s.mem, c.table, k.bits, slot, x.data, j);
    }
  }

  /** A good call meets the buffer and stack conditions of the kernel. */
  lemma GoodCallBuffers(e: Expr, k: Kern, c: Call, s: Cpu, target: u64)
    requires GoodCall(e, k.bits, c, s, target) && k.slots == |FirstOnto([], e.Leaves())|
    ensures GoodBuffers(k, c, s.mem) && GoodStack(k, c, s.mem, s.gpr[RSP])
  {
    hide FirstOnto, Apart;
    var inputs := FirstOnto([], e.Leaves());
    LeavesCovered(k.bits, e, c.count);
    FirstOntoFrom([], e.Leaves());
    forall slot | 0 <= slot < k.slots
      ensures GoodSlot(k, c, s.mem, slot) && StackApart(k, c, s.mem, s.gpr[RSP], slot)
    {
      assert InputOk(s.mem, c, Width(k.bits), s.gpr[RSP], slot, inputs[slot].data);
      assert inputs[slot] in inputs;
      assert c.count * (k.bits / 8) == Width(k.bits) * c.count;
    }
  }

  /** What the kernel stores for element `j` is the value of the expression there. */
  lemma ResultIsValue(fpu: Fpu, g: Graph, e: Expr, p: NtProgram, st: Lowered, k: Kern, c: Call, s: Cpu, target: u64, j: nat)
    requires WellFormed(g) && IsArenaOf(g, e) && ValidProgram(p) && Computes(fpu, g, p, st)
    requires st.inputMap == DedupOnto([], Ids(e.Leaves())) && k == Kern(p.insts, p.numVregs, p.alloc, p.bits, p.numInputs)
    requires ValidKern(k) && GoodCall(e, p.bits, c, s, target) && j < c.count
    ensures e.Covers(p.bits, j + 1)
    ensures ResultBytes(fpu, k, c, s.mem, j) == StoredBytes(fpu, p.bits, Eval(fpu, p.bits, e, j))
  {
    hide SlotReadable, FirstOnto, DedupOnto, Apart, SlotHolds, Delivered;
    CoversFewer(p.bits, e, j + 1, c.count);
    FirstOntoIds([], e.Leaves());
    assert Ids([]) == [];
    var load := LoadOf(fpu, k, c, s.mem, j);
    forall x | x in e.Leaves()
      ensures Delivered(fpu, p.bits, j, st.inputMap, load, x)
    {
      CallDelivers(fpu, e, k, c, s, target, j, x);
    }
    LoadsFromLeaves(fpu, p.bits, e, j, st.inputMap, load);
    assert p.insts[..p.numVregs] == st.insts;
    assert st.nodeVreg[0 + e.Count() - 1] == Some(p.outputVreg);
    LoweringPreservesValue(fpu, p.bits, g.nodes, st, 0, e, j, load);
  }

  lemma FilledBytes(fpu: Fpu, k: Kern, c: Call, mem0: Memory, mem: Memory, j: nat)
    requires ValidKern(k) && forall b :: 0 <= b < Width(k.bits) ==> ByteFilled(fpu, k, c, mem0, mem, j, b)
    ensures Mapped(mem, c.out + Width(k.bits) * j, Width(k.bits))
    ensures Bytes(mem, c.out + Width(k.bits) * j, Width(k.bits)) == ResultBytes(fpu, k, c, mem0, j)
  {
    hide ResultBytes, ValidKern;
    ResultLength(fpu, k, c, mem0, j);
    var a, w := c.out + Width(k.bits) * j, Width(k.bits);
    forall q: int | a <= q < a + w
      ensures q in mem
    {
      assert ByteFilled(fpu, k, c, mem0, mem, j, q - a);
    }
    forall b | 0 <= b < w
      ensures Bytes(mem, a, w)[b] == ResultBytes(fpu, k, c, mem0, j)[b]
    {
      assert ByteFilled(fpu, k, c, mem0, mem, j, b);
    }
  }

  lemma CallEntry(e: Expr, bits: nat, c: Call, s: Cpu, target: u64)
    requires GoodCall(e, bits, c, s, target)
    ensures ValidCpu(s) && s.rip == 0 && c == Call(s.gpr[RDI], s.gpr[RSI], s.gpr[RDX]) && Word(s.mem, s.gpr[RSP], target)
    ensures (bits == 32 || bits == 64) && e.Uniform(bits) && e.Covers(bits, c.count)
  {
  }

  lemma CallReturns(fpu: Fpu, g: Graph, e: Expr, p: NtProgram, st: Lowered, k: Kern, c: Call, s: Cpu, s': Cpu, target: u64)
    requires WellFormed(g) && IsArenaOf(g, e) && ValidProgram(p) && Computes(fpu, g, p, st)
    requires st.inputMap == DedupOnto([], Ids(e.Leaves())) && k == Kern(p.insts, p.numVregs, p.alloc, p.bits, p.numInputs)
    requires ValidKern(k) && GoodCall(e, p.bits, c, s, target) && ValidCpu(s) && Result(fpu, k, c, s, s')
    ensures Returns(fpu, e, p.bits, c, s, s')
  {
    hide ByteFilled, ValidKern, ValidProgram, Computes, IsArenaOf, DedupOnto, InputOk, Word, FrameOk;
    forall j | 0 <= j < c.count
      ensures OutputIs(fpu, e, p.bits, c, s'.mem, j)
    {
      FilledBytes(fpu, k, c, s.mem, s'.mem, j);
      ResultIsValue(fpu, g, e, p, st, k, c, s, target, j);
    }
  }

  /** The machine code of an expression, called as agreed, computes the expression. */
  lemma CallCorrect(fpu: Fpu, g: Graph, e: Expr, p: NtProgram, st: Lowered, code: seq<byte>, c: Call, s: Cpu, target: u64)
    requires WellFormed(g) && IsArenaOf(g, e) && ValidProgram(p) && Computes(fpu, g, p, st)
    requires st.inputMap == DedupOnto([], Ids(e.Leaves())) && AllInstOk(p.alloc, p.insts)
    requires |EncAll(Body(fpu, p.alloc, p.insts))| + LOOP_OVERHEAD + HEAD_LEN < TWO_31
    requires code == EncAll(Kernel(fpu, p.alloc, p.insts)) && GoodCall(e, p.bits, c, s, target)
    ensures CodeComputes(fpu, e, p.bits, code, c, s, target)
  {
    hide EncAll, Body, Kernel, FirstOnto, DedupOnto, GoodBuffers, GoodStack, ValidKern, GoodCall, Result, Returns, Word;
    var k := Kern(p.insts, p.numVregs, p.alloc, p.bits, p.numInputs);
    ProgramKern(p);
    FirstOntoIds([], e.Leaves());
    assert Ids([]) == [];
    assert |Ids(FirstOnto([], e.Leaves()))| == k.slots;
    CallEntry(e, p.bits, c, s, target);
    GoodCallBuffers(e, k, c, s, target);
    var steps, s' := KernelReturns(fpu, k, c, code, |EncAll(Body(fpu, p.alloc, p.insts))|, s, target);
    CallReturns(fpu, g, e, p, st, k, c, s, s', target);
  }

  lemma ArenaBits(fpu: Fpu, g: Graph, e: Expr, p: NtProgram, st: Lowered)
    requires WellFormed(g) && IsArenaOf(g, e) && Computes(fpu, g, p, st)
    ensures e.DataType() == Float(p.bits)
  {
    HoldsDataType(g.nodes, 0, e);
  }

  /** Lowers, allocates, checks and emits; None sends the caller to the general compiler. */
  method TryCompile(fpu: Fpu, g: Graph) returns (code: Option<seq<byte>>)
    requires WellFormed(g)
    ensures forall e :: IsArenaOf(g, e) ==> (code.Some? <==> Accepts(e))
    ensures forall e, bits, c, s, target ::
      IsArenaOf(g, e) && code.Some? && e.DataType() == Float(bits) && GoodCall(e, bits, c, s, target) ==>
      CodeComputes(fpu, e, bits, code.value, c, s, target)
  {
    hide ValidProgram, Computes, IsArenaOf, DedupOnto, GoodCall, CodeComputes, Accepts, EncAll, Kernel, Body;
    var r, st := TryLower.TryLower(fpu, g);
    if r.None? {
      return None;
    }
    var p := r.value;
    var bytes := EmitKernel(fpu, p);
    forall e, bits, c, s, target | IsArenaOf(g, e) && e.DataType() == Float(bits) && GoodCall(e, bits, c, s, target)
      ensures CodeComputes(fpu, e, bits, bytes, c, s, target)
    {
      ArenaBits(fpu, g, e, p, st);
      CallCorrect(fpu, g, e, p, st, bytes, c, s, target);
    }
    code := Some(bytes);
  }

  /** From an expression tree to machine code. */
  method Compile(fpu: Fpu, e: Expr) returns (code: Option<seq<byte>>)
    ensures code.Some? <==> Accepts(e)
    ensures forall bits, c, s, target ::
      code.Some? && e.DataType() == Float(bits) && GoodCall(e, bits, c, s, target) ==>
      CodeComputes(fpu, e, bits, code.value, c, s, target)
  {
    var g := FromExpr(e);
    ArenaWellFormed(g, e);
    code := TryCompile(fpu, g);
  }

  // ------------------------------------------------------ gradients of doubles

  /**
   * The gradient of the square of a double is accepted, and its program, whose
   * width is that of the root, loads the doubles as single-precision values.
   */
  lemma SquareIsMisread(fpu: Fpu, v: Variable, g: Expr, arena: Graph, p: NtProgram, st: Lowered)
    requires v.dtype == Float(64) && !v.stealSign && Grad.Grad(Bin(Mul, Var(v), Var(v)), v.id) == Some(g)
    requires WellFormed(arena) && IsArenaOf(arena, g) && ValidProgram(p) && Computes(fpu, arena, p, st)
    ensures Accepts(g) && g.Leaves() == [v, v] && p.bits == 32
    ensures forall k :: 0 <= k < p.numVregs && p.insts[k].Load? ==> p.insts[k].bits == 32
  {
    hide IsArenaOf, LowerInv, InOrder, SortByStart, Collect, Sound;
    Grad.SquareGoesWrong(v);
    SquareAccepted(v, g);
    RootWidth(arena, g);
    forall k | 0 <= k < p.numVregs && p.insts[k].Load?
      ensures p.insts[k].bits == 32
    {
      assert WidthAndSlot(p.insts[k], p.bits, p.numInputs);
    }
  }

  lemma RootWidth(arena: Graph, e: Expr)
    requires WellFormed(arena) && IsArenaOf(arena, e)
    ensures DataTypeOf(arena.nodes, arena.root) == e.DataType()
  {
    HoldsDataType(arena.nodes, 0, e);
  }

  lemma SquareAccepted(v: Variable, g: Expr)
    requires v.dtype == Float(64) && !v.stealSign && g.Leaves() == [v, v]
    requires g == Bin(Add, Bin(Mul, Grad.ONE, Var(v)), Bin(Mul, Var(v), Grad.ONE))
    ensures Accepts(g)
  {
    var x, left, right := Var(v), Bin(Mul, Grad.ONE, Var(v)), Bin(Mul, Var(v), Grad.ONE);
    assert x.Lowerable() && !x.StealsSign() && x.Count() == 1 && Need(x) == 1;
    assert Grad.ONE.Lowerable() && !Grad.ONE.StealsSign() && Grad.ONE.Count() == 1 && Need(Grad.ONE) == 1;
    assert left.Lowerable() && !left.StealsSign() && left.Count() == 3 && Need(left) == 3 && left.DataType() == Float(32);
    assert right.Lowerable() && !right.StealsSign() && right.Count() == 3 && Need(right) == 3;
    OneId(v.id, Ids(g.Leaves()));
  }

  lemma OneId(id: nat, ids: seq<nat>)
    requires |ids| == 2 && ids[0] == ids[1] == id
    ensures |DedupOnto([], ids)| == 1
  {
    assert [] + [ids[0]] == [id] && ids[0] !in [];
    assert DedupOnto([], ids) == DedupOnto([id], ids[1..]);
    assert DedupOnto([id], ids[1..]) == DedupOnto([id], ids[1..][1..]);
  }
}
