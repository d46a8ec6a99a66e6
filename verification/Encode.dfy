/**
 * The byte encodings of the emitter (jit/emit.rs), and that the decoder reads
 * each of them back as the instruction that was meant.
 */
module Encode {
  import opened Words
  import opened DataTypes
  import opened X86

  // The fields of these bytes do not overlap, so adding them is or-ing them.
  function RexByte(w: bool, r: bool, x: bool, b: bool): byte {
    0x40 + (if w then 8 else 0) + (if r then 4 else 0) + (if x then 2 else 0) + if b then 1 else 0
  }

  function ModRmRR(r: reg, rm: reg): byte { 0xC0 + r % 8 * 8 + rm % 8 }

  /** Memory operand: a SIB byte follows, or a displacement relative to `base`. */
  function ModRmSib(r: reg): byte { r % 8 * 8 + 4 }

  function ModRmDisp(r: reg, base: reg): byte { 0x80 + r % 8 * 8 + base % 8 }

  function Sib(scale: nat, index: reg, base: reg): byte
    requires scale == 4 || scale == 8
  {
    (if scale == 8 then 0xC0 else 0x80) + index % 8 * 8 + base % 8
  }

  function SseOpcode(op: BinOp): byte {
    match op
    case Add => 0x58
    case Sub => 0x5C
    case Mul => 0x59
    case Div => 0x5E
  }

  /** The operand forms the emitter produces. */
  predicate Encodable(ins: Ins) {
    match ins
    case LoadDisp(_, base, _) => base % 8 != 4
    case Load32(_, base, index, scale) => IndexedOk(base, index, scale)
    case Store32(base, index, scale, _) => IndexedOk(base, index, scale)
    case MovsdLoad(_, base, index, scale) => IndexedOk(base, index, scale)
    case MovsdStore(base, index, scale, _) => IndexedOk(base, index, scale)
    case _ => true
  }

  predicate IndexedOk(base: reg, index: reg, scale: nat) {
    base % 8 != 5 && index != 4 && (scale == 4 || scale == 8)
  }

  function OptRex(r: reg, rm: reg): seq<byte> {
    if r >= 8 || rm >= 8 then [RexByte(false, r >= 8, false, rm >= 8)] else []
  }

  function Enc(ins: Ins): seq<byte>
    requires Encodable(ins)
  {
    match ins
    case Push(r) => OptRex(0, r) + [0x50 + r % 8]
    case Pop(r) => OptRex(0, r) + [0x58 + r % 8]
    case MovRR(dst, src) => [RexByte(true, src >= 8, false, dst >= 8), 0x89, ModRmRR(src, dst)]
    case AddImm8(r, imm) => [RexByte(true, false, false, r >= 8), 0x83, ModRmRR(0, r), imm]
    case SubImm8(r, imm) => [RexByte(true, false, false, r >= 8), 0x83, ModRmRR(5, r), imm]
    case XorRR(dst, src) => [RexByte(true, src >= 8, false, dst >= 8), 0x31, ModRmRR(src, dst)]
    case CmpRR(l, r) => [RexByte(true, l >= 8, false, r >= 8), 0x3B, ModRmRR(l, r)]
    case Inc(r) => [RexByte(true, false, false, r >= 8), 0xFF, ModRmRR(0, r)]
    case Ret => [0xC3]
    case Jge(rel) => [0x0F, 0x8D] + LeBytes(rel, 4)
    case Jmp(rel) => [0xE9] + LeBytes(rel, 4)
    case LoadDisp(dst, base, disp) =>
      [RexByte(true, dst >= 8, false, base >= 8), 0x8B, ModRmDisp(dst, base)] + LeBytes(disp, 4)
    case Load32(dst, base, index, scale) =>
      [RexByte(false, dst >= 8, index >= 8, base >= 8), 0x8B, ModRmSib(dst), Sib(scale, index, base)]
    case Store32(base, index, scale, src) =>
      [RexByte(false, src >= 8, index >= 8, base >= 8), 0x89, ModRmSib(src), Sib(scale, index, base)]
    case MovImm64(r, imm) => [RexByte(true, false, false, r >= 8), 0xB8 + r % 8] + LeBytes(imm, 8)
    case MovImm32(r, imm) => OptRex(0, r) + [0xB8 + r % 8] + LeBytes(imm, 4)
    case MovdToXmm(dst, src) => [0x66] + OptRex(dst, src) + [0x0F, 0x6E, ModRmRR(dst, src)]
    case MovqToXmm(dst, src) => [0x66, RexByte(true, dst >= 8, false, src >= 8), 0x0F, 0x6E, ModRmRR(dst, src)]
    case MovdFromXmm(dst, src) => [0x66] + OptRex(src, dst) + [0x0F, 0x7E, ModRmRR(src, dst)]
    case MovsdXmm(dst, src) => [0xF2, RexByte(false, dst >= 8, false, src >= 8), 0x0F, 0x10, ModRmRR(dst, src)]
    case MovsdLoad(dst, base, index, scale) =>
      [0xF2, RexByte(false, dst >= 8, index >= 8, base >= 8), 0x0F, 0x10, ModRmSib(dst), Sib(scale, index, base)]
    case MovsdStore(base, index, scale, src) =>
      [0xF2, RexByte(false, src >= 8, index >= 8, base >= 8), 0x0F, 0x11, ModRmSib(src), Sib(scale, index, base)]
    case Sse(op, dst, src) => [0xF2] + OptRex(dst, src) + [0x0F, SseOpcode(op), ModRmRR(dst, src)]
    case Cvtss2sd(dst, src) => [0xF3] + OptRex(dst, src) + [0x0F, 0x5A, ModRmRR(dst, src)]
    case Cvtsd2ss(dst, src) => [0xF2] + OptRex(dst, src) + [0x0F, 0x5A, ModRmRR(dst, src)]
  }

  lemma RexRoundTrip(w: bool, r: bool, x: bool, b: bool)
    ensures RexOf(RexByte(w, r, x, b)) == Rex(w, r, x, b) && RexByte(w, r, x, b) / 16 == 4
  {
  }

  lemma DirectForm(rex: Rex, r: reg, rm: reg, rest: seq<byte>)
    requires rex.r == (r >= 8) && rex.b == (rm >= 8)
    ensures DecodeModRm(rex, [ModRmRR(r, rm)] + rest) == Some(ModRm(r, Direct(rm), 1))
  {
    hide FromLe;
    DirectFields(r, rm);
    assert Ext(rex.r, r % 8) == r && Ext(rex.b, rm % 8) == rm;
  }

  lemma DirectFields(r: reg, rm: reg)
    ensures ModRmRR(r, rm) / 64 == 3 && ModRmRR(r, rm) / 8 % 8 == r % 8 && ModRmRR(r, rm) % 8 == rm % 8
  {
  }

  lemma BasedFields(r: reg, base: reg)
    ensures ModRmDisp(r, base) / 64 == 2 && ModRmDisp(r, base) / 8 % 8 == r % 8 && ModRmDisp(r, base) % 8 == base % 8
  {
  }

  lemma SibFields(r: reg, base: reg, index: reg, scale: nat)
    requires scale == 4 || scale == 8
    ensures ModRmSib(r) / 64 == 0 && ModRmSib(r) / 8 % 8 == r % 8 && ModRmSib(r) % 8 == 4
    ensures var s := Sib(scale, index, base);
      s / 64 == (if scale == 8 then 3 else 2) && s / 8 % 8 == index % 8 && s % 8 == base % 8
  {
  }

  lemma IndexedForm(rex: Rex, r: reg, base: reg, index: reg, scale: nat, rest: seq<byte>)
    requires IndexedOk(base, index, scale)
    requires rex.r == (r >= 8) && rex.x == (index >= 8) && rex.b == (base >= 8)
    ensures DecodeModRm(rex, [ModRmSib(r), Sib(scale, index, base)] + rest) ==
      Some(ModRm(r, Indexed(base, index, scale), 2))
  {
    SibFields(r, base, index, scale);
    assert Ext(rex.r, r % 8) == r && Ext(rex.x, index % 8) == index && Ext(rex.b, base % 8) == base;
  }

  lemma BasedForm(rex: Rex, r: reg, base: reg, disp: u32, rest: seq<byte>)
    requires base % 8 != 4 && rex.r == (r >= 8) && rex.b == (base >= 8)
    ensures DecodeModRm(rex, [ModRmDisp(r, base)] + LeBytes(disp, 4) + rest) ==
      Some(ModRm(r, Based(base, disp), 5))
  {
    hide FromLe, LeBytes, ModRmDisp;
    BasedFields(r, base);
    assert Ext(rex.r, r % 8) == r && Ext(rex.b, base % 8) == base;
    var bs := [ModRmDisp(r, base)] + LeBytes(disp, 4) + rest;
    assert bs[1..5] == LeBytes(disp, 4);
    Le32(disp);
  }

  /** REX prefix, one-byte opcode, ModRM byte. */
  lemma PlainForm(w: bool, r: bool, x: bool, b: bool, op: byte, tail: seq<byte>)
    requires op !in {0xC3, 0xE9, 0x0F} && !(0x50 <= op < 0x60) && !(0xB8 <= op < 0xC0)
    ensures Decode([RexByte(w, r, x, b), op] + tail) ==
      match DecodeModRm(Rex(w, r, x, b), tail)
      case None => None
      case Some(m) => Longer(DecodePlainModRm(Rex(w, r, x, b), op, m, [op] + tail), 1)
  {
    RexRoundTrip(w, r, x, b);
    var bs := [RexByte(w, r, x, b), op] + tail;
    assert bs[1..] == [op] + tail;
    assert bs[1..][1..] == tail;
  }

  /** Mandatory prefix, REX prefix if given, opcode 0F `op`, ModRM byte. */
  lemma SseForm(prefix: byte, rexBytes: seq<byte>, rex: Rex, op: byte, tail: seq<byte>)
    requires prefix in {0x66, 0xF2, 0xF3} && tail != []
    requires (rexBytes == [] && rex == NO_REX) || rexBytes == [RexByte(rex.w, rex.r, rex.x, rex.b)]
    ensures Decode([prefix] + rexBytes + [0x0F, op] + tail) ==
      match DecodeModRm(rex, tail)
      case None => None
      case Some(m) =>
        match DecodeSseModRm(prefix, rex, op, m)
        case None => None
        case Some(ins) => Some(Decoded(ins, 1 + |rexBytes| + 2 + m.len))
  {
    RexRoundTrip(rex.w, rex.r, rex.x, rex.b);
    var bs := [prefix] + rexBytes + [0x0F, op] + tail;
    var after := bs[1 + |rexBytes|..];
    assert after == [0x0F, op] + tail;
    assert after[2..] == tail;
  }

  lemma OptRexForm(r: reg, rm: reg)
    ensures var rex := Rex(false, r >= 8, false, rm >= 8);
      (OptRex(r, rm) == [] && rex == NO_REX) || OptRex(r, rm) == [RexByte(rex.w, rex.r, rex.x, rex.b)]
  {
  }

  lemma DecodeDirectPlain(ins: Ins, rest: seq<byte>)
    requires ins.MovRR? || ins.XorRR? || ins.CmpRR? || ins.Inc?
    ensures Decode(Enc(ins) + rest) == Some(Decoded(ins, |Enc(ins)|))
  {
    var (op, r, rm) := match ins
      case MovRR(dst, src) => (0x89 as byte, src, dst)
      case XorRR(dst, src) => (0x31, src, dst)
      case CmpRR(l, r) => (0x3B, l, r)
      case Inc(x) => (0xFF, 0, x);
    var head := RexByte(true, r >= 8, false, rm >= 8);
    assert Enc(ins) + rest == [head, op] + ([ModRmRR(r, rm)] + rest);
    PlainForm(true, r >= 8, false, rm >= 8, op, [ModRmRR(r, rm)] + rest);
    DirectForm(Rex(true, r >= 8, false, rm >= 8), r, rm, rest);
  }

  lemma DecodeImm8(ins: Ins, rest: seq<byte>)
    requires ins.AddImm8? || ins.SubImm8?
    ensures Decode(Enc(ins) + rest) == Some(Decoded(ins, |Enc(ins)|))
  {
    var digit: reg := if ins.AddImm8? then 0 else 5;
    var tail := [ModRmRR(digit, ins.r)] + ([ins.imm] + rest);
    assert Enc(ins) + rest == [RexByte(true, false, false, ins.r >= 8), 0x83] + tail;
    PlainForm(true, false, false, ins.r >= 8, 0x83, tail);
    DirectForm(Rex(true, false, false, ins.r >= 8), digit, ins.r, [ins.imm] + rest);
    assert ([0x83 as byte] + tail)[2] == ins.imm;
  }

  lemma DecodeLoadDisp(ins: Ins, rest: seq<byte>)
    requires Encodable(ins) && ins.LoadDisp?
    ensures Decode(Enc(ins) + rest) == Some(Decoded(ins, |Enc(ins)|))
  {
    var rex := Rex(true, ins.dst >= 8, false, ins.base >= 8);
    var tail := [ModRmDisp(ins.dst, ins.base)] + LeBytes(ins.disp, 4) + rest;
    assert Enc(ins) + rest == [RexByte(rex.w, rex.r, rex.x, rex.b), 0x8B] + tail;
    PlainForm(rex.w, rex.r, rex.x, rex.b, 0x8B, tail);
    BasedForm(rex, ins.dst, ins.base, ins.disp, rest);
  }

  lemma DecodeIndexedPlain(ins: Ins, rest: seq<byte>)
    requires Encodable(ins) && (ins.Load32? || ins.Store32?)
    ensures Decode(Enc(ins) + rest) == Some(Decoded(ins, |Enc(ins)|))
  {
    var (op: byte, r) := if ins.Load32? then (0x8B, ins.dst) else (0x89, ins.src);
    var rex := Rex(false, r >= 8, ins.index >= 8, ins.base >= 8);
    var tail := [ModRmSib(r), Sib(ins.scale, ins.index, ins.base)] + rest;
    assert Enc(ins) + rest == [RexByte(rex.w, rex.r, rex.x, rex.b), op] + tail;
    PlainForm(rex.w, rex.r, rex.x, rex.b, op, tail);
    IndexedForm(rex, r, ins.base, ins.index, ins.scale, rest);
  }

  lemma DirectSse(ins: Ins, prefix: byte, rexBytes: seq<byte>, w: bool, op: byte, r: reg, rm: reg, rest: seq<byte>)
    requires Encodable(ins) && prefix in {0x66, 0xF2, 0xF3}
    requires Enc(ins) == [prefix] + rexBytes + [0x0F, op, ModRmRR(r, rm)]
    requires rexBytes == [RexByte(w, r >= 8, false, rm >= 8)] || (!w && rexBytes == OptRex(r, rm))
    requires DecodeSseModRm(prefix, Rex(w, r >= 8, false, rm >= 8), op, ModRm(r, Direct(rm), 1)) == Some(ins)
    ensures Decode(Enc(ins) + rest) == Some(Decoded(ins, |Enc(ins)|))
  {
    var rex := Rex(w, r >= 8, false, rm >= 8);
    OptRexForm(r, rm);
    var tail := [ModRmRR(r, rm)] + rest;
    assert Enc(ins) + rest == [prefix] + rexBytes + [0x0F, op] + tail;
    SseForm(prefix, rexBytes, rex, op, tail);
    DirectForm(rex, r, rm, rest);
  }

  lemma DecodeMoves(ins: Ins, rest: seq<byte>)
    requires ins.MovdToXmm? || ins.MovqToXmm? || ins.MovdFromXmm? || ins.MovsdXmm?
    ensures Decode(Enc(ins) + rest) == Some(Decoded(ins, |Enc(ins)|))
  {
    match ins
    case MovdToXmm(dst, src) => DirectSse(ins, 0x66, OptRex(dst, src), false, 0x6E, dst, src, rest);
    case MovqToXmm(dst, src) =>
      DirectSse(ins, 0x66, [RexByte(true, dst >= 8, false, src >= 8)], true, 0x6E, dst, src, rest);
    case MovdFromXmm(dst, src) => DirectSse(ins, 0x66, OptRex(src, dst), false, 0x7E, src, dst, rest);
    case MovsdXmm(dst, src) =>
      DirectSse(ins, 0xF2, [RexByte(false, dst >= 8, false, src >= 8)], false, 0x10, dst, src, rest);
  }

  lemma DecodeArithmetic(ins: Ins, rest: seq<byte>)
    requires ins.Sse? || ins.Cvtss2sd? || ins.Cvtsd2ss?
    ensures Decode(Enc(ins) + rest) == Some(Decoded(ins, |Enc(ins)|))
  {
    match ins
    case Sse(op, dst, src) => DirectSse(ins, 0xF2, OptRex(dst, src), false, SseOpcode(op), dst, src, rest);
    case Cvtss2sd(dst, src) => DirectSse(ins, 0xF3, OptRex(dst, src), false, 0x5A, dst, src, rest);
    case Cvtsd2ss(dst, src) => DirectSse(ins, 0xF2, OptRex(dst, src), false, 0x5A, dst, src, rest);
  }

  lemma DecodeIndexedSse(ins: Ins, rest: seq<byte>)
    requires Encodable(ins) && (ins.MovsdLoad? || ins.MovsdStore?)
    ensures Decode(Enc(ins) + rest) == Some(Decoded(ins, |Enc(ins)|))
  {
    var (op: byte, r) := if ins.MovsdLoad? then (0x10, ins.dst) else (0x11, ins.src);
    var rex := Rex(false, r >= 8, ins.index >= 8, ins.base >= 8);
    var tail := [ModRmSib(r), Sib(ins.scale, ins.index, ins.base)] + rest;
    assert Enc(ins) + rest == [0xF2] + [RexByte(rex.w, rex.r, rex.x, rex.b)] + [0x0F, op] + tail;
    SseForm(0xF2, [RexByte(rex.w, rex.r, rex.x, rex.b)], rex, op, tail);
    IndexedForm(rex, r, ins.base, ins.index, ins.scale, rest);
  }

  lemma DecodeShort(ins: Ins, rest: seq<byte>)
    requires ins.Push? || ins.Pop? || ins.Ret?
    ensures Decode(Enc(ins) + rest) == Some(Decoded(ins, |Enc(ins)|))
  {
    match ins
    case Push(r) => RegOpcode(0x50, r, rest);
    case Pop(r) => RegOpcode(0x58, r, rest);
    case Ret =>
  }

  lemma DecodeJump(ins: Ins, rest: seq<byte>)
    requires ins.Jge? || ins.Jmp?
    ensures Decode(Enc(ins) + rest) == Some(Decoded(ins, |Enc(ins)|))
  {
    var bs := Enc(ins) + rest;
    Le32(ins.rel);
    if ins.Jge? {
      assert bs[2..6] == LeBytes(ins.rel, 4);
    } else {
      assert bs[1..5] == LeBytes(ins.rel, 4);
    }
  }

  lemma DecodeMovImm64(ins: Ins, rest: seq<byte>)
    requires ins.MovImm64?
    ensures Decode(Enc(ins) + rest) == Some(Decoded(ins, |Enc(ins)|))
  {
    RexRoundTrip(true, false, false, ins.r >= 8);
    var after := [0xB8 + ins.r % 8] + LeBytes(ins.imm64, 8) + rest;
    assert (Enc(ins) + rest)[1..] == after;
    assert after[1..9] == LeBytes(ins.imm64, 8);
    Le64(ins.imm64);
  }

  lemma DecodeMovImm32(ins: Ins, rest: seq<byte>)
    requires ins.MovImm32?
    ensures Decode(Enc(ins) + rest) == Some(Decoded(ins, |Enc(ins)|))
  {
    hide LeBytes, FromLe;
    var tail := LeBytes(ins.imm32, 4) + rest;
    assert Enc(ins) + rest == OptRex(0, ins.r) + [0xB8 + ins.r % 8] + tail;
    RegOpcode(0xB8, ins.r, tail);
    assert ([0xB8 + ins.r % 8] + tail)[1..5] == LeBytes(ins.imm32, 4);
    Le32(ins.imm32);
  }

  /** An opcode byte that carries a register, with REX.B when needed. */
  lemma RegOpcode(op: byte, r: reg, tail: seq<byte>)
    requires op in {0x50, 0x58, 0xB8}
    ensures Decode(OptRex(0, r) + [op + r % 8] + tail) ==
      Longer(DecodePlain(Rex(false, false, false, r >= 8), [op + r % 8] + tail), |OptRex(0, r)|)
  {
    var bs := OptRex(0, r) + [op + r % 8] + tail;
    if r >= 8 {
      RexRoundTrip(false, false, false, true);
      assert bs[1..] == [op + r % 8] + tail;
    } else {
      assert bs == [op + r % 8] + tail;
    }
  }

  /** Every emitted instruction decodes to itself, whatever bytes follow it. */
  lemma DecodeEnc(ins: Ins, rest: seq<byte>)
    requires Encodable(ins)
    ensures Decode(Enc(ins) + rest) == Some(Decoded(ins, |Enc(ins)|))
  {
    match ins
    case Push(_) => DecodeShort(ins, rest);
    case Pop(_) => DecodeShort(ins, rest);
    case MovRR(_, _) => DecodeDirectPlain(ins, rest);
    case AddImm8(_, _) => DecodeImm8(ins, rest);
    case SubImm8(_, _) => DecodeImm8(ins, rest);
    case XorRR(_, _) => DecodeDirectPlain(ins, rest);
    case CmpRR(_, _) => DecodeDirectPlain(ins, rest);
    case Inc(_) => DecodeDirectPlain(ins, rest);
    case Ret => DecodeShort(ins, rest);
    case Jge(_) => DecodeJump(ins, rest);
    case Jmp(_) => DecodeJump(ins, rest);
    case LoadDisp(_, _, _) => DecodeLoadDisp(ins, rest);
    case Load32(_, _, _, _) => DecodeIndexedPlain(ins, rest);
    case Store32(_, _, _, _) => DecodeIndexedPlain(ins, rest);
    case MovImm64(_, _) => DecodeMovImm64(ins, rest);
    case MovImm32(_, _) => DecodeMovImm32(ins, rest);
    case MovdToXmm(_, _) => DecodeMoves(ins, rest);
    case MovqToXmm(_, _) => DecodeMoves(ins, rest);
    case MovdFromXmm(_, _) => DecodeMoves(ins, rest);
    case MovsdXmm(_, _) => DecodeMoves(ins, rest);
    case MovsdLoad(_, _, _, _) => DecodeIndexedSse(ins, rest);
    case MovsdStore(_, _, _, _) => DecodeIndexedSse(ins, rest);
    case Sse(_, _, _) => DecodeArithmetic(ins, rest);
    case Cvtss2sd(_, _) => DecodeArithmetic(ins, rest);
    case Cvtsd2ss(_, _) => DecodeArithmetic(ins, rest);
  }
}
