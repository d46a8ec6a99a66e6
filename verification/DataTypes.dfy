/** Element types, scalar constants, and the floating-point unit (types.rs). */
module DataTypes {
  import opened Words

  datatype DataType =
    | Float(bits: nat)
    | Int(bits: nat)
    | DynamicFloat
    | FloatingInt
    | ScalableInt(bits: nat)
    | ScalableFloat(bits: nat, e: nat)
  {
    /** Only IEEE single and double reach the custom JIT. */
    predicate IeeeFloat() { this == Float(32) || this == Float(64) }
  }

  /** A double is carried as its 64-bit pattern. */
  datatype Scalar =
    | FloatConst(val: u64, bits: nat)
    | IntConst(int_: int, bits: nat)
    | DynamicFloatConst(val: u64)
    | FloatingIntConst(int_: int, scale: nat)
    | ScalableIntConst(int_: int, bits: nat)
    | ScalableFloatConst(val: u64, bits: nat, e: nat)
    | IntLimbsConst(limbs: seq<u64>, bits: nat)
    | ScalableIntLimbsConst(limbs: seq<u64>, bits: nat)
  {
    function DataType(): DataType {
      match this
      case FloatConst(_, b) => Float(b)
      case IntConst(_, b) => Int(b)
      case DynamicFloatConst(_) => DynamicFloat
      case FloatingIntConst(_, _) => FloatingInt
      case ScalableIntConst(_, b) => ScalableInt(b)
      case ScalableFloatConst(_, b, e) => ScalableFloat(b, e)
      case IntLimbsConst(_, b) => Int(b)
      case ScalableIntLimbsConst(_, b) => ScalableInt(b)
    }

    function ToDouble(fpu: Fpu): u64 {
      match this
      case FloatConst(v, _) => v
      case IntConst(n, _) => fpu.fromInt(n)
      case DynamicFloatConst(v) => v
      case FloatingIntConst(n, scale) => fpu.div(fpu.fromInt(n), fpu.pow10(scale))
      case ScalableIntConst(n, _) => fpu.fromInt(n)
      case ScalableFloatConst(v, _, _) => v
      case IntLimbsConst(limbs, b) => fpu.fromLimbs(limbs, b)
      case ScalableIntLimbsConst(limbs, b) => fpu.fromLimbs(limbs, b)
    }
  }

  datatype BinOp = Add | Sub | Mul | Div

  /**
   * The arithmetic of the machine. Nothing is known about these functions, so
   * whatever is proved holds for every rounding mode and every NaN convention.
   * `narrow` is double to single (cvtsd2ss, and `as f32`), `widen` its partner.
   */
  datatype Fpu = Fpu(
    add: (u64, u64) -> u64,
    sub: (u64, u64) -> u64,
    mul: (u64, u64) -> u64,
    div: (u64, u64) -> u64,
    narrow: u64 -> u32,
    widen: u32 -> u64,
    fromInt: int -> u64,
    pow10: nat -> u64,
    fromLimbs: (seq<u64>, nat) -> u64)
  {
    function Apply(op: BinOp, a: u64, b: u64): u64 {
      match op
      case Add => add(a, b)
      case Sub => sub(a, b)
      case Mul => mul(a, b)
      case Div => div(a, b)
    }
  }
}
