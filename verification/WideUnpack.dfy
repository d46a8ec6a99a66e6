/** Unpacking integers wider than 64 bits to doubles (types.rs). */
module WideUnpack {
  import opened Words
  import opened BitOps
  import opened Packing
  import opened TwosComplement
  import opened Limbs
  import opened FloatCodec
  import opened Constants

  /** What a double can be; the sign of an infinity is left out. */
  datatype Extended = Number(r: real) | Infinity | NotANumber

  /** Section 6.1 and 7.2 of IEEE 754-2019: infinities absorb numbers, and zero times infinity is not a number. */
  function Times(x: Extended, y: Extended, round: real -> Extended): Extended {
    match (x, y)
    case (Number(a), Number(b)) => round(a * b)
    case (Number(a), Infinity) => if a == 0.0 then NotANumber else Infinity
    case (Infinity, Number(b)) => if b == 0.0 then NotANumber else Infinity
    case (Infinity, Infinity) => Infinity
    case _ => NotANumber
  }

  function Plus(x: Extended, y: Extended, round: real -> Extended): Extended {
    match (x, y)
    case (Number(a), Number(b)) => round(a + b)
    case (NotANumber, _) => NotANumber
    case (_, NotANumber) => NotANumber
    case _ => Infinity
  }

  function Negated(x: Extended): Extended {
    match x
    case Number(a) => Number(0.0 - a)
    case _ => x
  }

  /** 2.0 to the power n. */
  function PowerOfTwo(n: nat): Extended { if n < 1024 then Number(Pow2(n) as real) else Infinity }

  /** Whole numbers a double holds are not rounded. */
  ghost predicate KeepsWhole(round: real -> Extended) {
    forall n: nat :: n <= Pow2(53) ==> Kept(round, n)
  }

  ghost predicate Kept(round: real -> Extended, n: nat) { round(n as real) == Number(n as real) }

  function Term(limb: u64, i: nat, round: real -> Extended): Extended {
    Times(round(limb as real), PowerOfTwo(64 * i), round)
  }

  /** The limbs, weighted and added up from the lowest. */
  method Sum(limbs: seq<u64>, round: real -> Extended) returns (acc: Extended)
    requires KeepsWhole(round)
    ensures |limbs| > 16 ==> !acc.Number?
    ensures limbs != [] && LimbValue(limbs) <= Pow2(53) ==> acc == if |limbs| <= 16 then Number(LimbValue(limbs) as real) else NotANumber
  {
    hide LimbValue, Pow2, KeepsWhole, Term;
    var small := limbs != [] && LimbValue(limbs) <= Pow2(53);
    if small {
      LowestOnly(limbs);
    }
    acc := Number(0.0);
    for i := 0 to |limbs|
      invariant i > 16 ==> !acc.Number?
      invariant small ==> acc == if i == 0 then Number(0.0) else if i <= 16 then Number(limbs[0] as real) else NotANumber
    {
      TermIs(limbs[i], i, round);
      if small {
        Wholes(round, limbs[0]);
      }
      acc := Plus(acc, Term(limbs[i], i, round), round);
    }
  }

  lemma Wholes(round: real -> Extended, n: nat)
    requires KeepsWhole(round) && n <= Pow2(53)
    ensures round(n as real) == Number(n as real) && round(0.0) == Number(0.0)
  {
    assert Kept(round, n) && Kept(round, 0);
    assert 0 as real == 0.0;
  }

  lemma TermIs(limb: u64, i: nat, round: real -> Extended)
    requires KeepsWhole(round)
    ensures i >= 16 ==> !Term(limb, i, round).Number? && (limb == 0 ==> Term(limb, i, round) == NotANumber)
    ensures i < 16 && limb == 0 ==> Term(limb, i, round) == Number(0.0)
    ensures i == 0 && limb <= Pow2(53) ==> Term(limb, i, round) == Number(limb as real)
  {
    hide Pow2, KeepsWhole;
    Wholes(round, if limb <= Pow2(53) then limb else 0);
    ZeroTimes(Pow2(64 * i) as real);
    PowZero();
  }

  lemma ZeroTimes(x: real)
    ensures 0.0 * x == 0.0
  {
  }

  /** A number below 2^64 is its lowest limb. */
  lemma LowestOnly(limbs: seq<u64>)
    requires limbs != [] && LimbValue(limbs) <= Pow2(53)
    ensures limbs[0] == LimbValue(limbs) && forall i :: 1 <= i < |limbs| ==> limbs[i] == 0
  {
    BelowTwo53();
    assert LimbValue(limbs[1..]) == 0;
    AllZero(limbs[1..]);
    forall i | 1 <= i < |limbs|
      ensures limbs[i] == 0
    {
      assert limbs[1..][i - 1] == limbs[i];
    }
  }

  lemma {:induction false} AllZero(limbs: seq<u64>)
    requires LimbValue(limbs) == 0
    ensures forall i :: 0 <= i < |limbs| ==> limbs[i] == 0
  {
    if limbs != [] {
      AllZero(limbs[1..]);
    }
  }

  /**
   * decode_custom_int_limbs_to_double: with up to 16 limbs a small number comes
   * back as it is; with more nothing does, and small numbers are not even
   * infinite.
   */
  method LimbsToDouble(limbs: seq<u64>, bits: nat, round: real -> Extended) returns (r: Extended)
    requires bits >= 1 && |limbs| == LimbsFor(bits) && LimbValue(limbs) < Pow2(bits) && KeepsWhole(round)
    ensures bits > 1024 ==> !r.Number?
    ensures 0 - Pow2(53) <= SignedLimbs(limbs, bits) <= Pow2(53) ==>
      r == if bits <= 1024 then Number(SignedLimbs(limbs, bits) as real) else NotANumber
  {
    hide LimbValue, Pow2, KeepsWhole;
    var negative := SignBit(limbs, bits);
    SignBitMeans(limbs, bits);
    SignedRange(LimbValue(limbs) % Pow2(bits), bits);
    if !negative {
      DivUnique(LimbValue(limbs), Pow2(bits), 0, LimbValue(limbs));
      r := Sum(limbs, round);
      return;
    }
    var temp := new u64[|limbs|](i requires 0 <= i < |limbs| => limbs[i]);
    assert temp[..] == limbs;
    Negate(temp);
    MaskLast(temp, bits);
    NegatedSigned(LimbValue(limbs), bits);
    var magnitude := Sum(temp[..], round);
    r := Negated(magnitude);
  }
}
