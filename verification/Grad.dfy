/** Symbolic differentiation (ir.rs, Expr::grad) against the derivative over the reals. */
module Grad {
  import opened Words
  import opened DataTypes
  import opened Expr
  import Constants

  const ONE_PATTERN: u64 := 0x3FF0_0000_0000_0000   // 1.0 in binary64

  const ONE: Expr := Const(FloatConst(ONE_PATTERN, 32))
  const ZERO: Expr := Const(FloatConst(0, 32))

  /** The gradient with respect to the variable `wrt`; None where the source gives up. */
  function Grad(e: Expr, wrt: nat): Option<Expr> {
    match e
    case Var(v) => Some(if v.id == wrt then ONE else ZERO)
    case Const(_) => Some(ZERO)
    case Bin(op, a, b) =>
      (match (Grad(a, wrt), Grad(b, wrt))
       case (Some(da), Some(db)) => Some(GradBin(op, a, b, da, db))
       case _ => None)
    case DequantizeMatmul(_, _, _, _, _) => None
  }

  function GradBin(op: BinOp, a: Expr, b: Expr, da: Expr, db: Expr): Expr {
    match op
    case Add => Bin(Add, da, db)
    case Sub => Bin(Sub, da, db)
    case Mul => Bin(Add, Bin(Mul, da, b), Bin(Mul, a, db))
    case Div => Bin(Div, Bin(Sub, Bin(Mul, da, b), Bin(Mul, a, db)), Bin(Mul, b, b))
  }

  /** A meaning over the reals: values of variables by id, and of constants. */
  datatype Reading = Reading(env: nat -> real, val: Scalar -> real)
  {
    ghost predicate Standard() { val(ONE.val) == 1.0 && val(ZERO.val) == 0.0 }

    /** Every constant has the number it stands for. */
    ghost predicate Exact() { forall c: Scalar, x: real :: Constants.StandsFor(c, x) ==> val(c) == x }

    /** The reading with variable `x` set to `r`. */
    function At(x: nat, r: real): Reading {
      Reading((id: nat) => if id == x then r else env(id), val)
    }
  }

  /** The value of an expression; a division by zero is given the value 0. */
  ghost function Value(e: Expr, m: Reading): real {
    match e
    case Var(v) => m.env(v.id)
    case Const(c) => m.val(c)
    case Bin(op, a, b) => Combine(op, Value(a, m), Value(b, m))
    case DequantizeMatmul(_, _, _, _, _) => 0.0
  }

  function Combine(op: BinOp, x: real, y: real): real {
    match op
    case Add => x + y
    case Sub => x - y
    case Mul => x * y
    case Div => if y == 0.0 then 0.0 else x / y
  }

  /** No division by zero anywhere in `e`, and no matrix product. */
  ghost predicate Defined(e: Expr, m: Reading) {
    match e
    case Var(_) => true
    case Const(_) => true
    case Bin(op, a, b) => Defined(a, m) && Defined(b, m) && (op == Div ==> Value(b, m) != 0.0)
    case DequantizeMatmul(_, _, _, _, _) => false
  }

  function Abs(r: real): real { if r < 0.0 then -r else r }

  // ------------------------------------------------- first-order approximation

  /** u' is u + p h up to c h². */
  ghost predicate Near(u: real, u': real, p: real, h: real, c: real) {
    Abs(u' - u - p * h) <= c * (h * h)
  }

  lemma AbsTimes(x: real, y: real)
    ensures Abs(x * y) == Abs(x) * Abs(y)
  {
    if x < 0.0 {
      assert (-x) * y == -(x * y);
      if y < 0.0 {
        assert (-x) * (-y) == x * y;
        Sign(-x, -y);
      } else {
        Sign(-x, y);
      }
    } else if y < 0.0 {
      assert x * (-y) == -(x * y);
      Sign(x, -y);
    } else {
      Sign(x, y);
    }
  }

  lemma Sign(x: real, y: real)
    requires x >= 0.0 && y >= 0.0
    ensures x * y >= 0.0
  {
  }

  lemma TimesMono(x: real, y: real, z: real)
    requires x <= y && z >= 0.0
    ensures x * z <= y * z
  {
    Sign(y - x, z);
    assert (y - x) * z == y * z - x * z;
  }

  /** |x y| is at most a b when |x| is at most a and |y| at most b. */
  lemma AbsProduct(x: real, y: real, a: real, b: real)
    requires Abs(x) <= a && Abs(y) <= b
    ensures Abs(x * y) <= a * b
  {
    AbsTimes(x, y);
    TimesMono(Abs(x), a, Abs(y));
    TimesMono(Abs(y), b, a);
    assert a * Abs(y) == Abs(y) * a && b * a == a * b;
  }

  lemma SquareSmall(h: real)
    requires Abs(h) <= 1.0
    ensures 0.0 <= h * h <= Abs(h) <= 1.0
  {
    var k := Abs(h);
    assert k * k == h * h by {
      if h < 0.0 {
        assert (-h) * (-h) == h * h;
      }
    }
    TimesMono(k, 1.0, k);
    assert k * k <= k;
    Sign(k, k);
  }

  lemma NearSum(u: real, u': real, p: real, a: real, v: real, v': real, q: real, b: real, h: real)
    requires Near(u, u', p, h, a) && Near(v, v', q, h, b)
    ensures Near(u + v, u' + v', p + q, h, a + b) && Near(u - v, u' - v', p - q, h, a + b)
  {
    assert (p + q) * h == p * h + q * h && (p - q) * h == p * h - q * h;
    assert (a + b) * (h * h) == a * (h * h) + b * (h * h);
  }

  /** The constant of the product rule. */
  function ProductBound(u: real, p: real, a: real, v: real, q: real, b: real): real {
    Abs(u) * b + Abs(p) * Abs(q) + Abs(p) * b + Abs(v) * a + Abs(q) * a + a * b
  }

  /** A factor at most a times a factor at most b s. */
  lemma Term(x: real, y: real, a: real, b: real, s: real)
    requires Abs(x) <= a && Abs(y) <= b * s
    ensures Abs(x * y) <= a * b * s
  {
    AbsProduct(x, y, a, b * s);
    assert a * (b * s) == a * b * s;
  }

  lemma Shrink(x: real, h: real, a: real)
    requires Abs(x) <= a && Abs(h) <= 1.0
    ensures Abs(x * h) <= a
  {
    AbsProduct(x, h, a, 1.0);
  }

  /** h² p q, rearranged. */
  lemma SlopeTerm(p: real, q: real, h: real, x: real, y: real)
    requires x == p * h && y == q * h
    ensures Abs(x * y) <= Abs(p) * Abs(q) * (h * h)
  {
    var s := h * h;
    assert x * y == p * q * s;
    assert s >= 0.0 by {
      if h < 0.0 {
        assert (-h) * (-h) == s;
      }
    }
    AbsTimes(p * q, s);
    AbsTimes(p, q);
  }

  /** The error terms of a product add up to at most the bound times s = h²; x is p h and y is q h. */
  lemma ErrorTerms(u: real, p: real, a: real, v: real, q: real, b: real, s: real, x: real, y: real, e1: real, e2: real)
    requires a >= 0.0 && b >= 0.0 && 0.0 <= s <= 1.0
    requires Abs(e1) <= a * s && Abs(e2) <= b * s
    requires Abs(x) <= Abs(p) && Abs(y) <= Abs(q) && Abs(x * y) <= Abs(p) * Abs(q) * s
    ensures Abs(u * e2 + x * y + x * e2 + v * e1 + y * e1 + e1 * e2) <= ProductBound(u, p, a, v, q, b) * s
  {
    hide Abs;
    Term(u, e2, Abs(u), b, s);
    Term(x, e2, Abs(p), b, s);
    Term(v, e1, Abs(v), a, s);
    Term(y, e1, Abs(q), a, s);
    assert Abs(e1) <= a by { TimesMono(s, 1.0, a); assert a * s == s * a; }
    Term(e1, e2, a, b, s);
    assert Abs(u * e2) <= (Abs(u) * b) * s && Abs(x * y) <= (Abs(p) * Abs(q)) * s && Abs(x * e2) <= (Abs(p) * b) * s;
    assert Abs(v * e1) <= (Abs(v) * a) * s && Abs(y * e1) <= (Abs(q) * a) * s && Abs(e1 * e2) <= (a * b) * s;
    SixTerms(u * e2, x * y, x * e2, v * e1, y * e1, e1 * e2,
             Abs(u) * b, Abs(p) * Abs(q), Abs(p) * b, Abs(v) * a, Abs(q) * a, a * b, s);
  }

  lemma SixTerms(t1: real, t2: real, t3: real, t4: real, t5: real, t6: real,
                 c1: real, c2: real, c3: real, c4: real, c5: real, c6: real, s: real)
    requires Abs(t1) <= c1 * s && Abs(t2) <= c2 * s && Abs(t3) <= c3 * s
    requires Abs(t4) <= c4 * s && Abs(t5) <= c5 * s && Abs(t6) <= c6 * s
    ensures Abs(t1 + t2 + t3 + t4 + t5 + t6) <= (c1 + c2 + c3 + c4 + c5 + c6) * s
  {
    hide Abs;
    AbsSix(t1, t2, t3, t4, t5, t6);
    SumOfSix(c1, c2, c3, c4, c5, c6, s);
  }

  lemma AbsSix(a: real, b: real, c: real, d: real, e: real, f: real)
    ensures Abs(a + b + c + d + e + f) <= Abs(a) + Abs(b) + Abs(c) + Abs(d) + Abs(e) + Abs(f)
  {
  }

  /** The product rule, with an explicit quadratic error. */
  lemma NearProduct(u: real, u': real, p: real, a: real, v: real, v': real, q: real, b: real, h: real)
    requires Near(u, u', p, h, a) && Near(v, v', q, h, b) && a >= 0.0 && b >= 0.0 && Abs(h) <= 1.0
    ensures Near(u * v, u' * v', p * v + u * q, h, ProductBound(u, p, a, v, q, b))
  {
    hide Abs, ProductBound;
    var x, y := p * h, q * h;
    var e1, e2 := u' - u - x, v' - v - y;
    SquareSmall(h);
    Shrink(p, h, Abs(p));
    Shrink(q, h, Abs(q));
    SlopeTerm(p, q, h, x, y);
    ErrorTerms(u, p, a, v, q, b, h * h, x, y, e1, e2);
    ProductExpands(u, x, v, y, e1, e2);
    Cross(u, p, v, q, h, x, y);
    Rewrite(u', v', u + x + e1, v + y + e2);
    var t := u * e2 + x * y + x * e2 + v * e1 + y * e1 + e1 * e2;
    assert u' * v' - u * v - (p * v + u * q) * h == t;
  }

  lemma Rewrite(u: real, v: real, x: real, y: real)
    requires u == x && v == y
    ensures u * v == x * y
  {
  }

  lemma Cross(u: real, p: real, v: real, q: real, h: real, x: real, y: real)
    requires x == p * h && y == q * h
    ensures (p * v + u * q) * h == x * v + u * y
  {
    assert p * v * h == p * h * v;
    assert u * q * h == u * (q * h);
  }

  lemma ProductExpands(u: real, x: real, v: real, y: real, e1: real, e2: real)
    ensures (u + x + e1) * (v + y + e2) == u * v + x * v + u * y + u * e2 + x * y + x * e2 + v * e1 + y * e1 + e1 * e2
  {
    var w := v + y + e2;
    assert (u + x + e1) * w == u * w + x * w + e1 * w;
    assert u * w == u * v + u * y + u * e2;
    assert x * w == x * v + x * y + x * e2;
    assert e1 * w == v * e1 + y * e1 + e1 * e2;
  }

  lemma SumOfSix(a: real, b: real, c: real, d: real, e: real, f: real, s: real)
    ensures (a + b + c + d + e + f) * s == a * s + b * s + c * s + d * s + e * s + f * s
  {
  }

  // --------------------------------------------------------- reciprocals

  /** The constant of the reciprocal rule for w = 1/v, where cz is 2 w² and ck is |w| cz. */
  function InverseBound(ck: real, cz: real, cq: real, b: real): real {
    ck * (cq * cq) + ck * (cq * b) + cz * b
  }

  lemma TimesMonoLeft(x: real, y: real, z: real)
    requires x <= y && z >= 0.0
    ensures z * x <= z * y
  {
    TimesMono(x, y, z);
    assert z * x == x * z && z * y == y * z;
  }

  lemma StrictSign(x: real, y: real)
    requires x > 0.0 && y > 0.0
    ensures x * y > 0.0
  {
  }

  lemma NotPositive(x: real, y: real)
    requires x * y <= 0.0 && y > 0.0
    ensures x <= 0.0
  {
    if x > 0.0 {
      StrictSign(x, y);
    }
  }

  lemma CancelTwice(v: real, v': real, w: real, w': real)
    requires v * w == 1.0 && v' * w' == 1.0 && v <= 2.0 * v' && v' > 0.0 && w >= 0.0
    ensures w' <= 2.0 * w
  {
    TimesMono(v, 2.0 * v', w);
    Distribute(w', -2.0 * w, v');
    assert (-2.0 * w) * v' == -(2.0 * v' * w);
    assert w' * v' == v' * w';
    NotPositive(w' - 2.0 * w, v');
  }

  /** If v' is at least half of v, its inverse is at most twice that of v. */
  lemma InverseAtMostTwice(v: real, v': real, w: real, w': real)
    requires v * w == 1.0 && v' * w' == 1.0 && Abs(v) <= 2.0 * Abs(v') && v' != 0.0
    ensures Abs(w') <= 2.0 * Abs(w)
  {
    AbsTimes(v, w);
    AbsTimes(v', w');
    assert Abs(v * w) == 1.0 && Abs(v' * w') == 1.0;
    CancelTwice(Abs(v), Abs(v'), Abs(w), Abs(w'));
  }

  /** A small step leaves v at least half as large. */
  lemma StaysAway(v: real, v': real, q: real, b: real, h: real)
    requires Near(v, v', q, h, b) && b >= 0.0 && Abs(h) <= 1.0 && v != 0.0
    requires (Abs(q) + b) * Abs(h) <= Abs(v) / 2.0
    ensures Abs(v) <= 2.0 * Abs(v') && v' != 0.0
  {
    hide Abs;
    var y := q * h;
    var e := v' - v - y;
    SquareSmall(h);
    TimesMonoLeft(h * h, Abs(h), b);
    AbsTimes(q, h);
    Distribute(Abs(q), b, Abs(h));
    StaysAwayBy(v, v', y, e, Abs(q) * Abs(h), b * Abs(h));
  }

  lemma Distribute(x: real, y: real, z: real)
    ensures (x + y) * z == x * z + y * z
  {
  }

  lemma StaysAwayBy(v: real, v': real, y: real, e: real, cy: real, ce: real)
    requires v' == v + y + e && Abs(y) <= cy && Abs(e) <= ce && cy + ce <= Abs(v) / 2.0 && v != 0.0
    ensures Abs(v) <= 2.0 * Abs(v') && v' != 0.0
  {
  }

  /** 1/v' - 1/v in terms of v' - v = y + e; z is w w' and k is w z. */
  lemma InverseExpands(v: real, w: real, w': real, y: real, e: real, z: real, k: real)
    requires v * w == 1.0 && (v + y + e) * w' == 1.0 && z == w * w' && k == w * z
    ensures w' - w + w * w * y == k * (y * y) + k * (y * e) - z * e
  {
    var d := y + e;
    assert w' - w == -(z * d) by {
      assert w * ((v + d) * w') == w;
      assert (v + d) * w' == v * w' + d * w';
      assert w * (v * w' + d * w') == w * (v * w') + w * (d * w');
      assert w * (v * w') == v * w * w' && w * (d * w') == z * d;
    }
    assert z * d == z * y + z * e;
    var t := w * y;
    assert t * (w - w') == t * w - t * w' && t * (w - w') == t * (z * d);
    assert t * w == w * w * y && t * w' == z * y;
    assert t * (z * d) == k * (y * d) by {
      assert t * (z * d) == w * y * z * d && k * (y * d) == w * z * y * d;
    }
    assert k * (y * d) == k * (y * y) + k * (y * e) by {
      assert y * d == y * y + y * e;
      Distribute(y * y, y * e, k);
    }
  }

  lemma ThreeTerms(t1: real, t2: real, t3: real, c1: real, c2: real, c3: real, s: real)
    requires Abs(t1) <= c1 * s && Abs(t2) <= c2 * s && Abs(t3) <= c3 * s
    ensures Abs(t1 + t2 - t3) <= (c1 + c2 + c3) * s
  {
    assert (c1 + c2 + c3) * s == c1 * s + c2 * s + c3 * s;
  }

  lemma InverseErrors(w: real, w': real, q: real, b: real, s: real, y: real, e: real, z: real, k: real,
                      ck: real, cz: real)
    requires cz == Abs(w) * (2.0 * Abs(w)) && ck == Abs(w) * cz
    requires b >= 0.0 && 0.0 <= s <= 1.0 && Abs(w') <= 2.0 * Abs(w) && z == w * w' && k == w * z
    requires Abs(y) <= Abs(q) && Abs(y * y) <= Abs(q) * Abs(q) * s && Abs(e) <= b * s
    ensures Abs(k * (y * y) + k * (y * e) - z * e) <= InverseBound(ck, cz, Abs(q), b) * s
  {
    hide Abs, InverseBound;
    AbsProduct(w, w', Abs(w), 2.0 * Abs(w));
    AbsProduct(w, z, Abs(w), cz);
    InverseTerms(k, z, Abs(q), b, s, y, e, ck, cz);
  }

  lemma InverseTerms(k: real, z: real, cq: real, b: real, s: real, y: real, e: real, ck: real, cz: real)
    requires Abs(k) <= ck && Abs(z) <= cz
    requires Abs(y) <= cq && Abs(y * y) <= cq * cq * s && Abs(e) <= b * s
    ensures Abs(k * (y * y) + k * (y * e) - z * e) <= InverseBound(ck, cz, cq, b) * s
  {
    hide Abs;
    TermOf(k, y * y, ck, cq * cq, s, k * (y * y), ck * (cq * cq));
    TermOf(y, e, cq, b, s, y * e, cq * b);
    TermOf(k, y * e, ck, cq * b, s, k * (y * e), ck * (cq * b));
    TermOf(z, e, cz, b, s, z * e, cz * b);
    ThreeTerms(k * (y * y), k * (y * e), z * e, ck * (cq * cq), ck * (cq * b), cz * b, s);
  }

  lemma TermOf(x: real, y: real, a: real, b: real, s: real, t: real, c: real)
    requires Abs(x) <= a && Abs(y) <= b * s && t == x * y && c == a * b
    ensures Abs(t) <= c * s
  {
    Term(x, y, a, b, s);
  }

  /** The reciprocal rule. */
  lemma NearInverse(v: real, v': real, w: real, w': real, q: real, b: real, h: real, ck: real, cz: real)
    requires cz == Abs(w) * (2.0 * Abs(w)) && ck == Abs(w) * cz
    requires Near(v, v', q, h, b) && b >= 0.0 && Abs(h) <= 1.0 && v * w == 1.0 && v' * w' == 1.0
    requires Abs(v) <= 2.0 * Abs(v') && v' != 0.0
    ensures Near(w, w', -(w * w * q), h, InverseBound(ck, cz, Abs(q), b))
  {
    hide Abs, InverseBound;
    var y := q * h;
    var e := v' - v - y;
    var z := w * w';
    var k := w * z;
    SquareSmall(h);
    Shrink(q, h, Abs(q));
    SlopeTerm(q, q, h, y, y);
    InverseAtMostTwice(v, v', w, w');
    InverseErrors(w, w', q, b, h * h, y, e, z, k, ck, cz);
    Rewrite(v', w', v + y + e, w');
    InverseExpands(v, w, w', y, e, z, k);
    NegatedSlope(w, q, h, y);
    var t := k * (y * y) + k * (y * e) - z * e;
    assert w' - w - -(w * w * q) * h == t;
  }

  lemma NegatedSlope(w: real, q: real, h: real, y: real)
    requires y == q * h
    ensures -(w * w * q) * h == -(w * w * y)
  {
    assert w * w * q * h == w * w * (q * h);
    assert -(w * w * q) * h == -(w * w * q * h);
  }

  // ----------------------------------------------------------- quotients

  lemma DivIsTimes(u: real, v: real, w: real)
    requires v * w == 1.0 && v != 0.0
    ensures u / v == u * w
  {
    assert u * w * v == u * (v * w);
    var d := u / v;
    assert d * v == u;
    assert d * v * w == d * (v * w);
  }

  lemma SquarePositive(v: real)
    requires v != 0.0
    ensures v * v > 0.0
  {
    if v > 0.0 {
      StrictSign(v, v);
    } else {
      StrictSign(-v, -v);
      assert (-v) * (-v) == v * v;
    }
  }

  lemma QuotientSlope(u: real, p: real, v: real, q: real, w: real)
    requires v * w == 1.0 && v != 0.0
    ensures v * v != 0.0 && (p * v - u * q) / (v * v) == p * w + u * -(w * w * q)
  {
    var n := p * v - u * q;
    var w2 := w * w;
    assert v * v * w2 == (v * w) * (v * w);
    SquarePositive(v);
    DivIsTimes(n, v * v, w2);
    Distribute(p * v, -(u * q), w2);
    assert p * v * w2 == p * w * (v * w);
    assert -(u * q) * w2 == u * -(w2 * q);
  }

  /** The quotient rule, with an explicit quadratic error. */
  lemma NearQuotient(u: real, u': real, p: real, a: real, v: real, v': real, q: real, b: real, h: real,
                     w: real, ck: real, cz: real)
    requires Near(u, u', p, h, a) && Near(v, v', q, h, b) && a >= 0.0 && b >= 0.0 && Abs(h) <= 1.0
    requires v != 0.0 && v * w == 1.0 && cz == Abs(w) * (2.0 * Abs(w)) && ck == Abs(w) * cz
    requires (Abs(q) + b) * Abs(h) <= Abs(v) / 2.0
    ensures v' != 0.0 && v * v != 0.0
    ensures Near(u / v, u' / v', (p * v - u * q) / (v * v), h, QuotientBound(u, p, a, q, b, w, ck, cz))
  {
    hide Abs, Near, InverseBound, ProductBound;
    StaysAway(v, v', q, b, h);
    var w' := 1.0 / v';
    assert v' * w' == 1.0;
    NearInverse(v, v', w, w', q, b, h, ck, cz);
    InverseBoundPositive(w, q, b, ck, cz);
    NearProduct(u, u', p, a, w, w', -(w * w * q), InverseBound(ck, cz, Abs(q), b), h);
    DivIsTimes(u, v, w);
    DivIsTimes(u', v', w');
    QuotientSlope(u, p, v, q, w);
    assert Near(u * w, u' * w', p * w + u * -(w * w * q), h, QuotientBound(u, p, a, q, b, w, ck, cz));
    NearSame(u * w, u / v, u' * w', u' / v', p * w + u * -(w * w * q), (p * v - u * q) / (v * v), h,
             QuotientBound(u, p, a, q, b, w, ck, cz));
  }

  lemma NearSame(u1: real, u2: real, v1: real, v2: real, d1: real, d2: real, h: real, c: real)
    requires u1 == u2 && v1 == v2 && d1 == d2 && Near(u1, v1, d1, h, c)
    ensures Near(u2, v2, d2, h, c)
  {
  }

  function QuotientBound(u: real, p: real, a: real, q: real, b: real, w: real, ck: real, cz: real): real {
    ProductBound(u, p, a, w, -(w * w * q), InverseBound(ck, cz, Abs(q), b))
  }

  lemma InverseBoundPositive(w: real, q: real, b: real, ck: real, cz: real)
    requires cz == Abs(w) * (2.0 * Abs(w)) && ck == Abs(w) * cz && b >= 0.0
    ensures InverseBound(ck, cz, Abs(q), b) >= 0.0
  {
    var cq := Abs(q);
    Sign(Abs(w), 2.0 * Abs(w));
    Sign(Abs(w), cz);
    Sign(cq, cq);
    Sign(cq, b);
    Sign(ck, cq * cq);
    Sign(ck, cq * b);
    Sign(cz, b);
  }

  lemma ProductBoundPositive(u: real, p: real, a: real, v: real, q: real, b: real)
    requires a >= 0.0 && b >= 0.0
    ensures ProductBound(u, p, a, v, q, b) >= 0.0
  {
    Sign(Abs(u), b);
    Sign(Abs(p), Abs(q));
    Sign(Abs(p), b);
    Sign(Abs(v), a);
    Sign(Abs(q), a);
    Sign(a, b);
  }

  // ------------------------------------------------------- the derivative

  /** Moving `x` from r to r + h keeps `e` defined and moves its value by d h, up to c h². */
  ghost predicate MovesBy(e: Expr, m: Reading, x: nat, r: real, d: real, c: real, h: real) {
    && Defined(e, m.At(x, r + h))
    && Near(Value(e, m.At(x, r)), Value(e, m.At(x, r + h)), d, h, c)
  }

  /** d is the derivative of `e` in `x` at r: the error is at most c h² for all |h| <= delta. */
  ghost predicate IsDerivative(e: Expr, m: Reading, x: nat, r: real, d: real, c: real, delta: real) {
    c >= 0.0 && 0.0 < delta <= 1.0 && forall h :: Abs(h) <= delta ==> MovesBy(e, m, x, r, d, c, h)
  }

  function Min(x: real, y: real): real { if x < y then x else y }

  /** How far h may go before the denominator v could lose half its size. */
  function Reach(v: real, q: real, b: real): real {
    if Abs(q) + b > 0.0 then Abs(v) / 2.0 / (Abs(q) + b) else 1.0
  }

  lemma ReachPositive(v: real, q: real, b: real)
    requires b >= 0.0 && v != 0.0
    ensures Reach(v, q, b) > 0.0
  {
    if Abs(q) + b > 0.0 {
      PositiveQuotient(Abs(v) / 2.0, Abs(q) + b);
    }
  }

  lemma ReachIsSafe(v: real, q: real, b: real, h: real)
    requires b >= 0.0 && v != 0.0 && Abs(h) <= Reach(v, q, b)
    ensures (Abs(q) + b) * Abs(h) <= Abs(v) / 2.0
  {
    var k := Abs(q) + b;
    if k > 0.0 {
      var t := Abs(v) / 2.0 / k;
      assert t * k == Abs(v) / 2.0;
      TimesMono(Abs(h), t, k);
      assert k * Abs(h) == Abs(h) * k;
    }
  }

  lemma MovesTogether(op: BinOp, a: Expr, b: Expr, m: Reading, x: nat, r: real, da: real, ca: real, db: real, cb: real, h: real,
                      w: real, ck: real, cz: real)
    requires MovesBy(a, m, x, r, da, ca, h) && MovesBy(b, m, x, r, db, cb, h) && ca >= 0.0 && cb >= 0.0 && Abs(h) <= 1.0
    requires op == Div ==> Value(b, m.At(x, r)) != 0.0 && Value(b, m.At(x, r)) * w == 1.0
    requires op == Div ==> (Abs(db) + cb) * Abs(h) <= Abs(Value(b, m.At(x, r))) / 2.0
    requires op == Div ==> cz == Abs(w) * (2.0 * Abs(w)) && ck == Abs(w) * cz
    ensures MovesBy(Bin(op, a, b), m, x, r, Slope(op, Value(a, m.At(x, r)), da, Value(b, m.At(x, r)), db),
                    BinBound(op, Value(a, m.At(x, r)), da, ca, Value(b, m.At(x, r)), db, cb, w, ck, cz), h)
  {
    hide Abs, Near, Combine, Slope, BinBound;
    CombineNear(op, Value(a, m.At(x, r)), Value(a, m.At(x, r + h)), da, ca,
                Value(b, m.At(x, r)), Value(b, m.At(x, r + h)), db, cb, h, w, ck, cz);
  }

  lemma CombineNear(op: BinOp, u: real, u': real, p: real, a: real, v: real, v': real, q: real, b: real, h: real,
                    w: real, ck: real, cz: real)
    requires Near(u, u', p, h, a) && Near(v, v', q, h, b) && a >= 0.0 && b >= 0.0 && Abs(h) <= 1.0
    requires op == Div ==> v != 0.0 && v * w == 1.0 && cz == Abs(w) * (2.0 * Abs(w)) && ck == Abs(w) * cz
    requires op == Div ==> (Abs(q) + b) * Abs(h) <= Abs(v) / 2.0
    ensures op == Div ==> v' != 0.0
    ensures Near(Combine(op, u, v), Combine(op, u', v'), Slope(op, u, p, v, q), h, BinBound(op, u, p, a, v, q, b, w, ck, cz))
  {
    hide Abs, Near, ProductBound, QuotientBound;
    match op
    case Add => NearSum(u, u', p, a, v, v', q, b, h);
    case Sub => NearSum(u, u', p, a, v, v', q, b, h);
    case Mul =>
      NearProduct(u, u', p, a, v, v', q, b, h);
      NearSame(u * v, Combine(op, u, v), u' * v', Combine(op, u', v'), p * v + u * q, Slope(op, u, p, v, q), h,
               ProductBound(u, p, a, v, q, b));
    case Div =>
      NearQuotient(u, u', p, a, v, v', q, b, h, w, ck, cz);
      NearSame(u / v, Combine(op, u, v), u' / v', Combine(op, u', v'), (p * v - u * q) / (v * v), Slope(op, u, p, v, q), h,
               QuotientBound(u, p, a, q, b, w, ck, cz));
  }

  /** The rules of differentiation. */
  function Slope(op: BinOp, u: real, p: real, v: real, q: real): real {
    match op
    case Add => p + q
    case Sub => p - q
    case Mul => p * v + u * q
    case Div => if v * v == 0.0 then 0.0 else (p * v - u * q) / (v * v)
  }

  function BinBound(op: BinOp, u: real, p: real, a: real, v: real, q: real, b: real, w: real, ck: real, cz: real): real {
    match op
    case Add => a + b
    case Sub => a + b
    case Mul => ProductBound(u, p, a, v, q, b)
    case Div => QuotientBound(u, p, a, q, b, w, ck, cz)
  }

  lemma BinBoundPositive(op: BinOp, u: real, p: real, a: real, v: real, q: real, b: real, w: real, ck: real, cz: real)
    requires a >= 0.0 && b >= 0.0 && (op == Div ==> cz == Abs(w) * (2.0 * Abs(w)) && ck == Abs(w) * cz)
    ensures BinBound(op, u, p, a, v, q, b, w, ck, cz) >= 0.0
  {
    hide Abs, ProductBound, InverseBound;
    if op == Mul {
      ProductBoundPositive(u, p, a, v, q, b);
    } else if op == Div {
      InverseBoundPositive(w, q, b, ck, cz);
      ProductBoundPositive(u, p, a, w, -(w * w * q), InverseBound(ck, cz, Abs(q), b));
    }
  }

  /** There is such a reading for all values of the variables. */
  lemma ExactReading(env: nat -> real)
    ensures Reading(env, (c: Scalar) => Constants.Number(c)).Exact()
  {
    hide Constants.StandsFor, Constants.Number;
    forall c: Scalar, x: real | Constants.StandsFor(c, x)
      ensures Constants.Number(c) == x
    {
      Constants.NumberOf(c, x);
    }
  }

  /** The patterns of ONE and ZERO are those of 1.0 and 0.0. */
  lemma ExactIsStandard(m: Reading)
    requires m.Exact()
    ensures m.Standard()
  {
    Constants.OneAndZero();
  }

  /** Where every denominator is non-zero, the value of the gradient is the derivative, constants being read as their patterns. */
  lemma GradIsDerivative(e: Expr, m: Reading, x: nat, r: real) returns (c: real, delta: real)
    requires m.Exact() && Grad(e, x).Some? && Defined(e, m.At(x, r))
    ensures Defined(Grad(e, x).value, m.At(x, r))
    ensures IsDerivative(e, m, x, r, Value(Grad(e, x).value, m.At(x, r)), c, delta)
  {
    hide *;
    ExactIsStandard(m);
    c, delta := StandardDerivative(e, m, x, r);
  }

  lemma {:induction false} StandardDerivative(e: Expr, m: Reading, x: nat, r: real) returns (c: real, delta: real)
    requires m.Standard() && Grad(e, x).Some? && Defined(e, m.At(x, r))
    ensures Defined(Grad(e, x).value, m.At(x, r))
    ensures IsDerivative(e, m, x, r, Value(Grad(e, x).value, m.At(x, r)), c, delta)
  {
    hide ProductBound, QuotientBound, InverseBound;
    var at := m.At(x, r);
    match e
    case Var(v) =>
      c, delta := 0.0, 1.0;
    case Const(_) =>
      c, delta := 0.0, 1.0;
    case Bin(op, a, b) =>
      var ca, ea := StandardDerivative(a, m, x, r);
      var cb, eb := StandardDerivative(b, m, x, r);
      c, delta := BinDerivative(op, a, b, m, x, r, Value(Grad(a, x).value, at), ca, ea, Value(Grad(b, x).value, at), cb, eb);
      GradBinValue(op, a, b, Grad(a, x).value, Grad(b, x).value, at);
  }

  lemma GradBinValue(op: BinOp, a: Expr, b: Expr, da: Expr, db: Expr, at: Reading)
    requires Defined(Bin(op, a, b), at) && Defined(da, at) && Defined(db, at)
    ensures Defined(GradBin(op, a, b, da, db), at)
    ensures Value(GradBin(op, a, b, da, db), at) == Slope(op, Value(a, at), Value(da, at), Value(b, at), Value(db, at))
  {
    hide Combine, Slope, GradBin;
    var p, q := Value(da, at), Value(db, at);
    CombineSlope(op, Value(a, at), p, Value(b, at), q);
    match op
    case Add => hide *; GradBinUnfolds(op, a, b, da, db);
      BinValue(Add, da, db, at);
    case Sub => hide *; GradBinUnfolds(op, a, b, da, db);
      BinValue(Sub, da, db, at);
    case Mul => hide *; GradBinUnfolds(op, a, b, da, db);
      BinValue(Mul, da, b, at);
      BinValue(Mul, a, db, at);
      BinValue(Add, Bin(Mul, da, b), Bin(Mul, a, db), at);
    case Div => hide *; GradBinUnfolds(op, a, b, da, db);
      BinValue(Mul, da, b, at);
      BinValue(Mul, a, db, at);
      BinValue(Mul, b, b, at);
      BinValue(Sub, Bin(Mul, da, b), Bin(Mul, a, db), at);
      BinValue(Div, Bin(Sub, Bin(Mul, da, b), Bin(Mul, a, db)), Bin(Mul, b, b), at);
  }

  lemma BinValue(op: BinOp, a: Expr, b: Expr, at: Reading)
    ensures Value(Bin(op, a, b), at) == Combine(op, Value(a, at), Value(b, at))
    ensures Defined(Bin(op, a, b), at) <==> Defined(a, at) && Defined(b, at) && (op == Div ==> Value(b, at) != 0.0)
  {
  }

  lemma GradBinUnfolds(op: BinOp, a: Expr, b: Expr, da: Expr, db: Expr)
    ensures GradBin(op, a, b, da, db) ==
            match op
            case Add => Bin(Add, da, db)
            case Sub => Bin(Sub, da, db)
            case Mul => Bin(Add, Bin(Mul, da, b), Bin(Mul, a, db))
            case Div => Bin(Div, Bin(Sub, Bin(Mul, da, b), Bin(Mul, a, db)), Bin(Mul, b, b))
  {
  }

  /** The rules of differentiation, written with the operators themselves. */
  lemma CombineSlope(op: BinOp, u: real, p: real, v: real, q: real)
    requires op == Div ==> v != 0.0
    ensures op == Add ==> Slope(op, u, p, v, q) == Combine(Add, p, q)
    ensures op == Sub ==> Slope(op, u, p, v, q) == Combine(Sub, p, q)
    ensures op == Mul ==> Slope(op, u, p, v, q) == Combine(Add, Combine(Mul, p, v), Combine(Mul, u, q))
    ensures op == Div ==>
      && Combine(Mul, v, v) != 0.0
      && Slope(op, u, p, v, q) == Combine(Div, Combine(Sub, Combine(Mul, p, v), Combine(Mul, u, q)), Combine(Mul, v, v))
  {
    if op == Div {
      SquarePositive(v);
      CombinePositive(v, v);
    }
  }

  lemma CombinePositive(x: real, y: real)
    requires x * y > 0.0
    ensures Combine(Mul, x, y) > 0.0
  {
  }

  lemma BinDerivative(op: BinOp, a: Expr, b: Expr, m: Reading, x: nat, r: real,
                      da: real, ca: real, ea: real, db: real, cb: real, eb: real) returns (c: real, delta: real)
    requires IsDerivative(a, m, x, r, da, ca, ea) && IsDerivative(b, m, x, r, db, cb, eb)
    requires Defined(Bin(op, a, b), m.At(x, r))
    ensures IsDerivative(Bin(op, a, b), m, x, r, Slope(op, Value(a, m.At(x, r)), da, Value(b, m.At(x, r)), db), c, delta)
  {
    hide Abs, MovesBy, Slope, BinBound;
    var u, v := Value(a, m.At(x, r)), Value(b, m.At(x, r));
    delta := Min(ea, eb);
    var w := 0.0;
    if op == Div {
      w := 1.0 / v;
      assert v * w == 1.0;
      ReachPositive(v, db, cb);
      delta := Min(delta, Reach(v, db, cb));
    }
    var cz := Abs(w) * (2.0 * Abs(w));
    var ck := Abs(w) * cz;
    c := BinBound(op, u, da, ca, v, db, cb, w, ck, cz);
    BinBoundPositive(op, u, da, ca, v, db, cb, w, ck, cz);
    forall h | Abs(h) <= delta
      ensures MovesBy(Bin(op, a, b), m, x, r, Slope(op, u, da, v, db), c, h)
    {
      if op == Div { ReachIsSafe(v, db, cb, h); }
      assert MovesBy(a, m, x, r, da, ca, h) && MovesBy(b, m, x, r, db, cb, h);
      MovesTogether(op, a, b, m, x, r, da, ca, db, cb, h, w, ck, cz);
    }
  }

  /** There is only one derivative. */
  lemma DerivativeIsUnique(e: Expr, m: Reading, x: nat, r: real, d1: real, c1: real, e1: real, d2: real, c2: real, e2: real)
    requires IsDerivative(e, m, x, r, d1, c1, e1) && IsDerivative(e, m, x, r, d2, c2, e2)
    ensures d1 == d2
  {
    hide Value, Defined, Abs;
    if d1 != d2 {
      AbsPositive(d1 - d2);
      var h := CloseEnough(e1, e2, Abs(d1 - d2), c1 + c2);
      assert MovesBy(e, m, x, r, d1, c1, h) && MovesBy(e, m, x, r, d2, c2, h);
      SlopesAgree(Value(e, m.At(x, r + h)) - Value(e, m.At(x, r)), d1, d2, h, c1, c2, Abs(d1 - d2), c1 + c2);
    }
  }

  lemma AbsPositive(x: real)
    requires x != 0.0
    ensures Abs(x) > 0.0
  {
  }

  lemma CloseEnough(e1: real, e2: real, d: real, k: real) returns (h: real)
    requires e1 > 0.0 && e2 > 0.0 && d > 0.0 && k >= 0.0
    ensures 0.0 < h && Abs(h) <= e1 && Abs(h) <= e2 && k * h < d
  {
    PositiveQuotient(d, k + 1.0);
    var t := d / (k + 1.0);
    h := Min(Min(e1, e2), t);
    TimesMono(h, t, k + 1.0);
    assert t * (k + 1.0) == d;
    Distribute(k, 1.0, h);
    assert h * (k + 1.0) == (k + 1.0) * h;
    assert Abs(h) == h;
    assert k * h + h <= d;
  }

  lemma PositiveQuotient(x: real, y: real)
    requires x > 0.0 && y > 0.0
    ensures x / y > 0.0
  {
    var t := x / y;
    assert t * y == x;
    if t <= 0.0 {
      TimesMono(t, 0.0, y);
    }
  }

  lemma SlopesAgree(t: real, d1: real, d2: real, h: real, c1: real, c2: real, d: real, k: real)
    requires Abs(t - d1 * h) <= c1 * (h * h) && Abs(t - d2 * h) <= c2 * (h * h)
    requires h > 0.0 && d == Abs(d1 - d2) && k == c1 + c2 && k >= 0.0
    ensures d <= k * h
  {
    var s := h * h;
    Distribute(c1, c2, s);
    Distribute(d1, -d2, h);
    assert (-d2) * h == -(d2 * h);
    AbsTimes(d1 - d2, h);
    assert d * h <= k * s;
    assert k * s == k * h * h;
    Distribute(d, -(k * h), h);
    assert -(k * h) * h == -(k * h * h);
    NotPositive(d - k * h, h);
  }

  // ------------------------------------------------ gradients and kernels

  /** Differentiation gives up exactly on matrix products. */
  lemma {:induction false} GradExists(e: Expr, x: nat)
    ensures Grad(e, x).Some? <==> !e.HasMatmul()
  {
    if e.Bin? {
      GradExists(e.left, x);
      GradExists(e.right, x);
    }
  }

  /** The leftmost leaf of a gradient is one of its own constants, so its type is always Float(32). */
  lemma {:induction false} GradIsSingle(e: Expr, x: nat)
    requires Grad(e, x).Some?
    ensures Grad(e, x).value.DataType() == Float(32)
  {
    if e.Bin? {
      GradIsSingle(e.left, x);
      var da, db := Grad(e.left, x).value, Grad(e.right, x).value;
      var product := Bin(Mul, da, e.right);
      assert product.DataType() == da.DataType();
      assert Bin(Sub, product, Bin(Mul, e.left, db)).DataType() == product.DataType();
    }
  }

  lemma {:induction false} GradLeaves(e: Expr, x: nat, bits: nat)
    requires Grad(e, x).Some? && e.Uniform(bits)
    ensures Grad(e, x).value.Uniform(bits)
  {
    if e.Bin? {
      GradLeaves(e.left, x, bits);
      GradLeaves(e.right, x, bits);
      GradBinLeaves(e.op, e.left, e.right, Grad(e.left, x).value, Grad(e.right, x).value, bits);
    }
  }

  lemma GradBinLeaves(op: BinOp, a: Expr, b: Expr, da: Expr, db: Expr, bits: nat)
    requires a.Uniform(bits) && b.Uniform(bits) && da.Uniform(bits) && db.Uniform(bits)
    ensures GradBin(op, a, b, da, db).Uniform(bits)
  {
    assert Bin(Mul, da, b).Uniform(bits) && Bin(Mul, a, db).Uniform(bits);
  }

  lemma {:induction false} OneWidth(e: Expr, bits: nat, other: nat)
    requires e.Uniform(bits) && e.Uniform(other) && e.Leaves() != []
    ensures bits == other
  {
    if e.Bin? {
      if e.left.Leaves() != [] {
        OneWidth(e.left, bits, other);
      } else {
        OneWidth(e.right, bits, other);
      }
    }
  }

  /** Some product or quotient in `e` has a variable under it; these are what the product and quotient rules copy. */
  predicate KeepsVariables(e: Expr) {
    match e
    case Bin(op, a, b) =>
      if op == Add || op == Sub then KeepsVariables(a) || KeepsVariables(b) else e.Leaves() != []
    case _ => false
  }

  /** A gradient has variables exactly if the expression multiplies or divides some, whatever the variable differentiated by. */
  lemma {:induction false} GradKeeps(e: Expr, x: nat)
    requires Grad(e, x).Some?
    ensures Grad(e, x).value.Leaves() != [] <==> KeepsVariables(e)
    ensures e.Leaves() == [] ==> Grad(e, x).value.Leaves() == []
  {
    if e.Bin? {
      GradKeeps(e.left, x);
      GradKeeps(e.right, x);
      GradBinKeeps(e.op, e.left, e.right, Grad(e.left, x).value, Grad(e.right, x).value);
    }
  }

  lemma GradBinKeeps(op: BinOp, a: Expr, b: Expr, da: Expr, db: Expr)
    requires (a.Leaves() == [] ==> da.Leaves() == []) && (b.Leaves() == [] ==> db.Leaves() == [])
    ensures var g := GradBin(op, a, b, da, db).Leaves();
            g != [] <==> if op == Add || op == Sub then da.Leaves() != [] || db.Leaves() != [] else a.Leaves() != [] || b.Leaves() != []
  {
    var left, right := Bin(Mul, da, b), Bin(Mul, a, db);
    assert left.Leaves() == da.Leaves() + b.Leaves() && right.Leaves() == a.Leaves() + db.Leaves();
    assert Bin(Add, left, right).Leaves() == left.Leaves() + right.Leaves();
    assert Bin(Sub, left, right).Leaves() == left.Leaves() + right.Leaves();
    assert Bin(Mul, b, b).Leaves() == b.Leaves() + b.Leaves();
  }

  /**
   * A kernel reads every variable at the type of the root. So the gradient of
   * an expression of one width can be compiled exactly when that width is 32
   * or the expression neither multiplies nor divides variables.
   */
  lemma GradFitsKernel(e: Expr, x: nat, bits: nat)
    requires Grad(e, x).Some? && e.Uniform(bits)
    ensures var g := Grad(e, x).value;
            g.DataType() == Float(32) && (g.Uniform(32) <==> bits == 32 || !KeepsVariables(e))
  {
    var g := Grad(e, x).value;
    GradIsSingle(e, x);
    GradLeaves(e, x, bits);
    GradKeeps(e, x);
    if g.Leaves() == [] {
      NoLeavesUniform(g, bits, 32);
    } else if g.Uniform(32) {
      OneWidth(g, bits, 32);
    }
  }

  /** The gradient of the square of a double is of type Float(32) and yet has the double for a leaf. */
  lemma SquareGoesWrong(v: Variable)
    requires v.dtype == Float(64)
    ensures var g := Grad(Bin(Mul, Var(v), Var(v)), v.id);
            && g == Some(Bin(Add, Bin(Mul, ONE, Var(v)), Bin(Mul, Var(v), ONE)))
            && g.value.DataType() == Float(32) && g.value.Leaves() == [v, v] && !g.value.Uniform(32)
  {
    var left, right := Bin(Mul, ONE, Var(v)), Bin(Mul, Var(v), ONE);
    var g := Bin(Add, left, right);
    assert Grad(Var(v), v.id) == Some(ONE);
    assert left.Leaves() == [v] && right.Leaves() == [v];
    assert left.DataType() == Float(32) && !right.Uniform(32);
  }

  lemma {:induction false} NoLeavesUniform(e: Expr, bits: nat, other: nat)
    requires e.Leaves() == [] && e.Uniform(bits)
    ensures e.Uniform(other)
  {
    if e.Bin? {
      NoLeavesUniform(e.left, bits, other);
      NoLeavesUniform(e.right, bits, other);
    }
  }

  // -------------------------------------------------------- sizes of gradients

  /** The largest size of a product or quotient in `e`; 0 if there is none. */
  function ProductSize(e: Expr): nat {
    match e
    case Bin(op, a, b) => if op == Add || op == Sub then Max(ProductSize(a), ProductSize(b)) else e.Size()
    case _ => 0
  }

  /** A gradient has the size of the largest product or quotient, and at least 1: other variables become constants. */
  lemma {:induction false} GradSize(e: Expr, x: nat)
    requires Grad(e, x).Some?
    ensures Grad(e, x).value.Size() == Max(1, ProductSize(e)) && ProductSize(e) <= e.Size()
  {
    if e.Bin? {
      GradSize(e.left, x);
      GradSize(e.right, x);
      GradBinSize(e.op, e.left, e.right, Grad(e.left, x).value, Grad(e.right, x).value);
    }
  }

  lemma GradBinSize(op: BinOp, a: Expr, b: Expr, da: Expr, db: Expr)
    ensures GradBin(op, a, b, da, db).Size() ==
            if op == Add || op == Sub then Max(da.Size(), db.Size())
            else Max(Max(da.Size(), a.Size()), Max(db.Size(), b.Size()))
  {
    var left, right := Bin(Mul, da, b), Bin(Mul, a, db);
    assert left.Size() == Max(da.Size(), b.Size()) && right.Size() == Max(a.Size(), db.Size());
    assert Bin(Add, left, right).Size() == Max(left.Size(), right.Size()) == Bin(Sub, left, right).Size();
    assert Bin(Mul, b, b).Size() == b.Size();
  }

  /** A gradient has the size of the expression exactly if that is 1, or some product or quotient in it is as large. */
  lemma GradKeepsSize(e: Expr, x: nat)
    requires Grad(e, x).Some?
    ensures Grad(e, x).value.Size() == e.Size() <==> e.Size() == 1 || (e.Size() > 1 && ProductSize(e) == e.Size())
  {
    GradSize(e, x);
  }

  /** The gradient of the sum of an array with itself has one element. */
  lemma SumShrinks(v: Variable)
    requires v.size > 1
    ensures Bin(Add, Var(v), Var(v)).Size() == v.size
    ensures Grad(Bin(Add, Var(v), Var(v)), v.id) == Some(Bin(Add, ONE, ONE)) && Bin(Add, ONE, ONE).Size() == 1
  {
    assert Grad(Var(v), v.id) == Some(ONE);
    assert ONE.Size() == 1 && Var(v).Size() == v.size;
  }
}
