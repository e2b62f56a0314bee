/** Facts about the polynomial model that the factorization relies on:
    a polynomial that vanishes on (0, 1] has only zero coefficients (so equal
    functions have equal trimmed coefficients), the degree of a product is the
    sum of the degrees, and a division whose divisor divides the dividend
    leaves a zero remainder. */
module PolyFacts {
  import opened Polynomial

  function Abs(r: real): (a: real)
    ensures 0.0 <= a && (a == r || a == -r)
  {
    if r < 0.0 then -r else r
  }

  /** The sum of the absolute values of the coefficients. */
  function AbsSum(p: Poly): (s: real)
    ensures s >= 0.0
  {
    if |p| == 0 then 0.0 else Abs(p[0]) + AbsSum(p[1..])
  }

  // ---------------------------------------------------------------------------
  // Identity theorem

  lemma {:induction false} BoundStep(h: real, w: real, e: real, m: real, v: real)
    requires Abs(w) <= Abs(e) && Abs(e) <= m && v == h + w
    ensures Abs(v) <= Abs(h) + m
  {
  }

  /** Multiplying by a factor in (0, 1] does not increase the size of a number. */
  lemma {:induction false} Shrink(x: real, e: real)
    requires 0.0 < x <= 1.0
    ensures Abs(x * e) <= Abs(e)
  {
    if e >= 0.0 {
      NonNegProduct(1.0 - x, e);
      NonNegProduct(x, e);
      assert (1.0 - x) * e == e - x * e;
    } else {
      NonNegProduct(1.0 - x, -e);
      NonNegProduct(x, -e);
      assert (1.0 - x) * (-e) == x * e - e;
      assert x * (-e) == -(x * e);
    }
  }

  lemma {:induction false} NonNegProduct(a: real, b: real)
    requires 0.0 <= a && 0.0 <= b
    ensures 0.0 <= a * b
  {
  }

  /** On (0, 1] a polynomial is bounded by the sum of its coefficients' sizes. */
  lemma {:induction false} EvalBound(p: Poly, x: real)
    requires 0.0 < x <= 1.0
    ensures Abs(Eval(p, x)) <= AbsSum(p)
    decreases |p|
  {
    hide Eval, Abs;
    if |p| == 0 {
      EvalZero(p, x);
    } else {
      EvalBound(p[1..], x);
      EvalCons(p, x);
      Shrink(x, Eval(p[1..], x));
      BoundStep(p[0], x * Eval(p[1..], x), Eval(p[1..], x), AbsSum(p[1..]), Eval(p, x));
    }
  }

  /** A point of (0, 1] at which x*m stays below c. */
  lemma {:induction false} PickPoint(c: real, m: real) returns (x: real)
    requires c > 0.0 && m >= 0.0
    ensures 0.0 < x <= 1.0 && x * m < c
  {
    if m <= c {
      x := 0.5;
    } else {
      x := c / (2.0 * m);
      assert x * (2.0 * m) == c;
    }
  }

  lemma {:induction false} RootBound(h: real, x: real, e: real, m: real)
    requires 0.0 < x && Abs(e) <= m
    ensures h + x * e == 0.0 ==> Abs(h) <= x * m
  {
    if e >= 0.0 {
      assert x * e <= x * m;
    } else {
      assert x * (-e) <= x * m;
    }
  }

  lemma {:induction false} ProductZero(x: real, e: real)
    requires x != 0.0 && x * e == 0.0
    ensures e == 0.0
  {
  }

  /** Identity theorem: a polynomial vanishing on (0, 1] is the zero polynomial. */
  lemma {:induction false} Vanish(p: Poly)
    requires forall x :: 0.0 < x <= 1.0 ==> Eval(p, x) == 0.0
    ensures IsZero(p)
    decreases |p|
  {
    hide Eval;
    if |p| > 0 {
      var t := p[1..];
      ConstantTermVanishes(p);
      TailVanishes(p);
      Vanish(t);
      forall i | 0 <= i < |p|
        ensures p[i] == 0.0
      {
        if i > 0 {
          assert p[i] == t[i - 1];
        }
      }
    }
  }

  /** The constant term of a polynomial vanishing on (0, 1] is zero. */
  lemma {:induction false} ConstantTermVanishes(p: Poly)
    requires |p| > 0
    requires forall x :: 0.0 < x <= 1.0 ==> Eval(p, x) == 0.0
    ensures p[0] == 0.0
  {
    hide Eval, Abs;
    var t := p[1..];
    if p[0] != 0.0 {
      var x := PickPoint(Abs(p[0]), AbsSum(t));
      EvalBound(t, x);
      RootBound(p[0], x, Eval(t, x), AbsSum(t));
      EvalCons(p, x);
      assert false;
    }
  }

  /** Once the constant term is zero, the rest vanishes on (0, 1] too. */
  lemma {:induction false} TailVanishes(p: Poly)
    requires |p| > 0 && p[0] == 0.0
    requires forall x :: 0.0 < x <= 1.0 ==> Eval(p, x) == 0.0
    ensures forall x :: 0.0 < x <= 1.0 ==> Eval(p[1..], x) == 0.0
  {
    hide Eval;
    forall x | 0.0 < x <= 1.0
      ensures Eval(p[1..], x) == 0.0
    {
      EvalCons(p, x);
      ProductZero(x, Eval(p[1..], x));
    }
  }

  /** Polynomials equal as functions have equal coefficients. */
  lemma {:induction false} PEqCoeffs(p: Poly, q: Poly)
    requires PEq(p, q)
    ensures forall i: nat :: Coeff(p, i) == Coeff(q, i)
  {
    var d := Sub(p, q);
    forall x | 0.0 < x <= 1.0
      ensures Eval(d, x) == 0.0
    {
      EvalSub(p, q, x);
    }
    Vanish(d);
    forall i: nat
      ensures Coeff(p, i) == Coeff(q, i)
    {
      assert Coeff(d, i) == Coeff(p, i) - Coeff(q, i);
    }
  }

  /** Coefficient-wise equal polynomials trim to the same sequence. */
  lemma {:induction false} CoeffsTrim(p: Poly, q: Poly)
    requires forall i: nat :: Coeff(p, i) == Coeff(q, i)
    ensures Trim(p) == Trim(q)
  {
    var tp, tq := Trim(p), Trim(q);
    TrimLength(p, q);
    TrimLength(q, p);
    forall i | 0 <= i < |tp|
      ensures tp[i] == tq[i]
    {
      assert Coeff(p, i) == Coeff(q, i);
    }
  }

  /** Trim(p) reaches the highest non-zero coefficient of q when p and q agree. */
  lemma {:induction false} TrimLength(p: Poly, q: Poly)
    requires forall i: nat :: Coeff(p, i) == Coeff(q, i)
    ensures |Trim(q)| <= |Trim(p)|
  {
    var tp, tq := Trim(p), Trim(q);
    if |tq| > 0 {
      var k := |tq| - 1;
      assert Coeff(q, k) != 0.0;
      assert Coeff(p, k) != 0.0;
      assert k < |tp|;
    }
  }

  /** Polynomials equal as functions are equal up to trailing zeros. */
  lemma {:induction false} PEqTrim(p: Poly, q: Poly)
    requires PEq(p, q)
    ensures Trim(p) == Trim(q)
  {
    PEqCoeffs(p, q);
    CoeffsTrim(p, q);
  }

  lemma {:induction false} EvalOneLike(p: Poly, x: real)
    requires IsOne(p)
    ensures Eval(p, x) == 1.0
  {
    EvalTrim(p, x);
    EvalOne(x);
  }

  // ---------------------------------------------------------------------------
  // Degrees

  /** The degree is the index of the highest non-zero coefficient. */
  lemma {:induction false} DegFromCoeffs(p: Poly, k: nat)
    requires Coeff(p, k) != 0.0
    requires forall i: nat :: i > k ==> Coeff(p, i) == 0.0
    ensures !IsZero(p) && Deg(p) == k && Lead(p) == Coeff(p, k)
  {
    assert p[k] != 0.0;
    var d := Deg(p);
    assert Coeff(p, d) == p[d] != 0.0;
    assert d <= k;
    assert k < |p| && k <= d;
  }

  lemma {:induction false} CoeffsAboveDeg(p: Poly)
    requires !IsZero(p)
    ensures Coeff(p, Deg(p)) == Lead(p)
    ensures forall i: nat :: i > Deg(p) ==> Coeff(p, i) == 0.0
  {
  }

  lemma {:induction false} OneIff(p: Poly)
    ensures IsOne(p) <==> !IsZero(p) && Deg(p) == 0 && Lead(p) == 1.0
  {
    if IsOne(p) {
      assert |Trim(p)| == 1;
      assert p[0] == Trim(p)[0];
    }
    if !IsZero(p) && Deg(p) == 0 && Lead(p) == 1.0 {
      assert Trim(p) == p[..1];
    }
  }

  lemma {:induction false} MulCoeff(m: Poly, b: Poly)
    requires |m| > 0
    ensures forall i: nat ::
      Coeff(Mul(m, b), i) == m[0] * Coeff(b, i) + (if i == 0 then 0.0 else Coeff(Mul(m[1..], b), i - 1))
  {
    hide *;
    var lo, hi := Scale(b, m[0]), Shift(Mul(m[1..], b));
    MulUnfold(m, b);
    CoeffAdd(lo, hi);
    CoeffScale(b, m[0]);
    CoeffShift(Mul(m[1..], b));
  }

  lemma {:induction false} MulUnfold(m: Poly, b: Poly)
    requires |m| > 0
    ensures Mul(m, b) == Add(Scale(b, m[0]), Shift(Mul(m[1..], b)))
  {
  }

  lemma {:induction false} MulEmpty(m: Poly, b: Poly)
    requires |m| == 0
    ensures Mul(m, b) == []
  {
  }

  /** The top coefficient of a product, given degree bounds dm and db of the
      factors (dm == -1 stands for the zero polynomial). */
  lemma {:induction false} MulTop(m: Poly, b: Poly, dm: int, db: nat)
    requires dm >= -1
    requires forall i: nat :: i > dm ==> Coeff(m, i) == 0.0
    requires forall i: nat :: i > db ==> Coeff(b, i) == 0.0
    ensures forall i: nat :: (dm < 0 || i > dm + db) ==> Coeff(Mul(m, b), i) == 0.0
    ensures dm >= 0 ==> Coeff(Mul(m, b), dm + db) == Coeff(m, dm) * Coeff(b, db)
    decreases |m|
  {
    hide Mul;
    if |m| == 0 {
      MulEmpty(m, b);
    } else {
      var t := m[1..];
      var dt := if dm >= 0 then dm - 1 else -1;
      TailBound(m, dm, dt);
      MulTop(t, b, dt, db);
      MulCoeff(m, b);
      TopFromTail(Mul(m, b), Mul(t, b), m, b, dm, dt, db);
    }
  }

  lemma {:induction false} TailBound(m: Poly, dm: int, dt: int)
    requires |m| > 0 && dt == (if dm >= 0 then dm - 1 else -1)
    requires forall i: nat :: i > dm ==> Coeff(m, i) == 0.0
    ensures forall i: nat :: i > dt ==> Coeff(m[1..], i) == 0.0
  {
    forall i: nat | i > dt
      ensures Coeff(m[1..], i) == 0.0
    {
      assert Coeff(m[1..], i) == Coeff(m, i + 1);
    }
  }

  /** One step of MulTop: p = m[0]*b + x*pt, where pt is the product of m's
      tail with b. */
  lemma {:induction false} TopFromTail(p: Poly, pt: Poly, m: Poly, b: Poly, dm: int, dt: int, db: nat)
    requires |m| > 0 && dm >= -1 && dt == (if dm >= 0 then dm - 1 else -1)
    requires forall i: nat :: i > dm ==> Coeff(m, i) == 0.0
    requires forall i: nat :: i > db ==> Coeff(b, i) == 0.0
    requires forall i: nat :: Coeff(p, i) == m[0] * Coeff(b, i) + (if i == 0 then 0.0 else Coeff(pt, i - 1))
    requires forall i: nat :: (dt < 0 || i > dt + db) ==> Coeff(pt, i) == 0.0
    requires dt >= 0 ==> Coeff(pt, dt + db) == Coeff(m[1..], dt) * Coeff(b, db)
    ensures forall i: nat :: (dm < 0 || i > dm + db) ==> Coeff(p, i) == 0.0
    ensures dm >= 0 ==> Coeff(p, dm + db) == Coeff(m, dm) * Coeff(b, db)
  {
    forall i: nat | dm < 0 || i > dm + db
      ensures Coeff(p, i) == 0.0
    {
      if dm < 0 {
        assert m[0] == Coeff(m, 0) == 0.0;
      } else {
        assert Coeff(b, i) == 0.0;
      }
    }
    if dm >= 0 {
      var top := Coeff(p, dm + db);
      if dm == 0 {
        assert m[0] == Coeff(m, 0);
        if db > 0 {
          assert Coeff(pt, db - 1) == 0.0;
        }
        TopStep(top, m[0], Coeff(b, db), if db == 0 then 0.0 else Coeff(pt, db - 1), Coeff(m, 0), Coeff(b, db));
      } else {
        assert Coeff(b, dm + db) == 0.0;
        assert Coeff(m[1..], dm - 1) == Coeff(m, dm);
        TopStep(top, m[0], 0.0, Coeff(pt, dm - 1 + db), Coeff(m, dm), Coeff(b, db));
      }
    }
  }

  lemma {:induction false} TopStep(v: real, h: real, c: real, w: real, lm: real, lb: real)
    requires v == h * c + w
    requires (h == lm && c == lb && w == 0.0) || (c == 0.0 && w == lm * lb)
    ensures v == lm * lb
  {
  }

  lemma {:induction false} NonzeroProduct(a: real, b: real)
    requires a != 0.0 && b != 0.0
    ensures a * b != 0.0
  {
  }

  /** Over a field the degree of a product is the sum of the degrees. */
  lemma {:induction false} DegMul(m: Poly, b: Poly)
    requires !IsZero(m) && !IsZero(b)
    ensures !IsZero(Mul(m, b))
    ensures Deg(Mul(m, b)) == Deg(m) + Deg(b)
    ensures Lead(Mul(m, b)) == Lead(m) * Lead(b)
  {
    hide Mul;
    CoeffsAboveDeg(m);
    CoeffsAboveDeg(b);
    MulTop(m, b, Deg(m), Deg(b));
    NonzeroProduct(Lead(m), Lead(b));
    DegFromCoeffs(Mul(m, b), Deg(m) + Deg(b));
    ProductCongruence(Lead(Mul(m, b)), Coeff(m, Deg(m)), Coeff(b, Deg(b)), Lead(m), Lead(b));
  }

  lemma {:induction false} ProductCongruence(v: real, x: real, y: real, x': real, y': real)
    requires v == x * y && x == x' && y == y'
    ensures v == x' * y'
  {
  }

  /** Scaling by a non-zero constant keeps the degree and scales the leading coefficient. */
  lemma {:induction false} ScaleDeg(p: Poly, c: real)
    requires !IsZero(p) && c != 0.0
    ensures !IsZero(Scale(p, c))
    ensures Deg(Scale(p, c)) == Deg(p)
    ensures Lead(Scale(p, c)) == c * Lead(p)
  {
    CoeffsAboveDeg(p);
    var s := Scale(p, c);
    NonzeroProduct(c, Lead(p));
    assert Coeff(s, Deg(p)) == c * Lead(p);
    forall i: nat | i > Deg(p)
      ensures Coeff(s, i) == 0.0
    {
      assert Coeff(s, i) == c * Coeff(p, i);
    }
    DegFromCoeffs(s, Deg(p));
  }

  // ---------------------------------------------------------------------------
  // Divisibility

  /** A product with a zero factor is zero. */
  lemma {:induction false} ZeroFactor(x: Poly, y: Poly, a: Poly)
    requires PEq(Mul(x, y), a)
    ensures IsZero(x) || IsZero(y) ==> IsZero(a)
  {
    if IsZero(x) || IsZero(y) {
      forall t | 0.0 < t <= 1.0
        ensures Eval(a, t) == 0.0
      {
        EvalMul(x, y, t);
        if IsZero(x) {
          EvalZero(x, t);
        } else {
          EvalZero(y, t);
        }
      }
      Vanish(a);
    }
  }

  /** Only non-zero polynomials divide a non-zero polynomial. */
  lemma {:induction false} DividesNonzero(d: Poly, a: Poly)
    requires Divides(d, a) && !IsZero(a)
    ensures !IsZero(d)
  {
    var k :| PEq(Mul(k, d), a);
    ZeroFactor(k, d, a);
  }

  /** A non-zero multiple of b has degree at least that of b. */
  lemma {:induction false} DegreeOfMultiple(r: Poly, m: Poly, b: Poly)
    requires !IsZero(b) && PEq(r, Mul(m, b))
    ensures IsZero(r) || Deg(r) >= Deg(b)
  {
    if IsZero(m) {
      forall t ensures Eval(Mul(m, b), t) == Eval(r, t) {}
      ZeroFactor(m, b, r);
    } else {
      DegMul(m, b);
      PEqTrim(r, Mul(m, b));
    }
  }

  /** When b divides a, the quotient q of a division a = q*b + r with
      deg r < deg b is exact: q*b equals a. */
  lemma {:induction false} ExactDivision(a: Poly, b: Poly, q: Poly, r: Poly)
    requires !IsZero(b) && Divides(b, a)
    requires PEq(a, Add(Mul(q, b), r))
    requires IsZero(r) || Deg(r) < Deg(b)
    ensures PEq(Mul(q, b), a)
  {
    hide Eval, Mul;
    var k :| PEq(Mul(k, b), a);
    var m := Sub(k, q);
    forall t
      ensures Eval(r, t) == Eval(Mul(m, b), t)
    {
      EvalAdd(Mul(q, b), r, t);
      PEqAt(a, Add(Mul(q, b), r), t);
      PEqAt(Mul(k, b), a, t);
      EvalSub(k, q, t);
      MulDifference(k, q, m, b, t);
    }
    DegreeOfMultiple(r, m, b);
    forall t
      ensures Eval(Mul(q, b), t) == Eval(a, t)
    {
      PEqAt(a, Add(Mul(q, b), r), t);
      EvalAdd(Mul(q, b), r, t);
      EvalZero(r, t);
    }
  }

  lemma {:induction false} PEqAt(p: Poly, q: Poly, x: real)
    requires PEq(p, q)
    ensures Eval(p, x) == Eval(q, x)
  {
  }

  /** Multiplication distributes over a difference, pointwise. */
  lemma {:induction false} MulDifference(k: Poly, q: Poly, m: Poly, b: Poly, t: real)
    requires Eval(m, t) == Eval(k, t) - Eval(q, t)
    ensures Eval(Mul(m, b), t) == Eval(Mul(k, b), t) - Eval(Mul(q, b), t)
  {
    hide Eval, Mul;
    EvalMul(k, b, t);
    EvalMul(q, b, t);
    EvalMul(m, b, t);
    DiffProduct(Eval(Mul(m, b), t), Eval(Mul(k, b), t), Eval(Mul(q, b), t),
      Eval(k, t), Eval(q, t), Eval(b, t), Eval(m, t));
  }

  lemma {:induction false} DiffProduct(vm: real, vk: real, vq: real, k: real, q: real, b: real, m: real)
    ensures vm == m * b && vk == k * b && vq == q * b && m == k - q ==> vm == vk - vq
  {
  }

}
