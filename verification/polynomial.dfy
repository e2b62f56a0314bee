/** Dense univariate polynomials with rational coefficients: the value type the
    square-free factorization works on. Dafny's `real` is exact rational
    arithmetic, so it stands for `BigRational`.

    A polynomial is its coefficient sequence, index 0 the constant term.
    Trailing zero coefficients are allowed and do not change the value: the
    zero polynomial may be `[]` or `[0.0, 0.0]`. `Eval` gives a polynomial its
    meaning as a function, and `PEq` is equality of those functions. */
module Polynomial {

  type Poly = seq<real>

  /** The coefficient of x^i; zero beyond the stored length. */
  function Coeff(p: Poly, i: nat): real
  {
    if i < |p| then p[i] else 0.0
  }

  /** p without its constant term, divided by x. */
  function Tail(p: Poly): (t: Poly)
    ensures |t| == if |p| == 0 then 0 else |p| - 1
    ensures forall i: nat :: Coeff(t, i) == Coeff(p, i + 1)
  {
    if |p| == 0 then [] else p[1..]
  }

  /** `is_zero`: every stored coefficient is zero. */
  predicate IsZero(p: Poly)
  {
    forall i :: 0 <= i < |p| ==> p[i] == 0.0
  }

  /** The shortest prefix of p holding all its non-zero coefficients. */
  function Trim(p: Poly): (t: Poly)
    ensures |t| <= |p| && t == p[..|t|]
    ensures |t| == 0 || t[|t| - 1] != 0.0
    ensures forall i :: |t| <= i < |p| ==> p[i] == 0.0
    ensures |t| == 0 <==> IsZero(p)
  {
    if |p| == 0 then []
    else if p[|p| - 1] == 0.0 then Trim(p[..|p| - 1])
    else p
  }

  /** The degree: the highest index holding a non-zero coefficient. */
  function Deg(p: Poly): (d: nat)
    requires !IsZero(p)
    ensures d < |p| && p[d] != 0.0
    ensures forall i :: d < i < |p| ==> p[i] == 0.0
  {
    |Trim(p)| - 1
  }

  /** `leading_coefficient_cloned`: the coefficient at the degree. */
  function Lead(p: Poly): (c: real)
    requires !IsZero(p)
    ensures c != 0.0
  {
    p[Deg(p)]
  }

  /** `is_one`: the polynomial is the constant 1, up to trailing zeros. */
  predicate IsOne(p: Poly)
  {
    Trim(p) == [1.0]
  }

  /** The constant polynomial 1. */
  function One(): Poly
  {
    [1.0]
  }

  /** Evaluation at x, by Horner's rule. */
  function Eval(p: Poly, x: real): real
  {
    if |p| == 0 then 0.0 else p[0] + x * Eval(p[1..], x)
  }

  /** Equality of polynomials as functions of x. */
  ghost predicate PEq(p: Poly, q: Poly)
  {
    forall x :: Eval(p, x) == Eval(q, x)
  }

  function Add(a: Poly, b: Poly): (c: Poly)
  {
    seq(if |a| < |b| then |b| else |a|, i requires 0 <= i => Coeff(a, i) + Coeff(b, i))
  }

  function Neg(p: Poly): (n: Poly)
    ensures |n| == |p|
    ensures forall i: nat :: Coeff(n, i) == -Coeff(p, i)
  {
    seq(|p|, i requires 0 <= i < |p| => -p[i])
  }

  /** Subtraction as the ring's default `sub`: `a + (-b)`. */
  function Sub(a: Poly, b: Poly): (c: Poly)
    ensures forall i: nat :: Coeff(c, i) == Coeff(a, i) - Coeff(b, i)
  {
    Add(a, Neg(b))
  }

  /** `scalar_mul`: every coefficient multiplied by c. */
  function Scale(p: Poly, c: real): (s: Poly)
  {
    seq(|p|, i requires 0 <= i < |p| => c * p[i])
  }

  /** Multiplication by x. */
  function Shift(p: Poly): (s: Poly)
  {
    [0.0] + p
  }

  /** Polynomial product: a0*b + x*(Tail(a)*b). */
  function Mul(a: Poly, b: Poly): Poly
  {
    if |a| == 0 then [] else Add(Scale(b, a[0]), Shift(Mul(a[1..], b)))
  }

  function Pow(p: Poly, n: nat): Poly
  {
    if n == 0 then One() else Mul(p, Pow(p, n - 1))
  }

  /** `derivative`: coefficient k*c_k moves to index k-1; the integer k is
      lifted into the coefficient field. */
  function Derivative(p: Poly): (d: Poly)
    ensures |d| == if |p| == 0 then 0 else |p| - 1
    ensures forall k: nat :: Coeff(d, k) == (k + 1) as real * Coeff(p, k + 1)
  {
    if |p| == 0 then [] else seq(|p| - 1, k requires 0 <= k < |p| - 1 => (k + 1) as real * p[k + 1])
  }

  function RealPow(y: real, n: nat): real
  {
    if n == 0 then 1.0 else y * RealPow(y, n - 1)
  }

  /** A polynomial d divides a when some k has k*d equal to a. */
  ghost predicate Divides(d: Poly, a: Poly)
  {
    exists k :: PEq(Mul(k, d), a)
  }

  // ---------------------------------------------------------------------------
  // Evaluation is a ring homomorphism

  lemma CoeffAdd(a: Poly, b: Poly)
    ensures |Add(a, b)| == if |a| < |b| then |b| else |a|
    ensures forall i: nat :: Coeff(Add(a, b), i) == Coeff(a, i) + Coeff(b, i)
  {
  }

  lemma CoeffScale(p: Poly, c: real)
    ensures |Scale(p, c)| == |p|
    ensures forall i: nat :: Coeff(Scale(p, c), i) == c * Coeff(p, i)
  {
  }

  lemma CoeffShift(p: Poly)
    ensures forall i: nat :: Coeff(Shift(p), i) == if i == 0 then 0.0 else Coeff(p, i - 1)
  {
  }

  lemma {:induction false} EvalCons(p: Poly, x: real)
    requires |p| > 0
    ensures Eval(p, x) == p[0] + x * Eval(p[1..], x)
  {
  }

  lemma {:induction false} EvalHead(p: Poly, x: real)
    ensures Eval(p, x) == Coeff(p, 0) + x * Eval(Tail(p), x)
  {
  }

  lemma {:induction false} EvalAdd(a: Poly, b: Poly, x: real)
    ensures Eval(Add(a, b), x) == Eval(a, x) + Eval(b, x)
    decreases |a| + |b|
  {
    var c := Add(a, b);
    if |c| > 0 {
      TailAdd(a, b, x);
      EvalAdd(Tail(a), Tail(b), x);
      HeadSum(a, b, c, x);
    }
  }

  lemma {:induction false} TailAdd(a: Poly, b: Poly, x: real)
    ensures Eval(Tail(Add(a, b)), x) == Eval(Add(Tail(a), Tail(b)), x)
  {
    var c := Add(a, b);
    var t := Add(Tail(a), Tail(b));
    assert |Tail(c)| == |t|;
    forall i | 0 <= i < |t| ensures Tail(c)[i] == t[i] {
      assert Coeff(Tail(c), i) == Coeff(c, i + 1);
      assert Coeff(t, i) == Coeff(Tail(a), i) + Coeff(Tail(b), i);
    }
    assert Tail(c) == t;
  }

  lemma {:induction false} HeadSum(a: Poly, b: Poly, c: Poly, x: real)
    requires Coeff(c, 0) == Coeff(a, 0) + Coeff(b, 0)
    requires Eval(Tail(c), x) == Eval(Tail(a), x) + Eval(Tail(b), x)
    ensures Eval(c, x) == Eval(a, x) + Eval(b, x)
  {
    EvalHead(a, x);
    EvalHead(b, x);
    EvalHead(c, x);
    ScaleSum(x, Eval(Tail(c), x), Eval(Tail(a), x), Eval(Tail(b), x));
  }

  lemma {:induction false} ScaleSum(x: real, e: real, u: real, v: real)
    requires e == u + v
    ensures x * e == x * u + x * v
  {
  }

  lemma {:induction false} EvalScale(p: Poly, c: real, x: real)
    ensures Eval(Scale(p, c), x) == c * Eval(p, x)
    decreases |p|
  {
    hide Eval, Scale;
    CoeffScale(p, c);
    if |p| == 0 {
      EvalZero(p, x);
      EvalZero(Scale(p, c), x);
    } else {
      TailScale(p, c, x);
      EvalScale(Tail(p), c, x);
      HeadScale(p, Scale(p, c), c, x);
    }
  }

  lemma {:induction false} TailScale(p: Poly, c: real, x: real)
    ensures Eval(Tail(Scale(p, c)), x) == Eval(Scale(Tail(p), c), x)
  {
    var s := Scale(p, c);
    var t := Scale(Tail(p), c);
    assert |Tail(s)| == |t|;
    forall i | 0 <= i < |t| ensures Tail(s)[i] == t[i] {
      assert Coeff(Tail(s), i) == Coeff(s, i + 1);
      assert Coeff(t, i) == c * Coeff(Tail(p), i);
    }
    assert Tail(s) == t;
  }

  lemma {:induction false} HeadScale(p: Poly, s: Poly, c: real, x: real)
    requires Coeff(s, 0) == c * Coeff(p, 0)
    requires Eval(Tail(s), x) == c * Eval(Tail(p), x)
    ensures Eval(s, x) == c * Eval(p, x)
  {
    EvalHead(p, x);
    EvalHead(s, x);
    ScaleStep(c, Coeff(p, 0), x, Eval(Tail(p), x), Eval(Tail(s), x));
  }

  lemma {:induction false} ScaleStep(c: real, h: real, x: real, e: real, es: real)
    requires es == c * e
    ensures c * h + x * es == c * (h + x * e)
  {
  }

  lemma {:induction false} EvalNeg(p: Poly, x: real)
    ensures Eval(Neg(p), x) == -Eval(p, x)
    decreases |p|
  {
    if |p| > 0 {
      assert Neg(p)[1..] == Neg(p[1..]);
      EvalNeg(p[1..], x);
    }
  }

  lemma {:induction false} EvalSub(a: Poly, b: Poly, x: real)
    ensures Eval(Sub(a, b), x) == Eval(a, x) - Eval(b, x)
  {
    EvalAdd(a, Neg(b), x);
    EvalNeg(b, x);
  }

  lemma {:induction false} EvalShift(p: Poly, x: real)
    ensures Eval(Shift(p), x) == x * Eval(p, x)
  {
    assert Shift(p)[1..] == p;
  }

  lemma {:induction false} EvalMul(a: Poly, b: Poly, x: real)
    ensures Eval(Mul(a, b), x) == Eval(a, x) * Eval(b, x)
    decreases |a|
  {
    hide Eval;
    if |a| == 0 {
      EvalZero(a, x);
      EvalZero(Mul(a, b), x);
    } else {
      var m := Mul(a[1..], b);
      var lo, hi := Scale(b, a[0]), Shift(m);
      assert Mul(a, b) == Add(lo, hi);
      EvalMul(a[1..], b, x);
      EvalAdd(lo, hi, x);
      EvalScale(b, a[0], x);
      EvalShift(m, x);
      HeadMul(a, b, Add(lo, hi), lo, hi, m, x);
    }
  }

  lemma {:induction false} HeadMul(a: Poly, b: Poly, c: Poly, lo: Poly, hi: Poly, m: Poly, x: real)
    requires |a| > 0
    requires Eval(c, x) == Eval(lo, x) + Eval(hi, x)
    requires Eval(lo, x) == a[0] * Eval(b, x)
    requires Eval(hi, x) == x * Eval(m, x)
    requires Eval(m, x) == Eval(a[1..], x) * Eval(b, x)
    ensures Eval(c, x) == Eval(a, x) * Eval(b, x)
  {
    hide Eval;
    EvalCons(a, x);
    MulStep(Eval(c, x), Eval(a, x), Eval(b, x), a[0], x, Eval(a[1..], x), Eval(m, x));
  }

  lemma {:induction false} MulStep(vm: real, va: real, vb: real, h: real, x: real, ea: real, em: real)
    requires vm == h * vb + x * em && em == ea * vb && va == h + x * ea
    ensures vm == va * vb
  {
  }

  lemma {:induction false} EvalPow(p: Poly, n: nat, x: real)
    ensures Eval(Pow(p, n), x) == RealPow(Eval(p, x), n)
    decreases n
  {
    hide Eval, Mul;
    if n == 0 {
      EvalOne(x);
    } else {
      EvalPow(p, n - 1, x);
      EvalMul(p, Pow(p, n - 1), x);
      PowStep(Eval(Pow(p, n), x), Eval(p, x), Eval(Pow(p, n - 1), x), n);
    }
  }

  lemma {:induction false} PowStep(v: real, y: real, w: real, n: nat)
    requires n >= 1 && v == y * w && w == RealPow(y, n - 1)
    ensures v == RealPow(y, n)
  {
  }

  lemma {:induction false} EvalOne(x: real)
    ensures Eval(One(), x) == 1.0
  {
    assert Eval(One(), x) == 1.0 + x * Eval([], x);
  }

  lemma {:induction false} EvalZero(p: Poly, x: real)
    requires IsZero(p)
    ensures Eval(p, x) == 0.0
    decreases |p|
  {
    if |p| > 0 {
      EvalZero(p[1..], x);
    }
  }

  /** Dropping a trailing zero coefficient does not change the value. */
  lemma {:induction false} EvalDropZero(p: Poly, x: real)
    requires |p| > 0 && p[|p| - 1] == 0.0
    ensures Eval(p, x) == Eval(p[..|p| - 1], x)
    decreases |p|
  {
    if |p| == 1 {
      assert Eval(p, x) == 0.0 + x * Eval([], x);
    } else {
      var q := p[..|p| - 1];
      assert p[1..][..|p[1..]| - 1] == q[1..];
      EvalDropZero(p[1..], x);
    }
  }

  lemma {:induction false} EvalTrim(p: Poly, x: real)
    ensures Eval(Trim(p), x) == Eval(p, x)
    decreases |p|
  {
    if |p| > 0 && p[|p| - 1] == 0.0 {
      EvalTrim(p[..|p| - 1], x);
      EvalDropZero(p, x);
    }
  }

  lemma {:induction false} RealPowMul(a: real, b: real, n: nat)
    ensures RealPow(a * b, n) == RealPow(a, n) * RealPow(b, n)
    decreases n
  {
    if n > 0 {
      RealPowMul(a, b, n - 1);
      assert RealPow(a * b, n) == (a * b) * (RealPow(a, n - 1) * RealPow(b, n - 1));
    }
  }

  lemma {:induction false} RealPowOne(n: nat)
    ensures RealPow(1.0, n) == 1.0
    decreases n
  {
    if n > 0 {
      RealPowOne(n - 1);
    }
  }

}
