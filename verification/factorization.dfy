/** Yun's square-free factorization of a polynomial over the rationals.

    The polynomial primitives `gcd` and `div_rem` belong to the crate's
    `Polynomial` type, whose implementation is not part of this model: they
    are parameters (`PolyOps`) constrained only by the laws the algorithm
    relies on (`ValidOps`). `derivative`, `scalar_mul`, `is_zero`, `is_one`
    and the leading coefficient have a fixed meaning and are the concrete
    functions of the `Polynomial` module. */
module Factorization {
  import opened Wrappers
  import opened Polynomial
  import opened PolyFacts
  import Traits

  /** A multiplicity is a positive integer (`NonZeroUsize`). */
  type Multiplicity = n: nat | n >= 1 witness 1

  /** One square-free factor with the power it is raised to. */
  datatype Factor<F> = Factor(poly: seq<F>, multiplicity: Multiplicity)

  /** The result record: `leading_coeff × ∏ poly^multiplicity` is the input. */
  datatype SquareFreeFactorization<F> = SquareFreeFactorization(leadingCoeff: F, factors: seq<Factor<F>>)

  /** The `Polynomial` primitives `gcd` and `div_rem`, which this model does not define;
      `divRem(a, b)` is (quotient, remainder). */
  datatype PolyOps = PolyOps(gcd: (Poly, Poly) -> Poly, divRem: (Poly, Poly) -> (Poly, Poly))

  /** Division with remainder: a = q*b + r with r zero or of lower degree than b. */
  ghost predicate DivRemLaw(a: Poly, b: Poly, qr: (Poly, Poly))
    requires !IsZero(b)
  {
    PEq(a, Add(Mul(qr.0, b), qr.1)) && (IsZero(qr.1) || Deg(qr.1) < Deg(b))
  }

  /** The contracts of the primitives: `div_rem` obeys the division law for a
      non-zero divisor, and `gcd` returns a common divisor. */
  ghost predicate ValidOps(ops: PolyOps)
  {
    && (forall a, b :: !IsZero(b) ==> DivRemLaw(a, b, ops.divRem(a, b)))
    && (forall a, b :: Divides(ops.gcd(a, b), a) && Divides(ops.gcd(a, b), b))
  }

  /** The Euclidean `gcd` returns its first argument when the second is zero;
      all the constant case needs is that `gcd(1, 0)` is 1. */
  ghost predicate GcdFixesOne(ops: PolyOps)
  {
    forall a, b :: IsOne(a) && IsZero(b) ==> IsOne(ops.gcd(a, b))
  }

  /** The product of the factors, each raised to its multiplicity. */
  function Product(fs: seq<Factor<real>>): Poly
  {
    if |fs| == 0 then One()
    else Mul(Product(fs[..|fs| - 1]), Pow(fs[|fs| - 1].poly, fs[|fs| - 1].multiplicity))
  }

  predicate StrictlyIncreasing(fs: seq<Factor<real>>)
  {
    forall i, k :: 0 <= i < k < |fs| ==> fs[i].multiplicity < fs[k].multiplicity
  }

  /** A factor the algorithm may emit: neither zero nor the constant 1. */
  predicate Proper(f: Factor<real>)
  {
    !IsZero(f.poly) && !IsOne(f.poly)
  }

  // ---------------------------------------------------------------------------
  // The algorithm
  // ---------------------------------------------------------------------------

  /** The monic working polynomial `u`: p scaled by the inverse of its leading
      coefficient. The inverse always exists, since that coefficient is non-zero. */
  function Monic(p: Poly): (u: Poly)
    requires !IsZero(p)
    ensures !IsZero(u) && Deg(u) == Deg(p) && Lead(u) == 1.0
  {
    var inv := Traits.CheckedInv(Lead(p));
    ScaleDeg(p, inv.value);
    Scale(p, inv.value)
  }

  /** `square_free_factorization`. `fuel` bounds the number of loop rounds:
      the primitives' contracts alone do not make the loop terminate, and
      `None` is the outcome when the bound is reached. */
  method SquareFree(ops: PolyOps, p: Poly, fuel: nat) returns (res: Option<SquareFreeFactorization<real>>)
    requires ValidOps(ops)
    ensures IsZero(p) ==> res == Some(SquareFreeFactorization(0.0, []))
    ensures GcdFixesOne(ops) && !IsZero(p) && Deg(p) == 0 ==> res == Some(SquareFreeFactorization(Lead(p), []))
    ensures res.Some? && !IsZero(p) ==> res.value.leadingCoeff == Lead(p)
    ensures res.Some? ==> StrictlyIncreasing(res.value.factors)
    ensures res.Some? ==> forall i :: 0 <= i < |res.value.factors| ==> Proper(res.value.factors[i])
    ensures res.Some? ==> Trim(p) == Trim(Scale(Product(res.value.factors), res.value.leadingCoeff))
  {
    hide Eval, Mul, Product, Recon, Pow, Scale, Monic, Derivative;
    if IsZero(p) {
      ZeroRecon(p);
      return Some(SquareFreeFactorization(0.0, []));
    }
    var leadingCoeff := Lead(p);
    var u := Monic(p);
    var factors: seq<Factor<real>> := [];
    var r := ops.gcd(u, Derivative(u));
    var f := ops.divRem(u, r).0;
    var j: Multiplicity := 1;
    InitialSplit(ops, u, r, f);
    ghost var constant := GcdFixesOne(ops) && Deg(p) == 0;
    if constant {
      ConstantCase(ops, p, u, r, f);
    }
    var remaining := fuel;
    while !IsOne(r)
      invariant !IsZero(r) && !IsZero(f)
      invariant Recon(u, factors, f, j, r)
      invariant StrictlyIncreasing(factors)
      invariant forall i :: 0 <= i < |factors| ==> factors[i].multiplicity < j
      invariant forall i :: 0 <= i < |factors| ==> Proper(factors[i])
      invariant constant ==> IsOne(r) && IsOne(f) && factors == []
      decreases remaining
    {
      if remaining == 0 {
        return None;
      }
      remaining := remaining - 1;
      var g := ops.gcd(r, f);
      var s := ops.divRem(f, g).0;
      var r' := ops.divRem(r, g).0;
      ghost var before := factors;
      if !IsOne(s) {
        factors := factors + [Factor(s, j)];
      }
      YunStep(ops, u, before, f, j, r, g, s, r', factors);
      r := r';
      f := g;
      j := j + 1;
    }
    ghost var before := factors;
    if !IsOne(f) {
      factors := factors + [Factor(f, j)];
    }
    FinalRecon(p, u, before, f, j, r, factors);
    res := Some(SquareFreeFactorization(leadingCoeff, factors));
  }

  // ---------------------------------------------------------------------------
  // Proof of the reconstruction law
  // ---------------------------------------------------------------------------

  /** The loop invariant: u == ∏ factors · f^j · r as functions. */
  ghost predicate Recon(u: Poly, fs: seq<Factor<real>>, f: Poly, j: nat, r: Poly)
  {
    forall t :: Eval(u, t) == Eval(Product(fs), t) * RealPow(Eval(f, t), j) * Eval(r, t)
  }

  /** The zero polynomial is 0 times the empty product. */
  lemma {:induction false} ZeroRecon(p: Poly)
    requires IsZero(p)
    ensures Trim(p) == Trim(Scale(Product([]), 0.0))
  {
    assert Scale(Product([]), 0.0) == [0.0];
  }

  /** The value of `Monic(p)` is the value of p divided by its leading coefficient. */
  lemma {:induction false} MonicValue(p: Poly, x: real)
    requires !IsZero(p)
    ensures Eval(p, x) == Lead(p) * Eval(Monic(p), x)
  {
    hide Eval;
    var inv := Traits.CheckedInv(Lead(p)).value;
    assert Monic(p) == Scale(p, inv);
    EvalScale(p, inv, x);
    Traits.Cancel(Lead(p), inv, Eval(p, x));
  }

  lemma {:induction false} EvalProductSnoc(fs: seq<Factor<real>>, x: Factor<real>, t: real)
    ensures Eval(Product(fs + [x]), t) == Eval(Product(fs), t) * RealPow(Eval(x.poly, t), x.multiplicity)
  {
    hide Eval, Mul, Pow, Product;
    ProductSnoc(fs, x);
    EvalMul(Product(fs), Pow(x.poly, x.multiplicity), t);
    EvalPow(x.poly, x.multiplicity, t);
  }

  lemma {:induction false} ProductSnoc(fs: seq<Factor<real>>, x: Factor<real>)
    ensures Product(fs + [x]) == Mul(Product(fs), Pow(x.poly, x.multiplicity))
  {
    hide Eval, Mul, Pow;
    var all := fs + [x];
    assert all[..|all| - 1] == fs;
    assert all[|all| - 1] == x;
  }

  /** The first split u == f * r, with f and r non-zero. */
  lemma {:induction false} InitialSplit(ops: PolyOps, u: Poly, r: Poly, f: Poly)
    requires ValidOps(ops) && !IsZero(u)
    requires r == ops.gcd(u, Derivative(u)) && f == ops.divRem(u, r).0
    ensures !IsZero(r) && !IsZero(f)
    ensures Recon(u, [], f, 1, r)
  {
    hide Eval, Mul;
    assert Divides(r, u);
    DividesNonzero(r, u);
    var qr := ops.divRem(u, r);
    assert DivRemLaw(u, r, qr);
    ExactDivision(u, r, qr.0, qr.1);
    ZeroFactor(f, r, u);
    forall t
      ensures Eval(u, t) == Eval(Product([]), t) * RealPow(Eval(f, t), 1) * Eval(r, t)
    {
      PEqAt(Mul(f, r), u, t);
      EvalMul(f, r, t);
      EvalOne(t);
    }
  }

  /** The values in one round: f == s*g and r == r'*g regroup u. */
  lemma {:induction false} StepValues(u: real, p: real, f: real, r: real, s: real, g: real, r': real, j: nat)
    requires u == p * RealPow(f, j) * r && f == s * g && r == r' * g
    ensures u == p * RealPow(s, j) * RealPow(g, j + 1) * r'
  {
    hide RealPow;
    RealPowMul(s, g, j);
    RealPowSucc(g, j);
    Regroup(u, p, RealPow(f, j), r, RealPow(s, j), RealPow(g, j), RealPow(g, j + 1), g, r');
  }

  lemma {:induction false} RealPowSucc(y: real, n: nat)
    ensures RealPow(y, n + 1) == y * RealPow(y, n)
  {
  }

  lemma {:induction false} Regroup(u: real, p: real, pf: real, r: real, a: real, b: real, c: real, g: real, r': real)
    requires u == p * pf * r && pf == a * b && r == r' * g && c == g * b
    ensures u == p * a * c * r'
  {
  }

  /** One round of the loop preserves the invariant. */
  lemma {:induction false} YunStep(ops: PolyOps, u: Poly, fs: seq<Factor<real>>, f: Poly, j: Multiplicity, r: Poly,
                                   g: Poly, s: Poly, r': Poly, fs': seq<Factor<real>>)
    requires ValidOps(ops) && !IsZero(r) && !IsZero(f)
    requires Recon(u, fs, f, j, r)
    requires g == ops.gcd(r, f) && s == ops.divRem(f, g).0 && r' == ops.divRem(r, g).0
    requires fs' == if IsOne(s) then fs else fs + [Factor(s, j)]
    ensures !IsZero(g) && !IsZero(s) && !IsZero(r')
    ensures Recon(u, fs', g, j + 1, r')
  {
    hide Eval, Mul, Product;
    assert Divides(g, r) && Divides(g, f);
    DividesNonzero(g, r);
    var qs := ops.divRem(f, g);
    assert DivRemLaw(f, g, qs);
    ExactDivision(f, g, qs.0, qs.1);
    ZeroFactor(s, g, f);
    var qr := ops.divRem(r, g);
    assert DivRemLaw(r, g, qr);
    ExactDivision(r, g, qr.0, qr.1);
    ZeroFactor(r', g, r);
    forall t
      ensures Eval(u, t) == Eval(Product(fs'), t) * RealPow(Eval(g, t), j + 1) * Eval(r', t)
    {
      PEqAt(Mul(s, g), f, t);
      EvalMul(s, g, t);
      PEqAt(Mul(r', g), r, t);
      EvalMul(r', g, t);
      StepValues(Eval(u, t), Eval(Product(fs), t), Eval(f, t), Eval(r, t), Eval(s, t), Eval(g, t), Eval(r', t), j);
      if IsOne(s) {
        EvalOneLike(s, t);
        RealPowOne(j);
      } else {
        EvalProductSnoc(fs, Factor(s, j), t);
      }
    }
  }

  /** After the loop (r is 1) the final push completes the reconstruction. */
  lemma {:induction false} FinalRecon(p: Poly, u: Poly, fs: seq<Factor<real>>, f: Poly, j: Multiplicity, r: Poly,
                                      fs': seq<Factor<real>>)
    requires !IsZero(p) && u == Monic(p)
    requires Recon(u, fs, f, j, r) && IsOne(r)
    requires fs' == if IsOne(f) then fs else fs + [Factor(f, j)]
    ensures Trim(p) == Trim(Scale(Product(fs'), Lead(p)))
  {
    hide Eval, Mul, Product, Monic;
    forall t
      ensures Eval(p, t) == Eval(Scale(Product(fs'), Lead(p)), t)
    {
      MonicValue(p, t);
      EvalOneLike(r, t);
      EvalScale(Product(fs'), Lead(p), t);
      if IsOne(f) {
        EvalOneLike(f, t);
        RealPowOne(j);
      } else {
        EvalProductSnoc(fs, Factor(f, j), t);
      }
    }
    PEqTrim(p, Scale(Product(fs'), Lead(p)));
  }

  /** `derivative` of a constant is zero. */
  lemma {:induction false} DerivativeOfConstant(p: Poly)
    requires !IsZero(p) && Deg(p) == 0
    ensures IsZero(Derivative(p))
  {
    CoeffsAboveDeg(p);
    var d := Derivative(p);
    forall i | 0 <= i < |d|
      ensures d[i] == 0.0
    {
      assert Coeff(d, i) == (i + 1) as real * Coeff(p, i + 1);
    }
  }

  /** A non-zero constant: u is 1, so r = gcd(1, 0) is 1 and f = 1/1 is 1. */
  lemma {:induction false} ConstantCase(ops: PolyOps, p: Poly, u: Poly, r: Poly, f: Poly)
    requires ValidOps(ops) && GcdFixesOne(ops)
    requires !IsZero(p) && Deg(p) == 0 && u == Monic(p)
    requires r == ops.gcd(u, Derivative(u)) && f == ops.divRem(u, r).0
    ensures IsOne(r) && IsOne(f)
  {
    hide Eval, Mul, Product, Recon, Monic;
    OneIff(u);
    DerivativeOfConstant(u);
    assert IsOne(r);
    InitialSplit(ops, u, r, f);
    QuotientOfOne(u, f, r);
  }

  /** When u == f * r with u and r both 1, f is 1. */
  lemma {:induction false} QuotientOfOne(u: Poly, f: Poly, r: Poly)
    requires Recon(u, [], f, 1, r) && IsOne(u) && IsOne(r)
    ensures IsOne(f)
  {
    hide Eval, Mul;
    forall t
      ensures Eval(f, t) == Eval(One(), t)
    {
      assert Eval(u, t) == Eval(Product([]), t) * RealPow(Eval(f, t), 1) * Eval(r, t);
      EvalOne(t);
      EvalOneLike(r, t);
      EvalOneLike(u, t);
    }
    PEqTrim(f, One());
    assert Trim(One()) == [1.0];
  }

}
