/** The algebraic-structure instances of the crate: checked inversion and
    field division on the rationals, and the integer, rational and polynomial
    instances of the commutative-ring and coefficient-domain capabilities.

    A panicking assertion is the `None` outcome of an `Option`. An
    `AssertUnit` value, which the crate only builds after a successful unit
    assertion, is a value of the subset types `IntUnit` and `RatUnit`. The
    crate's `i64` instances behave like its `BigInt` ones away from overflow,
    and both are modelled by the same `int` functions. */
module Traits {
  import opened Wrappers
  import opened Polynomial
  import opened PolyFacts

  // ---------------------------------------------------------------------------
  // Field operations on the rationals
  // ---------------------------------------------------------------------------

  /** `checked_inv` on `BigRational`: no inverse for zero, the reciprocal otherwise. */
  function CheckedInv(x: real): (r: Option<real>)
    ensures r.None? <==> x == 0.0
    ensures r.Some? ==> x * r.value == 1.0
  {
    if x == 0.0 then None else Some(1.0 / x)
  }

  /** The inverse is unique: any y with x*y == 1 is what `CheckedInv` returns. */
  lemma {:induction false} InverseUnique(x: real, y: real)
    requires x * y == 1.0
    ensures CheckedInv(x) == Some(y)
  {
    var z := CheckedInv(x).value;
    assert x * (y - z) == x * y - x * z == 0.0;
    ProductZero(x, y - z);
  }

  /** Inverting twice gives the value back. */
  lemma {:induction false} CheckedInvInvolution(x: real)
    requires x != 0.0
    ensures CheckedInv(CheckedInv(x).value) == Some(x)
  {
    var z := CheckedInv(x).value;
    InverseUnique(z, x);
  }

  /** `Field::div`: no quotient when the divisor has no inverse, otherwise
      the dividend times that inverse. */
  function FieldDiv(a: real, b: real): (r: Option<real>)
    ensures r.None? <==> CheckedInv(b).None?
    ensures r.Some? ==> r.value * b == a
  {
    match CheckedInv(b)
    case None => None
    case Some(inv) => Some(a * inv)
  }

  /** Division undoes multiplication by a non-zero divisor. */
  lemma {:induction false} DivOfProduct(a: real, b: real)
    requires b != 0.0
    ensures FieldDiv(a * b, b) == Some(a)
  {
    var q := FieldDiv(a * b, b).value;
    assert q * b == a * b;
    assert (q - a) * b == 0.0;
  }

  // ---------------------------------------------------------------------------
  // The default `sub` of a commutative ring, on polynomials
  // ---------------------------------------------------------------------------

  /** `sub(a, b)` is `a + (-b)` (`Polynomial.Sub`); adding b back restores a. */
  lemma {:induction false} SubThenAdd(a: Poly, b: Poly)
    ensures Trim(Add(Sub(a, b), b)) == Trim(a)
  {
    CoeffAdd(Sub(a, b), b);
    CoeffsTrim(Add(Sub(a, b), b), a);
  }

  /** A polynomial minus itself is zero. */
  lemma {:induction false} SubSelf(a: Poly)
    ensures IsZero(Sub(a, a))
  {
    var d := Sub(a, a);
    forall i | 0 <= i < |d|
      ensures d[i] == 0.0
    {
      assert Coeff(d, i) == Coeff(a, i) - Coeff(a, i);
    }
  }

  // ---------------------------------------------------------------------------
  // The integers (`BigInt` and `i64`)
  // ---------------------------------------------------------------------------

  /** The units of the integers, the values an integer `AssertUnit` holds. */
  type IntUnit = x: int | x == 1 || x == -1 witness 1

  function IntAbs(x: int): (a: nat)
    ensures a == x || a == -x
  {
    if x < 0 then -x else x
  }

  /** `assert_is_unit` on integers: panics unless the absolute value is 1. */
  function IntAssertIsUnit(x: int): (r: Option<IntUnit>)
    ensures r.Some? <==> x * x == 1
    ensures r.Some? ==> r.value == x
  {
    if IntAbs(x) == 1 then Some(x) else None
  }

  /** A product of integers equal to 1 has factors 1 or -1. */
  lemma {:induction false} IntProductOne(x: int, y: int)
    ensures x * y == 1 ==> x == 1 || x == -1
  {
    if x >= 2 && y >= 1 {
      assert x * y >= 2 * y;
    } else if x >= 2 || x <= -2 {
      if x <= -2 && y <= -1 {
        assert x * y >= 2 * -y;
      }
    }
  }

  /** The assertion accepts exactly the integers with a multiplicative inverse. */
  lemma {:induction false} IntUnitIff(x: int)
    ensures IntAssertIsUnit(x).Some? <==> exists y :: x * y == 1
  {
    if IntAssertIsUnit(x).Some? {
      assert x * x == 1;
    }
    if exists y :: x * y == 1 {
      var y :| x * y == 1;
      IntProductOne(x, y);
    }
  }

  /** `invert` on integers as the crate writes it: `(-x).assert_is_unit()`.
      The assertion cannot fail, but the result is the negation of x, and the
      product with x is -1 rather than 1. */
  function IntInvertAsWritten(x: IntUnit): (r: IntUnit)
    ensures x * r == -1
  {
    IntAssertIsUnit(-(x as int)).value
  }

  /** The discrepancy at x = 1: the "inverse" of 1 is -1. */
  lemma IntInvertAsWrittenCounterexample()
    ensures IntInvertAsWritten(1) == -1
    ensures 1 * IntInvertAsWritten(1) != 1
  {
  }

  /** `invert` as evidently intended: every integer unit is its own inverse. */
  function IntInvert(x: IntUnit): (r: IntUnit)
    ensures x * r == 1
  {
    IntAssertIsUnit(x).value
  }

  /** The intended inverse agrees with the only candidate and is an involution. */
  lemma {:induction false} IntInvertUnique(x: IntUnit, y: int)
    requires x * y == 1
    ensures IntInvert(x) == y
    ensures IntInvert(IntInvert(x)) == x
  {
  }

  /** `is_nilpotent` on integers is `is_zero`. */
  function IntIsNilpotent(x: int): (b: bool)
  {
    x == 0
  }

  function IntPow(x: int, n: nat): int
  {
    if n == 0 then 1 else x * IntPow(x, n - 1)
  }

  /** A positive power of an integer is zero exactly when the integer is. */
  lemma {:induction false} IntPowZero(x: int, n: nat)
    requires n >= 1
    ensures IntPow(x, n) == 0 <==> x == 0
  {
    if n > 1 {
      IntPowZero(x, n - 1);
    }
    if x != 0 && n > 1 {
      assert IntPow(x, n - 1) != 0;
      assert x * IntPow(x, n - 1) != 0;
    }
  }

  /** The documented meaning of nilpotency: some positive power is zero. */
  lemma {:induction false} IntNilpotentIff(x: int)
    ensures IntIsNilpotent(x) <==> exists n: nat :: n >= 1 && IntPow(x, n) == 0
  {
    if IntIsNilpotent(x) {
      IntPowZero(x, 1);
    }
    if exists n: nat :: n >= 1 && IntPow(x, n) == 0 {
      var n: nat :| n >= 1 && IntPow(x, n) == 0;
      IntPowZero(x, n);
    }
  }

  /** `unit_and_normal` on integers: the sign and the absolute value. */
  function IntUnitAndNormal(x: int): (r: (IntUnit, int))
    ensures r.0 * r.1 == x && r.1 >= 0
    ensures x == 0 ==> r.0 == 1
  {
    if x < 0 then (IntAssertIsUnit(-1).value, -x) else (IntAssertIsUnit(1).value, x)
  }

  /** The decomposition is the only one with a non-negative normal part
      (and unit 1 for zero). */
  lemma {:induction false} IntUnitAndNormalUnique(x: int, u: IntUnit, n: int)
    requires u * n == x && n >= 0 && (x == 0 ==> u == 1)
    ensures IntUnitAndNormal(x) == (u, n)
  {
  }

  /** The normal part is its own normal part. */
  lemma {:induction false} IntNormalIdempotent(x: int)
    ensures IntUnitAndNormal(IntUnitAndNormal(x).1) == (1, IntUnitAndNormal(x).1)
  {
  }

  ghost predicate IntDivides(d: int, n: int)
  {
    exists k :: n == d * k
  }

  function NatGcd(a: nat, b: nat): nat
    decreases b
  {
    if b == 0 then a else NatGcd(b, a % b)
  }

  /** `gcd` on integers: the non-negative greatest common divisor, 0 only
      for gcd(0, 0). */
  function IntGcd(a: int, b: int): (g: nat)
    ensures g == 0 <==> a == 0 && b == 0
    ensures IntDivides(g, a) && IntDivides(g, b)
  {
    NatGcdDivides(IntAbs(a), IntAbs(b));
    NatGcdZero(IntAbs(a), IntAbs(b));
    DividesAbs(NatGcd(IntAbs(a), IntAbs(b)), a);
    DividesAbs(NatGcd(IntAbs(a), IntAbs(b)), b);
    NatGcd(IntAbs(a), IntAbs(b))
  }

  lemma {:induction false} NatGcdDivides(a: nat, b: nat)
    ensures IntDivides(NatGcd(a, b), a) && IntDivides(NatGcd(a, b), b)
    decreases b
  {
    var g := NatGcd(a, b);
    if b == 0 {
      assert a == g * 1 && b == g * 0;
    } else {
      NatGcdDivides(b, a % b);
      var k1 :| b == g * k1;
      var k2 :| a % b == g * k2;
      var q := a / b;
      assert a == q * b + a % b;
      assert a == g * (q * k1 + k2);
    }
  }

  lemma {:induction false} NatGcdZero(a: nat, b: nat)
    ensures NatGcd(a, b) == 0 <==> a == 0 && b == 0
    decreases b
  {
    if b != 0 {
      NatGcdZero(b, a % b);
    }
  }

  lemma {:induction false} DividesAbs(d: int, x: int)
    ensures IntDivides(d, IntAbs(x)) <==> IntDivides(d, x)
  {
    if IntDivides(d, IntAbs(x)) {
      var k :| IntAbs(x) == d * k;
      assert x == d * k || x == d * -k;
    }
    if IntDivides(d, x) {
      var k :| x == d * k;
      assert IntAbs(x) == d * k || IntAbs(x) == d * -k;
    }
  }

  /** Every common divisor of a and b divides `IntGcd(a, b)`. */
  lemma {:induction false} IntGcdGreatest(a: int, b: int, d: int)
    requires IntDivides(d, a) && IntDivides(d, b)
    ensures IntDivides(d, IntGcd(a, b))
  {
    DividesAbs(d, a);
    DividesAbs(d, b);
    NatGcdGreatest(IntAbs(a), IntAbs(b), d);
  }

  lemma {:induction false} NatGcdGreatest(a: nat, b: nat, d: int)
    requires IntDivides(d, a) && IntDivides(d, b)
    ensures IntDivides(d, NatGcd(a, b))
    decreases b
  {
    if b != 0 {
      var k1 :| a == d * k1;
      var k2 :| b == d * k2;
      var q := a / b;
      assert a % b == a - q * b;
      assert a % b == d * (k1 - q * k2);
      NatGcdGreatest(b, a % b, d);
    }
  }

  // ---------------------------------------------------------------------------
  // The rationals (`BigRational`)
  // ---------------------------------------------------------------------------

  /** The units of the rationals: every non-zero value. */
  type RatUnit = x: real | x != 0.0 witness 1.0

  /** `assert_is_unit` on rationals: panics on zero. */
  function RatAssertIsUnit(x: real): (r: Option<RatUnit>)
    ensures r.Some? <==> CheckedInv(x).Some?
    ensures r.Some? ==> r.value == x
  {
    if x == 0.0 then None else Some(x)
  }

  /** c is the product a*b. */
  predicate IsProduct(c: real, a: real, b: real)
  {
    c == a * b
  }

  /** The assertion accepts exactly the rationals with a multiplicative inverse. */
  lemma {:induction false} RatUnitIff(x: real)
    ensures RatAssertIsUnit(x).Some? <==> exists y :: IsProduct(1.0, x, y)
  {
    if x != 0.0 {
      assert IsProduct(1.0, x, 1.0 / x);
    }
  }

  /** `invert` on rationals: the reciprocal, asserted to be a unit. */
  function RatInvert(x: RatUnit): (r: RatUnit)
    ensures x * r == 1.0
  {
    RatAssertIsUnit(1.0 / x).value
  }

  /** The rational `invert` is the checked inverse and an involution. */
  lemma {:induction false} RatInvertInverse(x: RatUnit)
    ensures CheckedInv(x) == Some(RatInvert(x) as real)
    ensures RatInvert(RatInvert(x)) == x
  {
    InverseUnique(x, RatInvert(x));
    InverseUnique(RatInvert(x), x);
    InverseUnique(RatInvert(x), RatInvert(RatInvert(x)));
  }

  /** `is_nilpotent` on rationals is `is_zero`. */
  function RatIsNilpotent(x: real): (b: bool)
  {
    x == 0.0
  }

  /** A positive power of a rational is zero exactly when the rational is. */
  lemma {:induction false} RealPowZero(x: real, n: nat)
    requires n >= 1
    ensures RealPow(x, n) == 0.0 <==> x == 0.0
  {
    if n > 1 {
      RealPowZero(x, n - 1);
    }
    if x != 0.0 && n > 1 {
      assert RealPow(x, n - 1) != 0.0;
      NonzeroProduct(x, RealPow(x, n - 1));
    }
  }

  /** The documented meaning of nilpotency: some positive power is zero. */
  lemma {:induction false} RatNilpotentIff(x: real)
    ensures RatIsNilpotent(x) <==> exists n: nat :: n >= 1 && RealPow(x, n) == 0.0
  {
    if RatIsNilpotent(x) {
      RealPowZero(x, 1);
    }
    if exists n: nat :: n >= 1 && RealPow(x, n) == 0.0 {
      var n: nat :| n >= 1 && RealPow(x, n) == 0.0;
      RealPowZero(x, n);
    }
  }

  /** `unit_and_normal` on rationals: 0 is (1, 0), any other x is (x, 1). */
  function RatUnitAndNormal(x: real): (r: (RatUnit, real))
    ensures r.0 * r.1 == x
    ensures r.1 == 0.0 || r.1 == 1.0
    ensures x == 0.0 ==> r.0 == 1.0
  {
    if x == 0.0 then (RatAssertIsUnit(1.0).value, 0.0) else (RatAssertIsUnit(x).value, 1.0)
  }

  /** The decomposition is the only one with normal part 0 or 1 (and unit 1 for zero). */
  lemma {:induction false} RatUnitAndNormalUnique(x: real, u: RatUnit, n: real)
    requires u * n == x && (n == 0.0 || n == 1.0) && (x == 0.0 ==> u == 1.0)
    ensures RatUnitAndNormal(x) == (u, n)
  {
    if n == 0.0 {
      assert x == 0.0;
    }
  }

  ghost predicate RatDivides(d: real, a: real)
  {
    exists k :: IsProduct(a, k, d)
  }

  /** `gcd` on rationals: panics on (0, 0), otherwise 1. */
  function RatGcd(a: real, b: real): (r: Option<real>)
    ensures r.None? <==> a == 0.0 && b == 0.0
    ensures r.Some? ==> r.value * r.value == r.value && r.value != 0.0
  {
    if a == 0.0 && b == 0.0 then None else Some(1.0)
  }

  /** In a field, 1 is a greatest common divisor of any pair other than (0, 0):
      it divides both, and every common divisor divides it. */
  lemma {:induction false} RatGcdGreatest(a: real, b: real, d: real)
    requires RatGcd(a, b).Some?
    ensures RatDivides(RatGcd(a, b).value, a) && RatDivides(RatGcd(a, b).value, b)
    ensures RatDivides(d, a) && RatDivides(d, b) ==> RatDivides(d, RatGcd(a, b).value)
  {
    assert IsProduct(a, a, 1.0) && IsProduct(b, b, 1.0);
    if d != 0.0 {
      assert IsProduct(1.0, 1.0 / d, d);
    } else {
      if RatDivides(d, a) {
        var k :| IsProduct(a, k, d);
      }
      if RatDivides(d, b) {
        var k :| IsProduct(b, k, d);
      }
    }
  }

  // ---------------------------------------------------------------------------
  // Polynomials over a ring
  // ---------------------------------------------------------------------------

  /** What the polynomial unit assertion needs of its coefficient ring. */
  datatype Ring<!R> = Ring(zero: R, isUnit: R -> bool, isNilpotent: R -> bool)

  function IntRing(): Ring<int>
  {
    Ring(0, x => IntAssertIsUnit(x).Some?, IntIsNilpotent)
  }

  function RatRing(): Ring<real>
  {
    Ring(0.0, x => RatAssertIsUnit(x).Some?, RatIsNilpotent)
  }

  /** The polynomials the unit assertion accepts: not zero, the constant term a
      unit and every higher coefficient nilpotent. */
  predicate UnitShaped<R(==)>(ring: Ring<R>, p: seq<R>)
  {
    && (exists i :: 0 <= i < |p| && p[i] != ring.zero)
    && ring.isUnit(p[0])
    && (forall i :: 1 <= i < |p| ==> ring.isNilpotent(p[i]))
  }

  /** `assert_is_unit` on polynomials: panics on zero, then walks the
      coefficients in degree order and panics at the first that fails. */
  method PolyAssertIsUnit<R(==)>(ring: Ring<R>, p: seq<R>) returns (r: Option<seq<R>>)
    ensures r.Some? <==> UnitShaped(ring, p)
    ensures r.Some? ==> r.value == p
  {
    if forall i :: 0 <= i < |p| ==> p[i] == ring.zero {
      return None;
    }
    var degree := 0;
    while degree < |p|
      invariant 0 <= degree <= |p|
      invariant degree > 0 ==> ring.isUnit(p[0])
      invariant forall i :: 1 <= i < degree ==> ring.isNilpotent(p[i])
    {
      if degree == 0 {
        if !ring.isUnit(p[degree]) {
          return None;
        }
      } else if !ring.isNilpotent(p[degree]) {
        return None;
      }
      degree := degree + 1;
    }
    return Some(p);
  }

  /** Over the rationals the assertion accepts exactly the polynomials with a
      polynomial inverse: the non-zero constants. */
  ghost predicate IsPolyUnit(p: Poly)
  {
    exists q :: PEq(Mul(p, q), One())
  }

  lemma {:induction false} RatPolyUnitIff(p: Poly)
    ensures UnitShaped(RatRing(), p) <==> IsPolyUnit(p)
  {
    if UnitShaped(RatRing(), p) {
      ConstantShape(p);
      var q := [1.0 / p[0]];
      forall t
        ensures Eval(Mul(p, q), t) == Eval(One(), t)
      {
        EvalMul(p, q, t);
        EvalConstant(p, t);
        EvalConstant(q, t);
        EvalOne(t);
      }
      assert PEq(Mul(p, q), One());
    }
    if IsPolyUnit(p) {
      var q :| PEq(Mul(p, q), One());
      UnitHasDegreeZero(p, q);
      ConstantShape(p);
    }
  }

  /** The shape the unit assertion accepts over the rationals is a non-zero constant. */
  lemma {:induction false} ConstantShape(p: Poly)
    ensures UnitShaped(RatRing(), p) <==> !IsZero(p) && Deg(p) == 0
  {
    if UnitShaped(RatRing(), p) {
      assert p[0] != 0.0;
      DegFromCoeffs(p, 0);
    }
    if !IsZero(p) && Deg(p) == 0 {
      assert p[0] != 0.0;
    }
  }

  /** Over the integers the accepted shape is exactly ±1 followed by zeros. */
  lemma {:induction false} IntConstantShape(p: seq<int>)
    ensures UnitShaped(IntRing(), p)
            <==> |p| > 0 && (p[0] == 1 || p[0] == -1) && forall i :: 1 <= i < |p| ==> p[i] == 0
  {
    if UnitShaped(IntRing(), p) {
      assert IntAssertIsUnit(p[0]).Some?;
      forall i | 1 <= i < |p|
        ensures p[i] == 0
      {
        assert IntRing().isNilpotent(p[i]);
      }
    }
    if |p| > 0 && (p[0] == 1 || p[0] == -1) && forall i :: 1 <= i < |p| ==> p[i] == 0 {
      assert p[0] != IntRing().zero;
      assert IntRing().isUnit(p[0]);
    }
  }

  /** A polynomial that is a constant has that constant as its value. */
  lemma {:induction false} EvalConstant(p: Poly, t: real)
    requires |p| > 0 && forall i :: 1 <= i < |p| ==> p[i] == 0.0
    ensures Eval(p, t) == p[0]
  {
    EvalCons(p, t);
    EvalZero(p[1..], t);
  }

  /** If p*q is 1 as a function, p is a non-zero constant. */
  lemma {:induction false} UnitHasDegreeZero(p: Poly, q: Poly)
    requires PEq(Mul(p, q), One())
    ensures !IsZero(p) && Deg(p) == 0
  {
    ZeroFactor(p, q, One());
    assert One()[0] == 1.0;
    PEqTrim(Mul(p, q), One());
    DegMul(p, q);
    assert Trim(One()) == [1.0];
  }

  // ---------------------------------------------------------------------------
  // `unit_and_normal` on polynomials
  // ---------------------------------------------------------------------------

  /** Over the rationals: zero stays zero (the empty polynomial); otherwise
      every coefficient is multiplied by the inverse of the unit part of the
      leading coefficient, which makes the polynomial monic. The unit part of
      the result is not modelled. */
  function RatPolyNormal(p: Poly): (n: Poly)
    ensures IsZero(p) ==> n == []
    ensures !IsZero(p) ==> !IsZero(n) && Deg(n) == Deg(p) && Lead(n) == 1.0
  {
    if IsZero(p) then []
    else
      var unit := RatUnitAndNormal(Lead(p)).0;
      ScaleDeg(p, RatInvert(unit));
      Scale(p, RatInvert(unit))
  }

  /** The normal part times the leading coefficient is the polynomial again. */
  lemma {:induction false} RatPolyNormalAssociate(p: Poly)
    requires !IsZero(p)
    ensures Scale(RatPolyNormal(p), Lead(p)) == p
  {
    var l := Lead(p);
    var inv := RatInvert(l);
    NormalIsScale(p);
    hide RatPolyNormal, RatInvert, Lead;
    ScaleInverse(p, l, inv);
  }

  /** Scaling by a value and then by its inverse gives the polynomial back. */
  lemma {:induction false} ScaleInverse(p: Poly, l: real, inv: real)
    requires l * inv == 1.0
    ensures Scale(Scale(p, inv), l) == p
  {
    var n := Scale(p, inv);
    assert |Scale(n, l)| == |p|;
    forall i | 0 <= i < |p|
      ensures Scale(n, l)[i] == p[i]
    {
      Cancel(l, inv, p[i]);
    }
  }

  lemma {:induction false} NormalIsScale(p: Poly)
    requires !IsZero(p)
    ensures RatPolyNormal(p) == Scale(p, RatInvert(Lead(p)))
  {
    assert RatUnitAndNormal(Lead(p)).0 == Lead(p);
  }

  /** Multiplying by a value and then by its inverse gives back e. */
  lemma {:induction false} Cancel(l: real, i: real, e: real)
    requires l * i == 1.0
    ensures l * (i * e) == e
  {
    assert l * (i * e) == (l * i) * e;
  }

  /** Normalising a normal polynomial changes nothing. */
  lemma {:induction false} RatPolyNormalIdempotent(p: Poly)
    ensures RatPolyNormal(RatPolyNormal(p)) == RatPolyNormal(p)
  {
    var n := RatPolyNormal(p);
    if !IsZero(n) {
      assert RatUnitAndNormal(Lead(n)).0 == 1.0;
      assert RatInvert(1.0) == 1.0;
      assert Scale(n, 1.0) == n;
    }
  }

  /** Integer polynomials, for the integer instance of `unit_and_normal`. */
  type IntPoly = seq<int>

  predicate IntPolyIsZero(p: IntPoly)
  {
    forall i :: 0 <= i < |p| ==> p[i] == 0
  }

  /** The coefficient at the degree of a non-zero integer polynomial. */
  function IntLead(p: IntPoly): (c: int)
    requires !IntPolyIsZero(p)
    ensures c != 0
    decreases |p|
  {
    if p[|p| - 1] != 0 then p[|p| - 1] else IntLead(p[..|p| - 1])
  }

  /** Every coefficient multiplied by c. */
  function IntScale(p: IntPoly, c: int): (s: IntPoly)
  {
    seq(|p|, i requires 0 <= i < |p| => p[i] * c)
  }

  /** Scaling by a non-zero integer scales the leading coefficient. */
  lemma {:induction false} IntLeadScale(p: IntPoly, c: int)
    requires !IntPolyIsZero(p) && c != 0
    ensures !IntPolyIsZero(IntScale(p, c)) && IntLead(IntScale(p, c)) == IntLead(p) * c
    decreases |p|
  {
    var s := IntScale(p, c);
    var k := |p| - 1;
    if p[k] != 0 {
      assert s[k] == p[k] * c != 0;
    } else {
      var q := p[..k];
      IntLeadScale(q, c);
      assert IntScale(q, c) == s[..k];
      assert s[k] == 0;
    }
  }

  /** `unit_and_normal` on integer polynomials as the crate writes it: each
      coefficient is multiplied by `invert` of the unit part of the leading
      coefficient, and `invert` negates, so the leading coefficient of the
      result is minus its absolute value instead of plus. */
  function IntPolyNormalAsWritten(p: IntPoly): (n: IntPoly)
    ensures IntPolyIsZero(p) ==> n == []
    ensures !IntPolyIsZero(p) ==> !IntPolyIsZero(n) && IntLead(n) == -(IntAbs(IntLead(p)) as int)
  {
    if IntPolyIsZero(p) then []
    else
      var unit := IntUnitAndNormal(IntLead(p)).0;
      IntLeadScale(p, IntInvertAsWritten(unit));
      IntScale(p, IntInvertAsWritten(unit))
  }

  /** As written, every coefficient comes out negated relative to the
      intended normal part, not just the leading one. */
  lemma {:induction false} IntPolyNormalAsWrittenNegates(p: IntPoly)
    requires !IntPolyIsZero(p)
    ensures IntPolyNormalAsWritten(p) == IntScale(IntPolyNormal(p), -1)
  {
    var u := IntUnitAndNormal(IntLead(p)).0;
    var w := IntPolyNormalAsWritten(p);
    var n := IntPolyNormal(p);
    assert w == IntScale(p, -(u as int));
    assert n == IntScale(p, u);
    forall i | 0 <= i < |p|
      ensures w[i] == IntScale(n, -1)[i]
    {
      assert w[i] == p[i] * -(u as int) == (p[i] * u) * -1;
    }
  }

  /** The discrepancy on the polynomial x: its "normal" part is -x. */
  lemma IntPolyNormalAsWrittenCounterexample()
    ensures IntPolyNormalAsWritten([0, 1]) == [0, -1]
  {
    var p: IntPoly := [0, 1];
    assert IntLead(p) == 1;
    assert IntScale(p, -1) == [0, -1];
  }

  /** `unit_and_normal` on integer polynomials with the intended inverse: the
      leading coefficient of the normal part is positive. */
  function IntPolyNormal(p: IntPoly): (n: IntPoly)
    ensures IntPolyIsZero(p) ==> n == []
    ensures !IntPolyIsZero(p) ==> !IntPolyIsZero(n) && IntLead(n) == IntAbs(IntLead(p))
  {
    if IntPolyIsZero(p) then []
    else
      var unit := IntUnitAndNormal(IntLead(p)).0;
      IntLeadScale(p, IntInvert(unit));
      IntScale(p, IntInvert(unit))
  }

  /** The normal part times the unit part of the leading coefficient is the
      polynomial again. */
  lemma {:induction false} IntPolyNormalAssociate(p: IntPoly)
    requires !IntPolyIsZero(p)
    ensures IntScale(IntPolyNormal(p), IntUnitAndNormal(IntLead(p)).0) == p
  {
    var u := IntUnitAndNormal(IntLead(p)).0;
    var n := IntPolyNormal(p);
    assert n == IntScale(p, u);
    forall i | 0 <= i < |p|
      ensures IntScale(n, u)[i] == p[i]
    {
      assert IntScale(n, u)[i] == p[i] * u * u;
    }
  }

  /** Normalising a normal integer polynomial changes nothing. */
  lemma {:induction false} IntPolyNormalIdempotent(p: IntPoly)
    ensures IntPolyNormal(IntPolyNormal(p)) == IntPolyNormal(p)
  {
    var n := IntPolyNormal(p);
    if !IntPolyIsZero(n) {
      assert IntUnitAndNormal(IntLead(n)).0 == 1;
      assert IntScale(n, 1) == n;
    }
  }

}
