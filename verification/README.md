# Square-free factorization, ring instances and printer of `math2`

This project models the algebra core of the Rust crate `math2` in Dafny and
proves properties of the model. It covers three source files.

- `src/factorization.rs`: Yun's square-free factorization of a polynomial
  over the rationals. A non-zero input is made monic, then a gcd /
  exact-division loop peels off one multiplicity layer per round. The result
  is a leading coefficient and a list of `(factor, multiplicity)` pairs.
- `src/traits.rs`: the algebraic-structure instances. These are checked
  inversion and field division on the rationals, and the default `sub`. They
  also include `assert_is_unit`, `invert`, `is_nilpotent`, `unit_and_normal`
  and `gcd` for the integers (`BigInt` and `i64`), the rationals and
  polynomials.
- `src/print.rs`: the pretty-printer for polynomials and square-free
  factorizations over a signed coefficient type.

Modelling choices:

- Rationals are Dafny `real`, which is exact rational arithmetic. Integers,
  both `BigInt` and `i64`, are `int`.
- A polynomial is its coefficient sequence, lowest degree first (`seq<real>`
  or `seq<int>`). Two polynomials are equal as functions (`PEq`) when they
  have the same value everywhere. The identity theorem (`PolyFacts.PEqTrim`)
  turns that into equality of the trimmed coefficient sequences.
- A panicking `assert!` or `unwrap` is the `None` outcome of an `Option`.
- An `AssertUnit` value is a value of the subset type `IntUnit` (±1) or
  `RatUnit` (non-zero).
- The polynomial primitives `gcd` and `div_rem` belong to the crate's
  `Polynomial` type, which is not part of this model. They are parameters
  (`Factorization.PolyOps`), and the algorithm may rely only on their laws
  (`Factorization.ValidOps`):
  - `div_rem(a, b)` obeys the division law `a = q*b + r`, with `r` zero or of
    lower degree than `b`;
  - `gcd(a, b)` is a common divisor of `a` and `b`.
- `derivative`, `scalar_mul`, `is_zero`, `is_one` and the leading coefficient
  have fixed meanings. They are the concrete functions of the `Polynomial`
  module.
- The printer works on `int` coefficients.
  - `Decimal` models `Display` of an integer: an optional `-` and digits
    without leading zeros.
  - Every printing function has a parser partner. The round-trip lemmas show
    that the text determines exactly the non-zero terms, in decreasing
    degree, and each factor's multiplicity.
  - The printer applies the coefficient-1 elision to the signed first
    coefficient, so a leading `-1` before the variable prints as `-1x`. The
    model does the same, and the round trip covers this case.

Files:

- `wrappers.dfy`: `Option`.
- `polynomial.dfy`: coefficient-sequence polynomials, evaluation and the
  arithmetic laws.
- `polyfacts.dfy`: the identity theorem, degrees of products and exact
  division.
- `traits.dfy`: the ring and field instances.
- `factorization.dfy`: Yun's algorithm and the proof of its reconstruction
  law.
- `decimal.dfy`: integer text.
- `print.dfy`: the printer, its parsers and the round trips.

## Model

| member | source | states |
|---|---|---|
| Factorization.SquareFree | src/factorization.rs:16-44 | Zero input gives `(0, [])`. Otherwise the leading coefficient is the input's. Multiplicities strictly increase. No factor is zero or the constant 1. `leading_coeff × ∏ factorᵏ` equals the input after trimming. A non-zero constant gives `(c, [])` when `gcd(1, 0)` is 1. |
| Factorization.ZeroRecon | src/factorization.rs:20-22 | The zero polynomial equals 0 times the empty product, so the zero case satisfies the reconstruction law. |
| Factorization.Monic | src/factorization.rs:24-25 | Scaling a non-zero polynomial by the checked inverse of its leading coefficient gives a non-zero polynomial of the same degree with leading coefficient exactly 1. The unwrap cannot fail. |
| Factorization.MonicValue | src/factorization.rs:24-25 | At every point, the input's value is its leading coefficient times the monic polynomial's value. |
| Factorization.InitialSplit | src/factorization.rs:27-29 | With `r = gcd(u, u')` and `f = u / r`, both are non-zero and `u = f¹ · r` as functions. This is the loop invariant at entry with multiplicity 1. |
| Factorization.YunStep | src/factorization.rs:30-39 | One round keeps `u = ∏ factors · fʲ · r`. It sets `g = gcd(r, f)`, `s = f / g`, `r' = r / g`, pushes `s` unless it is 1, and continues with `f := g`, `j := j + 1`. The new `g`, `s` and `r'` are non-zero. |
| Factorization.FinalRecon | src/factorization.rs:40-43 | Once `r` is 1, pushing `f` unless it is 1 makes the leading coefficient times the product equal to the input. |
| Factorization.ConstantCase | src/factorization.rs:27-30 | For a non-zero constant, `u` is 1, `r = gcd(1, 0)` is 1 and `f = 1 / 1` is 1. The loop is not entered and nothing is pushed. |
| Traits.CheckedInv | src/traits.rs:63-71 | `None` exactly for zero. Otherwise the result times the input is 1. |
| Traits.InverseUnique | src/traits.rs:63-71 | Any `y` with `x * y = 1` is the value `checked_inv` returns. |
| Traits.CheckedInvInvolution | src/traits.rs:63-71 | Inverting the inverse of a non-zero rational gives it back. |
| Traits.FieldDiv | src/traits.rs:57-60 | `None` exactly when the divisor has no inverse. Otherwise the quotient times the divisor is the dividend. |
| Traits.DivOfProduct | src/traits.rs:57-60 | `(a * b) / b = a` for every non-zero `b`. |
| Traits.SubThenAdd | src/traits.rs:24-26 | `sub(a, b) + b` is `a` up to trailing zeros, so the default `sub` is a right inverse of addition. |
| Traits.SubSelf | src/traits.rs:24-26 | `sub(a, a)` is the zero polynomial. |
| Traits.IntAssertIsUnit | src/traits.rs:75-78 | Succeeds exactly when `x * x = 1`, and then holds `x` unchanged. The `i64` instance (lines 101-104) is the same function. |
| Traits.IntUnitIff | src/traits.rs:75-78 | The integer assertion accepts exactly the integers that have a multiplicative inverse. |
| Traits.IntInvertAsWritten | src/traits.rs:79-81 | As written, the result times the argument is -1, not 1. The `i64` instance (lines 105-107) is the same function. |
| Traits.IntInvert | src/traits.rs:79-81 | The intended inverse: the result times the argument is 1. |
| Traits.IntInvertUnique | src/traits.rs:79-81 | The intended inverse is the only `y` with `x * y = 1`, and it is an involution. |
| Traits.IntNilpotentIff | src/traits.rs:82-84 | `is_nilpotent` (`is_zero`) holds exactly when some positive power is 0, which is the documented meaning. The `i64` instance (lines 108-110) is the same function. |
| Traits.IntUnitAndNormal | src/traits.rs:88-94 | Returns `(u, n)` with `u` in {1, -1}, `u * n = x` and `n ≥ 0`. The unit is 1 for zero. The `i64` instance (lines 114-120) is the same function. |
| Traits.IntUnitAndNormalUnique | src/traits.rs:88-94 | No other unit/normal pair satisfies those three conditions. |
| Traits.IntNormalIdempotent | src/traits.rs:88-94 | The normal part decomposes as `(1, itself)`. |
| Traits.IntGcd | src/traits.rs:95-97 | The gcd is non-negative, divides both arguments, and is 0 only for `gcd(0, 0)`. The `i64` instance (lines 121-123) is the same function. |
| Traits.IntGcdGreatest | src/traits.rs:95-97 | Every common divisor of the arguments divides the gcd. |
| Traits.RatAssertIsUnit | src/traits.rs:131-134 | Succeeds exactly when `checked_inv` does, that is for non-zero values, and holds the value unchanged. |
| Traits.RatUnitIff | src/traits.rs:131-134 | The rational assertion accepts exactly the rationals with a multiplicative inverse. |
| Traits.RatInvert | src/traits.rs:128-130 | The reciprocal: argument times result is 1. |
| Traits.RatInvertInverse | src/traits.rs:128-130 | `invert` agrees with `checked_inv` and is an involution. |
| Traits.RatNilpotentIff | src/traits.rs:135-137 | `is_nilpotent` (`is_zero`) holds exactly when some positive power is 0. |
| Traits.RatUnitAndNormal | src/traits.rs:143-149 | `u * n = x` with normal part 0 or 1. The unit is 1 for zero. |
| Traits.RatUnitAndNormalUnique | src/traits.rs:143-149 | 0 ↦ `(1, 0)` and `x` ↦ `(x, 1)` is the only such decomposition. |
| Traits.RatGcd | src/traits.rs:150-156 | Panics (`None`) exactly for `(0, 0)`. Otherwise the result is a non-zero idempotent, namely 1. |
| Traits.RatGcdGreatest | src/traits.rs:150-156 | Outside `(0, 0)`, the result divides both arguments and every common divisor divides it. |
| Traits.PolyAssertIsUnit | src/traits.rs:164-174 | Succeeds exactly when the polynomial is non-zero, its constant term is a unit and every higher coefficient is nilpotent. It then returns the polynomial unchanged. This holds over any coefficient ring given as a parameter. |
| Traits.RatPolyUnitIff | src/traits.rs:164-174 | Over the rationals, the shape the assertion accepts is exactly "has a polynomial inverse". |
| Traits.ConstantShape | src/traits.rs:164-174 | Over the rationals, the accepted shape is exactly "non-zero constant". |
| Traits.IntConstantShape | src/traits.rs:164-174 | Over the integers, the accepted shape is exactly a constant term of 1 or -1 with every higher coefficient zero. |
| Traits.RatPolyNormal | src/traits.rs:184-193 | Zero ↦ the zero polynomial. Otherwise every coefficient is multiplied by the inverse of the leading coefficient's unit part, giving a monic polynomial of the same degree. |
| Traits.RatPolyNormalAssociate | src/traits.rs:184-193 | The normal part times the leading coefficient is the input. |
| Traits.RatPolyNormalIdempotent | src/traits.rs:184-193 | Normalising a normal part changes nothing. |
| Traits.IntPolyNormalAsWritten | src/traits.rs:184-193 | As written over the integers, with the negating `invert`, the normal part's leading coefficient is minus the absolute value of the input's. |
| Traits.IntPolyNormalAsWrittenNegates | src/traits.rs:184-193 | As written, every coefficient is multiplied by minus the unit part, so the result is exactly the negation of the intended normal part, coefficient by coefficient. |
| Traits.IntPolyNormal | src/traits.rs:184-193 | With the intended `invert`, the normal part's leading coefficient is the absolute value of the input's. |
| Traits.IntPolyNormalAssociate | src/traits.rs:184-193 | The normal part times the unit part of the leading coefficient is the input. |
| Traits.IntPolyNormalIdempotent | src/traits.rs:184-193 | Normalising a normal integer polynomial changes nothing. |
| Print.PrintIfNotOne | src/print.rs:13-18 | Empty exactly for 1. Otherwise it is the decimal text of the value, which reads back as that value. |
| Print.PrintAsFactor | src/print.rs:20-25 | Empty exactly for 1, and exactly `-` for -1. |
| Print.LeadRoundTrip | src/print.rs:20-25 | The leading coefficient's text, `-` sign and absolute value, determines the coefficient for every integer. |
| Decimal.IntRoundTrip | src/print.rs:77 | The decimal text of an integer reads back as that integer. |
| Decimal.NoLeadingZero | src/print.rs:77 | The digits start with `0` only for zero. |
| Print.TermsExact | src/print.rs:57-60 | The printed terms have strictly decreasing degrees and non-zero coefficients. Every non-zero coefficient is among them. |
| Print.TermText | src/print.rs:76-85 | A constant term shows the full signed decimal, which reads back as the coefficient. A higher term shows only the variable part exactly when the coefficient is 1. |
| Print.PrintPolyEmptyIff | src/print.rs:57-60 | For a non-empty variable name, a polynomial prints as the empty text exactly when all its coefficients are zero. |
| Print.PrintPolyRoundTrip | src/print.rs:53-89 | Reading the printed polynomial back gives exactly its non-zero terms, highest degree first. |
| Print.ParseSignedTerm | src/print.rs:66-85 | The first term keeps its sign and reads back as coefficient and degree. |
| Print.ParseRestStep | src/print.rs:62-85 | A later term is `" - "` for a negative coefficient and `" + "` otherwise, followed by the absolute value. It reads back as the signed coefficient. |
| Print.VarPartRead | src/print.rs:80-84 | The variable part is `var` for degree 1 and `var^d` for `d ≥ 2`, and determines the degree. |
| Print.ExponentText | src/print.rs:97-99 | The exponent text is empty exactly when the multiplicity is 1, so `^k` appears only for `k > 1`. |
| Print.ExponentRead | src/print.rs:97-99 | The exponent text (`^k` only when `k > 1`) determines the multiplicity. |
| Print.FactorsRoundTrip | src/print.rs:95-100 | Reading the factor list back gives each factor's terms and multiplicity, in order. |
| Print.PrintFactorizationRoundTrip | src/print.rs:92-102 | Reading the printed factorization back gives the leading coefficient and each factor's terms and multiplicity. |

## Left out

- Factorization.SquareFree: termination of the Yun loop does not follow from
  the primitives' contracts. For example, a `gcd` that returns non-monic
  constants could keep `r` from becoming 1. The method therefore takes a
  `fuel` bound and returns `None` when the bound runs out. Every guarantee is
  stated for the `Some` outcome.
- Factorization.SquareFree: the factors are not proved square-free, pairwise
  coprime or monic. That needs a concrete `gcd` (greatest, monic) and
  characteristic zero, and the `gcd` of `Polynomial` is not part of this
  model. What is proved is the reconstruction law, the multiplicities and the
  absence of the factor 1.
- Factorization.SquareFree: the constant case is proved under the hypothesis
  `GcdFixesOne` (`gcd(1, 0)` is 1). A common divisor alone need not be 1.
- The `Polynomial` type's own implementation (`gcd`, `div_rem`,
  `derivative`, `scalar_mul`, `is_one`, `leading_coefficient_cloned`) is not
  part of this model. `gcd` and `div_rem` are abstract. The others are given
  their mathematical meaning. `FromUsize` in the derivative is the exact
  rational `k`.
- The multiplicity counter is an unbounded `nat`. `NonZeroUsize` saturation
  at `usize::MAX` is not modelled.
- `i64` is modelled as `int`. Overflow (`i64::MIN.abs()`, `-i64::MIN`) is not
  modelled.
- `Polynomial` `invert` and `is_nilpotent` (src/traits.rs:175-180), and the
  polynomial `gcd` (src/traits.rs:196-198), are `todo!()` stubs with no
  behaviour.
- Traits.RatPolyNormal: the returned unit part of the polynomial
  `unit_and_normal` is not modelled. It is built by `from_elem_with_degree`,
  which is not part of this model. Only the normal part, the coefficient
  scaling, is modelled. The same applies to Traits.IntPolyNormal and
  Traits.IntPolyNormalAsWritten.
  src/traits.rs:194 also calls `assert_is_unit` on
  `from_elem_with_degree(unit, 1)`, and the outcome of that assertion is not
  modelled. If that call builds `unit·x`, the constant term is 0 and the
  assertion would panic on every non-zero input.
- Traits.PolyAssertIsUnit: for integer coefficients the accepted shape is
  characterised as ±1 followed by zeros (Traits.IntConstantShape), but it is
  not proved to be exactly "has a polynomial inverse" over the integers.
- `num` internals (`Integer::gcd`, `recip`, `Display` for `BigInt`) are
  replaced by the mathematical gcd, the exact reciprocal and a decimal
  function.
- Rational coefficient text (`n/d`, the `Display` of `BigRational`) is not
  modelled. The printer is modelled on `int` coefficients only. The crate's
  only `Field` is `BigRational`, so every factorization it computes prints
  rational coefficients, and their text is outside this model.
- The `fmt::Formatter` plumbing is string concatenation. Write errors (`?`)
  are not modelled.
- Print.PrintPolyRoundTrip and Print.PrintFactorizationRoundTrip: the round
  trips are proved for variable names that are non-empty, do not start with a
  digit or `-`, and contain no space or parenthesis (`Print.ValidVar`). For
  other names the text can be ambiguous. The printer itself accepts any
  name.
- Print.PrintPolyRoundTrip: the text is shown to determine the non-zero
  terms, which is the polynomial up to trailing zeros, not its coefficient
  sequence with trailing zeros.

## Findings

| source | as written | input that shows it | evidently intended | confidence | as-written member | corrected member |
|---|---|---|---|---|---|---|
| src/traits.rs:79-81, src/traits.rs:105-107 | integer `invert` returns `(-x).assert_is_unit()`, the negation of the unit | `invert(1)` is `-1`, and `1 * -1 = -1` | the multiplicative inverse; every integer unit is its own inverse | not executed; high | Traits.IntInvertAsWritten, Traits.IntInvertAsWrittenCounterexample | Traits.IntInvert |
| src/traits.rs:184-193 | over the integers, `unit_and_normal` multiplies by `invert(unit)`, which negates | the polynomial `x` (`[0, 1]`) gets normal part `-x` (`[0, -1]`) | a normal part with positive leading coefficient, `x` itself | not executed; high | Traits.IntPolyNormalAsWritten, Traits.IntPolyNormalAsWrittenNegates, Traits.IntPolyNormalAsWrittenCounterexample | Traits.IntPolyNormal |
