/** The pretty-printer for polynomials and square-free factorizations over a
    signed coefficient type, modelled with `int` coefficients.

    A polynomial prints its non-zero terms from the highest degree down. The
    first term shows its coefficient with its sign; every later term is
    preceded by " - " or " + " and shows the absolute value. A coefficient 1
    is left out in front of the variable, and the variable carries "^d" from
    degree 2 on. A factorization prints its leading coefficient (only "-" for
    -1, nothing for 1) and then each factor in parentheses, with "^k" when
    its multiplicity k exceeds 1.

    `ParsePoly` and `ParseFactorization` read the text back; the round-trip
    lemmas show that the text determines the non-zero terms, in order, and
    the multiplicities. */
module Print {
  import opened Wrappers
  import opened Decimal
  import opened Factorization
  import Traits

  // ---------------------------------------------------------------------------
  // Coefficients
  // ---------------------------------------------------------------------------

  /** `print_if_not_one`: nothing for 1, the decimal text otherwise. */
  function PrintIfNotOne(x: int): (s: string)
    ensures s == "" <==> x == 1
    ensures x != 1 ==> ParseInt(s) == Some(x)
  {
    IntRoundTrip(x);
    if x != 1 then IntToDecimal(x) else ""
  }

  /** `print_as_factor`: "-" for a negative value, then the absolute value
      unless it is 1. */
  function PrintAsFactor(x: int): (s: string)
    ensures s == "" <==> x == 1
    ensures s == "-" <==> x == -1
  {
    var t := PrintIfNotOne(Traits.IntAbs(x));
    assert x >= 0 && x != 1 ==> t == NatToDecimal(x) && IsDigit(t[0]);
    var s := (if x < 0 then "-" else "") + t;
    assert x >= 0 ==> s == t;
    assert x < 0 ==> |s| == |t| + 1;
    s
  }

  /** Reads the text `PrintAsFactor` writes. */
  function ParseLead(s: string): (r: Option<int>)
  {
    if s == "" then Some(1) else if s == "-" then Some(-1) else ParseInt(s)
  }

  /** The leading coefficient is recovered from its text, whatever its value. */
  lemma {:induction false} LeadRoundTrip(x: int)
    ensures ParseLead(PrintAsFactor(x)) == Some(x)
  {
    if x < -1 {
      assert PrintAsFactor(x) == IntToDecimal(x);
      IntRoundTrip(x);
    } else if x > 1 {
      assert PrintAsFactor(x) == PrintIfNotOne(x);
    } else if x == 0 {
      IntRoundTrip(0);
    }
  }

  // ---------------------------------------------------------------------------
  // Polynomials
  // ---------------------------------------------------------------------------

  /** A term: the coefficient of x^degree. */
  datatype Term = Term(coeff: int, degree: nat)

  /** The variable part of a term of degree at least 1. */
  function VarPart(v: string, degree: nat): string
  {
    if degree == 1 then v else v + "^" + NatToDecimal(degree)
  }

  /** One term showing coefficient c: the full number for the constant term,
      otherwise the coefficient unless it is 1, then the variable part. */
  function TermText(c: int, degree: nat, v: string): (s: string)
    ensures degree == 0 ==> ParseInt(s) == Some(c)
    ensures degree >= 1 ==> (s == VarPart(v, degree) <==> c == 1)
  {
    IntRoundTrip(c);
    if degree == 0 then IntToDecimal(c) else PrintIfNotOne(c) + VarPart(v, degree)
  }

  /** The separator in front of every term but the first. */
  function Separator(c: int): string
  {
    if c < 0 then " - " else " + "
  }

  /** The text of the coefficients below index k, highest degree first;
      `first` says that nothing has been printed yet. Zero coefficients are
      skipped. */
  function Render(p: seq<int>, v: string, k: nat, first: bool): string
    requires k <= |p|
    decreases k
  {
    if k == 0 then ""
    else if p[k - 1] == 0 then Render(p, v, k - 1, first)
    else if first then TermText(p[k - 1], k - 1, v) + Render(p, v, k - 1, false)
    else Separator(p[k - 1]) + (TermText(Traits.IntAbs(p[k - 1]), k - 1, v) + Render(p, v, k - 1, false))
  }

  /** `Display` for `PrintWithVar<Polynomial>`. */
  function PrintPoly(p: seq<int>, v: string): string
  {
    Render(p, v, |p|, true)
  }

  /** The non-zero terms below index k, highest degree first. */
  function Terms(p: seq<int>, k: nat): seq<Term>
    requires k <= |p|
    decreases k
  {
    if k == 0 then []
    else if p[k - 1] == 0 then Terms(p, k - 1)
    else [Term(p[k - 1], k - 1)] + Terms(p, k - 1)
  }

  /** The terms are exactly the non-zero coefficients, in strictly
      decreasing degree. */
  lemma {:induction false} TermsExact(p: seq<int>, k: nat)
    requires k <= |p|
    ensures forall i, j :: 0 <= i < j < |Terms(p, k)| ==> Terms(p, k)[i].degree > Terms(p, k)[j].degree
    ensures forall i :: 0 <= i < |Terms(p, k)| ==>
              Terms(p, k)[i].degree < k && Terms(p, k)[i].coeff == p[Terms(p, k)[i].degree] != 0
    ensures forall d :: 0 <= d < k && p[d] != 0 ==> Term(p[d], d) in Terms(p, k)
    decreases k
  {
    if k > 0 {
      TermsExact(p, k - 1);
    }
  }

  /** A variable name the text can be read back with: non-empty, not
      starting with a digit or '-', and free of spaces and parentheses. */
  predicate ValidVar(v: string)
  {
    && |v| > 0 && !IsDigit(v[0]) && v[0] != '-'
    && ' ' !in v && '(' !in v && ')' !in v
  }

  /** Reads an unsigned term: optional digits, then nothing (a constant) or
      the variable, optionally followed by '^' and the degree. */
  function ParseUnsigned(w: string, v: string): Option<Term>
  {
    var split := SplitDigits(w);
    var ds, rest := split.0, split.1;
    if |rest| == 0 then
      if |ds| == 0 then None else Some(Term(DigitsValue(ds), 0))
    else if |v| <= |rest| && rest[..|v|] == v then
      var c := if |ds| == 0 then 1 else DigitsValue(ds);
      var after := rest[|v|..];
      if |after| == 0 then Some(Term(c, 1))
      else if |after| > 1 && after[0] == '^' && AllDigits(after[1..]) then Some(Term(c, DigitsValue(after[1..])))
      else None
    else None
  }

  /** Reads a term that may start with '-'. */
  function ParseSigned(w: string, v: string): Option<Term>
  {
    if |w| > 0 && w[0] == '-' then
      match ParseUnsigned(w[1..], v)
      case None => None
      case Some(t) => Some(Term(-t.coeff, t.degree))
    else ParseUnsigned(w, v)
  }

  /** The text before the first occurrence of ch, and the rest from there. */
  function SplitAt(s: string, ch: char): (r: (string, string))
    ensures r.0 + r.1 == s && ch !in r.0
    ensures |r.1| == 0 || r.1[0] == ch
  {
    if |s| == 0 || s[0] == ch then ([], s)
    else
      var rest := SplitAt(s[1..], ch);
      assert [s[0]] + rest.0 + rest.1 == s;
      ([s[0]] + rest.0, rest.1)
  }

  /** Text free of ch followed by ch (or nothing) splits at the boundary. */
  lemma {:induction false} SplitAtOf(w: string, rest: string, ch: char)
    requires ch !in w && (|rest| == 0 || rest[0] == ch)
    ensures SplitAt(w + rest, ch) == (w, rest)
  {
    var s := w + rest;
    if |w| > 0 {
      assert s[0] == w[0] != ch;
      assert s[1..] == w[1..] + rest;
      SplitAtOf(w[1..], rest, ch);
      assert [w[0]] + w[1..] == w;
    } else {
      assert s == rest;
    }
  }

  /** Reads the terms after the first: each a separator and an unsigned term. */
  function ParseRest(s: string, v: string): Option<seq<Term>>
    decreases |s|
  {
    if |s| == 0 then Some([])
    else if |s| >= 3 && (s[..3] == " + " || s[..3] == " - ") then
      var split := SplitAt(s[3..], ' ');
      match (ParseUnsigned(split.0, v), ParseRest(split.1, v))
      case (Some(t), Some(ts)) => Some([Term(if s[1] == '-' then -t.coeff else t.coeff, t.degree)] + ts)
      case _ => None
    else None
  }

  /** Reads the text `PrintPoly` writes. */
  function ParsePoly(s: string, v: string): Option<seq<Term>>
  {
    if |s| == 0 then Some([])
    else
      var split := SplitAt(s, ' ');
      match (ParseSigned(split.0, v), ParseRest(split.1, v))
      case (Some(t), Some(ts)) => Some([t] + ts)
      case _ => None
  }

  // ---------------------------------------------------------------------------
  // The polynomial round trip
  // ---------------------------------------------------------------------------

  lemma {:induction false} DigitsAvoid(s: string, ch: char)
    requires AllDigits(s) && !IsDigit(ch)
    ensures ch !in s
  {
  }

  /** A character that is not a digit, '-', '^' or in the variable does not
      occur in a term. */
  lemma {:induction false} TermAvoids(c: int, d: nat, v: string, ch: char)
    requires !IsDigit(ch) && ch != '-' && ch != '^' && ch !in v
    ensures ch !in TermText(c, d, v)
  {
    DigitsAvoid(NatToDecimal(Traits.IntAbs(c)), ch);
    DigitsAvoid(NatToDecimal(d), ch);
  }

  /** ... and, when it is also not ' ' or '+', not in the printed polynomial. */
  lemma {:induction false} RenderAvoids(p: seq<int>, v: string, k: nat, first: bool, ch: char)
    requires k <= |p|
    requires !IsDigit(ch) && ch != '-' && ch != '^' && ch != ' ' && ch != '+' && ch !in v
    ensures ch !in Render(p, v, k, first)
    decreases k
  {
    if k > 0 {
      hide Render, TermText, Separator, Traits.IntAbs, IsDigit;
      if p[k - 1] == 0 {
        RenderSkip(p, v, k, first);
        RenderAvoids(p, v, k - 1, first, ch);
      } else {
        var c := p[k - 1];
        var rest := Render(p, v, k - 1, false);
        RenderAvoids(p, v, k - 1, false, ch);
        if first {
          RenderFirst(p, v, k);
          TermAvoids(c, k - 1, v, ch);
          NotInConcat(TermText(c, k - 1, v), rest, ch);
        } else {
          RenderNext(p, v, k);
          NextTermAvoids(c, k - 1, v, rest, ch);
        }
      }
    }
  }

  /** A later term and its separator add no such character either. */
  lemma {:induction false} NextTermAvoids(c: int, d: nat, v: string, rest: string, ch: char)
    requires !IsDigit(ch) && ch != '-' && ch != '^' && ch != ' ' && ch != '+' && ch !in v
    requires ch !in rest
    ensures ch !in Separator(c) + (TermText(Traits.IntAbs(c), d, v) + rest)
  {
    var w := TermText(Traits.IntAbs(c), d, v);
    TermAvoids(Traits.IntAbs(c), d, v, ch);
    SeparatorAvoids(c, ch);
    hide TermText, Separator, Traits.IntAbs, IsDigit;
    NotInConcat(w, rest, ch);
    NotInConcat(Separator(c), w + rest, ch);
  }

  lemma {:induction false} SeparatorAvoids(c: int, ch: char)
    requires ch != ' ' && ch != '-' && ch != '+'
    ensures ch !in Separator(c)
  {
  }

  /** After the first term, the text is empty or starts with a separator. */
  lemma {:induction false} RenderStartsWithSpace(p: seq<int>, v: string, k: nat)
    requires k <= |p|
    ensures |Render(p, v, k, false)| == 0 || Render(p, v, k, false)[0] == ' '
    decreases k
  {
    if k > 0 && p[k - 1] == 0 {
      RenderStartsWithSpace(p, v, k - 1);
    }
  }

  /** Explicit digits before the variable part (or before nothing, for a
      constant) read back as that coefficient and degree. */
  lemma {:induction false} ParseDigitsTerm(a: nat, d: nat, v: string)
    requires ValidVar(v) && a >= 1
    ensures ParseUnsigned(NatToDecimal(a) + (if d == 0 then "" else VarPart(v, d)), v) == Some(Term(a, d))
  {
    var ds := NatToDecimal(a);
    var tail := if d == 0 then "" else VarPart(v, d);
    assert |tail| == 0 || tail[0] == v[0];
    SplitDigitsOf(ds, tail);
    NatRoundTrip(a);
    if d >= 1 {
      VarPartRead(d, v);
    }
  }

  /** The variable part alone reads back as coefficient 1. */
  lemma {:induction false} ParseBareVar(d: nat, v: string)
    requires ValidVar(v) && d >= 1
    ensures ParseUnsigned(VarPart(v, d), v) == Some(Term(1, d))
  {
    assert VarPart(v, d)[0] == v[0];
    SplitDigitsOf([], VarPart(v, d));
    assert [] + VarPart(v, d) == VarPart(v, d);
    VarPartRead(d, v);
  }

  /** What follows the variable in `VarPart` reads back as the degree. */
  lemma {:induction false} VarPartRead(d: nat, v: string)
    requires d >= 1
    ensures |v| <= |VarPart(v, d)| && VarPart(v, d)[..|v|] == v
    ensures var after := VarPart(v, d)[|v|..];
            if d == 1 then |after| == 0
            else |after| > 1 && after[0] == '^' && AllDigits(after[1..]) && DigitsValue(after[1..]) == d
  {
    if d > 1 {
      var after := VarPart(v, d)[|v|..];
      assert after == "^" + NatToDecimal(d);
      assert after[1..] == NatToDecimal(d);
      NatRoundTrip(d);
    }
  }

  /** A term with a positive coefficient reads back unsigned. */
  lemma {:induction false} ParseUnsignedTerm(a: nat, d: nat, v: string)
    requires ValidVar(v) && a >= 1
    ensures ParseUnsigned(TermText(a, d, v), v) == Some(Term(a, d))
  {
    if d == 0 {
      assert TermText(a, d, v) == NatToDecimal(a) + "";
      ParseDigitsTerm(a, d, v);
    } else if a == 1 {
      assert TermText(a, d, v) == VarPart(v, d);
      ParseBareVar(d, v);
    } else {
      assert TermText(a, d, v) == NatToDecimal(a) + VarPart(v, d);
      ParseDigitsTerm(a, d, v);
    }
  }

  /** A term with a non-zero coefficient of either sign reads back. */
  lemma {:induction false} ParseSignedTerm(c: int, d: nat, v: string)
    requires ValidVar(v) && c != 0
    ensures ParseSigned(TermText(c, d, v), v) == Some(Term(c, d))
  {
    hide TermText, ParseUnsigned, NatToDecimal, VarPart;
    var w := TermText(c, d, v);
    if c > 0 {
      PositiveTermStart(c, d, v);
      ParseUnsignedTerm(c, d, v);
    } else {
      var tail := if d == 0 then "" else VarPart(v, d);
      NegativeTermText(c, d, v);
      ParseDigitsTerm(-c, d, v);
      assert w[1..] == NatToDecimal(-c) + tail;
    }
  }

  /** A term with a positive coefficient does not start with '-'. */
  lemma {:induction false} PositiveTermStart(c: int, d: nat, v: string)
    requires ValidVar(v) && c > 0
    ensures |TermText(c, d, v)| > 0 && TermText(c, d, v)[0] != '-'
  {
    var w := TermText(c, d, v);
    if d > 0 && c == 1 {
      assert w[0] == v[0];
    } else {
      assert w[0] == NatToDecimal(c)[0];
    }
  }

  /** A term with a negative coefficient is '-' and the digits of its
      absolute value, then the variable part. */
  lemma {:induction false} NegativeTermText(c: int, d: nat, v: string)
    requires c < 0
    ensures TermText(c, d, v) == "-" + (NatToDecimal(-c) + if d == 0 then "" else VarPart(v, d))
  {
  }

  /** A zero coefficient prints nothing. */
  lemma {:induction false} RenderSkip(p: seq<int>, v: string, k: nat, first: bool)
    requires 0 < k <= |p| && p[k - 1] == 0
    ensures Render(p, v, k, first) == Render(p, v, k - 1, first)
  {
  }

  /** A non-zero coefficient printed first shows its sign. */
  lemma {:induction false} RenderFirst(p: seq<int>, v: string, k: nat)
    requires 0 < k <= |p| && p[k - 1] != 0
    ensures Render(p, v, k, true) == TermText(p[k - 1], k - 1, v) + Render(p, v, k - 1, false)
  {
  }

  /** A non-zero coefficient after the first printed term gets a separator
      and shows its absolute value. */
  lemma {:induction false} RenderNext(p: seq<int>, v: string, k: nat)
    requires 0 < k <= |p| && p[k - 1] != 0
    ensures Render(p, v, k, false)
            == Separator(p[k - 1]) + (TermText(Traits.IntAbs(p[k - 1]), k - 1, v) + Render(p, v, k - 1, false))
  {
  }

  /** One step of `Terms`. */
  lemma {:induction false} TermsStep(p: seq<int>, k: nat)
    requires 0 < k <= |p|
    ensures Terms(p, k) == if p[k - 1] == 0 then Terms(p, k - 1) else [Term(p[k - 1], k - 1)] + Terms(p, k - 1)
  {
  }

  lemma {:induction false} NotInConcat(a: string, b: string, ch: char)
    requires ch !in a && ch !in b
    ensures ch !in a + b
  {
  }

  /** The terms after the first read back. */
  lemma {:induction false} ParseRestRender(p: seq<int>, v: string, k: nat)
    requires ValidVar(v) && k <= |p|
    ensures ParseRest(Render(p, v, k, false), v) == Some(Terms(p, k))
    decreases k
  {
    hide *;
    if k == 0 {
      ParseRestBase(p, v);
    } else {
      ParseRestRender(p, v, k - 1);
      ParseRestUp(p, v, k);
    }
  }

  /** Nothing after the first term reads back as no terms. */
  lemma {:induction false} ParseRestBase(p: seq<int>, v: string)
    ensures ParseRest(Render(p, v, 0, false), v) == Some(Terms(p, 0))
  {
  }

  /** If the terms below index k - 1 read back, so do the terms below k. */
  lemma {:induction false} ParseRestUp(p: seq<int>, v: string, k: nat)
    requires ValidVar(v) && 0 < k <= |p|
    requires ParseRest(Render(p, v, k - 1, false), v) == Some(Terms(p, k - 1))
    ensures ParseRest(Render(p, v, k, false), v) == Some(Terms(p, k))
  {
    hide *;
    if p[k - 1] == 0 {
      ParseRestSkip(p, v, k);
    } else {
      ParseRestNext(p, v, k);
    }
  }

  /** A zero coefficient at k - 1 adds nothing to the text after the first term. */
  lemma {:induction false} ParseRestSkip(p: seq<int>, v: string, k: nat)
    requires 0 < k <= |p| && p[k - 1] == 0
    requires ParseRest(Render(p, v, k - 1, false), v) == Some(Terms(p, k - 1))
    ensures ParseRest(Render(p, v, k, false), v) == Some(Terms(p, k))
  {
    hide Render, Terms, ParseRest;
    RenderSkip(p, v, k, false);
    TermsStep(p, k);
  }

  /** If the terms below index k - 1 read back, so do the terms below k
      when the coefficient at k - 1 is non-zero. */
  lemma {:induction false} ParseRestNext(p: seq<int>, v: string, k: nat)
    requires ValidVar(v) && 0 < k <= |p| && p[k - 1] != 0
    requires ParseRest(Render(p, v, k - 1, false), v) == Some(Terms(p, k - 1))
    ensures ParseRest(Render(p, v, k, false), v) == Some(Terms(p, k))
  {
    hide Render, Terms, TermText, ParseUnsigned, ParseRest, Separator, Traits.IntAbs, ValidVar;
    var c := p[k - 1];
    var rest := Render(p, v, k - 1, false);
    TermsStep(p, k);
    RenderNext(p, v, k);
    RenderStartsWithSpace(p, v, k - 1);
    ParseRestStep(c, k - 1, rest, v);
  }

  /** A separator and a term with coefficient c, in front of text that
      reads back, read back as c. */
  lemma {:induction false} ParseRestStep(c: int, d: nat, rest: string, v: string)
    requires ValidVar(v) && c != 0
    requires (|rest| == 0 || rest[0] == ' ') && ParseRest(rest, v).Some?
    ensures ParseRest(Separator(c) + (TermText(Traits.IntAbs(c), d, v) + rest), v)
            == Some([Term(c, d)] + ParseRest(rest, v).value)
  {
    assert ' ' !in v;
    hide ParseUnsigned, TermText, Separator, Traits.IntAbs, ValidVar, ParseRest;
    var a := Traits.IntAbs(c);
    SignFacts(c);
    TermAvoids(a, d, v, ' ');
    ParseUnsignedTerm(a, d, v);
    ParseRestCons(Separator(c), TermText(a, d, v), rest, v);
  }

  /** The separator carries the sign that the absolute value drops. */
  lemma {:induction false} SignFacts(c: int)
    requires c != 0
    ensures Separator(c) == " + " || Separator(c) == " - "
    ensures Separator(c) == " - " <==> c < 0
    ensures Traits.IntAbs(c) >= 1
    ensures (if c < 0 then -(Traits.IntAbs(c) as int) else Traits.IntAbs(c) as int) == c
  {
  }

  /** One separator and unsigned term in front of text that reads back. */
  lemma {:induction false} ParseRestCons(sep: string, w: string, rest: string, v: string)
    requires sep == " + " || sep == " - "
    requires ' ' !in w && (|rest| == 0 || rest[0] == ' ')
    requires ParseUnsigned(w, v).Some? && ParseRest(rest, v).Some?
    ensures var t := ParseUnsigned(w, v).value;
            ParseRest(sep + (w + rest), v)
            == Some([Term(if sep == " - " then -t.coeff else t.coeff, t.degree)] + ParseRest(rest, v).value)
  {
    hide ParseUnsigned;
    var s := sep + (w + rest);
    assert s[..3] == sep && s[3..] == w + rest && s[1] == sep[1];
    SplitAtOf(w, rest, ' ');
  }

  /** A signed first term in front of text that reads back. */
  lemma {:induction false} ParsePolyStep(w: string, rest: string, v: string)
    requires |w| > 0 && ' ' !in w && (|rest| == 0 || rest[0] == ' ')
    requires ParseSigned(w, v).Some? && ParseRest(rest, v).Some?
    ensures ParsePoly(w + rest, v) == Some([ParseSigned(w, v).value] + ParseRest(rest, v).value)
  {
    hide ParseSigned, ParseRest;
    SplitAtOf(w, rest, ' ');
  }

  /** The whole printed polynomial reads back. */
  lemma {:induction false} ParsePolyRender(p: seq<int>, v: string, k: nat)
    requires ValidVar(v) && k <= |p|
    ensures ParsePoly(Render(p, v, k, true), v) == Some(Terms(p, k))
    decreases k
  {
    hide *;
    if k == 0 {
      ParsePolyBase(p, v);
    } else if p[k - 1] == 0 {
      ParsePolyRender(p, v, k - 1);
      ParsePolySkip(p, v, k);
    } else {
      ParseFirstTerm(p, v, k);
    }
  }

  /** The empty text reads back as no terms. */
  lemma {:induction false} ParsePolyBase(p: seq<int>, v: string)
    ensures ParsePoly(Render(p, v, 0, true), v) == Some(Terms(p, 0))
  {
  }

  /** A zero coefficient at k - 1 adds nothing before the first printed term. */
  lemma {:induction false} ParsePolySkip(p: seq<int>, v: string, k: nat)
    requires 0 < k <= |p| && p[k - 1] == 0
    requires ParsePoly(Render(p, v, k - 1, true), v) == Some(Terms(p, k - 1))
    ensures ParsePoly(Render(p, v, k, true), v) == Some(Terms(p, k))
  {
    hide Render, Terms, ParsePoly;
    RenderSkip(p, v, k, true);
    TermsStep(p, k);
  }

  /** A printed polynomial whose highest printed term is at index k - 1
      reads back. */
  lemma {:induction false} ParseFirstTerm(p: seq<int>, v: string, k: nat)
    requires ValidVar(v) && 0 < k <= |p| && p[k - 1] != 0
    ensures ParsePoly(Render(p, v, k, true), v) == Some(Terms(p, k))
  {
    hide Render, Terms, TermText, ParseSigned, ParseRest, ParsePoly;
    var c := p[k - 1];
    var w := TermText(c, k - 1, v);
    var rest := Render(p, v, k - 1, false);
    RenderFirst(p, v, k);
    TermsStep(p, k);
    TermNonEmpty(c, k - 1, v);
    TermAvoids(c, k - 1, v, ' ');
    RenderStartsWithSpace(p, v, k - 1);
    ParseSignedTerm(c, k - 1, v);
    ParseRestRender(p, v, k - 1);
    ParsePolyStep(w, rest, v);
    assert Render(p, v, k, true) == w + rest;
  }

  /** Every term shows something once the variable name is non-empty. */
  lemma {:induction false} TermNonEmpty(c: int, d: nat, v: string)
    requires |v| > 0
    ensures |TermText(c, d, v)| > 0
  {
  }

  /** Round trip: the printed text determines the non-zero terms, highest
      degree first. */
  lemma {:induction false} PrintPolyRoundTrip(p: seq<int>, v: string)
    requires ValidVar(v)
    ensures ParsePoly(PrintPoly(p, v), v) == Some(Terms(p, |p|))
  {
    ParsePolyRender(p, v, |p|);
  }

  /** The empty text is printed exactly for the zero polynomial, whatever
      the (non-empty) variable name. */
  lemma {:induction false} PrintPolyEmptyIff(p: seq<int>, v: string)
    requires |v| > 0
    ensures PrintPoly(p, v) == "" <==> forall i :: 0 <= i < |p| ==> p[i] == 0
  {
    RenderEmptyIff(p, v, |p|, true);
  }

  /** The text of the coefficients below k is empty exactly when they are all zero. */
  lemma {:induction false} RenderEmptyIff(p: seq<int>, v: string, k: nat, first: bool)
    requires |v| > 0 && k <= |p|
    ensures Render(p, v, k, first) == "" <==> forall i :: 0 <= i < k ==> p[i] == 0
    decreases k
  {
    if k > 0 {
      hide Render, TermText, Separator, Traits.IntAbs;
      var c := p[k - 1];
      if c == 0 {
        RenderSkip(p, v, k, first);
        RenderEmptyIff(p, v, k - 1, first);
      } else if first {
        RenderFirst(p, v, k);
        TermNonEmpty(c, k - 1, v);
      } else {
        RenderNext(p, v, k);
        SignFacts(c);
      }
    }
  }

  // ---------------------------------------------------------------------------
  // Factorizations
  // ---------------------------------------------------------------------------

  /** "^k" after a factor when its multiplicity k exceeds 1. */
  function ExponentText(k: Multiplicity): (s: string)
    ensures s == "" <==> k == 1
  {
    if k > 1 then "^" + NatToDecimal(k) else ""
  }

  /** Each factor in parentheses, followed by its exponent text. */
  function FactorsText(fs: seq<Factor<int>>, v: string): string
  {
    if |fs| == 0 then ""
    else "(" + (PrintPoly(fs[0].poly, v) + (")" + (ExponentText(fs[0].multiplicity) + FactorsText(fs[1..], v))))
  }

  /** `Display` for `PrintWithVar<SquareFreeFactorization>`. */
  function PrintFactorization(sf: SquareFreeFactorization<int>, v: string): string
  {
    PrintAsFactor(sf.leadingCoeff) + FactorsText(sf.factors, v)
  }

  /** What the text of a factor list determines: each factor's terms and
      multiplicity. */
  function Summary(fs: seq<Factor<int>>): seq<(seq<Term>, nat)>
  {
    if |fs| == 0 then [] else [(Terms(fs[0].poly, |fs[0].poly|), fs[0].multiplicity as nat)] + Summary(fs[1..])
  }

  /** Reads the text `FactorsText` writes. */
  function ParseFactors(s: string, v: string): Option<seq<(seq<Term>, nat)>>
    decreases |s|
  {
    if |s| == 0 then Some([])
    else if s[0] != '(' then None
    else
      var split := SplitAt(s[1..], ')');
      if |split.1| == 0 then None
      else
        var after := split.1[1..];
        var exp := if |after| > 0 && after[0] == '^' then SplitDigits(after[1..]) else ("1", after);
        if |exp.0| == 0 then None
        else
          match (ParsePoly(split.0, v), ParseFactors(exp.1, v))
          case (Some(ts), Some(rest)) => Some([(ts, DigitsValue(exp.0))] + rest)
          case _ => None
  }

  /** Reads the text `PrintFactorization` writes. */
  function ParseFactorization(s: string, v: string): Option<(int, seq<(seq<Term>, nat)>)>
  {
    var split := SplitAt(s, '(');
    match (ParseLead(split.0), ParseFactors(split.1, v))
    case (Some(c), Some(fs)) => Some((c, fs))
    case _ => None
  }

  lemma {:induction false} FactorsTextStart(fs: seq<Factor<int>>, v: string)
    ensures |FactorsText(fs, v)| == 0 || FactorsText(fs, v)[0] == '('
  {
  }

  /** One step of `FactorsText` and `Summary`. */
  lemma {:induction false} FactorsUnfold(fs: seq<Factor<int>>, v: string)
    requires |fs| > 0
    ensures FactorsText(fs, v)
            == "(" + (PrintPoly(fs[0].poly, v) + (")" + (ExponentText(fs[0].multiplicity) + FactorsText(fs[1..], v))))
    ensures Summary(fs) == [(Terms(fs[0].poly, |fs[0].poly|), fs[0].multiplicity as nat)] + Summary(fs[1..])
  {
  }

  /** The factor list reads back. */
  lemma {:induction false} FactorsRoundTrip(fs: seq<Factor<int>>, v: string)
    requires ValidVar(v)
    ensures ParseFactors(FactorsText(fs, v), v) == Some(Summary(fs))
  {
    if |fs| > 0 {
      var f := fs[0];
      RenderAvoids(f.poly, v, |f.poly|, true, ')');
      hide FactorsText, PrintPoly, Summary, ParsePoly, ParseFactors, Render, Terms, ExponentText, ValidVar;
      var body := PrintPoly(f.poly, v);
      var tail := FactorsText(fs[1..], v);
      FactorsUnfold(fs, v);
      FactorsTextStart(fs[1..], v);
      PrintPolyRoundTrip(f.poly, v);
      FactorsRoundTrip(fs[1..], v);
      ParseFactorsStep(body, f.multiplicity, tail, v);
    } else {
      assert Summary(fs) == [];
    }
  }

  /** The exponent text in front of the rest reads back as the multiplicity. */
  lemma {:induction false} ExponentRead(k: Multiplicity, tail: string)
    requires |tail| == 0 || tail[0] == '('
    ensures var after := ExponentText(k) + tail;
            var exp := if |after| > 0 && after[0] == '^' then SplitDigits(after[1..]) else ("1", after);
            |exp.0| > 0 && AllDigits(exp.0) && DigitsValue(exp.0) == k && exp.1 == tail
  {
    var after := ExponentText(k) + tail;
    if k > 1 {
      var ds := NatToDecimal(k);
      assert after == "^" + (ds + tail);
      assert after[1..] == ds + tail;
      SplitDigitsOf(ds, tail);
      NatRoundTrip(k);
    } else {
      assert after == tail;
      assert DigitsValue("1") == 1;
    }
  }

  /** One parenthesised factor and its exponent in front of text that reads back. */
  lemma {:induction false} ParseFactorsStep(body: string, k: Multiplicity, tail: string, v: string)
    requires ')' !in body && (|tail| == 0 || tail[0] == '(')
    requires ParsePoly(body, v).Some? && ParseFactors(tail, v).Some?
    ensures ParseFactors("(" + (body + (")" + (ExponentText(k) + tail))), v)
            == Some([(ParsePoly(body, v).value, k as nat)] + ParseFactors(tail, v).value)
  {
    ExponentRead(k, tail);
    hide ParsePoly, ExponentText, SplitDigits, DigitsValue, NatToDecimal;
    var after := ExponentText(k) + tail;
    var s := "(" + (body + (")" + after));
    assert s[1..] == body + (")" + after);
    SplitAtOf(body, ")" + after, ')');
    assert (")" + after)[1..] == after;
  }

  /** Round trip: the printed factorization determines the leading
      coefficient and, for each factor in order, its terms and multiplicity. */
  lemma {:induction false} PrintFactorizationRoundTrip(sf: SquareFreeFactorization<int>, v: string)
    requires ValidVar(v)
    ensures ParseFactorization(PrintFactorization(sf, v), v) == Some((sf.leadingCoeff, Summary(sf.factors)))
  {
    var lead := PrintAsFactor(sf.leadingCoeff);
    var rest := FactorsText(sf.factors, v);
    DigitsAvoid(NatToDecimal(Traits.IntAbs(sf.leadingCoeff)), '(');
    assert '(' !in lead;
    FactorsTextStart(sf.factors, v);
    SplitAtOf(lead, rest, '(');
    LeadRoundTrip(sf.leadingCoeff);
    FactorsRoundTrip(sf.factors, v);
  }

}
