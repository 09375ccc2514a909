/**
 * `calculate_derivative`: symbolic differentiation of a term list. Constant
 * terms vanish; every other term `(c, e)` becomes `(c*e, e-1)`, in input order.
 */
module Differentiator {
  import opened Polynomial

  /** What one input term contributes to the derivative list: nothing for a constant. */
  function DiffTerm(t: Term): Poly
  {
    if t.exp == 0 then [] else [Term(t.coeff * t.exp, t.exp - 1)]
  }

  /** The derivative list, built in the order `calculate_derivative`'s loop appends to it. */
  function Derivative(p: Poly): Poly
  {
    if p == [] then [] else Derivative(p[..|p| - 1]) + DiffTerm(p[|p| - 1])
  }

  /** The non-constant terms of `p`, in their original order. */
  function NonConstant(p: Poly): (r: Poly)
    ensures |r| <= |p|
    ensures forall t :: t in r ==> t in p
    ensures forall k :: 0 <= k < |r| ==> r[k].exp != 0
  {
    if p == [] then []
    else NonConstant(p[..|p| - 1]) + (if p[|p| - 1].exp == 0 then [] else [p[|p| - 1]])
  }

  /**
   * `calculate_derivative`'s loop: walks the terms once and appends `(c*e, e-1)` for every
   * term with a non-zero exponent. The input is a value and is left as it was.
   */
  method CalculateDerivative(terms: Poly) returns (derivativeTerms: Poly)
    ensures derivativeTerms == Derivative(terms)
  {
    derivativeTerms := [];
    var i := 0;
    while i < |terms|
      invariant 0 <= i <= |terms|
      invariant derivativeTerms == Derivative(terms[..i])
    {
      var t := terms[i];
      if t.exp != 0 {
        derivativeTerms := derivativeTerms + [Term(t.coeff * t.exp, t.exp - 1)];
      }
      assert terms[..i + 1][..i] == terms[..i];
      i := i + 1;
    }
    assert terms[..i] == terms;
  }

  /** Differentiating a concatenation gives the concatenation of the derivatives. */
  lemma {:induction false} DerivativeAppend(p: Poly, q: Poly)
    ensures Derivative(p + q) == Derivative(p) + Derivative(q)
  {
    if q == [] {
      assert p + q == p;
    } else {
      var n := |q| - 1;
      assert (p + q)[..|p + q| - 1] == p + q[..n];
      assert (p + q)[|p + q| - 1] == q[n];
      DerivativeAppend(p, q[..n]);
    }
  }

  /** A single term differentiates to its own contribution. */
  lemma DerivativeSingle(t: Term)
    ensures Derivative([t]) == DiffTerm(t)
  {
    assert [t][..0] == [];
  }

  /** A list of constants only (the empty list among them) differentiates to `[]`. */
  lemma {:induction false} DerivativeOfConstants(p: Poly)
    requires forall k :: 0 <= k < |p| ==> p[k].exp == 0
    ensures Derivative(p) == []
  {
    if p != [] {
      DerivativeOfConstants(p[..|p| - 1]);
    }
  }

  /**
   * The derivative has exactly one entry per non-constant input term, in the
   * same order, and the entry for `(c, e)` is `(c*e, e-1)`.
   */
  lemma {:induction false} DerivativeShape(p: Poly)
    ensures |Derivative(p)| == |NonConstant(p)|
    ensures forall k :: 0 <= k < |Derivative(p)| ==>
      Derivative(p)[k] == Term(NonConstant(p)[k].coeff * NonConstant(p)[k].exp, NonConstant(p)[k].exp - 1)
  {
    if p != [] {
      DerivativeShape(p[..|p| - 1]);
    }
  }

  /** The number of non-constant terms, counted independently of any list building. */
  function CountNonConstant(p: Poly): nat
  {
    if p == [] then 0 else (if p[0].exp != 0 then 1 else 0) + CountNonConstant(p[1..])
  }

  /** The output length is the number of input terms with a non-zero exponent. */
  lemma {:induction false} DerivativeLength(p: Poly)
    ensures |Derivative(p)| == CountNonConstant(p)
  {
    if p != [] {
      DerivativeLength(p[1..]);
      DerivativeAppend([p[0]], p[1..]);
      DerivativeSingle(p[0]);
      assert p == [p[0]] + p[1..];
    }
  }

  /** Differentiating twice a polynomial of degree at most 1 leaves nothing. */
  lemma {:induction false} SecondDerivativeOfLinear(p: Poly)
    requires forall k :: 0 <= k < |p| ==> p[k].exp <= 1
    ensures Derivative(Derivative(p)) == []
  {
    DerivativeShape(p);
    var d := Derivative(p);
    forall k | 0 <= k < |d|
      ensures d[k].exp == 0
    {
      assert NonConstant(p)[k] in p;
    }
    DerivativeOfConstants(d);
  }

  /**
   * The slope contributed by one term: `c * e * x^(e-1)`, and 0 for a
   * constant, written without reference to the derivative list.
   */
  function TermSlope(t: Term, x: real): real
  {
    if t.exp == 0 then 0.0 else (t.coeff as real) * (t.exp as real) * Pow(x, t.exp - 1)
  }

  /** The sum of the term slopes, left to right. */
  function AnalyticSlope(p: Poly, x: real): real
  {
    if p == [] then 0.0 else AnalyticSlope(p[..|p| - 1], x) + TermSlope(p[|p| - 1], x)
  }

  /** Evaluating the derivative list is the sum of `c*e*x^(e-1)` over the non-constant terms. */
  lemma {:induction false} EvalDerivative(p: Poly, x: real)
    ensures Eval(Derivative(p), x) == AnalyticSlope(p, x)
  {
    if p != [] {
      var q, t := p[..|p| - 1], p[|p| - 1];
      EvalDerivative(q, x);
      assert Derivative(p) == Derivative(q) + DiffTerm(t);
      EvalAppend(Derivative(q), DiffTerm(t), x);
      EvalDiffTerm(t, x);
    }
  }

  /** One term's derivative list evaluates to that term's slope. */
  lemma EvalDiffTerm(t: Term, x: real)
    ensures Eval(DiffTerm(t), x) == TermSlope(t, x)
  {
    if t.exp != 0 {
      EvalSingle(t.coeff * t.exp, t.exp - 1, x);
    }
  }

  /** The worked example: `3x^2 + 2x + 1` has derivative `6x + 2`, which is 14 at `x = 2`. */
  lemma DerivativeExample()
    ensures Derivative([Term(3, 2), Term(2, 1), Term(1, 0)]) == [Term(6, 1), Term(2, 0)]
    ensures Eval(Derivative([Term(3, 2), Term(2, 1), Term(1, 0)]), 2.0) == 14.0
  {
    var p := [Term(3, 2), Term(2, 1), Term(1, 0)];
    assert p[..2][..1][..0] == [];
    assert p[..2][..1] == [Term(3, 2)];
    assert p[..2] == [Term(3, 2), Term(2, 1)];
    assert Derivative(p[..2][..1]) == [Term(6, 1)];
    assert Derivative(p[..2]) == [Term(6, 1), Term(2, 0)];
    var d := [Term(6, 1), Term(2, 0)];
    assert d[..1][..0] == [];
    assert d[..1] == [Term(6, 1)];
  }
}
