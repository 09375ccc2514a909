/**
 * Polynomials as the calculator stores them: an ordered list of
 * (coefficient, exponent) terms. Duplicate exponents are kept as separate
 * terms; nothing is ever combined or sorted.
 */
module Polynomial {

  /** One monomial `coeff * x^exp`. Coefficients are integers, exponents are non-negative. */
  datatype Term = Term(coeff: int, exp: nat)

  /** A polynomial in insertion order. */
  type Poly = seq<Term>

  /** `x^n` for a natural exponent, with `x^0 == 1` also at `x == 0`. */
  function Pow(x: real, n: nat): real
  {
    if n == 0 then 1.0 else x * Pow(x, n - 1)
  }

  /** The value `c * x^e` that one term adds to the sum. */
  function TermValue(t: Term, x: real): real
  {
    (t.coeff as real) * Pow(x, t.exp)
  }

  /** Every coefficient is 0. */
  predicate AllZero(p: Poly)
  {
    forall k :: 0 <= k < |p| ==> p[k].coeff == 0
  }

  /**
   * `evaluate_polynomial`: the sum of `c * x^e` over all terms, accumulated
   * left to right like Python's `sum` (the last term is added last).
   */
  function Eval(p: Poly, x: real): (r: real)
    ensures AllZero(p) ==> r == 0.0
  {
    if p == [] then 0.0 else Eval(p[..|p| - 1], x) + TermValue(p[|p| - 1], x)
  }

  /** The empty polynomial evaluates to 0 everywhere. */
  lemma EvalEmpty(x: real)
    ensures Eval([], x) == 0.0
  {
  }

  /** A single term `(c, e)` evaluates to `c * x^e`; in particular `(c, 0)` gives `c` even at `x == 0`. */
  lemma EvalSingle(c: int, e: nat, x: real)
    ensures Eval([Term(c, e)], x) == (c as real) * Pow(x, e)
    ensures e == 0 ==> Eval([Term(c, e)], x) == c as real
  {
    assert [Term(c, e)][..0] == [];
  }

  /** Evaluating a concatenation is the sum of the evaluations. */
  lemma {:induction false} EvalAppend(p: Poly, q: Poly, x: real)
    ensures Eval(p + q, x) == Eval(p, x) + Eval(q, x)
  {
    if q == [] {
      assert p + q == p;
    } else {
      var n := |q| - 1;
      assert (p + q)[..|p + q| - 1] == p + q[..n];
      assert (p + q)[|p + q| - 1] == q[n];
      EvalAppend(p, q[..n], x);
    }
  }

  /** Evaluating the first element in front of the rest. */
  lemma EvalCons(t: Term, q: Poly, x: real)
    ensures Eval([t] + q, x) == TermValue(t, x) + Eval(q, x)
  {
    EvalAppend([t], q, x);
    assert [t][..0] == [];
  }

  /** Removing the term at index j takes exactly its value out of the sum. */
  lemma EvalRemove(q: Poly, j: nat, x: real)
    requires j < |q|
    ensures Eval(q, x) == Eval(q[..j] + q[j + 1..], x) + TermValue(q[j], x)
  {
    assert q == q[..j] + ([q[j]] + q[j + 1..]);
    EvalAppend(q[..j], [q[j]] + q[j + 1..], x);
    EvalCons(q[j], q[j + 1..], x);
    EvalAppend(q[..j], q[j + 1..], x);
  }

  /** The order of the terms does not matter: any permutation has the same value. */
  lemma {:induction false} EvalPermutation(p: Poly, q: Poly, x: real)
    requires multiset(p) == multiset(q)
    ensures Eval(p, x) == Eval(q, x)
    decreases |p|
  {
    if p == [] {
      assert |q| == |multiset(q)| == 0;
    } else {
      var n := |p| - 1;
      var t := p[n];
      assert p == p[..n] + [t];
      assert t in multiset(q);
      var j :| 0 <= j < |q| && q[j] == t;
      var rest := q[..j] + q[j + 1..];
      assert q == q[..j] + [t] + q[j + 1..];
      assert multiset(p[..n]) == multiset(p) - multiset{t};
      assert multiset(rest) == multiset(q) - multiset{t};
      EvalPermutation(p[..n], rest, x);
      EvalRemove(q, j, x);
    }
  }

  /** Two terms with the same exponent add up like one term with the summed coefficient. */
  lemma DuplicateExponents(a: int, b: int, e: nat, x: real)
    ensures Eval([Term(a, e), Term(b, e)], x) == Eval([Term(a + b, e)], x)
  {
    EvalCons(Term(a, e), [Term(b, e)], x);
    EvalSingle(b, e, x);
    EvalSingle(a + b, e, x);
  }
}
