/**
 * `newton_raphson`: undamped Newton iteration from one start point, with an
 * iteration cap. It gives up (`None`) as soon as the derivative is exactly 0
 * at the current iterate, and when the cap is reached without a step shorter
 * than the tolerance.
 */
module RootFinder {
  import opened Wrappers
  import opened Polynomial
  import opened Differentiator

  function Abs(r: real): real
  {
    if r < 0.0 then -r else r
  }

  /** f'(x) as the solver computes it: the derivative list evaluated at `x`. */
  function SlopeAt(p: Poly, x: real): real
  {
    Eval(Derivative(p), x)
  }

  /** One Newton step `x - f(x) / f'(x)`, defined where the derivative is not 0. */
  function NewtonStep(p: Poly, x: real): real
    requires SlopeAt(p, x) != 0.0
  {
    x - Eval(p, x) / SlopeAt(p, x)
  }

  /** How many times `for _ in range(m)` runs its body. */
  function Budget(m: int): nat
  {
    if m <= 0 then 0 else m
  }

  /**
   * Started at `x`, the solver goes on past the first `k` iterates and then
   * returns `r`: the derivative at iterate `k` is not 0, `r` is the Newton
   * step from it, and that step is shorter than the tolerance.
   */
  predicate StopsWith(p: Poly, x: real, tolerance: real, k: nat, r: real)
  {
    (forall j :: 0 <= j < k ==> Continues(p, Iterate(p, x, j), tolerance))
    && SlopeAt(p, Iterate(p, x, k)) != 0.0
    && r == NewtonStep(p, Iterate(p, x, k))
    && Abs(r - Iterate(p, x, k)) < tolerance
  }

  /** The outcome of at most `fuel` iterations started at `x`. */
  function Solve(p: Poly, x: real, tolerance: real, fuel: nat): Option<real>
    decreases fuel
  {
    if fuel == 0 then None
    else if SlopeAt(p, x) == 0.0 then None
    else if Abs(NewtonStep(p, x) - x) < tolerance then Some(NewtonStep(p, x))
    else Solve(p, NewtonStep(p, x), tolerance, fuel - 1)
  }

  /** The iterate after `k` steps; a point where the derivative vanishes is kept. */
  function Iterate(p: Poly, x: real, k: nat): real
    decreases k
  {
    if k == 0 then x
    else if SlopeAt(p, x) == 0.0 then x
    else Iterate(p, NewtonStep(p, x), k - 1)
  }

  /** At `x` the solver neither gives up nor converges: it takes the step and goes on. */
  predicate Continues(p: Poly, x: real, tolerance: real)
  {
    SlopeAt(p, x) != 0.0 && Abs(NewtonStep(p, x) - x) >= tolerance
  }

  /**
   * `newton_raphson`'s loop, with its default tolerance 1e-7 and cap of 100
   * passes. Each pass evaluates f, recomputes the derivative list, evaluates
   * it, gives up on a zero derivative, takes the Newton step, and returns it
   * when the step is shorter than the tolerance. `iterations` counts the
   * passes the loop body makes.
   */
  method NewtonRaphson(terms: Poly, x0: real, tolerance: real := 0.0000001, maxIterations: int := 100)
    returns (root: Option<real>, ghost iterations: nat)
    ensures root == Solve(terms, x0, tolerance, Budget(maxIterations))
    ensures iterations <= Budget(maxIterations)
    ensures maxIterations <= 0 ==> root == None
    ensures root.Some? ==> iterations >= 1 && StopsWith(terms, x0, tolerance, iterations - 1, root.value)
  {
    ghost var budget := Budget(maxIterations);
    var x := x0;
    var i := 0;
    iterations := 0;
    while i < maxIterations
      invariant 0 <= i <= budget && iterations == i
      invariant x == Iterate(terms, x0, i)
      invariant forall j :: 0 <= j < i ==> Continues(terms, Iterate(terms, x0, j), tolerance)
      invariant Solve(terms, x0, tolerance, budget) == Solve(terms, x, tolerance, budget - i)
    {
      iterations := iterations + 1;
      var fx := Eval(terms, x);
      var fPrimeTerms := CalculateDerivative(terms);
      var fPrimeX := Eval(fPrimeTerms, x);
      if fPrimeX == 0.0 {
        return None, iterations;
      }
      var x1 := x - fx / fPrimeX;
      if Abs(x1 - x) < tolerance {
        return Some(x1), iterations;
      }
      IterateStep(terms, x0, i);
      x := x1;
      i := i + 1;
    }
    root := None;
  }

  /** One more step of the iterate sequence. */
  lemma {:induction false} IterateStep(p: Poly, x: real, k: nat)
    requires SlopeAt(p, Iterate(p, x, k)) != 0.0
    ensures Iterate(p, x, k + 1) == NewtonStep(p, Iterate(p, x, k))
    decreases k
  {
    if k > 0 && SlopeAt(p, x) != 0.0 {
      IterateStep(p, NewtonStep(p, x), k - 1);
    }
  }

  /** A polynomial whose terms are all constant has derivative 0 everywhere, so one pass gives up. */
  lemma SolveConstants(p: Poly, x: real, tolerance: real, fuel: nat)
    requires forall k :: 0 <= k < |p| ==> p[k].exp == 0
    requires fuel >= 1
    ensures SlopeAt(p, x) == 0.0
    ensures Solve(p, x, tolerance, fuel) == None
  {
    DerivativeOfConstants(p);
  }

  /** With a non-positive tolerance no step is short enough: there is never a root. */
  lemma {:induction false} SolveNonPositiveTolerance(p: Poly, x: real, tolerance: real, fuel: nat)
    requires tolerance <= 0.0
    ensures Solve(p, x, tolerance, fuel) == None
    decreases fuel
  {
    if fuel > 0 && SlopeAt(p, x) != 0.0 {
      SolveNonPositiveTolerance(p, NewtonStep(p, x), tolerance, fuel - 1);
    }
  }

  /** Started at an exact root with non-zero slope and a positive tolerance, the first step returns it. */
  lemma SolveAtRoot(p: Poly, x: real, tolerance: real, fuel: nat)
    requires Eval(p, x) == 0.0 && SlopeAt(p, x) != 0.0
    requires tolerance > 0.0 && fuel >= 1
    ensures Solve(p, x, tolerance, fuel) == Some(x)
  {
    assert NewtonStep(p, x) == x;
  }

  /**
   * Every root returned is one Newton step `r = x - f(x)/f'(x)` from some
   * iterate `x` reached within the budget, with `|r - x| < tolerance`, and
   * every earlier iterate went on.
   */
  lemma {:induction false} SolveResult(p: Poly, x: real, tolerance: real, fuel: nat, r: real)
    requires Solve(p, x, tolerance, fuel) == Some(r)
    ensures exists k :: 0 <= k < fuel && StopsWith(p, x, tolerance, k, r)
    decreases fuel
  {
    var y := NewtonStep(p, x);
    if Abs(y - x) < tolerance {
      assert Iterate(p, x, 0) == x;
      assert StopsWith(p, x, tolerance, 0, r);
    } else {
      SolveResult(p, y, tolerance, fuel - 1, r);
      var k :| 0 <= k < fuel - 1 && StopsWith(p, y, tolerance, k, r);
      assert Iterate(p, x, k + 1) == Iterate(p, y, k);
      forall j | 0 <= j < k + 1
        ensures Continues(p, Iterate(p, x, j), tolerance)
      {
        if j > 0 {
          assert Iterate(p, x, j) == Iterate(p, y, j - 1);
        }
      }
      assert StopsWith(p, x, tolerance, k + 1, r);
    }
  }

  /**
   * If the first `k` iterates continue and the derivative is 0 at iterate `k`,
   * the solver gives up there, whatever budget remains.
   */
  lemma {:induction false} SolveStopsAtZeroSlope(p: Poly, x: real, tolerance: real, fuel: nat, k: nat)
    requires k < fuel
    requires forall j :: 0 <= j < k ==> Continues(p, Iterate(p, x, j), tolerance)
    requires SlopeAt(p, Iterate(p, x, k)) == 0.0
    ensures Solve(p, x, tolerance, fuel) == None
    decreases k
  {
    if k > 0 {
      assert Continues(p, Iterate(p, x, 0), tolerance);
      var y := NewtonStep(p, x);
      forall j | 0 <= j < k - 1
        ensures Continues(p, Iterate(p, y, j), tolerance)
      {
        assert Iterate(p, x, j + 1) == Iterate(p, y, j);
        assert Continues(p, Iterate(p, x, j + 1), tolerance);
      }
      assert Iterate(p, x, k) == Iterate(p, y, k - 1);
      SolveStopsAtZeroSlope(p, y, tolerance, fuel - 1, k - 1);
    }
  }

  /**
   * If the first `k` iterates continue and the step from iterate `k` is shorter
   * than the tolerance, that step is the result.
   */
  lemma {:induction false} SolveConvergesAt(p: Poly, x: real, tolerance: real, fuel: nat, k: nat)
    requires k < fuel
    requires forall j :: 0 <= j < k ==> Continues(p, Iterate(p, x, j), tolerance)
    requires SlopeAt(p, Iterate(p, x, k)) != 0.0
    requires Abs(NewtonStep(p, Iterate(p, x, k)) - Iterate(p, x, k)) < tolerance
    ensures Solve(p, x, tolerance, fuel) == Some(NewtonStep(p, Iterate(p, x, k)))
    decreases k
  {
    if k > 0 {
      assert Continues(p, Iterate(p, x, 0), tolerance);
      var y := NewtonStep(p, x);
      forall j | 0 <= j < k - 1
        ensures Continues(p, Iterate(p, y, j), tolerance)
      {
        assert Iterate(p, x, j + 1) == Iterate(p, y, j);
        assert Continues(p, Iterate(p, x, j + 1), tolerance);
      }
      assert Iterate(p, x, k) == Iterate(p, y, k - 1);
      SolveConvergesAt(p, y, tolerance, fuel - 1, k - 1);
    }
  }

  /** If every iterate within the budget continues, the solver does not converge. */
  lemma {:induction false} SolveExhausted(p: Poly, x: real, tolerance: real, fuel: nat)
    requires forall j :: 0 <= j < fuel ==> Continues(p, Iterate(p, x, j), tolerance)
    ensures Solve(p, x, tolerance, fuel) == None
    decreases fuel
  {
    if fuel > 0 {
      assert Continues(p, Iterate(p, x, 0), tolerance);
      var y := NewtonStep(p, x);
      forall j | 0 <= j < fuel - 1
        ensures Continues(p, Iterate(p, y, j), tolerance)
      {
        assert Iterate(p, x, j + 1) == Iterate(p, y, j);
        assert Continues(p, Iterate(p, x, j + 1), tolerance);
      }
      SolveExhausted(p, y, tolerance, fuel - 1);
    }
  }

  /** Raising the iteration cap never changes a root already found. */
  lemma {:induction false} SolveMoreFuel(p: Poly, x: real, tolerance: real, fuel: nat, extra: nat, r: real)
    requires Solve(p, x, tolerance, fuel) == Some(r)
    ensures Solve(p, x, tolerance, fuel + extra) == Some(r)
    decreases fuel
  {
    if Abs(NewtonStep(p, x) - x) >= tolerance {
      SolveMoreFuel(p, NewtonStep(p, x), tolerance, fuel - 1, extra, r);
    }
  }
}
