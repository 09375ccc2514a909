# Polynomial derivative calculator — verified model of its engine

This project models, in Dafny, the polynomial engine of a small Streamlit
calculator for derivatives and Newton–Raphson roots, and proves properties of
that model.

A polynomial is an ordered list of `(coefficient, exponent)` terms
(`Polynomial.Term`, `Polynomial.Poly`). Terms with the same exponent are kept
as separate terms, and nothing is ever combined or sorted. Coefficients are
`int`: the derivative tab reads them from integer inputs. Exponents are `nat`.
Evaluation points, the tolerance and the Newton iterates are exact `real`s.

Modules, one per component of the engine:

- `Polynomial` (`Polynomial.dfy`): terms, `Pow` with `x^0 = 1` (also at 0), and `Eval`
  (`evaluate_polynomial`). `Eval` is a left-to-right sum, like Python's `sum`.
- `Differentiator` (`Differentiator.dfy`): `calculate_derivative`. It is the
  loop method `CalculateDerivative`, proved equal to the function `Derivative`.
- `Formatter` (`Formatter.dfy`): `format_polynomial`. It is the loop method
  `FormatPolynomial`, proved equal to `Format`. `Format` is built from Python's
  `str(int)` (`IntToString`), `str.join` (`Join`) and `str.replace` (`ReplaceAll`).
- `RootFinder` (`RootFinder.dfy`): `newton_raphson`. It is the loop method
  `NewtonRaphson`, proved equal to the recursive function `Solve`. `Iterate`
  gives the sequence of iterates.
- `DerivativeTable` (`DerivativeTable.dfy`): `calcular_derivada` from the
  second calculator. It is a loop over the pairs that `zip` produces.
- `Wrappers` (`Wrappers.dfy`): `Option`. `None` stands for Python's `None`.

## Model

| member | source | states |
|---|---|---|
| `Polynomial.Eval` | Calculadora-Calc1-Streamlit.py:29-30 | the sum of c·x^e over the terms, added left to right; a list whose coefficients are all 0 evaluates to 0 at every x |
| `Polynomial.EvalEmpty` | Calculadora-Calc1-Streamlit.py:29-30 | the empty list evaluates to 0 at every x |
| `Polynomial.EvalSingle` | Calculadora-Calc1-Streamlit.py:29-30 | a single term (c, e) evaluates to c·x^e; (c, 0) gives c even at x = 0 |
| `Polynomial.EvalAppend` | Calculadora-Calc1-Streamlit.py:29-30 | evaluating a concatenation is the sum of the two evaluations |
| `Polynomial.EvalPermutation` | Calculadora-Calc1-Streamlit.py:29-30 | any permutation of the terms (same multiset) has the same value |
| `Polynomial.DuplicateExponents` | Calculadora-Calc1-Streamlit.py:29-30 | [(a,e),(b,e)] evaluates like [(a+b,e)]: duplicate exponents contribute separately |
| `Differentiator.CalculateDerivative` | Calculadora-Calc1-Streamlit.py:22-27 | the loop returns exactly `Derivative(terms)`, a new list; the input is a value and is unchanged |
| `Differentiator.DerivativeAppend` | Calculadora-Calc1-Streamlit.py:22-27 | differentiating a concatenation gives the concatenation of the derivatives |
| `Differentiator.DerivativeSingle` | Calculadora-Calc1-Streamlit.py:24-26 | one term gives [] when its exponent is 0, else exactly [(c·e, e−1)] |
| `Differentiator.DerivativeOfConstants` | Calculadora-Calc1-Streamlit.py:24-25 | a list of only constant terms (including the empty list) differentiates to [] |
| `Differentiator.DerivativeShape` | Calculadora-Calc1-Streamlit.py:24-26 | the output has one entry per non-constant input term, in input order, and entry k is (c·e, e−1) of the k-th non-constant term |
| `Differentiator.DerivativeLength` | Calculadora-Calc1-Streamlit.py:24-26 | the output length equals the number of input terms with a non-zero exponent, counted independently |
| `Differentiator.SecondDerivativeOfLinear` | Calculadora-Calc1-Streamlit.py:22-27 | differentiating twice a list with all exponents ≤ 1 gives [] |
| `Differentiator.EvalDerivative` | Calculadora-Calc1-Streamlit.py:22-30 | the derivative list evaluated at x equals the sum over non-constant terms of c·e·x^(e−1) |
| `Differentiator.DerivativeExample` | Calculadora-Calc1-Streamlit.py:22-30 | 3x^2 + 2x + 1 differentiates to [(6,1),(2,0)], which evaluates to 14 at x = 2 |
| `Formatter.IntToString` | Calculadora-Calc1-Streamlit.py:15 | Python's `str` of an int: non-empty, starts with '-' exactly when the number is negative, and all digits after that sign (it reads back as the number, by `IntToStringRoundTrip`) |
| `Formatter.NatToString` | Calculadora-Calc1-Streamlit.py:15-19 | decimal rendering is non-empty, all digits, with no leading zero except "0" itself |
| `Formatter.NatToStringValue` | Calculadora-Calc1-Streamlit.py:15-19 | the digits read back as the rendered number |
| `Formatter.IntToStringRoundTrip` | Calculadora-Calc1-Streamlit.py:15-19 | an integer's rendering (with a '-' sign when negative) reads back as the same integer |
| `Formatter.FormatPolynomial` | Calculadora-Calc1-Streamlit.py:9-20 | the loop's result is `Format(terms)`, and it contains no " + -" |
| `Formatter.RenderTerm` | Calculadora-Calc1-Streamlit.py:14-19 | the three rules chosen by the exponent: the rendering is non-empty, starts with '-' exactly when the coefficient is negative, contains 'x' exactly when the exponent is not 0, and contains '^' exactly when the exponent is at least 2 |
| `Formatter.RenderedTermsAppend` | Calculadora-Calc1-Streamlit.py:11-19 | the rendered list of a concatenation is the concatenation of the rendered lists |
| `Formatter.RenderedTermsShape` | Calculadora-Calc1-Streamlit.py:11-19 | the rendered list has one string per non-zero term, in list order, each by the exponent's rendering rule |
| `Formatter.RenderedTermsAllZero` | Calculadora-Calc1-Streamlit.py:10-13 | a list whose coefficients are all 0 renders no strings |
| `Formatter.RenderTermIsToken` | Calculadora-Calc1-Streamlit.py:14-19 | every rendered term is non-empty and has no space and no '+' |
| `Formatter.ReplaceJoin` | Calculadora-Calc1-Streamlit.py:20 | on such tokens, joining with " + " and then replacing " + -" gives: first token unchanged, then " - " and the token without its leading '-' for each later negative token, and " + " and the token for each other one |
| `Formatter.FormatIsSignedJoin` | Calculadora-Calc1-Streamlit.py:9-20 | the formatted text is that signed join of the rendered non-zero terms |
| `Formatter.FormatNoPlusMinus` | Calculadora-Calc1-Streamlit.py:20 | the final text contains no " + -" |
| `Formatter.FormatAllZero` | Calculadora-Calc1-Streamlit.py:10-20 | an empty list, or one whose coefficients are all 0, formats to "" |
| `Formatter.FormatSkipsZero` | Calculadora-Calc1-Streamlit.py:12-13 | inserting a term with coefficient 0 anywhere, with any exponent, does not change the text |
| `Formatter.FormatSingle` | Calculadora-Calc1-Streamlit.py:14-20 | a single non-zero term formats as its own rendering, with nothing rewritten |
| `Formatter.FormatConstant` | Calculadora-Calc1-Streamlit.py:14-15 | a single non-zero (c, 0) formats as the decimal of c; (1, 0) gives "1" |
| `Formatter.FormatUnitCoefficient` | Calculadora-Calc1-Streamlit.py:16-19 | a coefficient of exactly 1 is omitted: (1,1) gives "x" and (1,e) with e > 1 gives "x^e" |
| `Formatter.FormatMinusOneCoefficient` | Calculadora-Calc1-Streamlit.py:16-19 | −1 is not omitted: (−1,1) gives "-1x" and (−1,e) with e > 1 gives "-1x^e" |
| `Formatter.Join` | Calculadora-Calc1-Streamlit.py:20 | `' + '.join`: no parts give "", one part gives that part, and the text starts with the first part |
| `Formatter.ReplaceAll` | Calculadora-Calc1-Streamlit.py:20 | `.replace(' + -', ' - ')` as a left-to-right scan that rewrites every non-overlapping occurrence; a replacement no longer than the pattern never lengthens the text |
| `Formatter.JoinAppend` | Calculadora-Calc1-Streamlit.py:20 | joining k+1 parts is the join of the first k, a separator, and the last part |
| `Formatter.JoinLength` | Calculadora-Calc1-Streamlit.py:20 | joining k ≥ 1 parts adds exactly k−1 separators to their total length |
| `Formatter.FormatExampleLeadingMinus` | Calculadora-Calc1-Streamlit.py:9-20 | [(−2,1),(5,0)] formats as "-2x + 5" |
| `Formatter.FormatExampleRewritten` | Calculadora-Calc1-Streamlit.py:9-20 | [(1,2),(−4,0)] formats as "x^2 - 4" |
| `Formatter.FormatExampleDuplicates` | Calculadora-Calc1-Streamlit.py:9-20 | [(1,1),(1,1)] formats as "x + x": duplicates are not combined |
| `Formatter.FormatExampleZeroSkipped` | Calculadora-Calc1-Streamlit.py:9-20 | [(0,2),(3,1)] formats as "3x" |
| `RootFinder.NewtonRaphson` | Calculadora-Calc1-Streamlit.py:32-43 | the loop returns `Solve(terms, x0, tolerance, max(0, maxIterations))`; its body runs at most max(0, maxIterations) times; maxIterations ≤ 0 gives None; a returned root is the Newton step x − f(x)/f'(x) from the last iterate x, where f'(x) ≠ 0 and abs(root − x) < tolerance, and every earlier iterate went on; the defaults are tolerance 1e-7 and 100 passes |
| `RootFinder.IterateStep` | Calculadora-Calc1-Streamlit.py:39-42 | where the derivative is non-zero, the next iterate is x − f(x)/f'(x) |
| `RootFinder.SolveConstants` | Calculadora-Calc1-Streamlit.py:22-38 | when every term is constant, the derivative is 0 at every x, so with a budget ≥ 1 the solver returns None |
| `RootFinder.SolveNonPositiveTolerance` | Calculadora-Calc1-Streamlit.py:40-43 | with tolerance ≤ 0 the result is always None |
| `RootFinder.SolveAtRoot` | Calculadora-Calc1-Streamlit.py:34-41 | started at an exact root with f'(x0) ≠ 0, tolerance > 0 and budget ≥ 1, the result is x0 |
| `RootFinder.SolveResult` | Calculadora-Calc1-Streamlit.py:39-41 | a returned r equals x − f(x)/f'(x) for some iterate x within the budget where f'(x) ≠ 0 and abs(r − x) < tolerance, and every earlier iterate neither gave up nor converged |
| `RootFinder.SolveStopsAtZeroSlope` | Calculadora-Calc1-Streamlit.py:36-38 | if every iterate before k neither gave up nor converged and the derivative is exactly 0 at iterate k, the result is None, whatever budget remains |
| `RootFinder.SolveConvergesAt` | Calculadora-Calc1-Streamlit.py:33-42 | if the first short step is taken from iterate k < budget, that step is the result |
| `RootFinder.SolveExhausted` | Calculadora-Calc1-Streamlit.py:33-43 | if no step within the budget is short enough and no derivative is 0, the result is None |
| `RootFinder.SolveMoreFuel` | Calculadora-Calc1-Streamlit.py:33-43 | raising the iteration cap never changes a root already found |
| `DerivativeTable.CalcularDerivada` | Calculadora-Derivada-Streamlit.py:18-25 | the output length is min(len(multiplicadores), len(potencias)), as with `zip`; entry i is 0 when potencias[i] == 0 and multiplicadores[i]·potencias[i] otherwise, which equals the product in both cases |

## Left out

- Streamlit UI: widgets, tabs, buttons, checkboxes, `st.session_state` and the `try/except` display code in both files. These are user interface and interactive state.
- Plotting and tangent lines (matplotlib, numpy `linspace`) in both files. These are rendering and floating-point array code in foreign libraries.
- The nested `polinomio`, `derivada_polinomio` and `reta_tangente` in the second file. They are closures over UI globals, and their exponents are unconstrained floats, so `x**e` there is a general real power.
- IEEE floating point. Iterates, tolerance and evaluation are exact reals, so rounding, overflow and NaN are not modelled. The model makes no claim that Newton's method converges from a given start, such as x0 = 3 on x^2 − 4.
- Rendering of float coefficients (such as "2.0"). Coefficients are integers, as the derivative tab supplies them.
- An interval or multi-start root scan with duplicate removal. The code has none.
- `Formatter.ReplaceAll`: models `str.replace` only for a non-empty pattern. The formatter only ever passes " + -".
- `DerivativeTable.CalcularDerivada`: models `calcular_derivada` over exact reals, not Python floats.
