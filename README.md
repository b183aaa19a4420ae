# Linear-equation tutor core in Dafny

This project models the algebra core of a small tutoring app for
single-variable linear equations `a*x + b = c*x + d`. The core has two
parts:

- The **generator** (`generate_linear_equation_medium`) draws a target
  solution `x_sol` and a nonzero coefficient `a`. It then draws a
  coefficient `c` that is nonzero and differs from `a`, and a constant `b`.
  Each of the two coefficient draws is retried until it meets its
  constraint. Finally it derives `d = b - (c*x_sol - a*x_sol)`, so that
  `x_sol` solves the equation.
- The **step solver** (`solve_linear_equation_step_by_step`) lists the
  derivation in order:
  1. the original equation;
  2. if `c != 0`, a move of the x-term to the left and the resulting
     equation;
  3. if `b != 0`, a move of the constant to the right and the resulting
     equation;
  4. the isolation of `x`. This gives an identity, a contradiction, a direct
     solution when the coefficient is 1, or a division step followed by the
     exact fraction `d'/a'`.

Modules:

- `Rationals` (`rationals.dfy`): fractions with a positive denominator in
  lowest terms, built from Euclid's gcd. These are the values sympy's
  `Rational` holds after `current_d / current_a`.
- `LinearEquations` (`equations.dfy`): the equation `(a, b, c, d)` and
  exact satisfaction over the reals.
- `Generator` (`generator.dfy`): the generator as a method with its two
  retry loops. Each random draw is a parameter. Each retry loop walks the
  sequence of values the random source returns at that call site.
- `Solver` (`solver.dfy`): the steps as a datatype. The method `SolveSteps`
  appends them one at a time, as the source does. It is proved equal to the
  phase-by-phase specification `Trace`, and the lemmas about `Trace` state
  the solver's rules and what its outcome means.
- `RoundTrip` (`roundtrip.dfy`): whatever the generator produces, the
  solver ends with `x = x_sol`.

The code's retry loops are unbounded. In the model, a generator result of
`None` means only that the supplied draws ran out before a retry loop
accepted one. The solver raises no error of its own. For an equation with
`a = c`, the code fails in sympy before it reaches the identity and
contradiction branch; the model gives the outcome that branch states
(see "## Left out").

## Model

| member | source | states |
|---|---|---|
| `Generator.GenerateMedium` | app.py:8-31 | Stops each retry loop at the first draw that meets its constraint: `a` is the first nonzero draw, and `c` is the first draw that is nonzero and differs from `a`. `b` is the constant draw and `x_sol` the first draw. The result then has every coefficient in its range (`x_sol`, `a`, `c` in [-10,10], `b` in [-20,20]), has `a != 0`, `c != 0` and `c != a`, and is satisfied exactly by `x_sol`. The result is None only when the supplied draws run out. |
| `Generator.FirstAccepted` | app.py:15-21 | A retry loop stops at an index where the draw is accepted, and every earlier draw was rejected. The index is the number of draws when all of them are rejected. |
| `Generator.Redraw` | app.py:15-21 | One retry loop (`while a == 0` or `while c == 0 or c == a`) returns the index `FirstAccepted` names: the first draw outside the rejected set, or the number of draws when every draw is rejected. |
| `Generator.GeneratedSolutionUnique` | app.py:19-25 | For a generated problem, `x_sol` is the only number that solves the equation, because `c != a`. |
| `LinearEquations.SatisfiesInt` | app.py:23-25 | For an integer `x`, exact satisfaction is the integer identity `a*x + b == c*x + d`. |
| `LinearEquations.UniqueSolution` | app.py:20-25 | When the two x-coefficients differ, a solution is the only one. |
| `Rationals.NormalizeCorrect` | app.py:98 | The exact quotient `n/d` has a positive denominator and gcd 1 between numerator and denominator (lowest terms). It denotes `n/d` exactly: `num * d == n * den`. |
| `Rationals.NormalizeMultiple` | app.py:98 | Dividing an exact multiple `k*n` by `n` gives the whole number `k`, with denominator 1. |
| `Rationals.CofactorsCoprime` | app.py:98 | Dividing two numbers by their gcd leaves exact cofactors whose gcd is 1. |
| `Rationals.ValueOfCrossProduct` | app.py:98 | A fraction whose cross product with `n/d` agrees denotes the real number `n/d`. |
| `Solver.SolveSteps` | app.py:33-102 | The steps appended one by one while the current coefficient and constant are updated equal the phase-by-phase derivation `Trace(eq)`. |
| `Solver.SolveIsRepeatable` | app.py:33-40 | Two calls on the same equation give identical step lists, and each opens with the original equation. |
| `Solver.TraceShape` | app.py:40-100 | The first step is the original equation. The length is `1 + 2*[c != 0] + 2*[b != 0] + (1 if a-c is 0 or 1, else 2)`. |
| `Solver.XMoveRule` | app.py:63-71 | An x-move step appears iff `c != 0`. It says Subtract iff `c > 0`, moves `abs(c)`, and is followed by the equation `(a-c)*x + b = d`. |
| `Solver.ConstMoveRule` | app.py:76-84 | A constant-move step appears iff `b != 0`, right after phase 1. It says Subtract iff `b > 0`, moves `abs(b)`, and is followed by `(a-c)*x = d-b`. |
| `Solver.MoveXPreservesSolutions` | app.py:68-70 | Taking `c*x` off both sides leaves an equation with the same solutions. |
| `Solver.MoveConstPreservesSolutions` | app.py:81-83 | Taking `b` off both sides of `a'*x + b = d` leaves an equation with the same solutions. |
| `Solver.ResultsEquivalent` | app.py:66-84 | Every intermediate equation has no x-term on the right side and the same solutions as the original. |
| `Solver.MovesNotTerminal` | app.py:40-84 | No step before the isolation phase ends the derivation or divides. |
| `Solver.FinalOutcome` | app.py:88-100 | Exactly the last step ends the derivation. With `a' = a-c` and `d' = d-b`, the outcome is: Identity iff `a' = 0` and `d' = 0`; Contradiction (carrying `d'`) iff `a' = 0` and `d' != 0`; otherwise a Solution. A Divide-by-`a'` step appears iff `a'` is neither 0 nor 1, and then it comes just before the solution. The solution `q` is in lowest terms with `q*a' = d'` exactly. |
| `Solver.IsolatedValue` | app.py:93-100 | When `a' != 0`, the solution step holds `d'/a'` in lowest terms. The direct branch for `a' = 1` gives the value the division would give. |
| `Solver.CollectedUnique` | app.py:97-99 | `a'*x = d'` with `a' != 0` is solved by `d'/a'` and by nothing else. |
| `Solver.IsolateMeaning` | app.py:88-100 | On `a'*x = d'`, the isolation outcome is Identity iff every number solves the equation, and Contradiction iff none does. A Solution names the single number that solves it. |
| `Solver.OutcomeMeaning` | app.py:33-102 | The same holds for the original equation `a*x + b = c*x + d`: Identity iff every number solves it, Contradiction iff none does, and a Solution names its unique solution. |
| `Solver.WorkedExamples` | app.py:63-100 | Four derivations worked out in full: `2x+3=2x+3` gives an identity; `2x+3=2x+5` gives a contradiction carrying 2; `3x+1=8` skips the x-move and ends with 7/3; `x+5=5` ends with `x = 0` and no division. |
| `RoundTrip.GenerateThenSolve` | app.py:8-102 | For every generator output, the derivation never reaches Identity or Contradiction. It ends with `Solution(x_sol)` as a whole number and has `3 + 2*[b != 0] + (1 if a-c = 1 else 2)` steps. |

## Left out

- The Streamlit page (app.py:105-219): layout, buttons, the name prompt,
  session state, the reveal flag and the date caption. All of it is
  presentation.
- The host's check of the answer (app.py:186-210), which parses the last
  step's text with sympy and compares it to `x_sol`. `RoundTrip.GenerateThenSolve`
  states, on the step values, the fact that check relies on.
- Randomness: `random.randint` is not modelled. Its results are parameters,
  and the ranges it promises are preconditions of `Generator.GenerateMedium`.
- `Generator.GenerateMedium`: the source retries for as long as it takes. The
  model walks a finite sequence of supplied draws and returns None when it is
  used up.
- LaTeX rendering of steps and equations (`latex(...)`, the f-strings). Steps
  are datatype values that carry the numbers the text shows.
- Extracting coefficients from a sympy expression (`as_poly`,
  `coeff_monomial`, app.py:44-53). The solver starts from the integer
  coefficients `(a, b, c, d)`.
- Equations with `a = c`: sympy's `Eq` evaluates to `True` or `False` as
  soon as the difference of its two sides is a number. For every input with
  `a = c` that already happens when the equation is built (app.py:39), so
  reading `.lhs` raises `AttributeError` at app.py:39-40, before any step is
  appended. The identity and contradiction branch (app.py:88-92) is never
  reached as written. The model does not capture that crash: for `a = c` it
  gives the outcome app.py:88-92 states, as the members below do.
- `Solver.FinalOutcome`: its Identity and Contradiction cases (`a' = 0`)
  follow app.py:88-92 as intended, not the `AttributeError` the code raises
  for `a = c`.
- `Solver.IsolateMeaning`: the Identity and Contradiction cases follow the
  intended behaviour of app.py:88-92, as above.
- `Solver.OutcomeMeaning`: the Identity and Contradiction cases follow the
  intended behaviour of app.py:88-92, as above.
- `Solver.WorkedExamples`: the derivations of `2x+3=2x+3` and `2x+3=2x+5`
  show the intended outcome; the code raises `AttributeError` on both.
- `Solver.SolveSteps`: for `a = c` it returns the full intended derivation
  rather than failing at app.py:39-40.
