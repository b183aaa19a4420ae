/** A linear equation a*x + b = c*x + d with integer coefficients, and what
    it means for a number to solve it. */
module LinearEquations {

  datatype Equation = Equation(a: int, b: int, c: int, d: int)

  /** x makes both sides equal, in exact arithmetic. */
  predicate Satisfies(eq: Equation, x: real) {
    eq.a as real * x + eq.b as real == eq.c as real * x + eq.d as real
  }

  /** For an integer x, satisfaction is the integer identity a*x + b == c*x + d. */
  lemma SatisfiesInt(eq: Equation, x: int)
    ensures Satisfies(eq, x as real) <==> eq.a * x + eq.b == eq.c * x + eq.d
  {
    assert (eq.a * x) as real == eq.a as real * x as real;
    assert (eq.c * x) as real == eq.c as real * x as real;
  }

  /** When the x-coefficients differ, a solution is the only one. */
  lemma UniqueSolution(eq: Equation, x: real)
    requires eq.a != eq.c && Satisfies(eq, x)
    ensures forall y :: Satisfies(eq, y) <==> y == x
  {
    var k := eq.a as real - eq.c as real;
    assert k != 0.0;
    forall y | Satisfies(eq, y)
      ensures y == x
    {
      assert k * y == k * x;
    }
  }
}
