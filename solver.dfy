/** The step solver: starting from the integer coefficients of
    a*x + b = c*x + d it records, in order, the original equation, the move
    of the x-term to the left, the move of the constant to the right, and
    the isolation of x. Steps are values; their LaTeX rendering is not
    modelled. */
module Solver {
  import opened Rationals
  import opened LinearEquations

  /** The verb of a move step: "Subtract" or "Add". */
  datatype Op = Subtract | Add

  datatype Step =
    | Original(eq: Equation)           // "Original Equation: ..."
    | MoveX(op: Op, amount: nat)       // "Move x-terms to LHS: <op> <amount>x from both sides."
    | MoveConst(op: Op, amount: nat)   // "Move constant terms to RHS: <op> <amount> from both sides."
    | Result(eq: Equation)             // "Result: ..." (the right side has no x-term)
    | Identity                         // "0 = 0 ... infinitely many solutions"
    | Contradiction(rhs: int)          // "0 = rhs ... no solutions"
    | Divide(divisor: int)             // "Isolate x: Divide both sides by <divisor>."
    | Solution(value: Rat)             // "Solution: x = <value>"
  {
    /** A step that ends the derivation. */
    predicate Terminal() {
      Identity? || Contradiction? || Solution?
    }
  }

  /** Two equations with the same solutions. */
  ghost predicate Equivalent(e1: Equation, e2: Equation) {
    forall x :: Satisfies(e1, x) <==> Satisfies(e2, x)
  }

  /** The verb for moving a term whose coefficient is v across the sign. */
  function MoveOp(v: int): Op {
    if v > 0 then Subtract else Add
  }

  /** Phase 1: move c*x to the left side, only when c != 0. */
  function CollectX(eq: Equation): seq<Step> {
    if eq.c != 0 then [MoveX(MoveOp(eq.c), Abs(eq.c)), Result(Equation(eq.a - eq.c, eq.b, 0, eq.d))]
    else []
  }

  /** Phase 2: with a' the coefficient left by phase 1, move b to the right
      side, only when b != 0. */
  function CollectConst(a': int, b: int, d: int): seq<Step> {
    if b != 0 then [MoveConst(MoveOp(b), Abs(b)), Result(Equation(a', 0, 0, d - b))]
    else []
  }

  /** Phase 3: isolate x in a'*x = d'. */
  function Isolate(a': int, d': int): seq<Step> {
    if a' == 0 then
      if d' == 0 then [Identity] else [Contradiction(d')]
    else if a' == 1 then [Solution(FromInt(d'))]
    else [Divide(a'), Solution(Normalize(d', a'))]
  }

  /** The steps before phase 3: the original equation and the two moves. */
  function Moves(eq: Equation): seq<Step> {
    [Original(eq)] + CollectX(eq) + CollectConst(eq.a - eq.c, eq.b, eq.d)
  }

  /** The whole derivation, phase by phase. */
  function Trace(eq: Equation): seq<Step> {
    Moves(eq) + Isolate(eq.a - eq.c, eq.d - eq.b)
  }

  /** solve_linear_equation_step_by_step: appends the steps one by one while
      updating the current coefficient and constant. */
  method SolveSteps(eq: Equation) returns (steps: seq<Step>)
    ensures steps == Trace(eq)
  {
    steps := [Original(eq)];
    var currentA, currentB, currentD := eq.a, eq.b, eq.d;

    if eq.c != 0 {
      var op := MoveOp(eq.c);
      steps := steps + [MoveX(op, Abs(eq.c))];
      currentA := eq.a - eq.c;
      steps := steps + [Result(Equation(currentA, currentB, 0, currentD))];
    }
    assert steps == [Original(eq)] + CollectX(eq);
    assert currentA == eq.a - eq.c;
    ghost var afterX := steps;

    if currentB != 0 {
      var op := MoveOp(currentB);
      steps := steps + [MoveConst(op, Abs(currentB))];
      currentD := currentD - currentB;
      steps := steps + [Result(Equation(currentA, 0, 0, currentD))];
    }
    assert steps == afterX + CollectConst(eq.a - eq.c, eq.b, eq.d);
    assert currentD == eq.d - eq.b;
    ghost var afterConst := steps;

    if currentA == 0 {
      if currentD == 0 {
        steps := steps + [Identity];
      } else {
        steps := steps + [Contradiction(currentD)];
      }
    } else if currentA == 1 {
      steps := steps + [Solution(FromInt(currentD))];
    } else {
      steps := steps + [Divide(currentA)];
      var solutionVal := Normalize(currentD, currentA);
      steps := steps + [Solution(solutionVal)];
    }
    assert afterConst == Moves(eq);
    assert steps == afterConst + Isolate(currentA, currentD);
  }

  /** The solver depends on the coefficients alone: two calls on the same
      equation give the same steps. */
  method SolveIsRepeatable(eq: Equation) returns (first: seq<Step>, second: seq<Step>)
    ensures first == second && |first| > 0 && first[0] == Original(eq)
  {
    first := SolveSteps(eq);
    second := SolveSteps(eq);
  }

  /** The derivation opens with the original equation, and its length is
      1 + 2 per move phase that fires + 1 or 2 for isolating x. */
  lemma TraceShape(eq: Equation)
    ensures |Trace(eq)| == 1 + (if eq.c != 0 then 2 else 0) + (if eq.b != 0 then 2 else 0)
      + (if eq.a - eq.c == 0 || eq.a - eq.c == 1 then 1 else 2)
    ensures Trace(eq)[0] == Original(eq)
  {
  }

  /** Phase 1: an x-move appears iff c != 0; it subtracts iff c > 0, moves
      |c|*x, and is followed by the equation (a - c)*x + b = d. */
  lemma XMoveRule(eq: Equation)
    ensures var t := Trace(eq);
      (exists i :: 0 <= i < |t| && t[i].MoveX?) <==> eq.c != 0
    ensures var t := Trace(eq);
      eq.c != 0 ==>
        |t| > 2 && t[1].MoveX? && (t[1].op == Subtract <==> eq.c > 0) && t[1].amount == Abs(eq.c)
        && t[2] == Result(Equation(eq.a - eq.c, eq.b, 0, eq.d))
  {
    var t := Trace(eq);
    if eq.c != 0 {
      assert t[1].MoveX?;
    } else {
      forall i | 0 <= i < |t|
        ensures !t[i].MoveX?
      {
      }
    }
  }

  /** Phase 2: a constant move appears iff b != 0; it subtracts iff b > 0,
      moves |b|, and is followed by (a - c)*x = d - b. It comes right after
      phase 1's two steps, or right after the original equation. */
  lemma ConstMoveRule(eq: Equation)
    ensures var t := Trace(eq);
      (exists i :: 0 <= i < |t| && t[i].MoveConst?) <==> eq.b != 0
    ensures var t := Trace(eq); var k := if eq.c != 0 then 3 else 1;
      eq.b != 0 ==>
        |t| > k + 1 && t[k].MoveConst? && (t[k].op == Subtract <==> eq.b > 0) && t[k].amount == Abs(eq.b)
        && t[k + 1] == Result(Equation(eq.a - eq.c, 0, 0, eq.d - eq.b))
  {
    var t := Trace(eq);
    var k := if eq.c != 0 then 3 else 1;
    if eq.b != 0 {
      assert t[k].MoveConst?;
    } else {
      forall i | 0 <= i < |t|
        ensures !t[i].MoveConst?
      {
      }
    }
  }

  /** Subtracting c*x from both sides keeps the solutions. */
  lemma MoveXPreservesSolutions(eq: Equation)
    ensures Equivalent(Equation(eq.a - eq.c, eq.b, 0, eq.d), eq)
  {
    var e1 := Equation(eq.a - eq.c, eq.b, 0, eq.d);
    forall x ensures Satisfies(e1, x) <==> Satisfies(eq, x) {
      assert (eq.a - eq.c) as real * x == eq.a as real * x - eq.c as real * x;
    }
  }

  /** Subtracting b from both sides of a'*x + b = d keeps the solutions. */
  lemma MoveConstPreservesSolutions(e: Equation)
    requires e.c == 0
    ensures Equivalent(Equation(e.a, 0, 0, e.d - e.b), e)
  {
  }

  /** Every intermediate equation has the same solutions as the original,
      and no x-term on its right side. */
  lemma ResultsEquivalent(eq: Equation)
    ensures forall i :: 0 <= i < |Trace(eq)| && Trace(eq)[i].Result? ==>
      Trace(eq)[i].eq.c == 0 && Equivalent(Trace(eq)[i].eq, eq)
  {
    var t := Trace(eq);
    var e1 := Equation(eq.a - eq.c, eq.b, 0, eq.d);
    var e2 := Equation(eq.a - eq.c, 0, 0, eq.d - eq.b);
    MoveXPreservesSolutions(eq);
    MoveConstPreservesSolutions(e1);
    assert Equivalent(e2, eq);
    forall i | 0 <= i < |t| && t[i].Result?
      ensures t[i].eq == e1 || t[i].eq == e2
    {
    }
  }

  /** No step before phase 3 ends the derivation or divides. */
  lemma MovesNotTerminal(eq: Equation)
    ensures forall i :: 0 <= i < |Moves(eq)| ==> !Moves(eq)[i].Terminal() && !Moves(eq)[i].Divide?
  {
  }

  /** Phase 3 ends the derivation with exactly one outcome, decided by
      a' = a - c and d' = d - b: identity, contradiction carrying d', a
      direct solution d' when a' = 1, or a division by a' followed by the
      solution d'/a' in lowest terms. Only the last step is terminal. */
  lemma FinalOutcome(eq: Equation)
    ensures var t := Trace(eq); var a' := eq.a - eq.c; var d' := eq.d - eq.b;
      t[|t| - 1].Terminal()
      && (forall i :: 0 <= i < |t| - 1 ==> !t[i].Terminal())
      && (t[|t| - 1] == Identity <==> a' == 0 && d' == 0)
      && (t[|t| - 1].Contradiction? <==> a' == 0 && d' != 0)
      && (t[|t| - 1].Contradiction? ==> t[|t| - 1].rhs == d')
      && (t[|t| - 1].Solution? <==> a' != 0)
      && (exists i :: 0 <= i < |t| && t[i].Divide?) == (a' != 0 && a' != 1)
      && (a' != 0 && a' != 1 ==> t[|t| - 2] == Divide(a'))
      && (a' != 0 ==>
            Reduced(t[|t| - 1].value)
            && t[|t| - 1].value.num * a' == d' * t[|t| - 1].value.den
            && t[|t| - 1].value == Normalize(d', a'))
  {
    var t := Trace(eq);
    var a', d' := eq.a - eq.c, eq.d - eq.b;
    MovesNotTerminal(eq);
    if a' != 0 {
      IsolatedValue(a', d');
      NormalizeCorrect(d', a');
      if a' != 1 {
        assert t[|t| - 2] == Divide(a');
      }
    }
  }

  /** With a' != 0, the solution step of phase 3 holds d'/a' in lowest
      terms, whichever branch produced it. */
  lemma IsolatedValue(a': int, d': int)
    requires a' != 0
    ensures var last := Isolate(a', d')[|Isolate(a', d')| - 1];
      last.Solution? && last.value == Normalize(d', a')
      && last.value.den != 0 && Value(last.value) == d' as real / a' as real
  {
    if a' == 1 {
      NormalizeMultiple(d', 1);
    }
    NormalizeCorrect(d', a');
    ValueOfCrossProduct(Normalize(d', a'), d', a');
  }

  /** a'*x = d' with a' != 0 has exactly one solution, d'/a'. */
  lemma CollectedUnique(e: Equation)
    requires e.b == 0 && e.c == 0 && e.a != 0
    ensures forall x :: Satisfies(e, x) <==> x == e.d as real / e.a as real
  {
    var v := e.d as real / e.a as real;
    assert e.a as real * v == e.d as real;
    forall x | Satisfies(e, x)
      ensures x == v
    {
      assert e.a as real * x == e.a as real * v;
    }
  }

  /** The last step of phase 3 on a'*x = d' says what the solutions of
      a'*x = d' are: every number, none, or exactly the value it names. */
  lemma IsolateMeaning(e: Equation)
    requires e.b == 0 && e.c == 0
    ensures var last := Isolate(e.a, e.d)[|Isolate(e.a, e.d)| - 1];
      (last == Identity <==> forall x :: Satisfies(e, x))
      && (last.Contradiction? <==> forall x :: !Satisfies(e, x))
      && (last.Solution? ==> last.value.den != 0 && forall x :: Satisfies(e, x) <==> x == Value(last.value))
  {
    if e.a == 0 {
      assert Satisfies(e, 0.0) <==> e.d == 0;
    } else {
      IsolatedValue(e.a, e.d);
      CollectedUnique(e);
      assert Satisfies(e, e.d as real / e.a as real);
      assert !Satisfies(e, e.d as real / e.a as real + 1.0);
    }
  }

  /** What the outcome means for the original equation: identity iff every
      number solves it, contradiction iff none does, and a solution step
      names the one number that solves it. */
  lemma OutcomeMeaning(eq: Equation)
    ensures var last := Trace(eq)[|Trace(eq)| - 1];
      (last == Identity <==> forall x :: Satisfies(eq, x))
      && (last.Contradiction? <==> forall x :: !Satisfies(eq, x))
      && (last.Solution? ==> last.value.den != 0 && forall x :: Satisfies(eq, x) <==> x == Value(last.value))
  {
    var e1 := Equation(eq.a - eq.c, eq.b, 0, eq.d);
    var e2 := Equation(eq.a - eq.c, 0, 0, eq.d - eq.b);
    MoveXPreservesSolutions(eq);
    MoveConstPreservesSolutions(e1);
    assert Equivalent(e2, eq);
    IsolateMeaning(e2);
    var iso := Isolate(e2.a, e2.d);
    assert Trace(eq)[|Trace(eq)| - 1] == iso[|iso| - 1];
  }

  /** Four derivations worked out in full: an identity, a contradiction
      that reports 2, an exact fraction 7/3 after the x-move is skipped, and
      a coefficient of 1 that needs no division. */
  lemma WorkedExamples()
    ensures Trace(Equation(2, 3, 2, 3))[|Trace(Equation(2, 3, 2, 3))| - 1] == Identity
    ensures Trace(Equation(2, 3, 2, 5))[|Trace(Equation(2, 3, 2, 5))| - 1] == Contradiction(2)
    ensures Trace(Equation(3, 1, 0, 8)) ==
      [Original(Equation(3, 1, 0, 8)), MoveConst(Subtract, 1), Result(Equation(3, 0, 0, 7)),
       Divide(3), Solution(Rat(7, 3))]
    ensures Trace(Equation(1, 5, 0, 5)) ==
      [Original(Equation(1, 5, 0, 5)), MoveConst(Subtract, 5), Result(Equation(1, 0, 0, 0)),
       Solution(Rat(0, 1))]
  {
    assert Gcd(7, 3) == 1 by {
      assert Gcd(7, 3) == Gcd(3, 1) == Gcd(1, 0);
    }
  }
}
