/** The problem generator: a target solution, a nonzero left coefficient,
    a right coefficient that is nonzero and differs from the left one, a
    left constant, and the right constant derived so that the target solves
    the equation. Each random draw is a parameter; each retry loop walks the
    successive values the random source returns at that call site. */
module Generator {
  import opened LinearEquations

  datatype Option<T> = None | Some(value: T)

  /** A generated equation together with the solution it was built for. */
  datatype Problem = Problem(eq: Equation, xSol: int)

  predicate InRange(v: int, bound: int) {
    -bound <= v <= bound
  }

  predicate AllInRange(draws: seq<int>, bound: int) {
    forall i :: 0 <= i < |draws| ==> InRange(draws[i], bound)
  }

  /** The index at which a retry loop stops: the first draw not in
      `rejected`, or |draws| when every supplied draw is rejected. */
  function FirstAccepted(draws: seq<int>, rejected: set<int>): (k: nat)
    ensures k <= |draws|
    ensures forall j :: 0 <= j < k ==> draws[j] in rejected
    ensures k < |draws| ==> draws[k] !in rejected
  {
    if draws == [] || draws[0] !in rejected then 0
    else 1 + FirstAccepted(draws[1..], rejected)
  }

  /** One retry loop: take a draw, and take the next one for as long as
      the current one is rejected. Returns the index of the accepted draw,
      or |draws| when the supplied draws run out first. */
  method Redraw(draws: seq<int>, rejected: set<int>) returns (k: nat)
    ensures k == FirstAccepted(draws, rejected)
  {
    if |draws| == 0 {
      return 0;
    }
    k := 0;
    var v := draws[0];
    while v in rejected
      invariant k < |draws| && v == draws[k]
      invariant forall j :: 0 <= j < k ==> draws[j] in rejected
      decreases |draws| - k
    {
      k := k + 1;
      if k == |draws| {
        return;
      }
      v := draws[k];
    }
  }

  /** What a generated problem guarantees: every coefficient in its range,
      no vanishing or cancelling x-term, and the recorded solution solves
      the equation exactly. */
  predicate ValidProblem(p: Problem) {
    InRange(p.xSol, 10) && InRange(p.eq.a, 10) && InRange(p.eq.c, 10) && InRange(p.eq.b, 20)
    && p.eq.a != 0 && p.eq.c != 0 && p.eq.c != p.eq.a
    && p.eq.a * p.xSol + p.eq.b == p.eq.c * p.xSol + p.eq.d
  }

  /** generate_linear_equation_medium. xDraw, aDraws, cDraws and bDraw are
      the values random.randint returns, in call order; their ranges are
      the ones the source asks randint for. The result is None only when a
      retry loop runs out of supplied draws. */
  method GenerateMedium(xDraw: int, aDraws: seq<int>, cDraws: seq<int>, bDraw: int)
    returns (r: Option<Problem>)
    requires InRange(xDraw, 10) && AllInRange(aDraws, 10) && AllInRange(cDraws, 10) && InRange(bDraw, 20)
    ensures r.Some? <==>
      (FirstAccepted(aDraws, {0}) < |aDraws|
       && FirstAccepted(cDraws, {0, aDraws[FirstAccepted(aDraws, {0})]}) < |cDraws|)
    ensures r.Some? ==>
      (r.value.xSol == xDraw && r.value.eq.b == bDraw
       && r.value.eq.a == aDraws[FirstAccepted(aDraws, {0})]
       && r.value.eq.c == cDraws[FirstAccepted(cDraws, {0, r.value.eq.a})])
    ensures r.Some? ==> ValidProblem(r.value)
  {
    var xSol := xDraw;

    var ia := Redraw(aDraws, {0});
    if ia == |aDraws| {
      return None;
    }
    var a := aDraws[ia];

    var ic := Redraw(cDraws, {0, a});
    if ic == |cDraws| {
      return None;
    }
    var c := cDraws[ic];

    var diffBD := c * xSol - a * xSol;
    var b := bDraw;
    var d := b - diffBD;
    r := Some(Problem(Equation(a, b, c, d), xSol));
  }

  /** The recorded solution is the equation's only solution. */
  lemma GeneratedSolutionUnique(p: Problem)
    requires ValidProblem(p)
    ensures forall y :: Satisfies(p.eq, y) <==> y == p.xSol as real
  {
    SatisfiesInt(p.eq, p.xSol);
    UniqueSolution(p.eq, p.xSol as real);
  }
}
