/** What the two components promise together: a generated equation is
    solved by the step solver back to exactly the recorded solution. */
module RoundTrip {
  import opened Rationals
  import opened LinearEquations
  import opened Generator
  import opened Solver

  /** For every generator output the derivation never reaches the identity
      or contradiction outcome (a - c != 0), ends with x = xSol as a whole
      number, and has 1 + 2 + 2*[b != 0] + (1 if a - c == 1 else 2) steps. */
  lemma GenerateThenSolve(p: Problem)
    requires ValidProblem(p)
    ensures var t := Trace(p.eq);
      t[|t| - 1] == Solution(FromInt(p.xSol))
      && (forall i :: 0 <= i < |t| ==> !t[i].Identity? && !t[i].Contradiction?)
      && |t| == 3 + (if p.eq.b != 0 then 2 else 0) + (if p.eq.a - p.eq.c == 1 then 1 else 2)
  {
    var eq := p.eq;
    var a', d' := eq.a - eq.c, eq.d - eq.b;
    assert d' == p.xSol * a';
    IsolatedValue(a', d');
    NormalizeMultiple(p.xSol, a');
    MovesNotTerminal(eq);
    var t, iso := Trace(eq), Isolate(a', d');
    assert t == Moves(eq) + iso;
    assert t[|t| - 1] == iso[|iso| - 1];
    assert forall i :: 0 <= i < |iso| ==> !iso[i].Identity? && !iso[i].Contradiction?;
  }
}
