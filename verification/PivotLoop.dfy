/** The pivot loop shared by both simplex phases, in exact arithmetic. */
module PivotLoop {
  import opened Wrappers
  import opened Finite
  import opened LinearAlgebra
  import opened Tableaux
  import opened Simplex
  import opened BlandRule

  method FindEntering(tableau: array<Vector>, rows: nat, width: nat) returns (entering: Option<nat>)
    requires rows < tableau.Length && width <= |tableau[rows]|
    ensures entering == None ==> forall j :: 0 <= j < width ==> tableau[rows][j] >= 0.0
    ensures entering.Some? ==> entering.value < width && tableau[rows][entering.value] < 0.0
    ensures entering.Some? ==> forall j :: 0 <= j < entering.value ==> tableau[rows][j] >= 0.0
  {
    for column := 0 to width
      invariant forall j :: 0 <= j < column ==> tableau[rows][j] >= 0.0
    {
      if tableau[rows][column] < 0.0 { return Some(column); }
    }
    return None;
  }

  /** The iterations so far lead to the current tableau. */
  ghost predicate LeadsTo(start: Rows, m: nat, w: nat, costs: Vector, run: seq<Iteration>, t: Rows, basis: seq<nat>) {
    && IsRun(start, m, w, costs, run)
    && (run != [] ==> Produces(m, w, run[|run| - 1], t, basis))
  }

  lemma {:induction false} RunExtends(start: Rows, m: nat, w: nat, costs: Vector, run: seq<Iteration>, s: Iteration)
    requires LeadsTo(start, m, w, costs, run, s.t, s.basis) && Chosen(start, m, w, costs, s)
    ensures IsRun(start, m, w, costs, run + [s]) && |run| + 1 <= Choices(w, m)
  {
    var longer := run + [s];
    assert IsRun(start, m, w, costs, longer) by {
      forall k | 0 <= k < |run| ensures Produces(m, w, longer[k], longer[k + 1].t, longer[k + 1].basis) {
        if k + 1 < |run| { assert Produces(m, w, run[k], run[k + 1].t, run[k + 1].basis); }
      }
    }
    RunIsShort(start, m, w, costs, longer);
  }

  /** Pivots until no reduced cost is negative, the cost proves unbounded, or the shared budget is spent.
      A budget of one pivot per basis is never spent. */
  method RunSimplex(tableau: array<Vector>, basis: array<nat>, rows: nat, width: nat, maximumIterations: nat,
                    iterations: nat, ghost start: Rows, ghost costs: Vector)
      returns (r: Result<(), GeneralLinearError>, performed: nat)
    requires basis.Length == rows && PhaseState(start, tableau[..], basis[..], rows, width, costs)
    requires iterations <= maximumIterations
    modifies tableau, basis
    ensures PhaseState(start, tableau[..], basis[..], rows, width, costs)
    ensures iterations <= performed <= maximumIterations && performed <= iterations + Choices(width, rows)
    ensures r.Ok? ==> ReducedCostsNonNegative(tableau[..], rows, width)
    ensures r.Err? ==> r.error == Unbounded || r.error == IterationLimitExceeded(maximumIterations)
    ensures r == Err(Unbounded) ==> UnboundedCost(start, rows, width, costs)
    ensures r == Err(IterationLimitExceeded(maximumIterations)) ==>
              performed == maximumIterations && maximumIterations < iterations + Choices(width, rows)
  {
    performed := iterations;
    ghost var run: seq<Iteration> := [];
    while true
      invariant PhaseState(start, tableau[..], basis[..], rows, width, costs)
      invariant iterations <= performed <= maximumIterations && performed == iterations + |run| <= iterations + Choices(width, rows)
      invariant LeadsTo(start, rows, width, costs, run, tableau[..], basis[..])
      decreases maximumIterations - performed
    {
      var entering := FindEntering(tableau, rows, width);
      if entering == None { return Ok(()), performed; }
      var leaving := ChooseLeavingRow(tableau, basis, rows, width, entering.value, rows, width);
      if leaving == None {
        RayIsUnbounded(tableau[..], basis[..], rows, width, costs, entering.value);
        SameUnboundedCost(start, tableau[..], rows, width, costs);
        return Err(Unbounded), performed;
      }
      ghost var s := Iteration(tableau[..], basis[..], entering.value, leaving.value);
      RunExtends(start, rows, width, costs, run, s);
      if performed >= maximumIterations { return Err(IterationLimitExceeded(performed)), performed; }
      PivotKeepsPhase(start, tableau[..], basis[..], rows, width, costs, leaving.value, entering.value);
      var pivoted := Pivot(tableau, rows, width, leaving.value, entering.value);
      basis[leaving.value] := entering.value;
      assert basis[..] == s.basis[leaving.value := entering.value];
      run := run + [s];
      performed := performed + 1;
    }
  }

  lemma SameUnboundedCost(t: Rows, u: Rows, m: nat, w: nat, costs: Vector)
    requires Shape(t, m, w) && Shape(u, m, w) && SameSolutions(t, u, m, w) && |costs| == w
    requires UnboundedCost(u, m, w, costs)
    ensures UnboundedCost(t, m, w, costs)
  {
    forall bound: real ensures CostExceeds(t, m, w, costs, bound) {
      assert CostExceeds(u, m, w, costs, bound);
      var x :| FeasibleFor(u, m, w, x) && Dot(costs, x) > bound;
      assert FeasibleFor(t, m, w, x);
    }
  }
}
