/** The two-phase simplex method for general linear programs, in exact arithmetic. */
module TwoPhaseSimplex {
  import opened Wrappers
  import opened Finite
  import opened LinearAlgebra
  import opened Tableaux
  import opened Simplex
  import opened PivotLoop
  import opened GeneralPrograms
  import opened PhaseSetup
  import opened PhaseTransition

  datatype GeneralLinearSolution = GeneralLinearSolution(
    values: Vector, objectiveValue: real, phaseOneArtificialSum: real, iterations: nat,
    basis: seq<nat>, maximumPrimalViolation: real)

  // ---- Phase one ----

  ghost predicate PhaseOneDone(n: seq<GeneralLinearConstraint>, d: nat, start: Rows, t: Rows, basis: seq<nat>,
                               flags: seq<bool>, redundant: seq<bool>, costs: Vector) {
    var (m, w) := (|n|, Start(n, d, |n|));
    && InitialRows(n, d, start) && ArtificialFlags(n, d, m, flags) && d <= w
    && PhaseState(start, t, basis, m, w, costs)
    && ArtificialBasicsZero(t, basis, flags, m, w) && Settled(t, basis, flags, redundant, m, w, m)
  }

  ghost predicate NoFeasiblePoint(n: seq<GeneralLinearConstraint>, d: nat) {
    forall x :: !FeasiblePoint(n, d, x)
  }

  /** Phase one cannot be unbounded: its costs never exceed zero. */
  lemma PhaseOneIsBounded(start: Rows, m: nat, w: nat, flags: seq<bool>, costs: Vector)
    requires Shape(start, m, w) && |flags| == w && PhaseOneCosts(flags, costs)
    ensures !UnboundedCost(start, m, w, costs)
  {
    if UnboundedCost(start, m, w, costs) {
      assert CostExceeds(start, m, w, costs, 0.0);
      var x :| FeasibleFor(start, m, w, x) && Dot(costs, x) > 0.0;
      PhaseOneCostSign(flags, costs, x);
    }
  }

  /** At the phase-one optimum the objective decides feasibility and empties the artificial basics. */
  lemma PhaseOneOptimum(n: seq<GeneralLinearConstraint>, d: nat, start: Rows, t: Rows, basis: seq<nat>, flags: seq<bool>, costs: Vector)
    requires InitialRows(n, d, start) && ArtificialFlags(n, d, |n|, flags) && PhaseOneCosts(flags, costs)
    requires PhaseState(start, t, basis, |n|, Start(n, d, |n|), costs)
    requires ReducedCostsNonNegative(t, |n|, Start(n, d, |n|))
    ensures t[|n|][Start(n, d, |n|)] <= 0.0
    ensures t[|n|][Start(n, d, |n|)] < 0.0 ==> NoFeasiblePoint(n, d)
    ensures t[|n|][Start(n, d, |n|)] == 0.0 ==> ArtificialBasicsZero(t, basis, flags, |n|, Start(n, d, |n|))
  {
    var m, w := |n|, Start(n, d, |n|);
    var y := CurrentPointExists(t, basis, m, w);
    CurrentPointIsFeasible(t, basis, m, w, costs, y);
    PhaseOneCostSign(flags, costs, y);
    forall x | t[m][w] < 0.0 ensures !FeasiblePoint(n, d, x) {
      if FeasiblePoint(n, d, x) {
        FeasibleExtends(n, d, start, flags, x);
        NoBetterPoint(t, m, w, costs, Extended(n, x, m));
        PhaseOneCostSign(flags, costs, Extended(n, x, m));
      }
    }
  }

  method BuildPhaseOneCosts(artificial: array<bool>) returns (costs: Vector)
    ensures PhaseOneCosts(artificial[..], costs)
  {
    costs := seq(artificial.Length, _ => 0.0);
    for column := 0 to artificial.Length
      invariant |costs| == artificial.Length
      invariant forall j :: 0 <= j < |costs| ==> costs[j] == if j < column && artificial[j] then -1.0 else 0.0
    {
      if artificial[column] { costs := costs[column := -1.0]; }
    }
  }

  /** Everything up to the entry into phase two. */
  method PhaseOne(n: seq<GeneralLinearConstraint>, d: nat, maximumIterations: nat)
      returns (r: Result<array<bool>, GeneralLinearError>, tableau: array<Vector>, basis: array<nat>, artificial: array<bool>,
               totalWidth: nat, artificialSum: real, iterations: nat, ghost start: Rows, ghost costs: Vector)
    requires Widths(n, d) && forall i :: 0 <= i < |n| ==> n[i].rhs >= 0.0
    ensures fresh(tableau) && fresh(basis) && fresh(artificial)
    ensures tableau.Length == |n| + 1 && basis.Length == |n| && artificial.Length == totalWidth == Start(n, d, |n|)
    ensures iterations <= maximumIterations
    ensures r.Ok? ==> artificialSum == 0.0 && fresh(r.value)
    ensures r.Ok? ==> PhaseOneDone(n, d, start, tableau[..], basis[..], artificial[..], r.value[..], costs)
    ensures r.Err? ==> r.error == Infeasible || r.error == IterationLimitExceeded(maximumIterations)
    ensures r == Err(Infeasible) ==> NoFeasiblePoint(n, d)
    ensures iterations <= Choices(totalWidth, |n|)
    ensures r == Err(IterationLimitExceeded(maximumIterations)) ==> maximumIterations < Choices(totalWidth, |n|)
  {
    var rows := |n|;
    tableau, basis, artificial, totalWidth := BuildTableau(n, d);
    FirstBasis(n, d, tableau[..], basis[..]);
    var phaseOneCosts := BuildPhaseOneCosts(artificial);
    costs := phaseOneCosts;
    ghost var built := tableau[..];
    InitializeObjectiveRow(tableau, basis, phaseOneCosts, rows, totalWidth);
    start := tableau[..];
    FirstRowsUnchanged(built, start, basis[..], rows, totalWidth);
    artificialSum := 0.0;
    var outcome;
    outcome, iterations := RunSimplex(tableau, basis, rows, totalWidth, maximumIterations, 0, start, costs);
    PhaseOneIsBounded(start, rows, totalWidth, artificial[..], costs);
    if outcome.Err? {
      return Err(outcome.error), tableau, basis, artificial, totalWidth, artificialSum, iterations, start, costs;
    }
    PhaseOneOptimum(n, d, start, tableau[..], basis[..], artificial[..], costs);
    var phaseOneObjective := tableau[rows][totalWidth];
    artificialSum := if -phaseOneObjective > 0.0 then -phaseOneObjective else 0.0;
    if artificialSum > 0.0 {
      return Err(Infeasible), tableau, basis, artificial, totalWidth, artificialSum, iterations, start, costs;
    }
    StartsIncrease(n, d, 0, rows);
    r := RemoveArtificialBasics(tableau, basis, artificial, rows, totalWidth, totalWidth, start, costs);
  }

  // ---- Phase two ----

  ghost predicate Lifts(u: Rows, m: nat, w: nat, d: nat, x: Vector)
    requires Shape(u, m, w) && d <= w
  {
    exists z :: FeasibleFor(u, m, w, z) && z[..d] == x
  }

  /** The feasible points of the tableau `u` are, on the first `d` columns, the feasible points of the program. */
  ghost predicate Describes(n: seq<GeneralLinearConstraint>, d: nat, u: Rows, m: nat, w: nat) {
    && Shape(u, m, w) && d <= w
    && (forall z :: FeasibleFor(u, m, w, z) ==> FeasiblePoint(n, d, z[..d]))
    && (forall x :: FeasiblePoint(n, d, x) ==> Lifts(u, m, w, d, x))
  }

  lemma LeadingColumnsKept(n: seq<GeneralLinearConstraint>, d: nat, flags: seq<bool>)
    requires ArtificialFlags(n, d, |n|, flags)
    ensures d <= |flags| && d <= |Kept(flags, |flags|)|
    ensures forall j :: 0 <= j < d ==> !flags[j] && Kept(flags, |flags|)[j] == j
    ensures forall k :: d <= k < |Kept(flags, |flags|)| ==> Kept(flags, |flags|)[k] >= d
  {
    StartsIncrease(n, d, 0, |n|);
    forall j | 0 <= j < d ensures !flags[j] {
      DecisionsAreNotArtificial(n, d, flags, j);
    }
    KeptLeading(flags, d, |flags|);
  }

  lemma CompressedDescribes(n: seq<GeneralLinearConstraint>, d: nat, start: Rows, t: Rows, basis: seq<nat>,
                            flags: seq<bool>, redundant: seq<bool>, costs: Vector, u: Rows, after: seq<nat>)
    requires PhaseOneDone(n, d, start, t, basis, flags, redundant, costs)
    requires Compressed(t, basis, flags, redundant, |n|, Start(n, d, |n|), u, after)
    ensures Describes(n, d, u, |Kept(redundant, |n|)|, |Kept(flags, |flags|)|)
  {
    var m, w := |n|, Start(n, d, |n|);
    var m2, w2 := |Kept(redundant, m)|, |Kept(flags, w)|;
    LeadingColumnsKept(n, d, flags);
    forall z | FeasibleFor(u, m2, w2, z) ensures FeasiblePoint(n, d, z[..d]) {
      var y := Scattered(z, flags);
      ScatterGather(flags, y, z);
      CompressedSolutions(t, basis, flags, redundant, m, w, u, after, y);
      assert FeasibleFor(start, m, w, y);
      SolutionRestricts(n, d, start, flags, y);
      assert y[..d] == z[..d] by { assert z == Gathered(y, flags); }
    }
    forall x | FeasiblePoint(n, d, x) ensures Lifts(u, m2, w2, d, x) {
      var y := Extended(n, x, m);
      FeasibleExtends(n, d, start, flags, x);
      assert FeasibleFor(t, m, w, y);
      CompressedSolutions(t, basis, flags, redundant, m, w, u, after, y);
      var z := Gathered(y, flags);
      assert z[..d] == y[..d];
    }
  }

  /** Costs on the decision columns, zero elsewhere. */
  ghost predicate DecisionCosts(objective: Vector, w: nat, costs: Vector) {
    && |objective| <= w == |costs|
    && forall j :: 0 <= j < w ==> costs[j] == if j < |objective| then objective[j] else 0.0
  }

  lemma DecisionCost(objective: Vector, w: nat, costs: Vector, z: Vector)
    requires DecisionCosts(objective, w, costs) && |z| == w
    ensures Dot(costs, z) == Dot(objective, z[..|objective|])
  {
    var s, d := Products(costs, z), |objective|;
    SumZeroTail(s, d, w);
    SumAgrees(s, Products(objective, z[..d]), d);
  }

  method BuildPhaseTwoCosts(objective: Vector, oldToNew: array<Option<nat>>, width: nat) returns (costs: Vector)
    requires |objective| <= width && |objective| <= oldToNew.Length
    requires forall j :: 0 <= j < |objective| ==> oldToNew[j] == Some(j)
    ensures DecisionCosts(objective, width, costs)
  {
    costs := seq(width, _ => 0.0);
    for decision := 0 to |objective|
      invariant |costs| == width
      invariant forall j :: 0 <= j < width ==> costs[j] == if j < decision then objective[j] else 0.0
    {
      var mapped := oldToNew[decision].value;
      costs := costs[mapped := objective[decision]];
    }
  }

  /** Reads the decision values off the final basis. */
  method ReadValues(phaseTwo: array<Vector>, basis: array<nat>, keptColumns: seq<nat>, decisionWidth: nat,
                    ghost m: nat, ghost w: nat, ghost z: Vector)
      returns (r: Result<Vector, GeneralLinearError>)
    requires basis.Length == m && Canonical(phaseTwo[..], basis[..], m, w) && CurrentPoint(phaseTwo[..], basis[..], m, w, z)
    requires |keptColumns| == w && decisionWidth <= w
    requires forall j :: 0 <= j < decisionWidth ==> keptColumns[j] == j
    requires forall k :: decisionWidth <= k < w ==> keptColumns[k] >= decisionWidth
    ensures r == Ok(z[..decisionWidth])
  {
    var values := seq(decisionWidth, _ => 0.0);
    var rhs := |keptColumns|;
    for row := 0 to basis.Length
      invariant |values| == decisionWidth
      invariant forall j :: 0 <= j < decisionWidth ==> values[j] == if j in basis[..row] then z[j] else 0.0
    {
      var oldColumn := keptColumns[basis[row]];
      assert basis[..row + 1] == basis[..row] + [basis[row]];
      if oldColumn < decisionWidth {
        var value := phaseTwo[row][rhs];
        if value < 0.0 { return Err(NumericalBreakdown); }
        values := values[oldColumn := value];
      }
    }
    assert basis[..basis.Length] == basis[..];
    assert values == z[..decisionWidth];
    return Ok(values);
  }

  /** What a finished phase two says about the program. */
  ghost predicate BestValue(n: seq<GeneralLinearConstraint>, objective: Vector, values: Vector) {
    && FeasiblePoint(n, |objective|, values)
    && forall x :: FeasiblePoint(n, |objective|, x) ==> Dot(objective, x) <= Dot(objective, values)
  }

  ghost predicate ObjectiveExceeds(n: seq<GeneralLinearConstraint>, objective: Vector, bound: real) {
    exists x :: FeasiblePoint(n, |objective|, x) && Dot(objective, x) > bound
  }

  ghost predicate UnboundedProgram(n: seq<GeneralLinearConstraint>, objective: Vector) {
    forall bound: real :: ObjectiveExceeds(n, objective, bound)
  }

  lemma PhaseTwoOptimum(n: seq<GeneralLinearConstraint>, objective: Vector, start: Rows, u: Rows, basis: seq<nat>,
                        m: nat, w: nat, costs: Vector, z: Vector)
    requires Describes(n, |objective|, start, m, w) && DecisionCosts(objective, w, costs)
    requires PhaseState(start, u, basis, m, w, costs) && ReducedCostsNonNegative(u, m, w)
    requires CurrentPoint(u, basis, m, w, z)
    ensures BestValue(n, objective, z[..|objective|])
  {
    CurrentPointIsFeasible(u, basis, m, w, costs, z);
    assert FeasibleFor(start, m, w, z);
    DecisionCost(objective, w, costs, z);
    forall x | FeasiblePoint(n, |objective|, x) ensures Dot(objective, x) <= Dot(objective, z[..|objective|]) {
      assert Lifts(start, m, w, |objective|, x);
      var y :| FeasibleFor(start, m, w, y) && y[..|objective|] == x;
      NoBetterPoint(u, m, w, costs, y);
      DecisionCost(objective, w, costs, y);
    }
  }

  lemma PhaseTwoUnbounded(n: seq<GeneralLinearConstraint>, objective: Vector, start: Rows, m: nat, w: nat, costs: Vector)
    requires Describes(n, |objective|, start, m, w) && DecisionCosts(objective, w, costs)
    requires UnboundedCost(start, m, w, costs)
    ensures UnboundedProgram(n, objective)
  {
    forall bound: real ensures ObjectiveExceeds(n, objective, bound) {
      assert CostExceeds(start, m, w, costs, bound);
      var z :| FeasibleFor(start, m, w, z) && Dot(costs, z) > bound;
      DecisionCost(objective, w, costs, z);
      assert FeasiblePoint(n, |objective|, z[..|objective|]);
    }
  }

  lemma SameDescription(n: seq<GeneralLinearConstraint>, d: nat, u: Rows, v: Rows, m: nat, w: nat)
    requires Describes(n, d, u, m, w) && Shape(v, m, w) && SameSolutions(u, v, m, w)
    ensures Describes(n, d, v, m, w)
  {
    forall x | FeasiblePoint(n, d, x) ensures Lifts(v, m, w, d, x) {
      assert Lifts(u, m, w, d, x);
      var z :| FeasibleFor(u, m, w, z) && z[..d] == x;
      assert FeasibleFor(v, m, w, z);
    }
    forall z | FeasibleFor(v, m, w, z) ensures FeasiblePoint(n, d, z[..d]) {
      assert FeasibleFor(u, m, w, z);
    }
  }

  /** The basis lists different columns, and only they carry values. */
  ghost predicate BasisCarries(basis: seq<nat>, values: Vector) {
    Distinct(basis) && forall j :: 0 <= j < |values| && values[j] != 0.0 ==> j in basis
  }

  /** Optimises the true objective from the feasible basis that phase one left. */
  method PhaseTwo(ghost n: seq<GeneralLinearConstraint>, objective: Vector, phaseTwo: array<Vector>, basis: array<nat>,
                  rows: nat, width: nat, keptColumns: seq<nat>, oldToNew: array<Option<nat>>, maximumIterations: nat, iterations: nat)
      returns (r: Result<Vector, GeneralLinearError>, performed: nat)
    requires Describes(n, |objective|, phaseTwo[..], rows, width) && basis.Length == rows && |keptColumns| == width
    requires BasisShape(basis[..], rows, width) && UnitColumns(phaseTwo[..], basis[..], rows, width, rows)
    requires RhsNonNegative(phaseTwo[..], rows, width) && iterations <= maximumIterations
    requires forall j :: 0 <= j < |objective| ==> keptColumns[j] == j
    requires forall k :: |objective| <= k < width ==> keptColumns[k] >= |objective|
    requires |objective| <= oldToNew.Length && forall j :: 0 <= j < |objective| ==> oldToNew[j] == Some(j)
    modifies phaseTwo, basis
    ensures iterations <= performed <= maximumIterations
    ensures r.Ok? ==> BestValue(n, objective, r.value)
    ensures r.Err? ==> r.error == Unbounded || r.error == IterationLimitExceeded(maximumIterations)
    ensures r == Err(Unbounded) ==> UnboundedProgram(n, objective)
    ensures r.Ok? ==> BasisCarries(basis[..], r.value)
    ensures r == Err(IterationLimitExceeded(maximumIterations)) ==> maximumIterations < iterations + Choices(width, rows)
  {
    ghost var given := phaseTwo[..];
    var costs := BuildPhaseTwoCosts(objective, oldToNew, width);
    InitializeObjectiveRow(phaseTwo, basis, costs, rows, width);
    ghost var start := phaseTwo[..];
    FirstRowsUnchanged(given, start, basis[..], rows, width);
    SameDescription(n, |objective|, given, start, rows, width);
    var outcome;
    outcome, performed := RunSimplex(phaseTwo, basis, rows, width, maximumIterations, iterations, start, costs);
    if outcome.Err? {
      if outcome.error == Unbounded { PhaseTwoUnbounded(n, objective, start, rows, width, costs); }
      return Err(outcome.error), performed;
    }
    ghost var z := CurrentPointExists(phaseTwo[..], basis[..], rows, width);
    PhaseTwoOptimum(n, objective, start, phaseTwo[..], basis[..], rows, width, costs, z);
    BasisIsInjective(phaseTwo[..], basis[..], rows, width);
    r := ReadValues(phaseTwo, basis, keptColumns, |objective|, rows, width, z);
  }

  // ---- The solver ----

  ghost predicate ProblemValid(p: GeneralLinearProgram) {
    p.objective != [] && p.maximumIterations > 0 && Widths(p.constraints, |p.objective|)
  }

  method Validate(p: GeneralLinearProgram) returns (r: Result<(), GeneralLinearError>)
    ensures r.Ok? <==> ProblemValid(p)
    ensures r.Err? && p.objective == [] ==> r.error == EmptyObjective
    ensures r.Err? && p.objective != [] && p.maximumIterations == 0 ==> r.error == InvalidIterationLimit
    ensures r.Err? && p.objective != [] && p.maximumIterations > 0 ==> r.error == ConstraintWidthMismatch
  {
    if p.objective == [] { return Err(EmptyObjective); }
    if p.maximumIterations == 0 { return Err(InvalidIterationLimit); }
    for i := 0 to |p.constraints|
      invariant Widths(p.constraints[..i], |p.objective|)
    {
      if |p.constraints[i].coefficients| != |p.objective| { return Err(ConstraintWidthMismatch); }
    }
    return Ok(());
  }

  function Violation(c: GeneralLinearConstraint, x: Vector): real
    requires |c.coefficients| == |x|
  {
    var gap := Dot(c.coefficients, x) - c.rhs;
    match c.relation
    case LessOrEqual => if gap > 0.0 then gap else 0.0
    case GreaterOrEqual => if gap < 0.0 then -gap else 0.0
    case Equal => if gap < 0.0 then -gap else gap
  }

  /** The largest violation of a sign restriction or constraint; zero exactly at feasible points. */
  method MaximumViolation(constraints: seq<GeneralLinearConstraint>, values: Vector) returns (maximum: real)
    requires Widths(constraints, |values|)
    ensures maximum >= 0.0
    ensures maximum == 0.0 <==> FeasiblePoint(constraints, |values|, values)
    ensures forall i :: 0 <= i < |constraints| ==> Violation(constraints[i], values) <= maximum
  {
    maximum := 0.0;
    for j := 0 to |values|
      invariant maximum >= 0.0 && (maximum == 0.0 <==> forall k :: 0 <= k < j ==> values[k] >= 0.0)
    {
      var violation := if -values[j] > 0.0 then -values[j] else 0.0;
      maximum := if violation > maximum then violation else maximum;
    }
    for i := 0 to |constraints|
      invariant maximum >= 0.0
      invariant maximum == 0.0 <==> NonNegative(values) && forall k :: 0 <= k < i ==> Satisfies(constraints[k], values)
      invariant forall k :: 0 <= k < i ==> Violation(constraints[k], values) <= maximum
    {
      var violation := Violation(constraints[i], values);
      maximum := if violation > maximum then violation else maximum;
    }
  }

  /** The bases of the tableau, once for each phase. */
  ghost function TwoPhaseBases(p: GeneralLinearProgram): nat {
    var n := NormalizeConstraints(p.constraints);
    2 * Choices(Start(n, |p.objective|, |n|), |n|)
  }

  /** The correct answer to a program, outcome by outcome. A budget of one pivot per basis and phase is never exceeded. */
  ghost predicate Answers(p: GeneralLinearProgram, r: Result<GeneralLinearSolution, GeneralLinearError>) {
    match r
    case Ok(s) =>
      && ProblemValid(p) && BestValue(p.constraints, p.objective, s.values)
      && s.objectiveValue == Dot(p.objective, s.values)
      && s.phaseOneArtificialSum == 0.0 && s.maximumPrimalViolation == 0.0 && s.iterations <= p.maximumIterations
      && BasisCarries(s.basis, s.values) && |s.basis| <= |p.constraints|
    case Err(Infeasible) => ProblemValid(p) && NoFeasiblePoint(p.constraints, |p.objective|)
    case Err(Unbounded) => ProblemValid(p) && UnboundedProgram(p.constraints, p.objective)
    case Err(IterationLimitExceeded(iterations)) => ProblemValid(p) && iterations == p.maximumIterations < TwoPhaseBases(p)
    case Err(EmptyObjective) => p.objective == []
    case Err(InvalidIterationLimit) => p.objective != [] && p.maximumIterations == 0
    case Err(ConstraintWidthMismatch) => p.objective != [] && p.maximumIterations > 0 && !Widths(p.constraints, |p.objective|)
    case Err(NumericalBreakdown) => false
  }

  lemma AnswersTransfer(p: GeneralLinearProgram, n: seq<GeneralLinearConstraint>)
    requires ProblemValid(p) && n == NormalizeConstraints(p.constraints)
    ensures forall x :: FeasiblePoint(p.constraints, |p.objective|, x) <==> FeasiblePoint(n, |p.objective|, x)
    ensures Widths(n, |p.objective|) && forall i :: 0 <= i < |n| ==> n[i].rhs >= 0.0
  {
    forall x: Vector ensures FeasiblePoint(p.constraints, |p.objective|, x) <==> FeasiblePoint(n, |p.objective|, x) {
      NormalizeKeepsFeasibility(p.constraints, |p.objective|, x);
    }
    NormalizeKeepsFeasibility(p.constraints, |p.objective|, []);
  }

  lemma UnboundedTransfer(p: GeneralLinearProgram, n: seq<GeneralLinearConstraint>)
    requires forall x :: FeasiblePoint(p.constraints, |p.objective|, x) <==> FeasiblePoint(n, |p.objective|, x)
    requires UnboundedProgram(n, p.objective)
    ensures UnboundedProgram(p.constraints, p.objective)
  {
    forall bound: real ensures ObjectiveExceeds(p.constraints, p.objective, bound) {
      assert ObjectiveExceeds(n, p.objective, bound);
    }
  }

  method SolveGeneralTwoPhaseSimplex(p: GeneralLinearProgram) returns (r: Result<GeneralLinearSolution, GeneralLinearError>)
    ensures Answers(p, r)
  {
    var valid := Validate(p);
    if valid.Err? { return Err(valid.error); }
    var n := NormalizeConstraints(p.constraints);
    AnswersTransfer(p, n);
    var values, artificialSum, iterations, basis := SolveNormalized(n, p.objective, p.maximumIterations);
    if values.Err? {
      if values.error == Unbounded { UnboundedTransfer(p, n); }
      return Err(values.error);
    }
    var violation := MaximumViolation(p.constraints, values.value);
    return Ok(GeneralLinearSolution(values.value, Dot(p.objective, values.value), artificialSum, iterations, basis, violation));
  }

  /** Both phases on constraints with non-negative right-hand sides. */
  method SolveNormalized(n: seq<GeneralLinearConstraint>, objective: Vector, maximumIterations: nat)
      returns (r: Result<Vector, GeneralLinearError>, artificialSum: real, iterations: nat, basis: seq<nat>)
    requires Widths(n, |objective|) && forall i :: 0 <= i < |n| ==> n[i].rhs >= 0.0
    ensures iterations <= maximumIterations
    ensures r.Ok? ==> artificialSum == 0.0 && BestValue(n, objective, r.value)
    ensures r.Err? ==> r.error == Infeasible || r.error == Unbounded || r.error == IterationLimitExceeded(maximumIterations)
    ensures r == Err(Infeasible) ==> NoFeasiblePoint(n, |objective|)
    ensures r == Err(Unbounded) ==> UnboundedProgram(n, objective)
    ensures r.Ok? ==> BasisCarries(basis, r.value) && |basis| <= |n|
    ensures r == Err(IterationLimitExceeded(maximumIterations)) ==> maximumIterations < 2 * Choices(Start(n, |objective|, |n|), |n|)
  {
    var redundant, tableau, tableauBasis, artificial, totalWidth;
    ghost var start, costs;
    redundant, tableau, tableauBasis, artificial, totalWidth, artificialSum, iterations, start, costs :=
      PhaseOne(n, |objective|, maximumIterations);
    if redundant.Err? { return Err(redundant.error), artificialSum, iterations, []; }
    var keptColumns := Kept(artificial[..], totalWidth);
    KeptMembers(artificial[..], totalWidth);
    LeadingColumnsKept(n, |objective|, artificial[..]);
    var oldToNew := InvertColumns(keptColumns, totalWidth);
    var compressed := Compress(tableau, tableauBasis, artificial, redundant.value, |n|, totalWidth, keptColumns, oldToNew);
    var (phaseTwo, phaseTwoBasis) := compressed.value;
    CompressedBasis(tableau[..], tableauBasis[..], artificial[..], redundant.value[..], |n|, totalWidth, phaseTwo[..], phaseTwoBasis[..]);
    CompressedDescribes(n, |objective|, start, tableau[..], tableauBasis[..], artificial[..], redundant.value[..], costs,
                        phaseTwo[..], phaseTwoBasis[..]);
    DroppedRowsAndColumns(tableau[..], tableauBasis[..], artificial[..], redundant.value[..], |n|, totalWidth);
    FewerChoices(totalWidth, |n|, |keptColumns|, phaseTwoBasis.Length);
    r, iterations := PhaseTwo(n, objective, phaseTwo, phaseTwoBasis, phaseTwoBasis.Length, |keptColumns|, keptColumns,
                              oldToNew, maximumIterations, iterations);
    basis := phaseTwoBasis[..];
  }
}
