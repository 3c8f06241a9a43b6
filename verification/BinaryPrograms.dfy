/** Binary linear programs: the bounded integer programs whose variables range over 0 and 1. */
module BinaryPrograms {
  import opened Wrappers
  import opened Incumbents
  import opened IntegerSolver

  type BinaryLinearConstraint = IntegerLinearConstraint

  ghost predicate SameWidth(objective: seq<int>, constraints: seq<BinaryLinearConstraint>) {
    forall k :: 0 <= k < |constraints| ==> |constraints[k].coefficients| == |objective|
  }

  /** The same program with explicit bounds. */
  ghost function AsInteger(objective: seq<int>, constraints: seq<BinaryLinearConstraint>): (p: BoundedIntegerProblem)
    ensures |p.variables| == |objective| && p.constraints == constraints
    ensures forall v :: 0 <= v < |objective| ==> p.variables[v] == IntegerVariable(0, 1, objective[v])
    ensures SameWidth(objective, constraints) ==> WellFormed(p)
  {
    BoundedIntegerProblem(seq(|objective|, v requires 0 <= v < |objective| => IntegerVariable(0, 1, objective[v])), constraints, 0)
  }

  /** An assignment as a vector of zeros and ones. */
  function Bits(a: seq<bool>): (x: seq<int>)
    ensures |x| == |a| && forall v :: 0 <= v < |x| ==> x[v] == if a[v] then 1 else 0
  {
    seq(|a|, v requires 0 <= v < |a| => if a[v] then 1 else 0)
  }

  function BitsOption(best: Option<seq<bool>>): Option<seq<int>> {
    match best
    case None => None
    case Some(a) => Some(Bits(a))
  }

  lemma {:induction false} BitsInjective(a: seq<bool>, b: seq<bool>)
    requires Bits(a) == Bits(b)
    ensures a == b
  {
    forall v | 0 <= v < |a| ensures a[v] == b[v] {
      assert Bits(a)[v] == Bits(b)[v];
    }
  }

  /** The best feasible assignment, or proof that there is none. */
  ghost predicate IsBestAssignment(objective: seq<int>, constraints: seq<BinaryLinearConstraint>, a: seq<bool>, value: int)
    requires SameWidth(objective, constraints)
  {
    var problem := AsInteger(objective, constraints);
    && IsBest(FeasibleSet(problem), |objective|, ObjectiveOf(problem), Bits(a))
    && value == ObjectiveOf(problem)(Bits(a))
  }

  ghost predicate NoAssignment(objective: seq<int>, constraints: seq<BinaryLinearConstraint>)
    requires SameWidth(objective, constraints)
  {
    FeasibleSet(AsInteger(objective, constraints)) == iset{}
  }

  /** There is at most one best assignment, and none if nothing is feasible. */
  lemma {:induction false} BestAssignmentIsUnique(objective: seq<int>, constraints: seq<BinaryLinearConstraint>,
                                                  a: seq<bool>, x: int, b: seq<bool>, y: int)
    requires SameWidth(objective, constraints)
    requires IsBestAssignment(objective, constraints, a, x) && IsBestAssignment(objective, constraints, b, y)
    ensures a == b && x == y
  {
    var problem := AsInteger(objective, constraints);
    BestIsUnique(FeasibleSet(problem), |objective|, ObjectiveOf(problem), Bits(a), Bits(b));
    BitsInjective(a, b);
  }

  ghost function BinaryObjective(objective: seq<int>, constraints: seq<BinaryLinearConstraint>): Objective {
    ObjectiveOf(AsInteger(objective, constraints))
  }
}

/** Exhaustive enumeration of all assignments of a binary linear program. */
module BinaryEnumeration {
  import opened Wrappers
  import opened Constraints
  import opened LinearBounds
  import opened Incumbents
  import opened IntegerSolver
  import opened BinaryPrograms

  const MAX_BINARY_VARIABLES: nat := 24

  datatype BinaryLinearProblem =
    BinaryLinearProblem(objective: seq<int>, constraints: seq<BinaryLinearConstraint>, maximumAssignments: nat)

  datatype BinaryLinearSolution = BinaryLinearSolution(assignment: seq<bool>, objectiveValue: int, enumeratedAssignments: nat)

  datatype OptimizationError =
    | EmptyProblem
    | TooManyBinaryVariables(actual: nat, maximum: nat)
    | ConstraintWidthMismatch
    | EnumerationBudgetTooSmall(required: nat, maximum: nat)
    | NoFeasibleSolution

  function Pow2(n: nat): nat {
    if n == 0 then 1 else 2 * Pow2(n - 1)
  }

  /** Bit `i` of a mask. */
  predicate Bit(mask: nat, i: nat) {
    if i == 0 then mask % 2 == 1 else Bit(mask / 2, i - 1)
  }

  function AssignmentOf(mask: nat, n: nat): (a: seq<bool>)
    ensures |a| == n && forall i :: 0 <= i < n ==> a[i] == Bit(mask, i)
  {
    seq(n, i requires 0 <= i < n => Bit(mask, i))
  }

  /** The mask of an assignment. */
  ghost function MaskOf(a: seq<bool>): (mask: nat)
    ensures mask < Pow2(|a|)
  {
    if a == [] then 0 else (if a[0] then 1 else 0) + 2 * MaskOf(a[1..])
  }

  lemma {:induction false} BitOfMask(a: seq<bool>, i: nat)
    requires i < |a|
    ensures Bit(MaskOf(a), i) == a[i]
  {
    if i > 0 {
      BitOfMask(a[1..], i - 1);
      assert MaskOf(a) / 2 == MaskOf(a[1..]);
    }
  }

  /** Every assignment has a mask. */
  lemma {:induction false} MaskRoundTrip(a: seq<bool>)
    ensures AssignmentOf(MaskOf(a), |a|) == a
  {
    forall i | 0 <= i < |a| ensures AssignmentOf(MaskOf(a), |a|)[i] == a[i] {
      BitOfMask(a, i);
    }
  }

  method DotBinary(coefficients: seq<int>, a: seq<bool>) returns (sum: int)
    requires |coefficients| == |a|
    ensures sum == Sum(coefficients, Bits(a), |a|)
  {
    sum := 0;
    for v := 0 to |a|
      invariant sum == Sum(coefficients, Bits(a), v)
    {
      assert Bits(a)[v] == if a[v] then 1 else 0;
      if a[v] {
        sum := sum + coefficients[v];
      }
    }
  }

  method IsFeasible(problem: BinaryLinearProblem, a: seq<bool>) returns (feasible: bool)
    requires SameWidth(problem.objective, problem.constraints) && |a| == |problem.objective|
    ensures feasible <==> Feasible(AsInteger(problem.objective, problem.constraints), Bits(a))
  {
    for k := 0 to |problem.constraints|
      invariant forall j :: 0 <= j < k ==> Holds(problem.constraints[j], Bits(a))
    {
      var c := problem.constraints[k];
      var lhs := DotBinary(c.coefficients, a);
      if !HoldsInt(c.relation, lhs, c.rhs) {
        assert !Holds(c, Bits(a));
        return false;
      }
    }
    return true;
  }

  predicate ValidSize(problem: BinaryLinearProblem) {
    && problem.objective != [] && |problem.objective| <= MAX_BINARY_VARIABLES
    && Pow2(|problem.objective|) <= problem.maximumAssignments
  }

  ghost predicate ValidProblem(problem: BinaryLinearProblem) {
    ValidSize(problem) && SameWidth(problem.objective, problem.constraints)
  }

  /** The checks in order: size, widths, assignment budget. */
  ghost predicate ValidationOutcome(problem: BinaryLinearProblem, e: Option<OptimizationError>) {
    if problem.objective == [] then e == Some(OptimizationError.EmptyProblem)
    else if |problem.objective| > MAX_BINARY_VARIABLES then e == Some(TooManyBinaryVariables(|problem.objective|, MAX_BINARY_VARIABLES))
    else if !SameWidth(problem.objective, problem.constraints) then e == Some(OptimizationError.ConstraintWidthMismatch)
    else if !ValidSize(problem) then e == Some(EnumerationBudgetTooSmall(Pow2(|problem.objective|), problem.maximumAssignments))
    else e == None
  }

  method Validate(problem: BinaryLinearProblem) returns (e: Option<OptimizationError>)
    ensures (e == None <==> ValidProblem(problem)) && ValidationOutcome(problem, e)
  {
    if problem.objective == [] {
      return Some(OptimizationError.EmptyProblem);
    }
    if |problem.objective| > MAX_BINARY_VARIABLES {
      return Some(TooManyBinaryVariables(|problem.objective|, MAX_BINARY_VARIABLES));
    }
    for k := 0 to |problem.constraints|
      invariant forall j :: 0 <= j < k ==> |problem.constraints[j].coefficients| == |problem.objective|
    {
      if |problem.constraints[k].coefficients| != |problem.objective| {
        return Some(OptimizationError.ConstraintWidthMismatch);
      }
    }
    var required := Pow2(|problem.objective|);
    if required > problem.maximumAssignments {
      return Some(EnumerationBudgetTooSmall(required, problem.maximumAssignments));
    }
    return None;
  }

  /** The feasible assignments with a mask below `count`. */
  ghost function Enumerated(problem: BinaryLinearProblem, count: nat): iset<seq<int>>
    requires SameWidth(problem.objective, problem.constraints)
  {
    iset mask: nat | mask < count && Feasible(AsInteger(problem.objective, problem.constraints), Bits(AssignmentOf(mask, |problem.objective|)))
      :: Bits(AssignmentOf(mask, |problem.objective|))
  }

  lemma {:induction false} EnumeratedNext(problem: BinaryLinearProblem, mask: nat)
    requires SameWidth(problem.objective, problem.constraints)
    ensures var x := Bits(AssignmentOf(mask, |problem.objective|));
            Enumerated(problem, mask + 1) == Enumerated(problem, mask) +
              if Feasible(AsInteger(problem.objective, problem.constraints), x) then iset{x} else iset{}
  {
  }

  /** All masks together reach every feasible assignment. */
  lemma {:induction false} EnumerationIsComplete(problem: BinaryLinearProblem)
    requires SameWidth(problem.objective, problem.constraints)
    ensures Enumerated(problem, Pow2(|problem.objective|)) == FeasibleSet(AsInteger(problem.objective, problem.constraints))
  {
    var p := AsInteger(problem.objective, problem.constraints);
    forall x | Feasible(p, x) ensures x in Enumerated(problem, Pow2(|problem.objective|)) {
      var a := seq(|x|, v requires 0 <= v < |x| => x[v] == 1);
      assert forall v :: 0 <= v < |x| ==> p.variables[v] == IntegerVariable(0, 1, problem.objective[v]);
      assert Bits(a) == x;
      MaskRoundTrip(a);
    }
  }

  ghost predicate SolveOutcome(problem: BinaryLinearProblem, r: Result<BinaryLinearSolution, OptimizationError>)
    requires SameWidth(problem.objective, problem.constraints)
  {
    match r
    case Ok(solution) =>
      && IsBestAssignment(problem.objective, problem.constraints, solution.assignment, solution.objectiveValue)
      && solution.enumeratedAssignments == Pow2(|problem.objective|)
    case Err(e) => e == OptimizationError.NoFeasibleSolution && NoAssignment(problem.objective, problem.constraints)
  }

  method SolveBinaryLinearExact(problem: BinaryLinearProblem) returns (r: Result<BinaryLinearSolution, OptimizationError>)
    ensures if ValidProblem(problem) then SolveOutcome(problem, r) else r.Err? && ValidationOutcome(problem, Some(r.error))
  {
    var e := Validate(problem);
    if e.Some? {
      return Err(e.value);
    }
    var n := |problem.objective|;
    var count := Pow2(n);
    var best: Option<seq<bool>>, bestValue := None, 0;
    ghost var f := BinaryObjective(problem.objective, problem.constraints);
    for mask := 0 to count
      invariant Incumbent(Enumerated(problem, mask), n, f, BitsOption(best))
      invariant best.Some? ==> bestValue == f(Bits(best.value))
    {
      var a := AssignmentOf(mask, n);
      EnumeratedNext(problem, mask);
      var feasible := IsFeasible(problem, a);
      if feasible {
        var value := DotBinary(problem.objective, a);
        assert Coefficients(AsInteger(problem.objective, problem.constraints)) == problem.objective;
        IncumbentMeetsLeaf(Enumerated(problem, mask), n, f, BitsOption(best), Bits(a));
        if Replaces(BitsOption(best), bestValue, Bits(a), value) {
          best, bestValue := Some(a), value;
        }
      }
    }
    EnumerationIsComplete(problem);
    if best == None {
      return Err(OptimizationError.NoFeasibleSolution);
    }
    return Ok(BinaryLinearSolution(best.value, bestValue, count));
  }
}
