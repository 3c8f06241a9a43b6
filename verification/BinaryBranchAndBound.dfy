/** Branch and bound for binary linear programs. */
module BinaryBranchAndBound {
  import opened Wrappers
  import opened LinearBounds
  import opened PartialAssignments
  import opened Incumbents
  import opened IntegerSolver
  import opened BinaryPrograms
  import Enumeration = BinaryEnumeration

  datatype BranchBoundProblem =
    BranchBoundProblem(objective: seq<int>, constraints: seq<BinaryLinearConstraint>, maximumNodes: nat)

  datatype BranchBoundSolution =
    BranchBoundSolution(assignment: seq<bool>, objectiveValue: int, exploredNodes: nat, prunedNodes: nat)

  datatype SolverError =
    | EmptyProblem
    | ConstraintWidthMismatch
    | InvalidNodeBudget
    | NodeBudgetExceeded(exploredNodes: nat)
    | NoFeasibleSolution

  /** The partial assignment as one over zeros and ones. */
  ghost function AsPartial(p: seq<Option<bool>>): (q: Partial)
    ensures |q| == |p|
    ensures forall v :: 0 <= v < |q| ==> q[v] == if p[v] == None then None else if p[v].value then Some(1) else Some(0)
  {
    seq(|p|, v requires 0 <= v < |p| => if p[v] == None then None else if p[v].value then Some(1) else Some(0))
  }

  /** Exactly the variables below `depth` have a value. */
  ghost predicate AssignedBelow(p: seq<Option<bool>>, depth: nat) {
    depth <= |p| && forall v :: 0 <= v < |p| ==> (p[v].Some? <==> v < depth)
  }

  method RowPossible(c: BinaryLinearConstraint, assignment: array<Option<bool>>, ghost problem: BoundedIntegerProblem)
    returns (possible: bool)
    requires |c.coefficients| == assignment.Length == |problem.variables|
    requires forall v :: 0 <= v < |problem.variables| ==> problem.variables[v].lower == 0 && problem.variables[v].upper == 1
    ensures possible <==> ConstraintPossible(problem, AsPartial(assignment[..]), c)
  {
    var fixed, minimumRemaining, maximumRemaining := 0, 0, 0;
    ghost var low, high := Lows(problem, AsPartial(assignment[..])), Highs(problem, AsPartial(assignment[..]));
    for v := 0 to assignment.Length
      invariant fixed + minimumRemaining == Least(c.coefficients, low, high, v)
      invariant fixed + maximumRemaining == Greatest(c.coefficients, low, high, v)
    {
      var coefficient := c.coefficients[v];
      assert low[v] == LowOf(problem, AsPartial(assignment[..]), v) && high[v] == HighOf(problem, AsPartial(assignment[..]), v);
      if assignment[v] == Some(true) {
        fixed := fixed + coefficient;
      } else if assignment[v] == Some(false) {
      } else if coefficient < 0 {
        minimumRemaining := minimumRemaining + coefficient;
      } else {
        maximumRemaining := maximumRemaining + coefficient;
      }
    }
    possible := RelationPossible(c.relation, fixed + minimumRemaining, fixed + maximumRemaining, c.rhs);
  }

  /** The nodes of the full search tree over `open` variables. */
  ghost function BinaryTree(open: nat): (n: nat)
    ensures n == 2 * Enumeration.Pow2(open) - 1
  {
    if open == 0 then 1 else 1 + 2 * BinaryTree(open - 1)
  }

  class BranchAndBound {
    const problem: BranchBoundProblem
    const assignment: array<Option<bool>>
    var bestAssignment: Option<seq<bool>>
    var bestValue: int
    var exploredNodes: nat
    var prunedNodes: nat
    /** The feasible assignments accounted for so far. */
    ghost var seen: iset<seq<int>>

    constructor (problem: BranchBoundProblem)
      requires SameWidth(problem.objective, problem.constraints)
      ensures this.problem == problem && fresh(assignment) && Valid() && exploredNodes == 0
      ensures seen == iset{} && AssignedBelow(assignment[..], 0)
    {
      this.problem := problem;
      assignment := new Option<bool>[|problem.objective|](_ => None);
      bestAssignment, bestValue := None, 0;
      exploredNodes, prunedNodes, seen := 0, 0, iset{};
    }

    ghost function Program(): BoundedIntegerProblem {
      AsInteger(problem.objective, problem.constraints)
    }

    ghost predicate Valid()
      reads this, assignment
    {
      && SameWidth(problem.objective, problem.constraints) && assignment.Length == |problem.objective|
      && exploredNodes <= problem.maximumNodes && prunedNodes <= exploredNodes
      && Incumbent(seen, |problem.objective|, ObjectiveOf(Program()), BitsOption(bestAssignment))
      && (bestAssignment.Some? ==> bestValue == ObjectiveOf(Program())(Bits(bestAssignment.value)))
    }

    /** The feasible assignments below the current node. */
    ghost function Node(): iset<seq<int>>
      requires SameWidth(problem.objective, problem.constraints)
      reads assignment
    {
      Extensions(Program(), AsPartial(assignment[..]))
    }

    method PartialConstraintsPossible() returns (possible: bool)
      requires SameWidth(problem.objective, problem.constraints) && assignment.Length == |problem.objective|
      ensures possible <==> AllPossible(Program(), AsPartial(assignment[..]))
    {
      for k := 0 to |problem.constraints|
        invariant forall j :: 0 <= j < k ==> ConstraintPossible(Program(), AsPartial(assignment[..]), problem.constraints[j])
      {
        possible := RowPossible(problem.constraints[k], assignment, Program());
        if !possible {
          return false;
        }
      }
      return true;
    }

    /** The current objective plus every positive coefficient that is still open. */
    method OptimisticBound(variable: nat, currentObjective: int) returns (optimistic: int)
      requires assignment.Length == |problem.objective| && AssignedBelow(assignment[..], variable)
      requires currentObjective == FixedSum(Program(), AsPartial(assignment[..]), |problem.objective|)
      ensures optimistic == UpperBound(Program(), AsPartial(assignment[..]), |problem.objective|)
    {
      ghost var p := AsPartial(assignment[..]);
      ghost var low, high := Lows(Program(), p), Highs(Program(), p);
      optimistic := currentObjective;
      FixedUpTo(variable);
      for v := variable to |problem.objective|
        invariant optimistic == currentObjective - FixedSum(Program(), p, v) + UpperBound(Program(), p, v)
      {
        assert low[v] == LowOf(Program(), p, v) && high[v] == HighOf(Program(), p, v);
        if problem.objective[v] > 0 {
          optimistic := optimistic + problem.objective[v];
        }
      }
    }

    lemma {:induction false} FixedUpTo(n: nat)
      requires assignment.Length == |problem.objective| && n <= |problem.objective|
      requires forall v :: 0 <= v < n ==> assignment[v].Some?
      ensures UpperBound(Program(), AsPartial(assignment[..]), n) == FixedSum(Program(), AsPartial(assignment[..]), n)
    {
      if n > 0 {
        FixedUpTo(n - 1);
        var p := AsPartial(assignment[..]);
        assert Lows(Program(), p)[n - 1] == LowOf(Program(), p, n - 1) && Highs(Program(), p)[n - 1] == HighOf(Program(), p, n - 1);
      }
    }

    /** No feasible assignment below the current node can beat the incumbent. */
    ghost predicate Hopeless()
      requires SameWidth(problem.objective, problem.constraints)
      reads this, assignment
    {
      forall a :: a in Node() ==> bestAssignment.Some? && ObjectiveOf(Program())(a) < bestValue
    }

    method Prune()
      requires Valid() && Hopeless() && prunedNodes < exploredNodes
      modifies this`prunedNodes, this`seen
      ensures Valid() && seen == old(seen) + Node()
    {
      IncumbentStays(seen, Node(), |problem.objective|, ObjectiveOf(Program()), BitsOption(bestAssignment));
      seen := seen + Node();
      prunedNodes := prunedNodes + 1;
    }

    lemma RefutedIsHopeless()
      requires SameWidth(problem.objective, problem.constraints) && assignment.Length == |problem.objective|
      requires !AllPossible(Program(), AsPartial(assignment[..]))
      ensures Hopeless()
    {
      forall a ensures a !in Node() {
        if a in Node() {
          FeasibleBelowIsPossible(Program(), AsPartial(assignment[..]), a);
        }
      }
    }

    lemma DominatedIsHopeless()
      requires SameWidth(problem.objective, problem.constraints) && assignment.Length == |problem.objective|
      requires bestAssignment.Some? && UpperBound(Program(), AsPartial(assignment[..]), assignment.Length) < bestValue
      ensures Hopeless()
    {
      forall a | a in Node() ensures ObjectiveOf(Program())(a) < bestValue {
        BelowIsBounded(Program(), AsPartial(assignment[..]), a);
      }
    }

    /** Accounts for every feasible assignment below the current node; fails only on a used-up budget. */
    method Branch(variable: nat, currentObjective: int) returns (e: Option<SolverError>)
      requires Valid() && AssignedBelow(assignment[..], variable)
      requires currentObjective == FixedSum(Program(), AsPartial(assignment[..]), |problem.objective|)
      modifies this, assignment
      ensures e == None ==> Valid() && assignment[..] == old(assignment[..]) && seen == old(seen) + old(Node())
      ensures e.Some? ==> e == Some(SolverError.NodeBudgetExceeded(problem.maximumNodes)) && exploredNodes == problem.maximumNodes + 1
      ensures exploredNodes <= old(exploredNodes) + BinaryTree(|problem.objective| - variable)
      decreases |problem.objective| - variable
    {
      exploredNodes := exploredNodes + 1;
      if exploredNodes > problem.maximumNodes {
        return Some(SolverError.NodeBudgetExceeded(exploredNodes - 1));
      }
      var possible := PartialConstraintsPossible();
      if !possible {
        RefutedIsHopeless();
        Prune();
        return None;
      }
      var optimistic := OptimisticBound(variable, currentObjective);
      if bestAssignment.Some? && optimistic < bestValue {
        DominatedIsHopeless();
        Prune();
        return None;
      }
      if variable == |problem.objective| {
        Leaf(currentObjective);
        return None;
      }
      e := TryBoth(variable, currentObjective);
    }

    method CompleteAssignment() returns (a: seq<bool>)
      requires AssignedBelow(assignment[..], assignment.Length)
      ensures Extends(Bits(a), AsPartial(assignment[..])) && Complete(AsPartial(assignment[..]))
    {
      a := [];
      for v := 0 to assignment.Length
        invariant |a| == v && forall w :: 0 <= w < v ==> a[w] == assignment[w].value
      {
        a := a + [assignment[v].value];
      }
    }

    /** A complete assignment that passed the tests replaces the incumbent if it is better. */
    method Leaf(currentObjective: int)
      requires Valid() && AssignedBelow(assignment[..], |problem.objective|)
      requires AllPossible(Program(), AsPartial(assignment[..]))
      requires currentObjective == FixedSum(Program(), AsPartial(assignment[..]), |problem.objective|)
      modifies this`bestAssignment, this`bestValue, this`seen
      ensures Valid() && seen == old(seen) + Node()
    {
      var a := CompleteAssignment();
      LeafBelow(Program(), AsPartial(assignment[..]), Bits(a));
      IncumbentMeetsLeaf(seen, |problem.objective|, ObjectiveOf(Program()), BitsOption(bestAssignment), Bits(a));
      seen := seen + iset{Bits(a)};
      if Replaces(BitsOption(bestAssignment), bestValue, Bits(a), currentObjective) {
        bestValue := currentObjective;
        bestAssignment := Some(a);
      }
    }

    /** Tries the value that favours the objective first, then the other one. */
    method TryBoth(variable: nat, currentObjective: int) returns (e: Option<SolverError>)
      requires Valid() && AssignedBelow(assignment[..], variable) && variable < |problem.objective|
      requires currentObjective == FixedSum(Program(), AsPartial(assignment[..]), |problem.objective|)
      modifies this, assignment
      ensures e == None ==> Valid() && assignment[..] == old(assignment[..]) && seen == old(seen) + old(Node())
      ensures e.Some? ==> e == Some(SolverError.NodeBudgetExceeded(problem.maximumNodes)) && exploredNodes == problem.maximumNodes + 1
      ensures exploredNodes < old(exploredNodes) + BinaryTree(|problem.objective| - variable)
      decreases |problem.objective| - variable, 1
    {
      ghost var p, below := assignment[..], BinaryTree(|problem.objective| - variable - 1);
      assert BinaryTree(|problem.objective| - variable) == 1 + 2 * below;
      var preferred := problem.objective[variable] >= 0;
      e := TryValue(variable, preferred, currentObjective);
      if e.Some? { return; }
      e := TryValue(variable, !preferred, currentObjective);
      if e.Some? { return; }
      NodeSplits(p, variable, preferred);
    }

    /** A node's feasible assignments are those below its two children. */
    lemma {:induction false} NodeSplits(p: seq<Option<bool>>, variable: nat, first: bool)
      requires SameWidth(problem.objective, problem.constraints) && |p| == |problem.objective|
      requires variable < |p| && p[variable] == None
      ensures Extensions(Program(), AsPartial(p)) ==
                Extensions(Program(), AsPartial(p[variable := Some(first)])) + Extensions(Program(), AsPartial(p[variable := Some(!first)]))
    {
      var q := AsPartial(p);
      assert AsPartial(p[variable := Some(true)]) == q[variable := Some(1)];
      assert AsPartial(p[variable := Some(false)]) == q[variable := Some(0)];
      forall a { ExtendsWithValue(a, q, variable, 1); }
      forall a { ExtendsWithValue(a, q, variable, 0); }
      forall a | Feasible(Program(), a) ensures a[variable] == 0 || a[variable] == 1 {
        assert Program().variables[variable] == IntegerVariable(0, 1, problem.objective[variable]);
      }
    }

    /** Giving the next variable a value adds its coefficient to the objective so far. */
    lemma {:induction false} ChildObjective(p: seq<Option<bool>>, variable: nat, value: bool, currentObjective: int)
      requires |p| == |problem.objective| && variable < |p| && p[variable] == None
      requires currentObjective == FixedSum(Program(), AsPartial(p), |p|)
      ensures FixedSum(Program(), AsPartial(p[variable := Some(value)]), |p|)
           == if value then currentObjective + problem.objective[variable] else currentObjective
    {
      var bit := if value then 1 else 0;
      assert AsPartial(p[variable := Some(value)]) == AsPartial(p)[variable := Some(bit)];
      FixedSumGrows(Program(), AsPartial(p), variable, bit, |p|);
    }

    /** Searches below one value of a variable and takes the value back. */
    method TryValue(variable: nat, value: bool, currentObjective: int) returns (e: Option<SolverError>)
      requires Valid() && AssignedBelow(assignment[..], variable) && variable < |problem.objective|
      requires currentObjective == FixedSum(Program(), AsPartial(assignment[..]), |problem.objective|)
      modifies this, assignment
      ensures e == None ==> Valid() && assignment[..] == old(assignment[..])
      ensures e == None ==> seen == old(seen) + Extensions(Program(), AsPartial(old(assignment[..])[variable := Some(value)]))
      ensures e.Some? ==> e == Some(SolverError.NodeBudgetExceeded(problem.maximumNodes)) && exploredNodes == problem.maximumNodes + 1
      ensures exploredNodes <= old(exploredNodes) + BinaryTree(|problem.objective| - variable - 1)
      decreases |problem.objective| - variable, 0
    {
      ghost var p := assignment[..];
      var nextObjective := if value then currentObjective + problem.objective[variable] else currentObjective;
      ChildObjective(p, variable, value, currentObjective);
      assignment[variable] := Some(value);
      assert assignment[..] == p[variable := Some(value)];
      e := Branch(variable + 1, nextObjective);
      if e.Some? { return; }
      assignment[variable] := None;
      assert assignment[..] == p;
    }
  }

  ghost predicate ValidProblem(problem: BranchBoundProblem) {
    problem.objective != [] && problem.maximumNodes > 0 && SameWidth(problem.objective, problem.constraints)
  }

  /** The checks in order: size, node budget, widths. */
  ghost predicate ValidationOutcome(problem: BranchBoundProblem, e: Option<SolverError>) {
    if problem.objective == [] then e == Some(SolverError.EmptyProblem)
    else if problem.maximumNodes == 0 then e == Some(SolverError.InvalidNodeBudget)
    else if !SameWidth(problem.objective, problem.constraints) then e == Some(SolverError.ConstraintWidthMismatch)
    else e == None
  }

  method Validate(problem: BranchBoundProblem) returns (e: Option<SolverError>)
    ensures (e == None <==> ValidProblem(problem)) && ValidationOutcome(problem, e)
  {
    if problem.objective == [] {
      return Some(SolverError.EmptyProblem);
    }
    if problem.maximumNodes == 0 {
      return Some(SolverError.InvalidNodeBudget);
    }
    for k := 0 to |problem.constraints|
      invariant forall j :: 0 <= j < k ==> |problem.constraints[j].coefficients| == |problem.objective|
    {
      if |problem.constraints[k].coefficients| != |problem.objective| {
        return Some(SolverError.ConstraintWidthMismatch);
      }
    }
    return None;
  }

  ghost predicate SolveOutcome(problem: BranchBoundProblem, r: Result<BranchBoundSolution, SolverError>)
    requires SameWidth(problem.objective, problem.constraints)
  {
    match r
    case Ok(solution) =>
      && IsBestAssignment(problem.objective, problem.constraints, solution.assignment, solution.objectiveValue)
      && solution.prunedNodes <= solution.exploredNodes <= problem.maximumNodes
    case Err(e) =>
      || (e == SolverError.NodeBudgetExceeded(problem.maximumNodes) && problem.maximumNodes < BinaryTree(|problem.objective|))
      || (e == SolverError.NoFeasibleSolution && NoAssignment(problem.objective, problem.constraints))
  }

  method SolveBinaryBranchAndBound(problem: BranchBoundProblem) returns (r: Result<BranchBoundSolution, SolverError>)
    ensures if ValidProblem(problem) then SolveOutcome(problem, r) else r.Err? && ValidationOutcome(problem, Some(r.error))
  {
    var e := Validate(problem);
    if e.Some? {
      return Err(e.value);
    }
    var state := new BranchAndBound(problem);
    ghost var p := AsPartial(state.assignment[..]);
    NothingFixedSum(state.Program(), p, |p|);
    EverythingExtendsNothing(state.Program(), p);
    e := state.Branch(0, 0);
    if e.Some? {
      return Err(e.value);
    }
    if state.bestAssignment == None {
      return Err(SolverError.NoFeasibleSolution);
    }
    return Ok(BranchBoundSolution(state.bestAssignment.value, state.bestValue, state.exploredNodes, state.prunedNodes));
  }

  /** Branch and bound refines enumeration: when both finish they return the same assignment and objective, or both find none. */
  lemma {:induction false} RefinesEnumeration(
      objective: seq<int>, constraints: seq<BinaryLinearConstraint>, maximumNodes: nat, maximumAssignments: nat,
      bounded: Result<BranchBoundSolution, SolverError>,
      enumerated: Result<Enumeration.BinaryLinearSolution, Enumeration.OptimizationError>)
    requires SameWidth(objective, constraints)
    requires SolveOutcome(BranchBoundProblem(objective, constraints, maximumNodes), bounded)
    requires Enumeration.SolveOutcome(Enumeration.BinaryLinearProblem(objective, constraints, maximumAssignments), enumerated)
    requires bounded != Err(SolverError.NodeBudgetExceeded(maximumNodes))
    ensures bounded.Ok? <==> enumerated.Ok?
    ensures bounded.Ok? ==> bounded.value.assignment == enumerated.value.assignment
    ensures bounded.Ok? ==> bounded.value.objectiveValue == enumerated.value.objectiveValue
  {
    if bounded.Ok? && enumerated.Ok? {
      BestAssignmentIsUnique(objective, constraints, bounded.value.assignment, bounded.value.objectiveValue,
                             enumerated.value.assignment, enumerated.value.objectiveValue);
    }
  }

  /** With room for the full search tree, branch and bound always gives the answer of the enumeration. */
  lemma {:induction false} AmpleBudgetRefines(
      objective: seq<int>, constraints: seq<BinaryLinearConstraint>, maximumNodes: nat, maximumAssignments: nat,
      bounded: Result<BranchBoundSolution, SolverError>,
      enumerated: Result<Enumeration.BinaryLinearSolution, Enumeration.OptimizationError>)
    requires SameWidth(objective, constraints) && maximumNodes >= 2 * Enumeration.Pow2(|objective|) - 1
    requires SolveOutcome(BranchBoundProblem(objective, constraints, maximumNodes), bounded)
    requires Enumeration.SolveOutcome(Enumeration.BinaryLinearProblem(objective, constraints, maximumAssignments), enumerated)
    ensures bounded.Ok? <==> enumerated.Ok?
    ensures bounded.Ok? ==> bounded.value.assignment == enumerated.value.assignment
    ensures bounded.Ok? ==> bounded.value.objectiveValue == enumerated.value.objectiveValue
  {
    RefinesEnumeration(objective, constraints, maximumNodes, maximumAssignments, bounded, enumerated);
  }
}
