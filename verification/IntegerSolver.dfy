/** Branch and bound for bounded integer programs. */
module IntegerSolver {
  import opened Wrappers
  import opened Finite
  import opened Constraints
  import opened LinearBounds
  import opened PartialAssignments
  import opened Incumbents
  import opened IndexOrder

  datatype IntegerVariable = IntegerVariable(lower: int, upper: int, objectiveCoefficient: int)

  datatype IntegerLinearConstraint =
    IntegerLinearConstraint(coefficients: seq<int>, relation: ConstraintRelation, rhs: int)

  datatype BoundedIntegerProblem =
    BoundedIntegerProblem(variables: seq<IntegerVariable>, constraints: seq<IntegerLinearConstraint>, maximumNodes: nat)

  datatype BoundedIntegerSolution =
    BoundedIntegerSolution(values: seq<int>, objectiveValue: int, exploredNodes: nat, prunedNodes: nat)

  datatype IntegerSolverError =
    | EmptyProblem
    | InvalidBounds(variable: nat)
    | ConstraintWidthMismatch
    | InvalidNodeBudget
    | NodeBudgetExceeded(exploredNodes: nat)
    | NoFeasibleSolution

  // ---- Feasible points ----

  ghost predicate WellFormed(problem: BoundedIntegerProblem) {
    && (forall v :: 0 <= v < |problem.variables| ==> problem.variables[v].lower <= problem.variables[v].upper)
    && (forall k :: 0 <= k < |problem.constraints| ==> |problem.constraints[k].coefficients| == |problem.variables|)
  }

  ghost predicate ValidProblem(problem: BoundedIntegerProblem) {
    problem.variables != [] && problem.maximumNodes > 0 && WellFormed(problem)
  }

  ghost predicate InBox(problem: BoundedIntegerProblem, a: seq<int>) {
    && |a| == |problem.variables|
    && forall v :: 0 <= v < |a| ==> problem.variables[v].lower <= a[v] <= problem.variables[v].upper
  }

  ghost predicate Holds(c: IntegerLinearConstraint, a: seq<int>)
    requires |c.coefficients| == |a|
  {
    HoldsInt(c.relation, Sum(c.coefficients, a, |a|), c.rhs)
  }

  ghost predicate Feasible(problem: BoundedIntegerProblem, a: seq<int>)
    requires WellFormed(problem)
  {
    InBox(problem, a) && forall k :: 0 <= k < |problem.constraints| ==> Holds(problem.constraints[k], a)
  }

  ghost function FeasibleSet(problem: BoundedIntegerProblem): (s: iset<seq<int>>)
    requires WellFormed(problem)
    ensures OfLength(s, |problem.variables|)
  {
    iset a | Feasible(problem, a)
  }

  ghost function Coefficients(problem: BoundedIntegerProblem): (c: seq<int>)
    ensures |c| == |problem.variables|
    ensures forall v :: 0 <= v < |c| ==> c[v] == problem.variables[v].objectiveCoefficient
  {
    seq(|problem.variables|, v requires 0 <= v < |problem.variables| => problem.variables[v].objectiveCoefficient)
  }

  ghost function ObjectiveOf(problem: BoundedIntegerProblem): Objective {
    a => if |a| == |problem.variables| then Sum(Coefficients(problem), a, |a|) else 0
  }

  /** The feasible points that extend a partial assignment. */
  ghost function Extensions(problem: BoundedIntegerProblem, p: Partial): (s: iset<seq<int>>)
    requires WellFormed(problem)
    ensures OfLength(s, |problem.variables|)
  {
    iset a | Feasible(problem, a) && Extends(a, p)
  }

  // ---- Bounds at a node ----

  predicate InBoxSoFar(problem: BoundedIntegerProblem, p: Partial) {
    && |p| == |problem.variables|
    && forall v :: 0 <= v < |p| && p[v].Some? ==> problem.variables[v].lower <= p[v].value <= problem.variables[v].upper
  }

  function LowOf(problem: BoundedIntegerProblem, p: Partial, v: nat): int
    requires v < |p| == |problem.variables|
  {
    if p[v].Some? then p[v].value else problem.variables[v].lower
  }

  function HighOf(problem: BoundedIntegerProblem, p: Partial, v: nat): int
    requires v < |p| == |problem.variables|
  {
    if p[v].Some? then p[v].value else problem.variables[v].upper
  }

  ghost function Lows(problem: BoundedIntegerProblem, p: Partial): (r: seq<int>)
    requires |p| == |problem.variables|
    ensures |r| == |p| && forall v :: 0 <= v < |r| ==> r[v] == LowOf(problem, p, v)
  {
    seq(|p|, v requires 0 <= v < |p| => LowOf(problem, p, v))
  }

  ghost function Highs(problem: BoundedIntegerProblem, p: Partial): (r: seq<int>)
    requires |p| == |problem.variables|
    ensures |r| == |p| && forall v :: 0 <= v < |r| ==> r[v] == HighOf(problem, p, v)
  {
    seq(|p|, v requires 0 <= v < |p| => HighOf(problem, p, v))
  }

  lemma {:induction false} ExtensionIsBetween(problem: BoundedIntegerProblem, p: Partial, a: seq<int>)
    requires |p| == |problem.variables| && InBox(problem, a) && Extends(a, p)
    ensures Between(Lows(problem, p), a, Highs(problem, p))
    ensures Complete(p) ==> Lows(problem, p) == a == Highs(problem, p)
  {
  }

  ghost predicate ConstraintPossible(problem: BoundedIntegerProblem, p: Partial, c: IntegerLinearConstraint)
    requires |p| == |problem.variables| == |c.coefficients|
  {
    var low, high := Lows(problem, p), Highs(problem, p);
    RelationPossible(c.relation, Least(c.coefficients, low, high, |p|), Greatest(c.coefficients, low, high, |p|), c.rhs)
  }

  ghost predicate AllPossible(problem: BoundedIntegerProblem, p: Partial)
    requires WellFormed(problem) && |p| == |problem.variables|
  {
    forall k :: 0 <= k < |problem.constraints| ==> ConstraintPossible(problem, p, problem.constraints[k])
  }

  method CheckConstraint(problem: BoundedIntegerProblem, p: array<Option<int>>, c: IntegerLinearConstraint) returns (possible: bool)
    requires p.Length == |problem.variables| == |c.coefficients|
    ensures possible <==> ConstraintPossible(problem, p[..], c)
  {
    var minimum, maximum := 0, 0;
    ghost var low, high := Lows(problem, p[..]), Highs(problem, p[..]);
    for v := 0 to p.Length
      invariant minimum == Least(c.coefficients, low, high, v) && maximum == Greatest(c.coefficients, low, high, v)
    {
      var least, greatest := problem.variables[v].lower, problem.variables[v].upper;
      if p[v].Some? {
        least, greatest := p[v].value, p[v].value;
      }
      assert low[v] == least && high[v] == greatest;
      minimum := minimum + TermLow(c.coefficients[v], least, greatest);
      maximum := maximum + TermHigh(c.coefficients[v], least, greatest);
    }
    possible := RelationPossible(c.relation, minimum, maximum, c.rhs);
  }

  method ConstraintsPossible(problem: BoundedIntegerProblem, p: array<Option<int>>) returns (possible: bool)
    requires WellFormed(problem) && p.Length == |problem.variables|
    ensures possible <==> AllPossible(problem, p[..])
  {
    for k := 0 to |problem.constraints|
      invariant forall j :: 0 <= j < k ==> ConstraintPossible(problem, p[..], problem.constraints[j])
    {
      possible := CheckConstraint(problem, p, problem.constraints[k]);
      if !possible {
        return false;
      }
    }
    return true;
  }

  /** The test never refutes a node with a feasible point below it. */
  lemma {:induction false} FeasibleBelowIsPossible(problem: BoundedIntegerProblem, p: Partial, a: seq<int>)
    requires WellFormed(problem) && |p| == |problem.variables| && a in Extensions(problem, p)
    ensures AllPossible(problem, p)
  {
    ExtensionIsBetween(problem, p, a);
    forall k | 0 <= k < |problem.constraints| ensures ConstraintPossible(problem, p, problem.constraints[k]) {
      var c := problem.constraints[k];
      assert Holds(c, a);
      BoundTest(c.coefficients, Lows(problem, p), a, Highs(problem, p), c.relation, c.rhs);
    }
  }

  /** At a leaf the test decides feasibility. */
  lemma {:induction false} PossibleLeafIsFeasible(problem: BoundedIntegerProblem, p: Partial, a: seq<int>)
    requires WellFormed(problem) && Complete(p) && InBoxSoFar(problem, p) && Extends(a, p) && AllPossible(problem, p)
    ensures Feasible(problem, a)
  {
    assert InBox(problem, a) by {
      forall v | 0 <= v < |a| ensures problem.variables[v].lower <= a[v] <= problem.variables[v].upper {
        assert p[v].Some?;
      }
    }
    ExtensionIsBetween(problem, p, a);
    forall k | 0 <= k < |problem.constraints| ensures Holds(problem.constraints[k], a) {
      var c := problem.constraints[k];
      assert ConstraintPossible(problem, p, c);
      BoundTest(c.coefficients, a, a, a, c.relation, c.rhs);
    }
  }

  /** Objective of the variables below `n` that have a value. */
  ghost function FixedSum(problem: BoundedIntegerProblem, p: Partial, n: nat): int
    requires n <= |p| == |problem.variables|
  {
    if n == 0 then 0
    else FixedSum(problem, p, n - 1) + if p[n - 1].Some? then problem.variables[n - 1].objectiveCoefficient * p[n - 1].value else 0
  }

  lemma {:induction false} FixedSumGrows(problem: BoundedIntegerProblem, p: Partial, v: nat, x: int, n: nat)
    requires n <= |p| == |problem.variables| && v < |p| && p[v] == None
    ensures FixedSum(problem, p[v := Some(x)], n)
         == FixedSum(problem, p, n) + if v < n then problem.variables[v].objectiveCoefficient * x else 0
  {
    if n > 0 {
      FixedSumGrows(problem, p, v, x, n - 1);
    }
  }

  lemma {:induction false} NothingFixedSum(problem: BoundedIntegerProblem, p: Partial, n: nat)
    requires n <= |p| == |problem.variables| && forall v :: 0 <= v < |p| ==> p[v] == None
    ensures FixedSum(problem, p, n) == 0
  {
    if n > 0 { NothingFixedSum(problem, p, n - 1); }
  }

  lemma {:induction false} CompleteFixedSum(problem: BoundedIntegerProblem, p: Partial, a: seq<int>, n: nat)
    requires n <= |p| == |problem.variables| && Complete(p) && Extends(a, p)
    ensures FixedSum(problem, p, n) == Sum(Coefficients(problem), a, n)
  {
    if n > 0 {
      CompleteFixedSum(problem, p, a, n - 1);
      assert p[n - 1].Some?;
    }
  }

  /** An upper bound for every completion: open variables take their better bound. */
  ghost function UpperBound(problem: BoundedIntegerProblem, p: Partial, n: nat): int
    requires n <= |p| == |problem.variables|
  {
    Greatest(Coefficients(problem), Lows(problem, p), Highs(problem, p), n)
  }

  method ObjectiveUpperBound(problem: BoundedIntegerProblem, p: array<Option<int>>, current: int) returns (upper: int)
    requires p.Length == |problem.variables| && current == FixedSum(problem, p[..], p.Length)
    ensures upper == UpperBound(problem, p[..], p.Length)
  {
    upper := current;
    ghost var low, high := Lows(problem, p[..]), Highs(problem, p[..]);
    for v := 0 to p.Length
      invariant upper == current - FixedSum(problem, p[..], v) + UpperBound(problem, p[..], v)
    {
      assert low[v] == LowOf(problem, p[..], v) && high[v] == HighOf(problem, p[..], v);
      if p[v].Some? { continue; }
      var variable := problem.variables[v];
      var chosen := if variable.objectiveCoefficient >= 0 then variable.upper else variable.lower;
      upper := upper + variable.objectiveCoefficient * chosen;
    }
  }

  lemma {:induction false} BelowIsBounded(problem: BoundedIntegerProblem, p: Partial, a: seq<int>)
    requires WellFormed(problem) && |p| == |problem.variables| && a in Extensions(problem, p)
    ensures ObjectiveOf(problem)(a) <= UpperBound(problem, p, |p|)
  {
    ExtensionIsBetween(problem, p, a);
    SumBetween(Coefficients(problem), Lows(problem, p), a, Highs(problem, p), |p|);
  }

  // ---- Order of the variables ----

  function Span(v: IntegerVariable): int {
    v.upper - v.lower + 1
  }

  function Impact(v: IntegerVariable): int {
    Abs(v.objectiveCoefficient) * Span(v)
  }

  /** Larger impact first, then smaller span, then smaller index. */
  predicate Before(problem: BoundedIntegerProblem, u: nat, v: nat)
    requires u < |problem.variables| && v < |problem.variables|
  {
    var left, right := problem.variables[u], problem.variables[v];
    || Impact(left) > Impact(right)
    || (Impact(left) == Impact(right) && (Span(left) < Span(right) || (Span(left) == Span(right) && u <= v)))
  }

  function OrderComparison(problem: BoundedIntegerProblem): Comparison {
    (u: nat, v: nat) => u < |problem.variables| && v < |problem.variables| && Before(problem, u, v)
  }

  /** The variable indices in search order. */
  function VariableOrder(problem: BoundedIntegerProblem): (r: seq<nat>)
    ensures |r| == |problem.variables| && forall v: nat :: v in r <==> v < |problem.variables|
    ensures forall i :: 0 <= i < |r| ==> r[i] < |problem.variables|
  {
    var r := SortIndices(OrderComparison(problem), |problem.variables|);
    assert forall i :: 0 <= i < |r| ==> r[i] in r;
    r
  }

  /** Larger objective coefficient times number of values first, then fewer values, then smaller index. */
  ghost predicate ComesBefore(problem: BoundedIntegerProblem, u: nat, v: nat)
    requires u < |problem.variables| && v < |problem.variables|
  {
    var (a, b) := (problem.variables[u], problem.variables[v]);
    var (m, n) := (a.upper - a.lower + 1, b.upper - b.lower + 1);
    var (p, q) := (Abs(a.objectiveCoefficient) * m, Abs(b.objectiveCoefficient) * n);
    p > q || (p == q && (m < n || (m == n && u < v)))
  }

  lemma {:induction false} VariableOrderIsSorted(problem: BoundedIntegerProblem)
    ensures Distinct(VariableOrder(problem))
    ensures forall i, j :: 0 <= i < j < |VariableOrder(problem)| ==>
              ComesBefore(problem, VariableOrder(problem)[i], VariableOrder(problem)[j])
  {
    SortIndicesOrders(OrderComparison(problem), |problem.variables|, |problem.variables|);
  }

  // ---- Search ----

  /** Exactly the first `depth` variables of the order have a value. */
  ghost predicate AtDepth(order: seq<nat>, p: Partial, depth: nat) {
    depth <= |order| && forall v: nat :: v < |p| ==> (p[v].Some? <==> v in order[..depth])
  }

  lemma {:induction false} NextDepth(order: seq<nat>, p: Partial, depth: nat, x: int)
    requires Distinct(order) && AtDepth(order, p, depth) && depth < |order| && order[depth] < |p|
    ensures p[order[depth]] == None && AtDepth(order, p[order[depth] := Some(x)], depth + 1)
  {
    assert order[..depth + 1] == order[..depth] + [order[depth]];
  }

  /** The points below `p` whose value at `v` is one of `values`. */
  ghost function ExtensionsWith(problem: BoundedIntegerProblem, p: Partial, v: nat, values: seq<int>): iset<seq<int>>
    requires WellFormed(problem) && v < |problem.variables|
  {
    iset a | Feasible(problem, a) && Extends(a, p) && a[v] in values
  }

  lemma {:induction false} ExtensionsSplit(problem: BoundedIntegerProblem, p: Partial, v: nat, values: seq<int>, k: nat)
    requires WellFormed(problem) && v < |problem.variables| == |p| && p[v] == None && k < |values|
    ensures ExtensionsWith(problem, p, v, values[..k + 1]) == ExtensionsWith(problem, p, v, values[..k]) + Extensions(problem, p[v := Some(values[k])])
  {
    forall a { ExtendsWithValue(a, p, v, values[k]); }
  }

  lemma {:induction false} SeenNext(problem: BoundedIntegerProblem, p: Partial, v: nat, values: seq<int>, k: nat,
                                     before: iset<seq<int>>, found: iset<seq<int>>, next: iset<seq<int>>)
    requires WellFormed(problem) && v < |problem.variables| == |p| && p[v] == None && k < |values|
    requires found == before + ExtensionsWith(problem, p, v, values[..k])
    requires next == found + Extensions(problem, p[v := Some(values[k])])
    ensures next == before + ExtensionsWith(problem, p, v, values[..k + 1])
  {
    ExtensionsSplit(problem, p, v, values, k);
  }

  lemma {:induction false} WholeSeen(problem: BoundedIntegerProblem, p: Partial, v: nat, values: seq<int>, before: iset<seq<int>>)
    requires WellFormed(problem) && v < |problem.variables|
    ensures before + ExtensionsWith(problem, p, v, values[..|values|]) == before + ExtensionsWith(problem, p, v, values)
  {
    assert values[..|values|] == values;
  }

  /** The values of a variable, the better one for the objective first. */
  method CandidateValues(variable: IntegerVariable) returns (values: seq<int>)
    requires variable.lower <= variable.upper
    ensures forall x :: x in values <==> variable.lower <= x <= variable.upper
    ensures |values| == Span(variable)
    ensures forall k :: 0 <= k < |values| ==>
              values[k] == if variable.objectiveCoefficient >= 0 then variable.upper - k else variable.lower + k
  {
    values := [];
    for k := 0 to Span(variable)
      invariant |values| == k
      invariant forall j :: 0 <= j < k ==>
        values[j] == if variable.objectiveCoefficient >= 0 then variable.upper - j else variable.lower + j
    {
      values := values + [if variable.objectiveCoefficient >= 0 then variable.upper - k else variable.lower + k];
    }
    forall x | variable.lower <= x <= variable.upper ensures x in values {
      var k := if variable.objectiveCoefficient >= 0 then variable.upper - x else x - variable.lower;
      assert values[k] == x;
    }
  }

  lemma {:induction false} AllValuesTried(problem: BoundedIntegerProblem, p: Partial, v: nat, values: seq<int>)
    requires WellFormed(problem) && v < |problem.variables|
    requires forall x :: x in values <==> problem.variables[v].lower <= x <= problem.variables[v].upper
    ensures ExtensionsWith(problem, p, v, values[..|values|]) == Extensions(problem, p)
  {
    assert values[..|values|] == values;
  }

  lemma {:induction false} LeafBelow(problem: BoundedIntegerProblem, p: Partial, a: seq<int>)
    requires WellFormed(problem) && Complete(p) && InBoxSoFar(problem, p) && Extends(a, p) && AllPossible(problem, p)
    ensures Extensions(problem, p) == iset{a} && ObjectiveOf(problem)(a) == FixedSum(problem, p, |p|)
  {
    PossibleLeafIsFeasible(problem, p, a);
    CompleteFixedSum(problem, p, a, |p|);
    forall b | b in Extensions(problem, p) ensures b == a {
      assert forall v :: 0 <= v < |p| ==> p[v].Some? && b[v] == a[v];
    }
  }

  /** The nodes of the full search tree from `depth` on, with one child for every value of the next variable. */
  ghost function TreeNodes(problem: BoundedIntegerProblem, depth: nat): nat
    requires WellFormed(problem)
    decreases |problem.variables| - depth
  {
    if depth >= |problem.variables| then 1
    else 1 + Multiple(Span(problem.variables[VariableOrder(problem)[depth]]), TreeNodes(problem, depth + 1))
  }

  /** Value `k` of `n` spends no more than its share of the tree. */
  lemma ShareSpent(before: nat, spent: nat, below: nat, k: nat, n: nat)
    requires k < n && spent <= before + Multiple(k, below)
    ensures spent + below <= before + Multiple(k + 1, below) <= before + Multiple(n, below)
  {
    MultipleNext(k, below);
    MultipleMonotone(k + 1, n, below);
  }

  class IntegerSearch {
    const problem: BoundedIntegerProblem
    const order: seq<nat>
    const assignment: array<Option<int>>
    var bestValues: Option<seq<int>>
    var bestObjective: int
    var exploredNodes: nat
    var prunedNodes: nat
    /** The feasible points accounted for so far. */
    ghost var seen: iset<seq<int>>

    constructor (problem: BoundedIntegerProblem)
      requires ValidProblem(problem)
      ensures this.problem == problem && fresh(assignment) && Valid() && exploredNodes == 0
      ensures seen == iset{} && AtDepth(order, assignment[..], 0)
    {
      this.problem := problem;
      order := VariableOrder(problem);
      assignment := new Option<int>[|problem.variables|](_ => None);
      bestValues, bestObjective := None, 0;
      exploredNodes, prunedNodes, seen := 0, 0, iset{};
      new;
      VariableOrderIsSorted(problem);
    }

    ghost predicate Valid()
      reads this, assignment
    {
      && WellFormed(problem) && order == VariableOrder(problem) && Distinct(order)
      && InBoxSoFar(problem, assignment[..])
      && exploredNodes <= problem.maximumNodes && prunedNodes <= exploredNodes
      && Incumbent(seen, |problem.variables|, ObjectiveOf(problem), bestValues)
      && (bestValues.Some? ==> bestObjective == ObjectiveOf(problem)(bestValues.value))
    }

    /** No feasible point below `p` can beat the incumbent. */
    ghost predicate Hopeless(p: Partial)
      requires WellFormed(problem)
      reads this
    {
      forall a :: a in Extensions(problem, p) ==> bestValues.Some? && ObjectiveOf(problem)(a) < bestObjective
    }

    method Prune()
      requires Valid() && Hopeless(assignment[..]) && prunedNodes < exploredNodes
      modifies this`prunedNodes, this`seen
      ensures Valid() && seen == old(seen) + Extensions(problem, assignment[..])
    {
      IncumbentStays(seen, Extensions(problem, assignment[..]), |problem.variables|, ObjectiveOf(problem), bestValues);
      seen := seen + Extensions(problem, assignment[..]);
      prunedNodes := prunedNodes + 1;
    }

    lemma RefutedIsHopeless()
      requires WellFormed(problem) && assignment.Length == |problem.variables| && !AllPossible(problem, assignment[..])
      ensures Hopeless(assignment[..])
    {
      forall a ensures a !in Extensions(problem, assignment[..]) {
        if a in Extensions(problem, assignment[..]) {
          FeasibleBelowIsPossible(problem, assignment[..], a);
        }
      }
    }

    lemma DominatedIsHopeless()
      requires WellFormed(problem) && assignment.Length == |problem.variables|
      requires bestValues.Some? && UpperBound(problem, assignment[..], assignment.Length) < bestObjective
      ensures Hopeless(assignment[..])
    {
      forall a | a in Extensions(problem, assignment[..]) ensures ObjectiveOf(problem)(a) < bestObjective {
        BelowIsBounded(problem, assignment[..], a);
      }
    }

    /** Accounts for every feasible point below the current node; fails only on a used-up budget. */
    method Search(depth: nat, currentObjective: int) returns (e: Option<IntegerSolverError>)
      requires Valid() && AtDepth(order, assignment[..], depth)
      requires currentObjective == FixedSum(problem, assignment[..], assignment.Length)
      modifies this, assignment
      ensures e == None ==> Valid() && assignment[..] == old(assignment[..])
      ensures e == None ==> seen == old(seen) + Extensions(problem, old(assignment[..]))
      ensures e.Some? ==> e == Some(NodeBudgetExceeded(problem.maximumNodes)) && exploredNodes == problem.maximumNodes + 1
      ensures exploredNodes <= old(exploredNodes) + TreeNodes(problem, depth)
      decreases |order| - depth, 3
    {
      exploredNodes := exploredNodes + 1;
      if exploredNodes > problem.maximumNodes {
        return Some(NodeBudgetExceeded(exploredNodes - 1));
      }
      var possible := ConstraintsPossible(problem, assignment);
      if !possible {
        RefutedIsHopeless();
        Prune();
        return None;
      }
      var optimistic := ObjectiveUpperBound(problem, assignment, currentObjective);
      if bestValues.Some? && optimistic < bestObjective {
        DominatedIsHopeless();
        Prune();
        return None;
      }
      if depth == |order| {
        Leaf(currentObjective);
        return None;
      }
      e := Branch(depth, currentObjective);
    }

    /** A complete assignment that passed the tests replaces the incumbent if it is better. */
    method Leaf(currentObjective: int)
      requires Valid() && AtDepth(order, assignment[..], |order|) && AllPossible(problem, assignment[..])
      requires currentObjective == FixedSum(problem, assignment[..], assignment.Length)
      modifies this`bestValues, this`bestObjective, this`seen
      ensures Valid() && seen == old(seen) + Extensions(problem, assignment[..])
    {
      assert order[..|order|] == order;
      var values := Values(assignment);
      LeafBelow(problem, assignment[..], values);
      IncumbentMeetsLeaf(seen, |problem.variables|, ObjectiveOf(problem), bestValues, values);
      seen := seen + iset{values};
      if Replaces(bestValues, bestObjective, values, currentObjective) {
        bestObjective := currentObjective;
        bestValues := Some(values);
      }
    }

    /** Tries every value of the next variable. */
    method Branch(depth: nat, currentObjective: int) returns (e: Option<IntegerSolverError>)
      requires Valid() && AtDepth(order, assignment[..], depth) && depth < |order|
      requires currentObjective == FixedSum(problem, assignment[..], assignment.Length)
      modifies this, assignment
      ensures e == None ==> Valid() && assignment[..] == old(assignment[..])
      ensures e == None ==> seen == old(seen) + Extensions(problem, old(assignment[..]))
      ensures e.Some? ==> e == Some(NodeBudgetExceeded(problem.maximumNodes)) && exploredNodes == problem.maximumNodes + 1
      ensures exploredNodes < old(exploredNodes) + TreeNodes(problem, depth)
      decreases |order| - depth, 2
    {
      ghost var p := assignment[..];
      var index := order[depth];
      var values := CandidateValues(problem.variables[index]);
      NextDepth(order, p, depth, 0);
      e := TryValues(depth, values, currentObjective);
      AllValuesTried(problem, p, index, values);
    }

    /** Searches below each of the listed values of the next variable. */
    method TryValues(depth: nat, values: seq<int>, currentObjective: int) returns (e: Option<IntegerSolverError>)
      requires Valid() && AtDepth(order, assignment[..], depth) && depth < |order| && assignment[order[depth]] == None
      requires currentObjective == FixedSum(problem, assignment[..], assignment.Length)
      requires forall k :: 0 <= k < |values| ==> problem.variables[order[depth]].lower <= values[k] <= problem.variables[order[depth]].upper
      modifies this, assignment
      ensures e == None ==> Valid() && assignment[..] == old(assignment[..])
      ensures e == None ==> seen == old(seen) + ExtensionsWith(problem, old(assignment[..]), order[depth], values)
      ensures e.Some? ==> e == Some(NodeBudgetExceeded(problem.maximumNodes)) && exploredNodes == problem.maximumNodes + 1
      ensures exploredNodes <= old(exploredNodes) + Multiple(|values|, TreeNodes(problem, depth + 1))
      decreases |order| - depth, 1
    {
      ghost var p, start, below := assignment[..], exploredNodes, TreeNodes(problem, depth + 1);
      ghost var index := order[depth];
      for k := 0 to |values|
        invariant Valid() && assignment[..] == p
        invariant seen == old(seen) + ExtensionsWith(problem, p, index, values[..k])
        invariant exploredNodes <= start + Multiple(k, below)
      {
        ghost var found := seen;
        ShareSpent(start, exploredNodes, below, k, |values|);
        e := TryValue(depth, values[k], currentObjective);
        if e.Some? {
          return;
        }
        SeenNext(problem, p, index, values, k, old(seen), found, seen);
      }
      WholeSeen(problem, p, index, values, old(seen));
      return None;
    }

    /** Searches below one value of the next variable and takes the value back. */
    method TryValue(depth: nat, value: int, currentObjective: int) returns (e: Option<IntegerSolverError>)
      requires Valid() && AtDepth(order, assignment[..], depth) && depth < |order|
      requires currentObjective == FixedSum(problem, assignment[..], assignment.Length)
      requires problem.variables[order[depth]].lower <= value <= problem.variables[order[depth]].upper
      modifies this, assignment
      ensures e == None ==> Valid() && assignment[..] == old(assignment[..])
      ensures e == None ==> seen == old(seen) + Extensions(problem, old(assignment[..])[order[depth] := Some(value)])
      ensures e.Some? ==> e == Some(NodeBudgetExceeded(problem.maximumNodes)) && exploredNodes == problem.maximumNodes + 1
      ensures exploredNodes <= old(exploredNodes) + TreeNodes(problem, depth + 1)
      decreases |order| - depth, 0
    {
      ghost var p := assignment[..];
      var index := order[depth];
      NextDepth(order, p, depth, value);
      FixedSumGrows(problem, p, index, value, |p|);
      assignment[index] := Some(value);
      assert assignment[..] == p[index := Some(value)];
      e := Search(depth + 1, currentObjective + problem.variables[index].objectiveCoefficient * value);
      if e.Some? {
        return;
      }
      assignment[index] := None;
      assert assignment[..] == p;
    }
  }

  // ---- The solver ----

  ghost predicate FirstBadBounds(problem: BoundedIntegerProblem, v: nat) {
    && v < |problem.variables| && problem.variables[v].lower > problem.variables[v].upper
    && forall w :: 0 <= w < v ==> problem.variables[w].lower <= problem.variables[w].upper
  }

  /** The checks in order: size, node budget, bounds, widths. */
  ghost predicate ValidationOutcome(problem: BoundedIntegerProblem, e: Option<IntegerSolverError>) {
    if problem.variables == [] then e == Some(EmptyProblem)
    else if problem.maximumNodes == 0 then e == Some(InvalidNodeBudget)
    else if exists v: nat :: FirstBadBounds(problem, v) then exists v: nat :: FirstBadBounds(problem, v) && e == Some(InvalidBounds(v))
    else if !WellFormed(problem) then e == Some(ConstraintWidthMismatch)
    else e == None
  }

  method Validate(problem: BoundedIntegerProblem) returns (e: Option<IntegerSolverError>)
    ensures (e == None <==> ValidProblem(problem)) && ValidationOutcome(problem, e)
  {
    if problem.variables == [] {
      return Some(EmptyProblem);
    }
    if problem.maximumNodes == 0 {
      return Some(InvalidNodeBudget);
    }
    for v := 0 to |problem.variables|
      invariant forall w :: 0 <= w < v ==> problem.variables[w].lower <= problem.variables[w].upper
    {
      if problem.variables[v].lower > problem.variables[v].upper {
        assert FirstBadBounds(problem, v);
        return Some(InvalidBounds(v));
      }
    }
    for k := 0 to |problem.constraints|
      invariant forall j :: 0 <= j < k ==> |problem.constraints[j].coefficients| == |problem.variables|
    {
      if |problem.constraints[k].coefficients| != |problem.variables| {
        return Some(ConstraintWidthMismatch);
      }
    }
    return None;
  }

  /** The size of the full search tree of a problem. */
  ghost function FullTree(problem: BoundedIntegerProblem): nat
    requires WellFormed(problem)
  {
    TreeNodes(problem, 0)
  }

  /** The lexicographically smallest of the feasible points of maximum objective, or proof that none exists;
      the budget error comes only if the full search tree exceeds the budget. */
  ghost predicate SolveOutcome(problem: BoundedIntegerProblem, r: Result<BoundedIntegerSolution, IntegerSolverError>)
    requires WellFormed(problem)
  {
    match r
    case Ok(solution) =>
      && IsBest(FeasibleSet(problem), |problem.variables|, ObjectiveOf(problem), solution.values)
      && solution.objectiveValue == ObjectiveOf(problem)(solution.values)
      && solution.prunedNodes <= solution.exploredNodes <= problem.maximumNodes
    case Err(e) =>
      || (e == NodeBudgetExceeded(problem.maximumNodes) && problem.maximumNodes < FullTree(problem))
      || (e == NoFeasibleSolution && FeasibleSet(problem) == iset{})
  }

  lemma {:induction false} EverythingExtendsNothing(problem: BoundedIntegerProblem, p: Partial)
    requires WellFormed(problem) && |p| == |problem.variables| && forall v :: 0 <= v < |p| ==> p[v] == None
    ensures Extensions(problem, p) == FeasibleSet(problem)
  {
  }

  method SolveBoundedInteger(problem: BoundedIntegerProblem) returns (r: Result<BoundedIntegerSolution, IntegerSolverError>)
    ensures ValidProblem(problem) ==> SolveOutcome(problem, r)
    ensures !ValidProblem(problem) ==> r.Err? && ValidationOutcome(problem, Some(r.error))
  {
    var e := Validate(problem);
    if e.Some? {
      return Err(e.value);
    }
    var state := new IntegerSearch(problem);
    NothingFixedSum(problem, state.assignment[..], state.assignment.Length);
    e := state.Search(0, 0);
    if e.Some? {
      return Err(e.value);
    }
    EverythingExtendsNothing(problem, state.assignment[..]);
    if state.bestValues == None {
      return Err(NoFeasibleSolution);
    }
    return Ok(BoundedIntegerSolution(state.bestValues.value, state.bestObjective, state.exploredNodes, state.prunedNodes));
  }
}
