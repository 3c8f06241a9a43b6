/** Backtracking search for a solution of a finite-domain problem. */
module FiniteDomainSearch {
  import opened Wrappers
  import opened Finite
  import opened Sorting
  import opened Filtering
  import opened LinearBounds
  import opened FiniteDomainProblems
  import opened PartialAssignments
  import opened OpenVariables

  datatype SolverError =
    | EmptyProblem
    | InvalidNodeBudget
    | NodeBudgetExceeded(exploredNodes: nat)
    | NoFeasibleSolution
    | EmptyDomain(variable: nat)
    | InvalidVariableIndex(index: nat)
    | InvalidConstraint

  datatype FiniteDomainSolution = FiniteDomainSolution(values: seq<int>, exploredNodes: nat, backtracks: nat)

  // ---- Tests on partial assignments ----

  predicate BothAssigned(p: Partial, u: nat, v: nat)
    requires u < |p| && v < |p|
  {
    p[u].Some? && p[v].Some?
  }

  ghost predicate DistinctSoFar(p: Partial, variables: seq<nat>, n: nat)
    requires ValidIndices(variables, |p|) && n <= |variables|
  {
    forall i, j :: 0 <= i < j < n && BothAssigned(p, variables[i], variables[j]) ==> p[variables[i]] != p[variables[j]]
  }

  /** One of the first `n` listed variables has value `x`. */
  ghost predicate Taken(p: Partial, variables: seq<nat>, n: nat, x: int)
    requires ValidIndices(variables, |p|) && n <= |variables|
  {
    exists i :: 0 <= i < n && p[variables[i]] == Some(x)
  }

  lemma TakenNext(p: Partial, variables: seq<nat>, k: nat)
    requires ValidIndices(variables, |p|) && k < |variables|
    ensures forall x :: Taken(p, variables, k + 1, x) <==> Taken(p, variables, k, x) || p[variables[k]] == Some(x)
    ensures DistinctSoFar(p, variables, k + 1) <==>
              DistinctSoFar(p, variables, k) && (p[variables[k]].Some? ==> !Taken(p, variables, k, p[variables[k]].value))
  {
    if p[variables[k]].Some? && Taken(p, variables, k, p[variables[k]].value) {
      var i :| 0 <= i < k && p[variables[i]] == Some(p[variables[k]].value);
      assert BothAssigned(p, variables[i], variables[k]);
    }
  }

  method AllDifferentPossible(p: array<Option<int>>, variables: seq<nat>) returns (ok: bool)
    requires ValidIndices(variables, p.Length)
    ensures ok <==> DistinctSoFar(p[..], variables, |variables|)
  {
    var seen: seq<int> := [];
    for k := 0 to |variables|
      invariant DistinctSoFar(p[..], variables, k)
      invariant forall x :: x in seen <==> Taken(p[..], variables, k, x)
    {
      TakenNext(p[..], variables, k);
      var variable := variables[k];
      if p[variable].Some? {
        if p[variable].value in seen {
          assert !DistinctSoFar(p[..], variables, k + 1);
          return false;
        }
        seen := seen + [p[variable].value];
      }
    }
    return true;
  }

  ghost predicate SeparateSoFar(p: Partial, variables: seq<nat>, durations: seq<int>, i: nat, j: nat)
    requires ValidIndices(variables, |p|) && |variables| == |durations| && i < |variables| && j < |variables|
  {
    BothAssigned(p, variables[i], variables[j]) ==> !Overlap(p[variables[i]].value, durations[i], p[variables[j]].value, durations[j])
  }

  method NoOverlapPossible(p: array<Option<int>>, starts: seq<nat>, durations: seq<int>) returns (ok: bool)
    requires ValidIndices(starts, p.Length) && |starts| == |durations|
    ensures ok <==> forall i, j :: 0 <= i < j < |starts| ==> SeparateSoFar(p[..], starts, durations, i, j)
  {
    for left := 0 to |starts|
      invariant forall i, j :: 0 <= i < j < |starts| && i < left ==> SeparateSoFar(p[..], starts, durations, i, j)
    {
      if p[starts[left]] == None { continue; }
      var leftStart := p[starts[left]].value;
      var leftEnd := leftStart + durations[left];
      for right := left + 1 to |starts|
        invariant forall j :: left < j < right ==> SeparateSoFar(p[..], starts, durations, left, j)
      {
        if p[starts[right]] == None { continue; }
        var rightStart := p[starts[right]].value;
        var rightEnd := rightStart + durations[right];
        if leftStart < rightEnd && rightStart < leftEnd {
          assert !SeparateSoFar(p[..], starts, durations, left, right);
          return false;
        }
      }
    }
    return true;
  }

  function Minimum(s: seq<int>): (m: int)
    requires s != []
    ensures m in s && forall x :: x in s ==> m <= x
  {
    if |s| == 1 then s[0]
    else
      SplitLast(s);
      var m := Minimum(s[..|s| - 1]);
      if s[|s| - 1] < m then s[|s| - 1] else m
  }

  function Maximum(s: seq<int>): (m: int)
    requires s != []
    ensures m in s && forall x :: x in s ==> x <= m
  {
    if |s| == 1 then s[0]
    else
      SplitLast(s);
      var m := Maximum(s[..|s| - 1]);
      if s[|s| - 1] > m then s[|s| - 1] else m
  }

  /** The least value variable `v` can still take. */
  function LowOf(domains: Domains, p: Partial, v: nat): int
    requires v < |domains| == |p| && domains[v] != []
  {
    if p[v].Some? then p[v].value else Minimum(domains[v])
  }

  function HighOf(domains: Domains, p: Partial, v: nat): int
    requires v < |domains| == |p| && domains[v] != []
  {
    if p[v].Some? then p[v].value else Maximum(domains[v])
  }

  ghost function Lows(domains: Domains, p: Partial, variables: seq<nat>): (r: seq<int>)
    requires |domains| == |p| && NoneEmpty(domains) && ValidIndices(variables, |p|)
    ensures |r| == |variables| && forall i :: 0 <= i < |r| ==> r[i] == LowOf(domains, p, variables[i])
  {
    seq(|variables|, i requires 0 <= i < |variables| => LowOf(domains, p, variables[i]))
  }

  ghost function Highs(domains: Domains, p: Partial, variables: seq<nat>): (r: seq<int>)
    requires |domains| == |p| && NoneEmpty(domains) && ValidIndices(variables, |p|)
    ensures |r| == |variables| && forall i :: 0 <= i < |r| ==> r[i] == HighOf(domains, p, variables[i])
  {
    seq(|variables|, i requires 0 <= i < |variables| => HighOf(domains, p, variables[i]))
  }

  method LinearPossible(domains: Domains, p: array<Option<int>>, c: FiniteDomainConstraint) returns (ok: bool)
    requires c.Linear? && WellFormed(c, p.Length) && |domains| == p.Length && NoneEmpty(domains)
    ensures ok <==> BoundsPossible(c, Lows(domains, p[..], c.variables), Highs(domains, p[..], c.variables))
  {
    var minimum, maximum := 0, 0;
    ghost var low, high := Lows(domains, p[..], c.variables), Highs(domains, p[..], c.variables);
    for k := 0 to |c.variables|
      invariant minimum == Least(c.coefficients, low, high, k) && maximum == Greatest(c.coefficients, low, high, k)
    {
      var variable, coefficient := c.variables[k], c.coefficients[k];
      assert low[k] == LowOf(domains, p[..], variable) && high[k] == HighOf(domains, p[..], variable);
      if p[variable].Some? {
        var term := coefficient * p[variable].value;
        minimum, maximum := minimum + term, maximum + term;
      } else {
        var least, greatest := Minimum(domains[variable]), Maximum(domains[variable]);
        minimum := minimum + TermLow(coefficient, least, greatest);
        maximum := maximum + TermHigh(coefficient, least, greatest);
      }
    }
    ok := RelationPossible(c.relation, minimum, maximum, c.rhs);
  }

  /** The test applied to one constraint. */
  ghost predicate Possible(domains: Domains, p: Partial, c: FiniteDomainConstraint)
    requires |domains| == |p| && NoneEmpty(domains) && WellFormed(c, |p|)
  {
    match c
    case AllDifferent(variables) => DistinctSoFar(p, variables, |variables|)
    case Linear(variables, _, _, _) => BoundsPossible(c, Lows(domains, p, variables), Highs(domains, p, variables))
    case NoOverlap(variables, durations) =>
      forall i, j :: 0 <= i < j < |variables| ==> SeparateSoFar(p, variables, durations, i, j)
  }

  ghost predicate AllPossible(domains: Domains, p: Partial, constraints: seq<FiniteDomainConstraint>)
    requires |domains| == |p| && NoneEmpty(domains) && AllWellFormed(constraints, |p|)
  {
    forall k :: 0 <= k < |constraints| ==> Possible(domains, p, constraints[k])
  }

  method ConstraintsPossible(domains: Domains, constraints: seq<FiniteDomainConstraint>, p: array<Option<int>>) returns (ok: bool)
    requires |domains| == p.Length && NoneEmpty(domains) && AllWellFormed(constraints, p.Length)
    ensures ok <==> AllPossible(domains, p[..], constraints)
  {
    for k := 0 to |constraints|
      invariant forall j :: 0 <= j < k ==> Possible(domains, p[..], constraints[j])
    {
      var c := constraints[k];
      var possible: bool;
      match c {
        case AllDifferent(variables) => possible := AllDifferentPossible(p, variables);
        case Linear(_, _, _, _) => possible := LinearPossible(domains, p, c);
        case NoOverlap(variables, durations) => possible := NoOverlapPossible(p, variables, durations);
      }
      assert possible <==> Possible(domains, p[..], c);
      if !possible {
        return false;
      }
    }
    return true;
  }

  /** The test accepts every partial assignment that a solution extends. */
  lemma SolutionPassesTest(domains: Domains, p: Partial, c: FiniteDomainConstraint, a: seq<int>)
    requires |domains| == |p| && NoneEmpty(domains) && WellFormed(c, |p|)
    requires InDomains(domains, a) && Extends(a, p) && Holds(c, a)
    ensures Possible(domains, p, c)
  {
    var x := ValuesOf(a, c.variables);
    match c {
      case AllDifferent(_) =>
      case Linear(variables, coefficients, relation, rhs) =>
        forall v | 0 <= v < |p| ensures LowOf(domains, p, v) <= a[v] <= HighOf(domains, p, v) {
          assert a[v] in domains[v];
        }
        BoundTest(coefficients, Lows(domains, p, variables), x, Highs(domains, p, variables), relation, rhs);
      case NoOverlap(_, _) =>
    }
  }

  /** On a complete assignment the test decides the constraint. */
  lemma CompleteTestIsExact(domains: Domains, p: Partial, c: FiniteDomainConstraint, a: seq<int>)
    requires |domains| == |p| && NoneEmpty(domains) && WellFormed(c, |p|)
    requires Complete(p) && Extends(a, p) && Possible(domains, p, c)
    ensures Holds(c, a)
  {
    var x := ValuesOf(a, c.variables);
    match c {
      case AllDifferent(variables) =>
        forall i, j | 0 <= i < j < |x| ensures x[i] != x[j] {
          assert BothAssigned(p, variables[i], variables[j]);
        }
      case Linear(variables, coefficients, relation, rhs) =>
        assert Lows(domains, p, variables) == x == Highs(domains, p, variables);
        BoundTest(coefficients, x, x, x, relation, rhs);
      case NoOverlap(variables, durations) =>
        forall i, j | 0 <= i < j < |x| ensures !Overlap(x[i], durations[i], x[j], durations[j]) {
          assert SeparateSoFar(p, variables, durations, i, j);
        }
    }
  }

  lemma SolutionPassesAll(domains: Domains, p: Partial, constraints: seq<FiniteDomainConstraint>, a: seq<int>)
    requires |domains| == |p| && NoneEmpty(domains) && AllWellFormed(constraints, |p|)
    requires Solution(domains, constraints, a) && Extends(a, p)
    ensures AllPossible(domains, p, constraints)
  {
    forall k | 0 <= k < |constraints| ensures Possible(domains, p, constraints[k]) {
      SolutionPassesTest(domains, p, constraints[k], a);
    }
  }

  lemma CompleteIsSolution(domains: Domains, p: Partial, constraints: seq<FiniteDomainConstraint>, a: seq<int>)
    requires |domains| == |p| && NoneEmpty(domains) && AllWellFormed(constraints, |p|) && FromDomains(domains, p)
    requires Complete(p) && Extends(a, p) && AllPossible(domains, p, constraints)
    ensures Solution(domains, constraints, a)
  {
    forall v | 0 <= v < |a| ensures a[v] in domains[v] {
      assert p[v].Some?;
    }
    forall k | 0 <= k < |constraints| ensures Holds(constraints[k], a) {
      CompleteTestIsExact(domains, p, constraints[k], a);
    }
  }

  // ---- Which solution is found first ----

  /** Up to variable `w` in the order of `ComesFirst` the two agree, and there `a` has the smaller value. */
  ghost predicate DiffersFirst(domains: Domains, a: seq<int>, b: seq<int>, w: nat)
    requires |a| == |b| == |domains|
  {
    w < |domains| && a[w] < b[w] && forall u: nat :: u < |domains| && ComesFirst(domains, u, w) ==> a[u] == b[u]
  }

  /** `a` is lexicographically smaller than `b` when the variables are read in the order of `ComesFirst`. */
  ghost predicate FoundBefore(domains: Domains, a: seq<int>, b: seq<int>)
    requires |a| == |b| == |domains|
  {
    exists w: nat :: DiffersFirst(domains, a, b, w)
  }

  /** Every other solution that extends `p` comes later. */
  ghost predicate FirstSolution(problem: FiniteDomainProblem, p: Partial, a: seq<int>)
    requires AllWellFormed(problem.constraints, |problem.domains|) && Solves(problem, a)
  {
    forall b :: Solves(problem, b) && Extends(b, p) && b != a ==> FoundBefore(problem.domains, a, b)
  }

  // ---- Search ----

  type SearchResult = Result<Option<seq<int>>, SolverError>

  /** A value found is the first solution extending `p`; finding nothing means there is none; failure means the budget is used up. */
  ghost predicate SearchOutcome(problem: FiniteDomainProblem, p: Partial, r: SearchResult)
    requires AllWellFormed(problem.constraints, |problem.domains|)
  {
    match r
    case Ok(Some(a)) => Solves(problem, a) && Extends(a, p) && FirstSolution(problem, p, a)
    case Ok(None) => forall a :: Solves(problem, a) ==> !Extends(a, p)
    case Err(e) => e == NodeBudgetExceeded(problem.maximumNodes)
  }

  class Backtracker {
    const problem: FiniteDomainProblem
    const assignment: array<Option<int>>
    var exploredNodes: nat
    var backtracks: nat

    constructor (problem: FiniteDomainProblem)
      ensures this.problem == problem && exploredNodes == 0 && backtracks == 0
      ensures fresh(assignment) && assignment.Length == |problem.domains|
      ensures forall v :: 0 <= v < assignment.Length ==> assignment[v] == None
    {
      this.problem := problem;
      assignment := new Option<int>[|problem.domains|](_ => None);
      exploredNodes, backtracks := 0, 0;
    }

    ghost predicate Valid()
      reads this, assignment
    {
      && assignment.Length == |problem.domains| && NoneEmpty(problem.domains)
      && AllWellFormed(problem.constraints, |problem.domains|)
      && FromDomains(problem.domains, assignment[..])
      && exploredNodes <= problem.maximumNodes
    }

    /** Depth-first search below the current assignment, which is restored when nothing is found. */
    method Search() returns (r: SearchResult)
      requires Valid()
      modifies this, assignment
      ensures SearchOutcome(problem, old(assignment[..]), r)
      ensures r == Ok(None) ==> assignment[..] == old(assignment[..])
      ensures r.Ok? ==> old(exploredNodes) < exploredNodes <= problem.maximumNodes
      ensures r.Err? ==> exploredNodes == problem.maximumNodes + 1
      ensures exploredNodes <= old(exploredNodes) + TreeNodes(problem.domains, OpenSet(old(assignment[..])))
      decreases Open(assignment[..]), 2
    {
      ghost var p := assignment[..];
      exploredNodes := exploredNodes + 1;
      if exploredNodes > problem.maximumNodes {
        return Err(NodeBudgetExceeded(exploredNodes - 1));
      }
      forall a | Solves(problem, a) && Extends(a, p)
        ensures AllPossible(problem.domains, p, problem.constraints)
      {
        SolutionPassesAll(problem.domains, p, problem.constraints, a);
      }
      var possible := ConstraintsPossible(problem.domains, problem.constraints, assignment);
      if !possible {
        backtracks := backtracks + 1;
        return Ok(None);
      }
      var choice := SelectOpen(problem.domains, assignment);
      if choice == None {
        var a := Values(assignment);
        CompleteIsSolution(problem.domains, p, problem.constraints, a);
        forall b | Extends(b, p) ensures b == a { CompleteHasOneExtension(p, a, b); }
        return Ok(Some(a));
      }
      r := TryValues(choice.value);
      if r == Ok(None) {
        backtracks := backtracks + 1;
      }
    }

    /** Tries the values of the first open variable in increasing order. */
    method TryValues(variable: nat) returns (r: SearchResult)
      requires Valid() && SmallestOpen(problem.domains, assignment[..], variable)
      modifies this, assignment
      ensures SearchOutcome(problem, old(assignment[..]), r)
      ensures r == Ok(None) ==> assignment[..] == old(assignment[..])
      ensures r.Ok? ==> old(exploredNodes) <= exploredNodes <= problem.maximumNodes
      ensures r.Err? ==> exploredNodes == problem.maximumNodes + 1
      ensures exploredNodes < old(exploredNodes) + TreeNodes(problem.domains, OpenSet(old(assignment[..])))
      decreases Open(assignment[..]), 1
    {
      ghost var p, start := assignment[..], exploredNodes;
      var values := SortDedup(problem.domains[variable]);
      ghost var below := TreeNodes(problem.domains, OpenSet(p[variable := Some(0)]));
      TreeBranches(problem.domains, p, variable, 0);
      for k := 0 to |values|
        invariant Valid() && assignment[..] == p && start <= exploredNodes <= start + Multiple(k, below)
        invariant NoSolutionWith(problem, p, variable, values[..k])
      {
        assert values[k] in values;
        ghost var before := exploredNodes;
        r := TryValue(variable, values[k]);
        BranchSpent(problem.domains, p, variable, values[k], before, exploredNodes, below, k, |values|);
        if r != Ok(None) {
          FoundInValue(problem, p, variable, values, k, r);
          return;
        }
        NoSolutionNext(problem, p, variable, values, k);
      }
      assert values[..|values|] == values;
      return Ok(None);
    }

    /** Assigns one value, searches, and takes the value back if nothing is found. */
    method TryValue(variable: nat, x: int) returns (r: SearchResult)
      requires Valid() && variable < assignment.Length && assignment[variable] == None && x in problem.domains[variable]
      modifies this, assignment
      ensures SearchOutcome(problem, old(assignment[..])[variable := Some(x)], r)
      ensures r == Ok(None) ==> Valid() && assignment[..] == old(assignment[..])
      ensures r.Ok? ==> old(exploredNodes) <= exploredNodes <= problem.maximumNodes
      ensures r.Err? ==> exploredNodes == problem.maximumNodes + 1
      ensures exploredNodes <= old(exploredNodes) + TreeNodes(problem.domains, OpenSet(old(assignment[..])[variable := Some(x)]))
      decreases Open(assignment[..]), 0
    {
      ghost var p := assignment[..];
      assignment[variable] := Some(x);
      assert assignment[..] == p[variable := Some(x)];
      AssigningClosesOne(p, variable, x);
      r := Search();
      if r == Ok(None) {
        assignment[variable] := None;
        assert assignment[..] == p;
      }
    }
  }

  /** No solution extends `p` and gives `variable` one of the values. */
  ghost predicate NoSolutionWith(problem: FiniteDomainProblem, p: Partial, variable: nat, values: seq<int>)
    requires AllWellFormed(problem.constraints, |problem.domains|) && variable < |problem.domains| == |p|
  {
    forall a :: Solves(problem, a) && Extends(a, p) ==> a[variable] !in values
  }

  lemma NoSolutionNext(problem: FiniteDomainProblem, p: Partial, variable: nat, values: seq<int>, k: nat)
    requires AllWellFormed(problem.constraints, |problem.domains|) && variable < |problem.domains| == |p| && k < |values|
    requires p[variable] == None && NoSolutionWith(problem, p, variable, values[..k])
    requires SearchOutcome(problem, p[variable := Some(values[k])], Ok(None))
    ensures NoSolutionWith(problem, p, variable, values[..k + 1])
  {
    forall a | Solves(problem, a) && Extends(a, p) ensures a[variable] !in values[..k + 1] {
      assert !Extends(a, p[variable := Some(values[k])]);
    }
  }

  /** Child `k` spends no more than its share of the tree. */
  lemma {:induction false} BranchSpent(domains: Domains, p: Partial, variable: nat, x: int, before: nat, after: nat, below: nat, k: nat, n: nat)
    requires SmallestOpen(domains, p, variable) && k < n
    requires below == TreeNodes(domains, OpenSet(p[variable := Some(0)]))
    requires after <= before + TreeNodes(domains, OpenSet(p[variable := Some(x)]))
    ensures after <= before + below && Multiple(k + 1, below) == Multiple(k, below) + below && Multiple(k + 1, below) <= Multiple(n, below)
  {
    SameOpen(p, variable, 0, x);
    MultipleNext(k, below);
    MultipleMonotone(k + 1, n, below);
  }

  lemma {:induction false} LaterValue(values: seq<int>, k: nat, x: int)
    requires StrictlySorted(values) && k < |values| && x in values && x !in values[..k] && x != values[k]
    ensures values[k] < x
  {
    var j :| 0 <= j < |values| && values[j] == x;
    assert forall i :: 0 <= i < k ==> values[..k][i] == values[i];
    assert k < j;
  }

  lemma {:induction false} LaterIsLater(problem: FiniteDomainProblem, p: Partial, variable: nat, values: seq<int>, k: nat, a: seq<int>, b: seq<int>)
    requires AllWellFormed(problem.constraints, |problem.domains|) && SmallestOpen(problem.domains, p, variable)
    requires values == SortDedup(problem.domains[variable]) && k < |values| && NoSolutionWith(problem, p, variable, values[..k])
    requires Solves(problem, a) && Extends(a, p) && a[variable] == values[k]
    requires Solves(problem, b) && Extends(b, p) && b[variable] != values[k]
    ensures FoundBefore(problem.domains, a, b)
  {
    assert b[variable] in problem.domains[variable];
    LaterValue(values, k, b[variable]);
    forall u: nat | u < |problem.domains| && ComesFirst(problem.domains, u, variable) ensures a[u] == b[u] {
      assert u != variable && p[u].Some?;
    }
    assert DiffersFirst(problem.domains, a, b, variable);
  }

  /** The first solution with the least value that has one is the first solution. */
  lemma {:induction false} FoundInValue(problem: FiniteDomainProblem, p: Partial, variable: nat, values: seq<int>, k: nat, r: SearchResult)
    requires AllWellFormed(problem.constraints, |problem.domains|) && SmallestOpen(problem.domains, p, variable)
    requires values == SortDedup(problem.domains[variable]) && k < |values| && NoSolutionWith(problem, p, variable, values[..k])
    requires r != Ok(None) && SearchOutcome(problem, p[variable := Some(values[k])], r)
    ensures SearchOutcome(problem, p, r)
  {
    if r.Ok? {
      var a, q := r.value.value, p[variable := Some(values[k])];
      ExtendsWithValue(a, p, variable, values[k]);
      forall b | Solves(problem, b) && Extends(b, p) && b != a ensures FoundBefore(problem.domains, a, b) {
        ExtendsWithValue(b, p, variable, values[k]);
        if b[variable] != values[k] {
          LaterIsLater(problem, p, variable, values, k, a, b);
        }
      }
    }
  }

  // ---- Validation and the solver ----

  /** The error of the first listed index that is out of range. */
  ghost predicate FirstBadIndex(variables: seq<nat>, width: nat, i: nat) {
    i < |variables| && variables[i] >= width && forall j :: 0 <= j < i ==> variables[j] < width
  }

  function IndexError(variables: seq<nat>, width: nat): (e: Option<SolverError>)
    ensures e == None <==> ValidIndices(variables, width)
    ensures forall i: nat :: FirstBadIndex(variables, width, i) ==> e == Some(InvalidVariableIndex(variables[i]))
  {
    if variables == [] then None
    else if variables[0] >= width then Some(InvalidVariableIndex(variables[0]))
    else
      SplitFirst(variables);
      assert forall i :: 1 <= i < |variables| ==> variables[i] == variables[1..][i - 1];
      assert forall i: nat :: i > 0 && FirstBadIndex(variables, width, i) ==> FirstBadIndex(variables[1..], width, i - 1);
      IndexError(variables[1..], width)
  }

  /** No variables, lists of different lengths, or a duration that is not positive. */
  ghost predicate Misshapen(c: FiniteDomainConstraint) {
    match c
    case AllDifferent(_) => false
    case Linear(variables, coefficients, _, _) => variables == [] || |variables| != |coefficients|
    case NoOverlap(variables, durations) => variables == [] || |variables| != |durations| || exists k :: 0 <= k < |durations| && durations[k] <= 0
  }

  /** Why a constraint is rejected, if it is. */
  function ConstraintError(c: FiniteDomainConstraint, width: nat): (e: Option<SolverError>)
    ensures e == None <==> WellFormed(c, width)
    ensures Misshapen(c) ==> e == Some(InvalidConstraint)
    ensures !Misshapen(c) ==> forall i: nat :: FirstBadIndex(c.variables, width, i) ==> e == Some(InvalidVariableIndex(c.variables[i]))
  {
    if c.Linear? && (c.variables == [] || |c.variables| != |c.coefficients|) then Some(InvalidConstraint)
    else if c.NoOverlap? && (c.variables == [] || |c.variables| != |c.durations|) then Some(InvalidConstraint)
    else if c.NoOverlap? && !PositiveDurations(c.durations) then Some(InvalidConstraint)
    else IndexError(c.variables, width)
  }

  /** Constraint `k` is the first rejected one. */
  ghost predicate FirstRejected(constraints: seq<FiniteDomainConstraint>, width: nat, k: nat) {
    && k < |constraints| && !WellFormed(constraints[k], width)
    && forall j :: 0 <= j < k ==> WellFormed(constraints[j], width)
  }

  /** The checks in order: problem size, node budget, domains, constraints. */
  ghost predicate ValidationOutcome(problem: FiniteDomainProblem, e: Option<SolverError>) {
    && (e == None <==> ValidProblem(problem))
    && (problem.domains == [] ==> e == Some(EmptyProblem))
    && (problem.domains != [] && problem.maximumNodes == 0 ==> e == Some(InvalidNodeBudget))
    && (problem.maximumNodes > 0 ==> forall v: nat :: FirstEmpty(problem.domains, v) ==> e == Some(EmptyDomain(v)))
    && (problem.domains != [] && problem.maximumNodes > 0 && NoneEmpty(problem.domains) ==>
          forall k: nat :: FirstRejected(problem.constraints, |problem.domains|, k) ==>
            e == ConstraintError(problem.constraints[k], |problem.domains|))
  }

  method Validate(problem: FiniteDomainProblem) returns (e: Option<SolverError>)
    ensures ValidationOutcome(problem, e)
  {
    if problem.domains == [] {
      return Some(EmptyProblem);
    }
    if problem.maximumNodes == 0 {
      return Some(InvalidNodeBudget);
    }
    for index := 0 to |problem.domains|
      invariant forall w :: 0 <= w < index ==> problem.domains[w] != []
    {
      if problem.domains[index] == [] {
        return Some(EmptyDomain(index));
      }
    }
    for k := 0 to |problem.constraints|
      invariant forall j :: 0 <= j < k ==> WellFormed(problem.constraints[j], |problem.domains|)
    {
      e := ConstraintError(problem.constraints[k], |problem.domains|);
      if e != None {
        return;
      }
    }
    return None;
  }

  /** The size of the full search tree of a problem. */
  ghost function FullTree(domains: Domains): nat {
    TreeNodes(domains, Below(|domains|))
  }

  /** Solves a valid problem: the first of all solutions, no solution because there is none, or a node budget smaller than
      the full search tree is used up. */
  ghost predicate SolveOutcome(problem: FiniteDomainProblem, r: Result<FiniteDomainSolution, SolverError>)
    requires AllWellFormed(problem.constraints, |problem.domains|)
  {
    match r
    case Ok(solution) =>
      && Solves(problem, solution.values) && solution.exploredNodes <= problem.maximumNodes
      && forall b :: Solves(problem, b) && b != solution.values ==> FoundBefore(problem.domains, solution.values, b)
    case Err(e) =>
      || (e == NodeBudgetExceeded(problem.maximumNodes) && problem.maximumNodes < FullTree(problem.domains))
      || (e == NoFeasibleSolution && forall a :: !Solves(problem, a))
  }

  method SolveFiniteDomain(problem: FiniteDomainProblem) returns (r: Result<FiniteDomainSolution, SolverError>)
    ensures if ValidProblem(problem) then SolveOutcome(problem, r) else r.Err? && ValidationOutcome(problem, Some(r.error))
  {
    var e := Validate(problem);
    if e.Some? {
      return Err(e.value);
    }
    var search := new Backtracker(problem);
    assert OpenSet(search.assignment[..]) == Below(|problem.domains|);
    assert forall a :: Solves(problem, a) ==> Extends(a, search.assignment[..]);
    var found := search.Search();
    if found.Err? {
      return Err(found.error);
    }
    if found.value == None {
      return Err(NoFeasibleSolution);
    }
    return Ok(FiniteDomainSolution(found.value.value, search.exploredNodes, search.backtracks));
  }
}
