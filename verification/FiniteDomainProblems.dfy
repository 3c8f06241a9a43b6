/** Finite-domain constraint problems and their solutions. */
module FiniteDomainProblems {
  import opened Finite
  import opened Constraints
  import opened Filtering
  import opened LinearBounds

  datatype FiniteDomainConstraint =
    | AllDifferent(variables: seq<nat>)
    | Linear(variables: seq<nat>, coefficients: seq<int>, relation: ConstraintRelation, rhs: int)
    | NoOverlap(variables: seq<nat>, durations: seq<int>)

  datatype FiniteDomainProblem =
    FiniteDomainProblem(domains: Domains, constraints: seq<FiniteDomainConstraint>, maximumNodes: nat)

  predicate ValidIndices(variables: seq<nat>, width: nat) {
    forall i :: 0 <= i < |variables| ==> variables[i] < width
  }

  predicate PositiveDurations(durations: seq<int>) {
    forall i :: 0 <= i < |durations| ==> durations[i] > 0
  }

  predicate WellFormed(c: FiniteDomainConstraint, width: nat) {
    && ValidIndices(c.variables, width)
    && (c.Linear? ==> c.variables != [] && |c.variables| == |c.coefficients|)
    && (c.NoOverlap? ==> c.variables != [] && |c.variables| == |c.durations| && PositiveDurations(c.durations))
  }

  ghost predicate AllWellFormed(constraints: seq<FiniteDomainConstraint>, width: nat) {
    forall k :: 0 <= k < |constraints| ==> WellFormed(constraints[k], width)
  }

  /** The values of the listed variables, in order; a variable may be listed more than once. */
  ghost function ValuesOf(a: seq<int>, variables: seq<nat>): (x: seq<int>)
    requires ValidIndices(variables, |a|)
    ensures |x| == |variables| && forall i :: 0 <= i < |x| ==> x[i] == a[variables[i]]
  {
    seq(|variables|, i requires 0 <= i < |variables| => a[variables[i]])
  }

  predicate Overlap(left: int, leftDuration: int, right: int, rightDuration: int) {
    left < right + rightDuration && right < left + leftDuration
  }

  /** Intervals of positive length overlap exactly when some instant belongs to both. */
  lemma {:induction false} OverlapMeaning(left: int, leftDuration: int, right: int, rightDuration: int)
    requires leftDuration > 0 && rightDuration > 0
    ensures Overlap(left, leftDuration, right, rightDuration) <==>
              exists t :: Covers(left, leftDuration, t) && Covers(right, rightDuration, t)
  {
    var t := if left <= right then right else left;
    assert Overlap(left, leftDuration, right, rightDuration) ==> Covers(left, leftDuration, t) && Covers(right, rightDuration, t);
  }

  /** No two of the intervals share an instant. */
  ghost predicate Separate(starts: seq<int>, durations: seq<int>)
    requires |starts| == |durations|
  {
    forall i, j :: 0 <= i < j < |starts| ==> !Overlap(starts[i], durations[i], starts[j], durations[j])
  }

  ghost predicate Holds(c: FiniteDomainConstraint, a: seq<int>)
    requires WellFormed(c, |a|)
  {
    var x := ValuesOf(a, c.variables);
    match c
    case AllDifferent(_) => Distinct(x)
    case Linear(_, coefficients, relation, rhs) => HoldsInt(relation, Sum(coefficients, x, |x|), rhs)
    case NoOverlap(_, durations) => Separate(x, durations)
  }

  ghost predicate Satisfies(constraints: seq<FiniteDomainConstraint>, a: seq<int>)
    requires AllWellFormed(constraints, |a|)
  {
    forall k :: 0 <= k < |constraints| ==> Holds(constraints[k], a)
  }

  /** Every value comes from its domain and every constraint holds. */
  ghost predicate Solution(domains: Domains, constraints: seq<FiniteDomainConstraint>, a: seq<int>)
    requires AllWellFormed(constraints, |domains|)
  {
    InDomains(domains, a) && Satisfies(constraints, a)
  }

  /** The row interval over the given bounds meets the relation. For equalities this is weaker than having a solution. */
  ghost predicate BoundsPossible(c: FiniteDomainConstraint, low: seq<int>, high: seq<int>)
    requires c.Linear? && |c.variables| == |c.coefficients| == |low| == |high|
  {
    RelationPossible(c.relation, Least(c.coefficients, low, high, |low|), Greatest(c.coefficients, low, high, |low|), c.rhs)
  }

  ghost predicate ValidProblem(problem: FiniteDomainProblem) {
    && problem.domains != [] && problem.maximumNodes > 0 && NoneEmpty(problem.domains)
    && AllWellFormed(problem.constraints, |problem.domains|)
  }

  /** An assignment that solves the problem. */
  ghost predicate Solves(problem: FiniteDomainProblem, a: seq<int>)
    requires AllWellFormed(problem.constraints, |problem.domains|)
  {
    Solution(problem.domains, problem.constraints, a)
  }
}
