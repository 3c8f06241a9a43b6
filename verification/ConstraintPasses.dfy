/** What one pass of the finite-domain propagators makes of the domains, as functions. */
module ConstraintPasses {
  import opened Constraints
  import opened Filtering
  import opened Propagation
  import opened FiniteDomainProblems
  import opened ConsistentFamilies

  ghost function Cut(d: Domains, v: nat, keep: iset<int>): (r: Domains)
    requires v < |d|
    ensures |r| == |d|
  {
    d[v := Retain(d[v], keep)]
  }

  /** The values that listed variables are fixed to. */
  ghost function FixedSet(d: Domains, variables: seq<nat>): set<int>
    requires ValidIndices(variables, |d|)
  {
    set i | 0 <= i < |variables| && |d[variables[i]]| == 1 :: d[variables[i]][0]
  }

  /** The variables at the first `k` positions lose the given values unless they are fixed. */
  ghost function WithoutValues(variables: seq<nat>, removed: set<int>, d: Domains, k: nat): (r: Domains)
    requires ValidIndices(variables, |d|) && k <= |variables|
    ensures |r| == |d|
  {
    if k == 0 then d
    else
      var (reached, v) := (WithoutValues(variables, removed, d, k - 1), variables[k - 1]);
      if |reached[v]| == 1 then reached else Cut(reached, v, iset x | x !in removed)
  }

  /** The first `k` positions filtered by the row, each from the domains reached so far. */
  ghost function Supported(c: FiniteDomainConstraint, d: Domains, k: nat): (r: Domains)
    requires c.Linear? && WellFormed(c, |d|) && k <= |c.variables|
    ensures |r| == |d|
  {
    if k == 0 then d
    else
      var reached := Supported(c, d, k - 1);
      if NoneEmpty(reached) then Cut(reached, c.variables[k - 1], LinearSupport(reached, c, k - 1)) else reached
  }

  /** The first `k` positions kept clear of an interval that starts at `start` at position `left`. */
  ghost function ClearedAround(c: FiniteDomainConstraint, d: Domains, left: nat, start: int, k: nat): (r: Domains)
    requires c.NoOverlap? && WellFormed(c, |d|) && left < |c.variables| && k <= |c.variables|
    ensures |r| == |d|
  {
    if k == 0 then d
    else
      var reached := ClearedAround(c, d, left, start, k - 1);
      if k - 1 == left then reached
      else Cut(reached, c.variables[k - 1], ClearOf(start, start + c.durations[left], c.durations[k - 1]))
  }

  /** Everything kept clear of the fixed ones among the first `k` positions. */
  ghost function Cleared(c: FiniteDomainConstraint, d: Domains, k: nat): (r: Domains)
    requires c.NoOverlap? && WellFormed(c, |d|) && k <= |c.variables|
    ensures |r| == |d|
  {
    if k == 0 then d
    else
      var (reached, v) := (Cleared(c, d, k - 1), c.variables[k - 1]);
      if |reached[v]| == 1 then ClearedAround(c, reached, k - 1, reached[v][0], |c.variables|) else reached
  }

  ghost function ConstraintPass(c: FiniteDomainConstraint, d: Domains): (r: Domains)
    requires WellFormed(c, |d|)
    ensures |r| == |d|
  {
    match c
    case AllDifferent(variables) => WithoutValues(variables, FixedSet(d, variables), d, |variables|)
    case Linear(variables, _, _, _) => Supported(c, d, |variables|)
    case NoOverlap(variables, _) => Cleared(c, d, |variables|)
  }

  predicate SameKind(a: FiniteDomainConstraint, b: FiniteDomainConstraint)
    ensures SameKind(a, b) <==> (a.AllDifferent? && b.AllDifferent?) || (a.Linear? && b.Linear?) || (a.NoOverlap? && b.NoOverlap?)
  {
    (a.AllDifferent? <==> b.AllDifferent?) && (a.Linear? <==> b.Linear?)
  }

  /** The constraints of one kind among the first `k`, in order. */
  ghost function KindPass(cs: ConstraintList, kind: FiniteDomainConstraint, d: Domains, k: nat): (r: Domains)
    requires AllWellFormed(cs, |d|) && k <= |cs|
    ensures |r| == |d|
  {
    if k == 0 then d
    else
      var reached := KindPass(cs, kind, d, k - 1);
      if SameKind(cs[k - 1], kind) then ConstraintPass(cs[k - 1], reached) else reached
  }

  /** All-different constraints first, then linear ones, then no-overlap ones. */
  ghost function AllKinds(cs: ConstraintList, d: Domains): Domains
    requires AllWellFormed(cs, |d|)
  {
    var unequal := KindPass(cs, AllDifferent([]), d, |cs|);
    var balanced := KindPass(cs, Linear([], [], Equal, 0), unequal, |cs|);
    KindPass(cs, NoOverlap([], []), balanced, |cs|)
  }

  ghost function ProblemPass(cs: ConstraintList): OnePass {
    d => if AllWellFormed(cs, |d|) then AllKinds(cs, d) else d
  }

  /** One more pass that changed something. */
  lemma {:induction false} OneMorePass(cs: ConstraintList, n: Domains, passes: nat, before: Domains, after: Domains)
    requires AllWellFormed(cs, |before|) && before == AfterPasses(ProblemPass(cs), n, passes) && AllChanged(ProblemPass(cs), n, passes)
    requires after == AllKinds(cs, before)
    ensures after == AfterPasses(ProblemPass(cs), n, passes + 1)
    ensures if after == before then SettlesAfter(ProblemPass(cs), n, passes + 1, after) else AllChanged(ProblemPass(cs), n, passes + 1)
  {
  }
}
