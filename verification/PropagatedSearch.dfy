/** Depth-first search that propagates every constraint at every node. */
module PropagatedSearch {
  import opened Wrappers
  import opened Finite
  import opened Sorting
  import opened Filtering
  import opened FiniteDomainProblems
  import opened ConsistentFamilies
  import opened DomainPropagation
  import Plain = FiniteDomainSearch

  datatype PropagatedSolution =
    PropagatedSolution(values: seq<int>, exploredNodes: nat, propagationPasses: nat, removedValues: nat)

  type SearchResult = Result<Option<seq<int>>, PropagationError>

  // ---- Which solution is found first ----

  /** No solution over `g` gives variable `v` a smaller value than `x`. */
  ghost predicate LeastSolutionValue(cs: ConstraintList, g: Domains, v: nat, x: int)
    requires AllWellFormed(cs, |g|) && v < |g|
  {
    forall b :: Solution(g, cs, b) ==> x <= b[v]
  }

  /** `a` is what the search finds over `d`: the descent starts from the largest consistent family. */
  ghost predicate FirstFound(cs: ConstraintList, d: Domains, a: seq<int>)
    requires AllWellFormed(cs, |d|)
    decreases TotalSize(d), 2
  {
    exists g :: |g| == |d| && GreatestFamily(cs, d, g) && TotalSize(g) <= TotalSize(d) && Descends(cs, g, a)
  }

  /** The consistent family `g` is down to the values of `a`, or the search goes on below its smallest branch. */
  ghost predicate Descends(cs: ConstraintList, g: Domains, a: seq<int>)
    requires AllWellFormed(cs, |g|)
    decreases TotalSize(g), 1
  {
    g == Singletons(a) || exists v: nat :: Branches(cs, g, v, a)
  }

  /** The smallest branch takes in `a` the least value of all solutions over `g`, and `a` is what is found below that value. */
  ghost predicate Branches(cs: ConstraintList, g: Domains, v: nat, a: seq<int>)
    requires AllWellFormed(cs, |g|)
    decreases TotalSize(g), 0
  {
    && SmallestBranch(g, v) && |a| == |g| && LeastSolutionValue(cs, g, v, a[v])
    && TotalSize(g[v := [a[v]]]) < TotalSize(g) && FirstFound(cs, g[v := [a[v]]], a)
  }

  /** At most one solution is the first one found. */
  lemma {:induction false} FirstFoundIsUnique(cs: ConstraintList, d: Domains, a: seq<int>, b: seq<int>)
    requires AllWellFormed(cs, |d|) && FirstFound(cs, d, a) && FirstFound(cs, d, b)
    requires Solution(d, cs, a) && Solution(d, cs, b)
    ensures a == b
    decreases TotalSize(d), 1
  {
    var g :| |g| == |d| && GreatestFamily(cs, d, g) && TotalSize(g) <= TotalSize(d) && Descends(cs, g, a);
    var h :| |h| == |d| && GreatestFamily(cs, d, h) && TotalSize(h) <= TotalSize(d) && Descends(cs, h, b);
    GreatestIsUnique(cs, d, g, h);
    SameSolution(cs, d, g, a);
    SameSolution(cs, d, g, b);
    DescentIsUnique(cs, g, a, b);
  }

  lemma {:induction false} DescentIsUnique(cs: ConstraintList, g: Domains, a: seq<int>, b: seq<int>)
    requires AllWellFormed(cs, |g|) && Descends(cs, g, a) && Descends(cs, g, b)
    requires Solution(g, cs, a) && Solution(g, cs, b)
    ensures a == b
    decreases TotalSize(g), 0
  {
    if g == Singletons(a) || g == Singletons(b) {
      assert forall v :: 0 <= v < |g| ==> a[v] in g[v] && b[v] in g[v];
    } else {
      var v: nat :| Branches(cs, g, v, a);
      var w: nat :| Branches(cs, g, w, b);
      SameBranch(cs, g, v, a, w, b);
      FirstFoundIsUnique(cs, g[v := [a[v]]], a, b);
    }
  }

  lemma {:induction false} SameBranch(cs: ConstraintList, g: Domains, v: nat, a: seq<int>, w: nat, b: seq<int>)
    requires AllWellFormed(cs, |g|) && Branches(cs, g, v, a) && Branches(cs, g, w, b) && Solution(g, cs, a) && Solution(g, cs, b)
    ensures v == w && a[v] == b[v] && Solution(g[v := [a[v]]], cs, a) && Solution(g[v := [a[v]]], cs, b)
  {
    assert v == w && a[v] == b[v];
    var child := g[v := [a[v]]];
    assert forall u :: 0 <= u < |g| ==> a[u] in child[u] && b[u] in child[u];
  }

  /** Sorting and de-duplicating the domains does not change what is found first. */
  lemma {:induction false} FoundInNormalized(cs: ConstraintList, d: Domains, a: seq<int>)
    requires AllWellFormed(cs, |d|) && FirstFound(cs, Normalized(d), a)
    ensures FirstFound(cs, d, a)
  {
    var n := Normalized(d);
    var g :| |g| == |n| && GreatestFamily(cs, n, g) && TotalSize(g) <= TotalSize(n) && Descends(cs, g, a);
    NormalizingKeepsFamilies(cs, d);
    NormalizedNoLarger(d);
    assert GreatestFamily(cs, d, g);
  }

  /** A value found is the first solution; finding nothing means there is none; failure means the budget is used up. */
  ghost predicate SearchOutcome(cs: ConstraintList, d: Domains, maximumNodes: nat, r: SearchResult)
    requires AllWellFormed(cs, |d|)
  {
    match r
    case Ok(Some(a)) => Solution(d, cs, a) && FirstFound(cs, d, a)
    case Ok(None) => Unsolvable(cs, d)
    case Err(e) => e == NodeBudgetExceeded(maximumNodes)
  }

  /** The same for domains that are already propagated. */
  ghost predicate DescentOutcome(cs: ConstraintList, g: Domains, maximumNodes: nat, r: SearchResult)
    requires AllWellFormed(cs, |g|)
  {
    match r
    case Ok(Some(a)) => Solution(g, cs, a) && Descends(cs, g, a)
    case Ok(None) => Unsolvable(cs, g)
    case Err(e) => e == NodeBudgetExceeded(maximumNodes)
  }

  ghost predicate SameSolutions(cs: ConstraintList, d: Domains, e: Domains)
    requires AllWellFormed(cs, |d|) && |e| == |d|
  {
    forall a :: Solution(d, cs, a) <==> Solution(e, cs, a)
  }

  /** What is found below the propagated domains is found below the original ones. */
  lemma {:induction false} OutcomeTransfers(cs: ConstraintList, g: Domains, d: Domains, maximumNodes: nat, r: SearchResult)
    requires AllWellFormed(cs, |d|) && |g| == |d| && GreatestFamily(cs, d, g) && TotalSize(g) <= TotalSize(d)
    requires SameSolutions(cs, g, d) && DescentOutcome(cs, g, maximumNodes, r)
    ensures SearchOutcome(cs, d, maximumNodes, r)
  {
  }

  predicate AllSingle(d: Domains) {
    forall v :: 0 <= v < |d| ==> |d[v]| == 1
  }

  method CheckAllSingle(d: Domains) returns (single: bool)
    ensures single <==> AllSingle(d)
  {
    for v := 0 to |d|
      invariant AllSingle(d[..v])
    {
      assert d[..v + 1] == d[..v] + [d[v]];
      if |d[v]| != 1 {
        return false;
      }
    }
    assert d[..|d|] == d;
    return true;
  }

  method FirstValues(d: Domains) returns (a: seq<int>)
    requires AllSingle(d)
    ensures d == Singletons(a)
  {
    a := [];
    for v := 0 to |d|
      invariant |a| == v && forall w :: 0 <= w < v ==> d[w] == [a[w]]
    {
      a := a + [d[v][0]];
    }
  }

  /** `v` has the fewest values of all variables with several, and is the first such variable. */
  ghost predicate SmallestBranch(d: Domains, v: nat) {
    && v < |d| && |d[v]| > 1
    && forall w :: 0 <= w < |d| && |d[w]| > 1 ==> |d[v]| < |d[w]| || (|d[v]| == |d[w]| && v <= w)
  }

  method SelectBranch(d: Domains) returns (v: nat)
    requires NoneEmpty(d) && !AllSingle(d)
    ensures SmallestBranch(d, v)
  {
    var choice: Option<nat> := None;
    for w := 0 to |d|
      invariant choice == None ==> AllSingle(d[..w])
      invariant choice.Some? ==> SmallestBranch(d[..w], choice.value)
    {
      assert forall u :: 0 <= u < w ==> d[..w + 1][u] == d[..w][u];
      assert d[w] != [];
      if |d[w]| > 1 && (choice == None || |d[w]| < |d[choice.value]|) {
        choice := Some(w);
      }
    }
    assert d[..|d|] == d;
    v := choice.value;
  }

  lemma {:induction false} DedupShorter(s: seq<int>)
    requires Sorted(s)
    ensures |Dedup(s)| <= |s|
  {
    if |s| > 1 { DedupShorter(s[1..]); }
  }

  lemma {:induction false} NormalizedNoLarger(d: Domains)
    ensures DistinctValues(d) <= TotalSize(d)
  {
    if d != [] {
      var rest := d[..|d| - 1];
      NormalizedNoLarger(rest);
      assert Normalized(d)[..|d| - 1] == Normalized(rest);
      DedupShorter(Sort(d[|d| - 1]));
    }
  }

  lemma {:induction false} NormalizedVolume(d: Domains)
    ensures Volume(Normalized(d)) <= Volume(d)
  {
    forall v | 0 <= v < |d| ensures |Normalized(d)[v]| <= |d[v]| {
      DedupShorter(Sort(d[v]));
    }
    VolumeMonotone(d, Normalized(d));
  }

  /** A node over `d` and everything below it: twice as many nodes as assignments, less one. */
  ghost function NodesBelow(d: Domains): (n: nat)
    requires NoneEmpty(d)
    ensures n == 2 * Volume(d) - 1 && n >= 1
  {
    VolumePositive(d);
    2 * Volume(d) - 1
  }

  /** The children of a branch share the nodes below their parent. */
  lemma {:induction false} ChildrenShare(d: Domains, v: nat, x: int, below: nat)
    requires NoneEmpty(d) && v < |d| && |d[v]| > 1
    requires below == NodesBelow(d[v := [0]])
    ensures NodesBelow(d[v := [x]]) == below && Multiple(|d[v]|, below) < NodesBelow(d)
  {
    VolumeSplits(d, v, 0);
    VolumeSplits(d, v, x);
    var c := Volume(d[v := [0]]);
    MultipleInjective(|d[v]|, Volume(d[v := [x]]), c);
    TwiceLess(|d[v]|, c);
  }

  lemma {:induction false} TwiceLess(k: nat, c: nat)
    requires c >= 1
    ensures Multiple(k, 2 * c - 1) == 2 * Multiple(k, c) - k
  {
    if k > 0 {
      TwiceLess(k - 1, c);
      MultipleNext(k - 1, c);
      MultipleNext(k - 1, 2 * c - 1);
    }
  }

  /** No solution over `d` gives variable `v` one of the values. */
  ghost predicate NoSolutionWith(cs: ConstraintList, d: Domains, v: nat, values: seq<int>)
    requires AllWellFormed(cs, |d|) && v < |d|
  {
    forall a :: Solution(d, cs, a) ==> a[v] !in values
  }

  lemma {:induction false} NoSolutionNext(cs: ConstraintList, d: Domains, v: nat, k: nat, child: Domains)
    requires AllWellFormed(cs, |d|) && v < |d| && k < |d[v]| && NoSolutionWith(cs, d, v, d[v][..k])
    requires child == d[v := [d[v][k]]] && Unsolvable(cs, child)
    ensures NoSolutionWith(cs, d, v, d[v][..k + 1])
  {
    forall a | Solution(d, cs, a) ensures a[v] != d[v][k] {
      assert !Solution(child, cs, a);
      assert forall w :: 0 <= w < |d| && w != v ==> a[w] in child[w];
    }
  }

  lemma {:induction false} AllValuesTried(cs: ConstraintList, d: Domains, v: nat)
    requires AllWellFormed(cs, |d|) && v < |d| && NoSolutionWith(cs, d, v, d[v][..|d[v]|])
    ensures Unsolvable(cs, d)
  {
    assert d[v][..|d[v]|] == d[v];
    forall a ensures !Solution(d, cs, a) {
      assert InDomains(d, a) ==> a[v] in d[v];
    }
  }

  /** The values before the first one with a solution are smaller, so that one is the least. */
  lemma {:induction false} FirstIsLeast(cs: ConstraintList, d: Domains, v: nat, k: nat)
    requires AllWellFormed(cs, |d|) && v < |d| && StrictlySorted(d[v]) && k < |d[v]| && NoSolutionWith(cs, d, v, d[v][..k])
    ensures LeastSolutionValue(cs, d, v, d[v][k])
  {
    assert forall p :: 0 <= p < k ==> d[v][p] in d[v][..k];
    forall b | Solution(d, cs, b) ensures d[v][k] <= b[v] {
      var q :| 0 <= q < |d[v]| && d[v][q] == b[v];
    }
  }

  /** The first solution below the least value that has one is the first solution. */
  lemma {:induction false} ChildOutcome(cs: ConstraintList, d: Domains, v: nat, k: nat, maximumNodes: nat, r: SearchResult)
    requires AllWellFormed(cs, |d|) && SmallestBranch(d, v) && StrictlySorted(d[v]) && k < |d[v]| && r != Ok(None)
    requires NoSolutionWith(cs, d, v, d[v][..k]) && SearchOutcome(cs, d[v := [d[v][k]]], maximumNodes, r)
    ensures DescentOutcome(cs, d, maximumNodes, r)
  {
    if r.Ok? {
      var a, x := r.value.value, d[v][k];
      forall w | 0 <= w < |d| ensures a[w] in d[w] {
        assert a[w] in d[v := [x]][w];
      }
      assert a[v] in d[v := [x]][v];
      FirstIsLeast(cs, d, v, k);
      ChildIsSmaller(d, v, x);
      assert Branches(cs, d, v, a);
    }
  }

  lemma {:induction false} ChildIsSmaller(d: Domains, v: nat, x: int)
    requires v < |d| && |d[v]| > 1 && x in d[v]
    ensures TotalSize(d[v := [x]]) < TotalSize(d)
  {
    var child := d[v := [x]];
    assert Sublist([x], d[v]);
    assert child[v] != d[v];
    TotalSizeShrinks(d, child);
  }

  /** Propagated domains are no larger than the domains they come from. */
  lemma {:induction false} PropagatedNoLarger(problem: FiniteDomainProblem, d: Domains)
    requires ValidForPropagation(problem) && Smaller(d, Normalized(problem.domains)) && NoneEmpty(d)
    ensures |d| == |problem.domains| && ValidForPropagation(problem.(domains := d))
    ensures TotalSize(d) <= TotalSize(problem.domains) && Volume(d) <= Volume(problem.domains)
  {
    var n := Normalized(problem.domains);
    TotalSizeShrinks(n, d);
    NormalizedNoLarger(problem.domains);
    SmallerVolume(n, d);
    NormalizedVolume(problem.domains);
  }

  lemma {:induction false} NormalizingKeepsSolutions(cs: ConstraintList, d: Domains)
    requires AllWellFormed(cs, |d|) && NoneEmpty(d)
    ensures SameSolutions(cs, Normalized(d), d) && NoneEmpty(Normalized(d)) && Smaller(Normalized(d), Normalized(d))
  {
    var n := Normalized(d);
    forall a ensures InDomains(n, a) <==> InDomains(d, a) {
      assert forall v :: 0 <= v < |d| ==> n[v] == SortDedup(d[v]);
    }
    forall v | 0 <= v < |d| ensures n[v] != [] {
      SortDedupEmpty(d[v]);
    }
  }

  class Searcher {
    const problem: FiniteDomainProblem
    var exploredNodes: nat
    var propagationPasses: nat
    var removedValues: nat

    constructor (problem: FiniteDomainProblem)
      ensures this.problem == problem && exploredNodes == 0
    {
      this.problem := problem;
      exploredNodes, propagationPasses, removedValues := 0, 0, 0;
    }

    method Search(domains: Domains) returns (r: SearchResult)
      requires ValidForPropagation(problem.(domains := domains)) && exploredNodes <= problem.maximumNodes
      modifies this
      ensures SearchOutcome(problem.constraints, domains, problem.maximumNodes, r)
      ensures r.Ok? ==> old(exploredNodes) < exploredNodes <= problem.maximumNodes
      ensures r.Err? ==> exploredNodes == problem.maximumNodes + 1
      ensures exploredNodes <= old(exploredNodes) + NodesBelow(domains)
      decreases TotalSize(domains)
    {
      exploredNodes := exploredNodes + 1;
      if exploredNodes > problem.maximumNodes {
        return Err(NodeBudgetExceeded(exploredNodes - 1));
      }
      var local := problem.(domains := domains);
      var propagated := PropagateDomains(local);
      PropagationKeepsSolutions(local, propagated);
      if propagated.Err? {
        return Ok(None);
      }
      var report := propagated.value;
      propagationPasses := propagationPasses + report.passes;
      removedValues := removedValues + report.removedValues;
      PropagatedNoLarger(local, report.domains);
      r := Continue(report.domains, local);
      OutcomeTransfers(problem.constraints, report.domains, domains, problem.maximumNodes, r);
    }

    /** After propagation: the only assignment left, or a branch on the smallest domain. */
    method Continue(d: Domains, ghost local: FiniteDomainProblem) returns (r: SearchResult)
      requires ValidForPropagation(problem.(domains := d)) && exploredNodes <= problem.maximumNodes
      requires ValidForPropagation(local) && |local.domains| == |d| && local.constraints == problem.constraints
      requires SameSolutions(problem.constraints, d, local.domains)
      requires AllSorted(d) && forall a :: d == Singletons(a) ==> Solves(local, a)
      modifies this
      ensures DescentOutcome(problem.constraints, d, problem.maximumNodes, r)
      ensures r.Ok? ==> old(exploredNodes) <= exploredNodes <= problem.maximumNodes
      ensures r.Err? ==> exploredNodes == problem.maximumNodes + 1
      ensures exploredNodes < old(exploredNodes) + NodesBelow(d)
      decreases TotalSize(d), 1
    {
      var single := CheckAllSingle(d);
      if single {
        var a := FirstValues(d);
        assert Solves(local, a);
        return Ok(Some(a));
      }
      var variable := SelectBranch(d);
      r := Branch(d, variable);
    }

    /** Tries the remaining values of one variable in increasing order. */
    method Branch(d: Domains, variable: nat) returns (r: SearchResult)
      requires ValidForPropagation(problem.(domains := d)) && exploredNodes <= problem.maximumNodes
      requires SmallestBranch(d, variable) && StrictlySorted(d[variable])
      modifies this
      ensures DescentOutcome(problem.constraints, d, problem.maximumNodes, r)
      ensures r.Ok? ==> old(exploredNodes) <= exploredNodes <= problem.maximumNodes
      ensures r.Err? ==> exploredNodes == problem.maximumNodes + 1
      ensures exploredNodes < old(exploredNodes) + NodesBelow(d)
      decreases TotalSize(d), 0
    {
      ghost var below := NodesBelow(d[variable := [0]]);
      ChildrenShare(d, variable, 0, below);
      for k := 0 to |d[variable]|
        invariant old(exploredNodes) <= exploredNodes <= problem.maximumNodes
        invariant exploredNodes <= old(exploredNodes) + Multiple(k, below)
        invariant NoSolutionWith(problem.constraints, d, variable, d[variable][..k])
      {
        var value := d[variable][k];
        var child := d[variable := [value]];
        ChildIsSmaller(d, variable, value);
        ChildrenShare(d, variable, value, below);
        MultipleNext(k, below);
        MultipleMonotone(k + 1, |d[variable]|, below);
        r := Search(child);
        if r != Ok(None) {
          ChildOutcome(problem.constraints, d, variable, k, problem.maximumNodes, r);
          return;
        }
        NoSolutionNext(problem.constraints, d, variable, k, child);
      }
      AllValuesTried(problem.constraints, d, variable);
      return Ok(None);
    }
  }

  /** Solves a valid problem: the first solution of the search order, no solution because there is none, or a used-up node
      budget that is smaller than twice the number of assignments. */
  ghost predicate SolveOutcome(problem: FiniteDomainProblem, r: Result<PropagatedSolution, PropagationError>)
    requires ValidForPropagation(problem)
  {
    match r
    case Ok(solution) =>
      && Solves(problem, solution.values) && FirstFound(problem.constraints, problem.domains, solution.values)
      && solution.exploredNodes <= problem.maximumNodes
    case Err(e) =>
      || (e == NodeBudgetExceeded(problem.maximumNodes) && problem.maximumNodes < 2 * Volume(Normalized(problem.domains)) - 1)
      || (e == Infeasible && Unsolvable(problem.constraints, problem.domains))
  }

  method SolveFiniteDomainPropagated(problem: FiniteDomainProblem) returns (r: Result<PropagatedSolution, PropagationError>)
    ensures !ValidForPropagation(problem) ==> r == Err(InvalidProblem)
    ensures ValidForPropagation(problem) && problem.maximumNodes == 0 ==> r == Err(InvalidNodeBudget)
    ensures ValidForPropagation(problem) && problem.maximumNodes > 0 ==> SolveOutcome(problem, r)
  {
    var valid := Validate(problem);
    if !valid {
      return Err(InvalidProblem);
    }
    if problem.maximumNodes == 0 {
      return Err(InvalidNodeBudget);
    }
    ghost var n := Normalized(problem.domains);
    NormalizingKeepsSolutions(problem.constraints, problem.domains);
    PropagatedNoLarger(problem, n);
    var domains := NormalizeInto(problem.domains);
    var search := new Searcher(problem);
    var found := search.Search(domains[..]);
    if found.Err? {
      return Err(found.error);
    }
    if found.value == None {
      return Err(Infeasible);
    }
    FoundInNormalized(problem.constraints, problem.domains, found.value.value);
    return Ok(PropagatedSolution(found.value.value, search.exploredNodes, search.propagationPasses, search.removedValues));
  }

  /** Unless a node budget runs out, the propagating solver succeeds exactly when the plain one does. */
  lemma SolversAgree(problem: FiniteDomainProblem, plain: Result<Plain.FiniteDomainSolution, Plain.SolverError>,
                     propagated: Result<PropagatedSolution, PropagationError>)
    requires ValidProblem(problem) && ValidForPropagation(problem)
    requires Plain.SolveOutcome(problem, plain) && SolveOutcome(problem, propagated)
    requires plain != Err(Plain.NodeBudgetExceeded(problem.maximumNodes))
    requires propagated != Err(NodeBudgetExceeded(problem.maximumNodes))
    ensures plain.Ok? <==> propagated.Ok?
    ensures plain.Ok? ==> Solves(problem, plain.value.values) && Solves(problem, propagated.value.values)
    ensures plain.Err? ==> plain == Err(Plain.NoFeasibleSolution) && propagated == Err(Infeasible)
  {
  }

  /** With a budget for the full search tree and for twice the number of assignments, both solvers finish and agree. */
  lemma AmpleBudgetDecides(problem: FiniteDomainProblem, plain: Result<Plain.FiniteDomainSolution, Plain.SolverError>,
                           propagated: Result<PropagatedSolution, PropagationError>)
    requires ValidProblem(problem) && ValidForPropagation(problem)
    requires Plain.SolveOutcome(problem, plain) && SolveOutcome(problem, propagated)
    requires problem.maximumNodes >= Plain.FullTree(problem.domains) && problem.maximumNodes >= 2 * Volume(Normalized(problem.domains))
    ensures plain.Ok? <==> exists a :: Solves(problem, a)
    ensures propagated.Ok? <==> exists a :: Solves(problem, a)
  {
  }
}
