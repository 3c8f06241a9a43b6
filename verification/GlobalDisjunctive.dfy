/** Global consistency for tasks that must not overlap: a start stays exactly when a complete schedule uses it. */
module GlobalDisjunctive {
  import opened Wrappers
  import opened Finite
  import opened Filtering
  import opened Propagation
  import opened GlobalConsistency
  import opened PartialAssignments
  import opened OpenVariables
  import opened DisjunctiveTasks
  import opened PairwiseDisjunctive

  datatype GlobalDisjunctiveConfig = GlobalDisjunctiveConfig(maximumSearchNodes: nat)

  datatype GlobalDisjunctiveReport =
    GlobalDisjunctiveReport(tasks: seq<DisjunctiveTask>, removedStarts: nat, passes: nat, searchNodes: nat)

  datatype GlobalDisjunctiveError =
    | EmptyTasks
    | EmptyDomain(task: nat)
    | InvalidDuration(task: nat)
    | InvalidSearchBudget
    | SearchBudgetExceeded(visited: nat)
    | Infeasible

  /** The schedules in which no two tasks overlap. */
  ghost function NoOverlap(durations: seq<int>): Accepts {
    a => Separate(durations, a)
  }

  /** Some complete non-overlapping schedule from the domains extends `p`. */
  ghost predicate Extendable(durations: seq<int>, d: Domains, p: Partial) {
    exists s :: Choice(d, NoOverlap(durations), s) && Extends(s, p)
  }

  // ---- Partial schedules ----

  /** The tasks placed so far do not overlap. */
  ghost predicate SeparateSoFar(durations: seq<int>, p: Partial) {
    && |p| == |durations|
    && forall i, j :: 0 <= i < |p| && 0 <= j < |p| && i != j && p[i].Some? && p[j].Some? ==>
         NonOverlapping(p[i].value, durations[i], p[j].value, durations[j])
  }

  ghost predicate CompatibleWith(durations: seq<int>, p: Partial, task: nat, start: int)
    requires |p| == |durations| && task < |p|
  {
    forall i :: 0 <= i < |p| && p[i].Some? ==> NonOverlapping(start, durations[task], p[i].value, durations[i])
  }

  method CheckCompatible(durations: seq<int>, p: array<Option<int>>, task: nat, candidate: int) returns (ok: bool)
    requires p.Length == |durations| && task < p.Length
    ensures ok <==> CompatibleWith(durations, p[..], task, candidate)
  {
    for i := 0 to p.Length
      invariant forall j :: 0 <= j < i && p[j].Some? ==> NonOverlapping(candidate, durations[task], p[j].value, durations[j])
    {
      if p[i].Some? && !NonOverlapping(candidate, durations[task], p[i].value, durations[i]) {
        assert p[..][i].Some?;
        return false;
      }
    }
    return true;
  }

  /** A complete placement is a schedule that extends itself. */
  lemma {:induction false} CompleteIsExtendable(durations: seq<int>, d: Domains, p: Partial)
    requires FromDomains(d, p) && SeparateSoFar(durations, p) && Complete(p)
    ensures Extendable(durations, d, p)
  {
    var s := seq(|p|, i requires 0 <= i < |p| => p[i].value);
    assert forall i :: 0 <= i < |p| ==> p[i].Some?;
    assert Choice(d, NoOverlap(durations), s) && Extends(s, p);
  }

  lemma {:induction false} PlacingKeepsSeparate(durations: seq<int>, d: Domains, p: Partial, v: nat, x: int)
    requires FromDomains(d, p) && SeparateSoFar(durations, p) && v < |p| && p[v] == None
    requires x in d[v] && CompatibleWith(durations, p, v, x)
    ensures FromDomains(d, p[v := Some(x)]) && SeparateSoFar(durations, p[v := Some(x)])
  {
  }

  /** A start that clashes with a placed task extends to no schedule. */
  lemma {:induction false} ClashIsNotExtendable(durations: seq<int>, d: Domains, p: Partial, v: nat, x: int)
    requires |p| == |durations| && v < |p| && p[v] == None && !CompatibleWith(durations, p, v, x)
    ensures !Extendable(durations, d, p[v := Some(x)])
  {
    var q := p[v := Some(x)];
    var i :| 0 <= i < |p| && p[i].Some? && !NonOverlapping(x, durations[v], p[i].value, durations[i]);
    forall s | Extends(s, q) ensures !Separate(durations, s) {
      assert q[v].Some? && q[i].Some? && s[v] == x && s[i] == p[i].value;
      if Separate(durations, s) { SeparateEitherWay(durations, s, v, i); }
    }
  }

  /** None of the listed starts of task `v` extends to a schedule. */
  ghost predicate NoneExtends(durations: seq<int>, d: Domains, p: Partial, v: nat, starts: seq<int>)
    requires v < |p|
  {
    forall x :: x in starts ==> !Extendable(durations, d, p[v := Some(x)])
  }

  lemma {:induction false} NoneExtendsNext(durations: seq<int>, d: Domains, p: Partial, v: nat, starts: seq<int>, k: nat)
    requires v < |p| && k < |starts| && NoneExtends(durations, d, p, v, starts[..k])
    requires !Extendable(durations, d, p[v := Some(starts[k])])
    ensures NoneExtends(durations, d, p, v, starts[..k + 1])
  {
    assert starts[..k + 1] == starts[..k] + [starts[k]];
  }

  lemma {:induction false} ExtendableThroughStart(durations: seq<int>, d: Domains, p: Partial, v: nat)
    requires v < |p| == |d| && p[v] == None
    ensures Extendable(durations, d, p) <==> !NoneExtends(durations, d, p, v, d[v])
  {
    if s :| Choice(d, NoOverlap(durations), s) && Extends(s, p) {
      ExtendsWithValue(s, p, v, s[v]);
      assert s[v] in d[v] && Extendable(durations, d, p[v := Some(s[v])]);
    }
    if x :| x in d[v] && Extendable(durations, d, p[v := Some(x)]) {
      var s :| Choice(d, NoOverlap(durations), s) && Extends(s, p[v := Some(x)]);
      ExtendsWithValue(s, p, v, x);
    }
  }

  // ---- How many nodes a search can visit ----

  /** The starts still possible: those of open tasks, and the chosen one of placed tasks. */
  ghost function Reach(d: Domains, p: Partial): (r: Domains)
    requires |p| == |d|
    ensures |r| == |d| && forall i :: 0 <= i < |r| ==> r[i] == if p[i] == None then d[i] else [p[i].value]
  {
    seq(|d|, i requires 0 <= i < |d| => if p[i] == None then d[i] else [p[i].value])
  }

  /** Every level below `p` has at most as many nodes as there are schedules, overlapping or not. */
  ghost function SearchNodes(d: Domains, p: Partial): nat
    requires |p| == |d|
  {
    Multiple(Open(p) + 1, Volume(Reach(d, p)))
  }

  /** The nodes below all starts of the open task `v`. */
  ghost function ChildNodes(d: Domains, p: Partial, v: nat): nat
    requires |p| == |d| && v < |d|
  {
    Multiple(|d[v]|, SearchNodes(d, p[v := Some(0)]))
  }

  /** Within `nodes` visited nodes the search finishes; an error means that the budget does not leave room for them. */
  ghost predicate Spent(before: nat, after: nat, maximum: nat, ok: bool, nodes: nat) {
    if ok then after <= before + nodes else maximum < before + nodes
  }

  lemma {:induction false} ReachNotEmpty(d: Domains, p: Partial)
    requires |p| == |d| && NoneEmpty(d)
    ensures SearchNodes(d, p) >= 1
  {
    VolumePositive(Reach(d, p));
  }

  lemma {:induction false} PlacedNodes(d: Domains, p: Partial, v: nat, x: int)
    requires |p| == |d| && v < |d| && p[v] == None
    ensures SearchNodes(d, p[v := Some(x)]) == Multiple(Open(p), Volume(Reach(d, p)[v := [x]]))
  {
    assert Reach(d, p[v := Some(x)]) == Reach(d, p)[v := [x]];
    AssigningClosesOne(p, v, x);
  }

  /** The starts of an open task share the nodes below it. */
  lemma {:induction false} StartsShare(d: Domains, p: Partial, v: nat, x: int, below: nat)
    requires |p| == |d| && NoneEmpty(d) && v < |d| && p[v] == None && below == SearchNodes(d, p[v := Some(0)])
    ensures SearchNodes(d, p[v := Some(x)]) == below && 1 + Multiple(|d[v]|, below) <= SearchNodes(d, p)
  {
    var r := Reach(d, p);
    PlacedNodes(d, p, v, 0);
    PlacedNodes(d, p, v, x);
    VolumeSplits(r, v, 0);
    VolumeSplits(r, v, x);
    assert d[v] != [] && r[v] == d[v];
    MultipleInjective(|d[v]|, Volume(r[v := [x]]), Volume(r[v := [0]]));
    VolumePositive(r);
    OneLevelMore(|d[v]|, Open(p), Volume(r[v := [0]]));
  }

  lemma {:induction false} OneLevelMore(k: nat, open: nat, c: nat)
    requires Multiple(k, c) >= 1
    ensures 1 + Multiple(k, Multiple(open, c)) <= Multiple(open + 1, Multiple(k, c))
  {
    LevelsBelow(k, open, c);
    MultipleNext(open, Multiple(k, c));
  }

  lemma LevelsBelow(k: nat, open: nat, c: nat)
    ensures Multiple(k, Multiple(open, c)) == Multiple(open, Multiple(k, c))
  {
    MultipleRegroup(k, open, c);
    MultipleSwap(k, open);
    MultipleRegroup(open, k, c);
  }

  /** One start more, within the share of its task. */
  lemma {:induction false} ShareSpent(before: nat, visited: nat, after: nat, maximum: nat, ok: bool, below: nat, k: nat, n: nat)
    requires k < n && visited <= before + Multiple(k, below) && Spent(visited, after, maximum, ok, below)
    ensures ok ==> after <= before + Multiple(k + 1, below)
    ensures Spent(before, after, maximum, ok, Multiple(n, below))
  {
    MultipleNext(k, below);
    MultipleMonotone(k + 1, n, below);
  }

  lemma {:induction false} StartSpent(d: Domains, p: Partial, v: nat, k: nat, before: nat, visited: nat, after: nat, maximum: nat, ok: bool, below: nat)
    requires |p| == |d| && NoneEmpty(d) && v < |d| && p[v] == None && below == SearchNodes(d, p[v := Some(0)])
    requires k < |d[v]| && visited <= before + Multiple(k, below)
    requires Spent(visited, after, maximum, ok, SearchNodes(d, p[v := Some(d[v][k])]))
    ensures ok ==> after <= before + Multiple(k + 1, below)
    ensures Spent(before, after, maximum, ok, ChildNodes(d, p, v))
  {
    StartsShare(d, p, v, d[v][k], below);
    ShareSpent(before, visited, after, maximum, ok, below, k, |d[v]|);
  }

  class SupportSearch {
    const durations: seq<int>
    const maximumSearchNodes: nat
    var visited: nat

    constructor (durations: seq<int>, maximumSearchNodes: nat)
      ensures this.durations == durations && this.maximumSearchNodes == maximumSearchNodes && visited == 0
    {
      this.durations, this.maximumSearchNodes, visited := durations, maximumSearchNodes, 0;
    }

    /** Depth-first search for a schedule that extends the placement, which is restored whenever the search finishes.
        At most the budgeted number of nodes is ever visited; running out is an error, not an answer. */
    method SearchCompleteAssignment(d: Domains, p: array<Option<int>>) returns (r: Result<bool, GlobalDisjunctiveError>)
      requires |d| == |durations| && NoneEmpty(d) && FromDomains(d, p[..]) && SeparateSoFar(durations, p[..])
      requires visited <= maximumSearchNodes
      modifies this, p
      ensures Spent(old(visited), visited, maximumSearchNodes, r.Ok?, SearchNodes(d, old(p[..])))
      ensures old(visited) <= visited <= maximumSearchNodes
      ensures r.Ok? ==> p[..] == old(p[..]) && (r.value <==> Extendable(durations, d, old(p[..])))
      ensures r.Err? ==> r == Err(SearchBudgetExceeded(maximumSearchNodes)) && visited == maximumSearchNodes
      decreases Open(p[..]), 2
    {
      ReachNotEmpty(d, p[..]);
      if visited >= maximumSearchNodes {
        return Err(SearchBudgetExceeded(visited));
      }
      visited := visited + 1;
      var next := SelectOpen(d, p);
      if next == None {
        CompleteIsExtendable(durations, d, p[..]);
        return Ok(true);
      }
      StartsShare(d, p[..], next.value, 0, SearchNodes(d, p[..][next.value := Some(0)]));
      r := TryStarts(d, p, next.value);
    }

    /** Tries every start of an unplaced task in increasing order. */
    method TryStarts(d: Domains, p: array<Option<int>>, v: nat) returns (r: Result<bool, GlobalDisjunctiveError>)
      requires |d| == |durations| && NoneEmpty(d) && FromDomains(d, p[..]) && SeparateSoFar(durations, p[..])
      requires visited <= maximumSearchNodes && v < p.Length && p[v] == None
      modifies this, p
      ensures Spent(old(visited), visited, maximumSearchNodes, r.Ok?, ChildNodes(d, old(p[..]), v))
      ensures old(visited) <= visited <= maximumSearchNodes
      ensures r.Ok? ==> p[..] == old(p[..]) && (r.value <==> Extendable(durations, d, old(p[..])))
      ensures r.Err? ==> r == Err(SearchBudgetExceeded(maximumSearchNodes)) && visited == maximumSearchNodes
      decreases Open(p[..]), 1
    {
      ghost var before, start, below := p[..], visited, SearchNodes(d, p[..][v := Some(0)]);
      ExtendableThroughStart(durations, d, before, v);
      var starts := d[v];
      for k := 0 to |starts|
        invariant p[..] == before && start <= visited <= maximumSearchNodes && visited <= start + Multiple(k, below)
        invariant NoneExtends(durations, d, before, v, starts[..k])
      {
        ghost var spent := visited;
        r := TryStart(d, p, v, starts[k]);
        StartSpent(d, before, v, k, start, spent, visited, maximumSearchNodes, r.Ok?, below);
        if r.Err? || r.value {
          return;
        }
        NoneExtendsNext(durations, d, before, v, starts, k);
      }
      assert starts[..|starts|] == starts;
      return Ok(false);
    }

    /** Places one task, if it fits, searches, and takes it back. */
    method TryStart(d: Domains, p: array<Option<int>>, v: nat, start: int) returns (r: Result<bool, GlobalDisjunctiveError>)
      requires |d| == |durations| && NoneEmpty(d) && FromDomains(d, p[..]) && SeparateSoFar(durations, p[..])
      requires visited <= maximumSearchNodes && v < p.Length && p[v] == None && start in d[v]
      modifies this, p
      ensures Spent(old(visited), visited, maximumSearchNodes, r.Ok?, SearchNodes(d, old(p[..])[v := Some(start)]))
      ensures old(visited) <= visited <= maximumSearchNodes
      ensures r.Ok? ==> p[..] == old(p[..]) && (r.value <==> Extendable(durations, d, old(p[..])[v := Some(start)]))
      ensures r.Err? ==> r == Err(SearchBudgetExceeded(maximumSearchNodes)) && visited == maximumSearchNodes
      decreases Open(p[..]), 0
    {
      ghost var before := p[..];
      var compatible := CheckCompatible(durations, p, v, start);
      if !compatible {
        ClashIsNotExtendable(durations, d, before, v, start);
        return Ok(false);
      }
      PlacingKeepsSeparate(durations, d, before, v, start);
      AssigningClosesOne(before, v, start);
      p[v] := Some(start);
      assert p[..] == before[v := Some(start)];
      r := SearchCompleteAssignment(d, p);
      if r.Err? {
        return;
      }
      p[v] := None;
      assert p[..] == before;
    }

    /** Decides whether some complete schedule starts task `v` at `x`. */
    method CandidateHasGlobalSupport(d: Domains, v: nat, x: int) returns (r: Result<bool, GlobalDisjunctiveError>)
      requires |d| == |durations| && NoneEmpty(d) && v < |d| && visited <= maximumSearchNodes
      modifies this
      ensures Spent(old(visited), visited, maximumSearchNodes, r.Ok?, Multiple(|d|, Volume(d[v := [x]])))
      ensures old(visited) <= visited <= maximumSearchNodes
      ensures r.Ok? ==> (r.value <==> Supported(d, NoOverlap(durations), v, x))
      ensures r.Err? ==> r == Err(SearchBudgetExceeded(maximumSearchNodes)) && visited == maximumSearchNodes
    {
      if x !in d[v] {
        assert forall a :: Choice(d, NoOverlap(durations), a) ==> a[v] in d[v];
        return Ok(false);
      }
      var p := new Option<int>[|d|](_ => None);
      ghost var empty := p[..];
      p[v] := Some(x);
      assert p[..] == empty[v := Some(x)];
      FixedPlacement(durations, d, empty, v, x);
      FixedPlacementNodes(d, empty, v, x);
      r := SearchCompleteAssignment(d, p);
    }

    /** Keeps the supported starts of one task, in order. */
    method FilterStarts(d: Domains, v: nat) returns (r: Result<seq<int>, GlobalDisjunctiveError>)
      requires |d| == |durations| && NoneEmpty(d) && v < |d| && visited <= maximumSearchNodes
      modifies this
      ensures Spent(old(visited), visited, maximumSearchNodes, r.Ok?, Multiple(|d|, Volume(d)))
      ensures old(visited) <= visited <= maximumSearchNodes
      ensures r.Ok? ==> r.value == Filtered(d, NoOverlap(durations), v)
      ensures r.Err? ==> r == Err(SearchBudgetExceeded(maximumSearchNodes))
    {
      var candidates := d[v];
      ghost var keep := SupportedValues(d, NoOverlap(durations), v);
      var supported: seq<int> := [];
      ghost var start, below := visited, Multiple(|d|, Volume(d[v := [0]]));
      for k := 0 to |candidates|
        invariant start <= visited <= maximumSearchNodes && visited <= start + Multiple(k, below)
        invariant supported == Retain(candidates[..k], keep)
      {
        RetainNext(candidates, k, keep);
        ghost var spent := visited;
        CandidatesShare(d, v, candidates[k]);
        var ok := this.CandidateHasGlobalSupport(d, v, candidates[k]);
        ShareSpent(start, spent, visited, maximumSearchNodes, ok.Ok?, below, k, |candidates|);
        if ok.Err? {
          return Err(ok.error);
        }
        if ok.value {
          supported := supported + [candidates[k]];
        }
      }
      RetainAll(candidates, keep);
      CandidatesShare(d, v, 0);
      return Ok(supported);
    }

    /** Filters one task of a pass. `done` tasks are known to be exact already. */
    method FilterTask(ghost n: Domains, ghost start: Domains, current: Domains, v: nat, ghost done: nat)
      returns (r: Result<Domains, GlobalDisjunctiveError>)
      requires |current| == |durations| && v < |current| && NoLonger(start, current) && visited <= maximumSearchNodes
      requires Progress(n, current, NoOverlap(durations), done) && (done == v || done == |n|)
      modifies this
      ensures old(visited) <= visited <= maximumSearchNodes
      ensures !r.Err? || r.error.SearchBudgetExceeded? ==>
                Spent(old(visited), visited, maximumSearchNodes, r.Ok?, Multiple(|start|, Volume(start)))
      ensures r.Ok? ==> NoLonger(start, r.value) && Satisfiable(n, NoOverlap(durations))
      ensures r.Ok? ==> Progress(n, r.value, NoOverlap(durations), if done == v then v + 1 else done)
      ensures r.Ok? && done == |n| ==> r.value == current
      ensures r.Err? ==> r == Err(SearchBudgetExceeded(maximumSearchNodes)) || (r == Err(GlobalDisjunctiveError.Infeasible) && !Satisfiable(n, NoOverlap(durations)))
    {
      NoMoreNodes(start, current);
      var supported := this.FilterStarts(current, v);
      if supported.Err? {
        return Err(supported.error);
      }
      TaskFiltered(n, start, current, NoOverlap(durations), v, done, supported.value, current[v := supported.value]);
      if supported.value == [] {
        return Err(GlobalDisjunctiveError.Infeasible);
      }
      return Ok(current[v := supported.value]);
    }

    /** One pass over all tasks, each updated before the next one is filtered. */
    method Pass(ghost n: Domains, start: Domains, ghost done: nat) returns (r: Result<Domains, GlobalDisjunctiveError>)
      requires |start| == |durations| && Progress(n, start, NoOverlap(durations), done) && (done == 0 || done == |n|)
      requires visited <= maximumSearchNodes && NoneEmpty(start)
      modifies this
      ensures old(visited) <= visited <= maximumSearchNodes
      ensures !r.Err? || r.error.SearchBudgetExceeded? ==> Spent(old(visited), visited, maximumSearchNodes, r.Ok?, PassNodes(start))
      ensures r.Ok? ==> NoLonger(start, r.value)
      ensures r.Ok? ==> Progress(n, r.value, NoOverlap(durations), |n|) && (done == |n| ==> r.value == start)
      ensures r.Ok? && n != [] ==> Satisfiable(n, NoOverlap(durations))
      ensures r.Err? ==> r == Err(SearchBudgetExceeded(maximumSearchNodes)) || (r == Err(GlobalDisjunctiveError.Infeasible) && !Satisfiable(n, NoOverlap(durations)))
    {
      var current := start;
      ghost var accepts, entry, below := NoOverlap(durations), visited, Multiple(|start|, Volume(start));
      for v := 0 to |start|
        invariant entry <= visited <= maximumSearchNodes && visited <= entry + Multiple(v, below)
        invariant NoLonger(start, current)
        invariant Progress(n, current, accepts, if done == 0 then v else done)
        invariant done == |n| ==> current == start
        invariant v > 0 ==> Satisfiable(n, accepts)
      {
        ghost var spent := visited;
        r := this.FilterTask(n, start, current, v, if done == 0 then v else done);
        if r.Ok? || r.error.SearchBudgetExceeded? {
          ShareSpent(entry, spent, visited, maximumSearchNodes, r.Ok?, below, v, |start|);
        }
        if r.Err? {
          return;
        }
        current := r.value;
      }
      return Ok(current);
    }

    /** Repeats passes until one removes nothing: one pass if every start was supported, otherwise two. */
    method RunPasses(n: Domains) returns (r: Result<Domains, GlobalDisjunctiveError>, passes: nat)
      requires n != [] && |n| == |durations| && AllSorted(n) && NoneEmpty(n) && visited <= maximumSearchNodes
      modifies this
      ensures visited <= maximumSearchNodes
      ensures r.Err? && r.error.SearchBudgetExceeded? ==> maximumSearchNodes < old(visited) + TwoPassNodes(n)
      ensures r.Ok? ==> Progress(n, r.value, NoOverlap(durations), |n|) && Satisfiable(n, NoOverlap(durations))
      ensures r.Ok? ==> passes == if r.value == n then 1 else 2
      ensures r.Err? ==> r == Err(SearchBudgetExceeded(maximumSearchNodes)) || (r == Err(GlobalDisjunctiveError.Infeasible) && !Satisfiable(n, NoOverlap(durations)))
    {
      passes := 0;
      var current := n;
      ghost var done, entry := 0, visited;
      ghost var below := PassNodes(n);
      while true
        invariant visited <= entry + Multiple(passes, below) && NoLonger(n, current)
        invariant done == (if passes == 0 then 0 else |n|) && passes <= 1 && visited <= maximumSearchNodes
        invariant Progress(n, current, NoOverlap(durations), done)
        invariant passes == 0 <==> current == n
        decreases 1 - passes
      {
        passes := passes + 1;
        var before := current;
        ghost var spent := visited;
        r := this.Pass(n, current, done);
        if r.Ok? || r.error.SearchBudgetExceeded? {
          NoMorePassNodes(n, before);
          ShareSpent(entry, spent, visited, maximumSearchNodes, r.Ok?, below, passes - 1, 2);
        }
        if r.Err? || r.value == before {
          return;
        }
        current, done := r.value, |n|;
      }
    }
  }

  /** No domain of `e` is empty or longer than the one of `d`. */
  ghost predicate NoLonger(d: Domains, e: Domains) {
    |d| == |e| && forall v :: 0 <= v < |d| ==> 0 < |e[v]| <= |d[v]|
  }

  /** Every start of every task, each with at most one node per level and schedule. */
  ghost function PassNodes(d: Domains): nat {
    Multiple(|d|, Multiple(|d|, Volume(d)))
  }

  ghost function TwoPassNodes(d: Domains): nat {
    Multiple(2, PassNodes(d))
  }

  lemma {:induction false} MultipleGrows(k: nat, a: nat, b: nat)
    requires a <= b
    ensures Multiple(k, a) <= Multiple(k, b)
  {
    MultipleMonotone(a, b, k);
    MultipleSwap(k, a);
    MultipleSwap(k, b);
  }

  lemma {:induction false} NoMoreNodes(d: Domains, e: Domains)
    requires NoLonger(d, e)
    ensures Multiple(|e|, Volume(e)) <= Multiple(|d|, Volume(d))
  {
    VolumeMonotone(d, e);
    MultipleGrows(|d|, Volume(e), Volume(d));
  }

  lemma {:induction false} NoMorePassNodes(d: Domains, e: Domains)
    requires NoLonger(d, e)
    ensures PassNodes(e) <= PassNodes(d)
  {
    NoMoreNodes(d, e);
    MultipleGrows(|d|, Multiple(|e|, Volume(e)), Multiple(|d|, Volume(d)));
  }

  /** The candidates of a task share the nodes of its filtering. */
  lemma {:induction false} CandidatesShare(d: Domains, v: nat, x: int)
    requires NoneEmpty(d) && v < |d|
    ensures Volume(d[v := [x]]) == Volume(d[v := [0]])
    ensures Multiple(|d[v]|, Multiple(|d|, Volume(d[v := [0]]))) == Multiple(|d|, Volume(d))
  {
    VolumeSplits(d, v, 0);
    VolumeSplits(d, v, x);
    assert d[v] != [];
    MultipleInjective(|d[v]|, Volume(d[v := [x]]), Volume(d[v := [0]]));
    LevelsBelow(|d[v]|, |d|, Volume(d[v := [0]]));
  }

  lemma {:induction false} AllOpen(p: Partial)
    requires forall i :: 0 <= i < |p| ==> p[i] == None
    ensures Open(p) == |p|
  {
    if p != [] { AllOpen(p[..|p| - 1]); }
  }

  lemma {:induction false} FixedPlacementNodes(d: Domains, empty: Partial, v: nat, x: int)
    requires |empty| == |d| && v < |d| && forall i :: 0 <= i < |empty| ==> empty[i] == None
    ensures SearchNodes(d, empty[v := Some(x)]) == Multiple(|d|, Volume(d[v := [x]]))
  {
    AllOpen(empty);
    AssigningClosesOne(empty, v, x);
    assert Reach(d, empty[v := Some(x)]) == d[v := [x]];
  }

  /** What filtering one task does to the pass. */
  lemma {:induction false} TaskFiltered(n: Domains, start: Domains, current: Domains, accepts: Accepts, v: nat, done: nat, kept: seq<int>, next: Domains)
    requires v < |n| && NoLonger(start, current) && Progress(n, current, accepts, done) && (done == v || done == |n|)
    requires kept == Filtered(current, accepts, v) && next == current[v := kept]
    ensures kept != [] <==> Satisfiable(n, accepts)
    ensures kept != [] ==> NoLonger(start, next)
    ensures Progress(n, next, accepts, if done == v then v + 1 else done)
    ensures done == |n| ==> next == current
  {
    FilterStep(n, current, accepts, v, done);
    FilteredNotEmpty(current, accepts, v);
    SatisfiabilityTransfers(n, current, accepts);
    RetainMembers(current[v], SupportedValues(current, accepts, v));
  }

  lemma {:induction false} SatisfiabilityTransfers(d: Domains, e: Domains, accepts: Accepts)
    requires SameChoices(d, e, accepts)
    ensures Satisfiable(d, accepts) <==> Satisfiable(e, accepts)
  {
    if a :| Choice(d, accepts, a) { assert Choice(e, accepts, a); }
    if a :| Choice(e, accepts, a) { assert Choice(d, accepts, a); }
  }

  /** Placing one task alone is always a separate placement, and extending it is support. */
  lemma {:induction false} FixedPlacement(durations: seq<int>, d: Domains, empty: Partial, v: nat, x: int)
    requires |empty| == |d| == |durations| && v < |d| && x in d[v] && forall i :: 0 <= i < |empty| ==> empty[i] == None
    ensures FromDomains(d, empty[v := Some(x)]) && SeparateSoFar(durations, empty[v := Some(x)])
    ensures Extendable(durations, d, empty[v := Some(x)]) <==> Supported(d, NoOverlap(durations), v, x)
  {
    var q := empty[v := Some(x)];
    if s :| Choice(d, NoOverlap(durations), s) && Extends(s, q) {
      assert q[v].Some? && s[v] == x;
    }
    if s :| Choice(d, NoOverlap(durations), s) && v < |s| && s[v] == x {
      assert Extends(s, q);
    }
  }

  // ---- The propagator ----

  function TaskError(task: DisjunctiveTask, index: nat): (e: GlobalDisjunctiveError)
    ensures task.duration <= 0 ==> e == GlobalDisjunctiveError.InvalidDuration(index)
    ensures task.duration > 0 ==> e == GlobalDisjunctiveError.EmptyDomain(index)
  {
    if task.duration <= 0 then GlobalDisjunctiveError.InvalidDuration(index) else GlobalDisjunctiveError.EmptyDomain(index)
  }

  /** Exactly the starts that a complete non-overlapping schedule of the input uses. */
  ghost predicate GlobalReport(tasks: seq<DisjunctiveTask>, maximumSearchNodes: nat, report: GlobalDisjunctiveReport) {
    && |report.tasks| == |tasks| && Durations(report.tasks) == Durations(tasks)
    && KeepsExactlySupported(Starts(tasks), NoOverlap(Durations(tasks)), Starts(report.tasks))
    && Tally(Starts(tasks), Starts(report.tasks), report.removedStarts, report.passes)
    && report.searchNodes <= maximumSearchNodes
  }

  /** The budget error comes only if the searches of two passes may need more nodes than the budget. */
  ghost predicate GlobalOutcome(tasks: seq<DisjunctiveTask>, maximumSearchNodes: nat, r: Result<GlobalDisjunctiveReport, GlobalDisjunctiveError>) {
    match r
    case Ok(report) => Satisfiable(Starts(tasks), NoOverlap(Durations(tasks))) && GlobalReport(tasks, maximumSearchNodes, report)
    case Err(e) =>
      || (e == SearchBudgetExceeded(maximumSearchNodes) && maximumSearchNodes < TwoPassNodes(Normalized(Starts(tasks))))
      || (e == GlobalDisjunctiveError.Infeasible && !Satisfiable(Starts(tasks), NoOverlap(Durations(tasks))))
  }

  lemma {:induction false} ReportIsExact(tasks: seq<DisjunctiveTask>, current: Domains, maximumSearchNodes: nat, report: GlobalDisjunctiveReport)
    requires Progress(Normalized(Starts(tasks)), current, NoOverlap(Durations(tasks)), |tasks|) && |current| == |tasks|
    requires report.tasks == WithStarts(Durations(tasks), current) && report.searchNodes <= maximumSearchNodes
    requires report.removedStarts == DistinctValues(Starts(tasks)) - TotalSize(current)
    requires report.passes == if current == Normalized(Starts(tasks)) then 1 else 2
    ensures GlobalReport(tasks, maximumSearchNodes, report)
  {
    PartsOfTasks(Durations(tasks), current);
    ExactResult(Starts(tasks), NoOverlap(Durations(tasks)), current);
    TallyOfRun(Starts(tasks), current, NoOverlap(Durations(tasks)), report.removedStarts, report.passes);
  }

  method PropagateGlobalDisjunctiveGac(tasks: seq<DisjunctiveTask>, config: GlobalDisjunctiveConfig)
    returns (r: Result<GlobalDisjunctiveReport, GlobalDisjunctiveError>)
    ensures tasks == [] ==> r == Err(GlobalDisjunctiveError.EmptyTasks)
    ensures tasks != [] && config.maximumSearchNodes == 0 ==> r == Err(InvalidSearchBudget)
    ensures config.maximumSearchNodes > 0 ==> forall v: nat :: FirstBad(tasks, v) ==> r == Err(TaskError(tasks[v], v))
    ensures tasks != [] && config.maximumSearchNodes > 0 && NoBadTask(tasks) ==> GlobalOutcome(tasks, config.maximumSearchNodes, r)
  {
    AtMostOneFirstBad(tasks);
    if tasks == [] {
      return Err(GlobalDisjunctiveError.EmptyTasks);
    }
    if config.maximumSearchNodes == 0 {
      return Err(InvalidSearchBudget);
    }
    var normalized := NormalizeTasks(tasks);
    if normalized.Err? {
      return Err(TaskError(tasks[normalized.error], normalized.error));
    }
    r := PropagateNormalized(tasks, normalized.value, config.maximumSearchNodes);
  }

  method PropagateNormalized(tasks: seq<DisjunctiveTask>, n: Domains, maximumSearchNodes: nat)
    returns (r: Result<GlobalDisjunctiveReport, GlobalDisjunctiveError>)
    requires tasks != [] && n == Normalized(Starts(tasks)) && NoneEmpty(n)
    ensures GlobalOutcome(tasks, maximumSearchNodes, r)
  {
    var durations := Durations(tasks);
    ghost var accepts := NoOverlap(durations);
    NormalizingKeepsChoices(Starts(tasks), accepts);
    SatisfiabilityTransfers(Starts(tasks), n, accepts);
    var search := new SupportSearch(durations, maximumSearchNodes);
    var run, passes := search.RunPasses(n);
    if run.Err? {
      return Err(run.error);
    }
    var current := run.value;
    TotalSizeShrinks(n, current);
    var removed := TotalSize(n) - TotalSize(current);
    var report := GlobalDisjunctiveReport(WithStarts(durations, current), removed, passes, search.visited);
    ReportIsExact(tasks, current, maximumSearchNodes, report);
    return Ok(report);
  }

  /** Global filtering is at least as strong as pairwise filtering of the same tasks. */
  lemma {:induction false} GlobalWithinPairwise(durations: seq<int>, d: Domains, global: Domains, pairwise: Domains)
    requires |d| == |durations| && KeepsExactlySupported(d, NoOverlap(durations), global)
    requires GreatestConsistent(PairSupports(durations), d, pairwise)
    ensures Within(global, pairwise)
  {
    forall v, x | 0 <= v < |d| && x in global[v] ensures x in pairwise[v] {
      assert Supported(d, NoOverlap(durations), v, x);
      var s :| Choice(d, NoOverlap(durations), s) && v < |s| && s[v] == x;
      PairwiseKeepsSchedules(durations, d, pairwise, s);
    }
  }
}
