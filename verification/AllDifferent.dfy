/** Failures of the global propagators. */
module GlobalErrors {
  datatype GlobalPropagationError =
    | EmptyVariables
    | EmptyDomain(variable: nat)
    | InvalidTask
    | InvalidCapacity
    | Infeasible
}

/** Bipartite matching of variables to values by augmenting paths. */
module Matching {
  import opened Wrappers
  import opened Finite
  import opened Filtering

  /** A choice of pairwise different values, one from each domain. */
  ghost predicate AllDifferentChoice(domains: Domains, a: seq<int>) {
    && |a| == |domains| && Distinct(a)
    && forall v :: 0 <= v < |domains| ==> a[v] in domains[v]
  }

  ghost predicate RespectsFixed(fixed: Option<(nat, int)>, a: seq<int>) {
    fixed.Some? && fixed.value.0 < |a| ==> a[fixed.value.0] == fixed.value.1
  }

  ghost predicate HasChoice(domains: Domains, fixed: Option<(nat, int)>) {
    exists a :: AllDifferentChoice(domains, a) && RespectsFixed(fixed, a)
  }

  /** The values variable `v` may take. */
  function Candidates(domains: Domains, fixed: Option<(nat, int)>, v: nat): seq<int>
    requires v < |domains|
  {
    if fixed.Some? && fixed.value.0 == v then [fixed.value.1] else domains[v]
  }

  /** The values of the first `n` domains. */
  ghost function ValuesBelow(domains: Domains, n: nat): (s: set<int>)
    requires n <= |domains|
    ensures forall v :: 0 <= v < n ==> Members(domains[v]) <= s
  {
    if n == 0 then {} else ValuesBelow(domains, n - 1) + Members(domains[n - 1])
  }

  ghost function AllValues(domains: Domains, fixed: Option<(nat, int)>): set<int> {
    ValuesBelow(domains, |domains|) + (if fixed.Some? then {fixed.value.1} else {})
  }

  // ---- Owner maps ----

  /** The variables that own a value outside `seen`. */
  ghost predicate OwnsOutside(owner: map<int, nat>, seen: set<int>, v: nat) {
    exists x :: x in owner && x !in seen && owner[x] == v
  }

  /** Outside `seen` no variable owns two values. */
  ghost predicate InjectiveOutside(owner: map<int, nat>, seen: set<int>) {
    forall x, y :: x in owner && y in owner && x !in seen && y !in seen && x != y ==> owner[x] != owner[y]
  }

  /** Every owner may take the value it owns. */
  ghost predicate Legal(domains: Domains, fixed: Option<(nat, int)>, owner: map<int, nat>) {
    forall x :: x in owner ==> owner[x] < |domains| && x in Candidates(domains, fixed, owner[x])
  }

  /** Every value of `newly` is owned, and its owner has no candidate outside `seen`. */
  ghost predicate Saturated(domains: Domains, fixed: Option<(nat, int)>, owner: map<int, nat>, newly: set<int>, seen: set<int>)
    requires Legal(domains, fixed, owner)
  {
    forall x :: x in newly ==> x in owner && forall y :: y in Candidates(domains, fixed, owner[x]) ==> y in seen
  }

  /** Outside `seen` exactly one more variable owns a value; within `seen` nothing changed. */
  ghost predicate Augmented(before: map<int, nat>, after: map<int, nat>, seen: set<int>, variable: nat) {
    && InjectiveOutside(after, seen)
    && (forall v: nat :: OwnsOutside(after, seen, v) <==> v == variable || OwnsOutside(before, seen, v))
    && (forall x :: x in seen ==> (x in after <==> x in before) && (x in after ==> after[x] == before[x]))
  }

  lemma TakeFree(before: map<int, nat>, seen: set<int>, candidate: int, variable: nat)
    requires InjectiveOutside(before, seen) && !OwnsOutside(before, seen, variable)
    requires candidate !in before && candidate !in seen
    ensures Augmented(before, before[candidate := variable], seen, variable)
  {
    var after := before[candidate := variable];
    forall v: nat ensures OwnsOutside(after, seen, v) <==> v == variable || OwnsOutside(before, seen, v) {
      if OwnsOutside(before, seen, v) {
        var x :| x in before && x !in seen && before[x] == v;
        assert after[x] == v;
      }
      assert after[candidate] == variable;
    }
  }

  /** The previous owner found another value, so `variable` can have `candidate`. */
  lemma TakeOver(before: map<int, nat>, rerouted: map<int, nat>, seen: set<int>, wider: set<int>, candidate: int, variable: nat)
    requires InjectiveOutside(before, seen) && !OwnsOutside(before, seen, variable)
    requires seen <= wider && candidate in wider && candidate !in seen && candidate in before
    requires Augmented(before, rerouted, wider, before[candidate])
    ensures Augmented(before, rerouted[candidate := variable], seen, variable)
  {
    var after := rerouted[candidate := variable];
    var moved := before[candidate];
    forall x | x in after && x !in seen && x != candidate
      ensures x in wider ==> x in before && before[x] == after[x] && after[x] != moved
      ensures x !in wider ==> after[x] == moved || OwnsOutside(before, wider, after[x])
      ensures after[x] != variable
    {
      if x !in wider { assert OwnsOutside(rerouted, wider, after[x]); }
    }
    TakeOverInjective(before, rerouted, seen, wider, candidate, variable);
    forall v: nat ensures OwnsOutside(after, seen, v) <==> v == variable || OwnsOutside(before, seen, v) {
      assert after[candidate] == variable;
      if OwnsOutside(before, seen, v) && v != moved {
        var x :| x in before && x !in seen && before[x] == v;
        if x in wider {
          assert after[x] == v;
        } else {
          assert OwnsOutside(before, wider, v);
          var y :| y in rerouted && y !in wider && rerouted[y] == v;
          assert after[y] == v;
        }
      }
      if v == moved {
        assert OwnsOutside(rerouted, wider, v);
        var y :| y in rerouted && y !in wider && rerouted[y] == v;
        assert after[y] == v;
      }
    }
  }

  lemma TakeOverInjective(before: map<int, nat>, rerouted: map<int, nat>, seen: set<int>, wider: set<int>, candidate: int, variable: nat)
    requires InjectiveOutside(before, seen) && !OwnsOutside(before, seen, variable)
    requires seen <= wider && candidate in wider && candidate !in seen && candidate in before
    requires Augmented(before, rerouted, wider, before[candidate])
    ensures InjectiveOutside(rerouted[candidate := variable], seen)
  {
    var after := rerouted[candidate := variable];
    forall x, y | x in after && y in after && x !in seen && y !in seen && x != y ensures after[x] != after[y] {
      if x !in wider { assert OwnsOutside(rerouted, wider, rerouted[x]); }
      if y !in wider { assert OwnsOutside(rerouted, wider, rerouted[y]); }
    }
  }

  lemma CandidatesAreValues(domains: Domains, fixed: Option<(nat, int)>, v: nat)
    requires v < |domains|
    ensures forall i :: 0 <= i < |Candidates(domains, fixed, v)| ==> Candidates(domains, fixed, v)[i] in AllValues(domains, fixed)
  {
    var c := Candidates(domains, fixed, v);
    forall i | 0 <= i < |c| ensures c[i] in AllValues(domains, fixed) {
      assert c == domains[v] ==> c[i] in Members(domains[v]);
    }
  }

  class Matcher {
    var owner: map<int, nat>
    var visited: set<int>

    constructor ()
      ensures owner == map[] && visited == {}
    {
      owner, visited := map[], {};
    }

    /** Tries to give `variable` a value, moving other owners along an alternating path. On success exactly
        one more variable owns a value; on failure the newly visited values are owned and saturated. */
    method Augment(variable: nat, candidates: seq<int>, domains: Domains, fixed: Option<(nat, int)>) returns (found: bool)
      requires variable < |domains| && candidates == Candidates(domains, fixed, variable)
      requires Legal(domains, fixed, owner) && InjectiveOutside(owner, visited)
      requires !OwnsOutside(owner, visited, variable)
      modifies this
      ensures old(visited) <= visited && visited <= old(visited) + AllValues(domains, fixed)
      ensures Legal(domains, fixed, owner)
      ensures found ==> Augmented(old(owner), owner, old(visited), variable)
      ensures !found ==> owner == old(owner) && Saturated(domains, fixed, owner, visited - old(visited), visited)
      ensures !found ==> forall x :: x in candidates ==> x in visited
      decreases AllValues(domains, fixed) - visited
    {
      CandidatesAreValues(domains, fixed, variable);
      for k := 0 to |candidates|
        invariant owner == old(owner) && old(visited) <= visited && visited <= old(visited) + AllValues(domains, fixed)
        invariant forall i :: 0 <= i < k ==> candidates[i] in visited
        invariant Saturated(domains, fixed, owner, visited - old(visited), visited)
      {
        var candidate := candidates[k];
        if candidate !in visited {
          visited := visited + {candidate};
          if candidate !in owner {
            TakeFree(owner, old(visited), candidate, variable);
            owner := owner[candidate := variable];
            return true;
          }
          var current := owner[candidate];
          if fixed.Some? && current == fixed.value.0 && candidate == fixed.value.1 { continue; }
          ghost var wider := visited;
          var moved := Augment(current, Candidates(domains, fixed, current), domains, fixed);
          if moved {
            TakeOver(old(owner), owner, old(visited), wider, candidate, variable);
            owner := owner[candidate := variable];
            return true;
          }
        }
      }
      return false;
    }
  }

  // ---- Success and failure of the whole matching ----

  /** Exactly the variables below `end` own a value, each exactly one. */
  ghost predicate MatchedBelow(domains: Domains, fixed: Option<(nat, int)>, owner: map<int, nat>, end: nat) {
    && Legal(domains, fixed, owner) && InjectiveOutside(owner, {})
    && forall v: nat :: OwnsOutside(owner, {}, v) <==> v < end
  }

  /** A full matching is a choice of different values. */
  lemma MatchingGivesChoice(domains: Domains, fixed: Option<(nat, int)>, owner: map<int, nat>)
    requires MatchedBelow(domains, fixed, owner, |domains|)
    requires fixed.Some? && fixed.value.0 < |domains| ==> fixed.value.1 in domains[fixed.value.0]
    ensures HasChoice(domains, fixed)
  {
    var a := ChosenValues(domains, fixed, owner, |domains|);
    forall v | 0 <= v < |domains| ensures a[v] in domains[v] {
      var x := a[v];
      assert x in owner && x in Candidates(domains, fixed, owner[x]);
    }
    if fixed.Some? && fixed.value.0 < |a| {
      var x := a[fixed.value.0];
      assert x in owner && x in Candidates(domains, fixed, owner[x]);
    }
    assert AllDifferentChoice(domains, a) && RespectsFixed(fixed, a);
  }

  lemma {:induction false} ChosenValues(domains: Domains, fixed: Option<(nat, int)>, owner: map<int, nat>, n: nat) returns (a: seq<int>)
    requires MatchedBelow(domains, fixed, owner, |domains|) && n <= |domains|
    ensures |a| == n && forall v :: 0 <= v < n ==> a[v] in owner && owner[a[v]] == v
  {
    if n == 0 {
      a := [];
    } else {
      var rest := ChosenValues(domains, fixed, owner, n - 1);
      assert OwnsOutside(owner, {}, n - 1);
      var x :| x in owner && owner[x] == n - 1;
      a := rest + [x];
    }
  }

  /** Saturated values and the failed variable form a Hall violator: one variable more than values. */
  lemma {:induction false} HallViolatorExcludesChoice(domains: Domains, fixed: Option<(nat, int)>, owner: map<int, nat>, variable: nat, values: set<int>)
    requires variable < |domains| && MatchedBelow(domains, fixed, owner, variable)
    requires Saturated(domains, fixed, owner, values, values)
    requires forall x :: x in Candidates(domains, fixed, variable) ==> x in values
    ensures !HasChoice(domains, fixed)
  {
    if a :| AllDifferentChoice(domains, a) && RespectsFixed(fixed, a) {
      var list := OwnersOf(domains, fixed, owner, values);
      var chosen := seq(|list|, i requires 0 <= i < |list| => a[list[i]]) + [a[variable]];
      forall i | 0 <= i < |chosen| ensures chosen[i] in values {
        if i < |list| {
          var x :| x in values && owner[x] == list[i];
          assert a[owner[x]] in Candidates(domains, fixed, owner[x]);
          assert chosen[i] == a[owner[x]];
        } else {
          assert chosen[i] == a[variable] && a[variable] in Candidates(domains, fixed, variable);
        }
      }
      assert variable !in list by {
        forall i | 0 <= i < |list| ensures list[i] != variable {
          assert OwnsOutside(owner, {}, list[i]);
        }
      }
      var i, j := Pigeonhole(chosen, values);
    }
  }

  /** The distinct owners of a set of owned values. */
  lemma {:induction false} OwnersOf(domains: Domains, fixed: Option<(nat, int)>, owner: map<int, nat>, values: set<int>) returns (list: seq<nat>)
    requires Legal(domains, fixed, owner) && InjectiveOutside(owner, {}) && forall x :: x in values ==> x in owner
    ensures |list| == |values| && Distinct(list)
    ensures forall i :: 0 <= i < |list| ==> exists x :: x in values && owner[x] == list[i]
    decreases |values|
  {
    if values == {} {
      list := [];
    } else {
      var x := PickFrom(values);
      var rest := OwnersOf(domains, fixed, owner, values - {x});
      list := rest + [owner[x]];
    }
  }

  /** Kuhn's algorithm: true exactly when distinct values can be chosen, with the fixed variable at its value. */
  method HasPerfectMatching(domains: Domains, fixed: Option<(nat, int)>) returns (matched: bool)
    ensures matched <==> HasChoice(domains, fixed)
  {
    var matcher := new Matcher();
    for variable := 0 to |domains|
      invariant MatchedBelow(domains, fixed, matcher.owner, variable)
      invariant fixed.Some? && fixed.value.0 < variable ==> fixed.value.1 in domains[fixed.value.0]
    {
      if fixed.Some? && fixed.value.0 == variable && fixed.value.1 !in domains[variable] {
        assert !HasChoice(domains, fixed);
        return false;
      }
      matcher.visited := {};
      ghost var before := matcher.owner;
      var found := matcher.Augment(variable, Candidates(domains, fixed, variable), domains, fixed);
      if !found {
        assert matcher.visited - {} == matcher.visited;
        HallViolatorExcludesChoice(domains, fixed, matcher.owner, variable, matcher.visited);
        return false;
      }
    }
    MatchingGivesChoice(domains, fixed, matcher.owner);
    return true;
  }
}

/** Generalised arc consistency for one all-different constraint. */
module AllDifferentPropagation {
  import opened Wrappers
  import opened Finite
  import opened Sorting
  import opened Filtering
  import opened GlobalErrors
  import opened GlobalConsistency
  import opened Matching

  datatype AllDifferentGacReport = AllDifferentGacReport(domains: Domains, removedValues: nat, passes: nat)

  ghost function AllDifferent(): Accepts {
    a => Distinct(a)
  }

  lemma FixedChoiceIsSupport(domains: Domains, v: nat, x: int)
    requires v < |domains|
    ensures HasChoice(domains, Some((v, x))) <==> Supported(domains, AllDifferent(), v, x)
  {
    if HasChoice(domains, Some((v, x))) {
      var a :| AllDifferentChoice(domains, a) && RespectsFixed(Some((v, x)), a);
      assert Choice(domains, AllDifferent(), a);
    }
    if Supported(domains, AllDifferent(), v, x) {
      var a :| Choice(domains, AllDifferent(), a) && v < |a| && a[v] == x;
      assert AllDifferentChoice(domains, a) && RespectsFixed(Some((v, x)), a);
    }
  }

  lemma FreeChoiceIsSatisfiability(domains: Domains)
    ensures HasChoice(domains, None) <==> Satisfiable(domains, AllDifferent())
  {
    if a :| AllDifferentChoice(domains, a) && RespectsFixed(None, a) {
      assert Choice(domains, AllDifferent(), a);
    }
    if a :| Choice(domains, AllDifferent(), a) {
      assert AllDifferentChoice(domains, a) && RespectsFixed(None, a);
    }
  }

  /** Sorts and de-duplicates every domain, or reports the first empty one. */
  method NormalizeDomains(domains: Domains) returns (r: Result<Domains, GlobalPropagationError>)
    ensures r.Ok? ==> r.value == Normalized(domains) && NoneEmpty(domains)
    ensures r.Err? ==> r.error.EmptyDomain? && FirstEmpty(domains, r.error.variable)
  {
    var n: Domains := [];
    for v := 0 to |domains|
      invariant n == Normalized(domains)[..v]
      invariant forall w :: 0 <= w < v ==> domains[w] != []
    {
      NormalizedNext(domains, v);
      var values := SortDedup(domains[v]);
      if values == [] {
        return Err(EmptyDomain(v));
      }
      n := n + [values];
    }
    assert Normalized(domains)[..|domains|] == Normalized(domains);
    return Ok(n);
  }

  /** Tests every value of one variable for support by a complete matching. */
  method FilterVariable(d: Domains, v: nat) returns (supported: seq<int>)
    requires v < |d|
    ensures supported == Filtered(d, AllDifferent(), v)
  {
    var candidates := d[v];
    ghost var keep := SupportedValues(d, AllDifferent(), v);
    supported := [];
    for k := 0 to |candidates|
      invariant supported == Retain(candidates[..k], keep)
    {
      RetainNext(candidates, k, keep);
      FixedChoiceIsSupport(d, v, candidates[k]);
      var ok := HasPerfectMatching(d, Some((v, candidates[k])));
      if ok {
        supported := supported + [candidates[k]];
      }
    }
    RetainAll(candidates, keep);
  }

  /** One pass over all variables, each overwritten before the next is filtered. */
  method FilterPass(ghost n: Domains, start: Domains, ghost done: nat) returns (feasible: bool, current: Domains)
    requires Progress(n, start, AllDifferent(), done) && (done == 0 || done == |n|) && Satisfiable(n, AllDifferent())
    ensures feasible && Progress(n, current, AllDifferent(), |n|)
    ensures done == |n| ==> current == start
  {
    current := start;
    for v := 0 to |start|
      invariant Progress(n, current, AllDifferent(), if done == 0 then v else done)
      invariant done == |n| ==> current == start
    {
      var supported := FilterVariable(current, v);
      FilterStep(n, current, AllDifferent(), v, if done == 0 then v else done);
      FilteredNotEmpty(current, AllDifferent(), v);
      if supported == [] {
        assert false;
        return false, current;
      }
      current := current[v := supported];
    }
    feasible := true;
  }

  /** Repeats passes until one deletes nothing: one pass if every value was supported, otherwise two. */
  method RunPasses(n: Domains) returns (feasible: bool, current: Domains, passes: nat)
    requires n != [] && AllSorted(n)
    ensures feasible <==> Satisfiable(n, AllDifferent())
    ensures feasible ==> Progress(n, current, AllDifferent(), |n|) && passes == if current == n then 1 else 2
  {
    current, passes := n, 0;
    ghost var done := 0;
    while true
      invariant done == (if passes == 0 then 0 else |n|) && passes <= 1
      invariant Progress(n, current, AllDifferent(), done)
      invariant passes == 0 <==> current == n
      invariant passes == 1 ==> Satisfiable(n, AllDifferent())
      decreases 1 - passes
    {
      passes := passes + 1;
      FreeChoiceIsSatisfiability(current);
      var possible := HasPerfectMatching(current, None);
      if !possible {
        return false, current, passes;
      }
      var before := current;
      feasible, current := FilterPass(n, current, done);
      done := |n|;
      if !feasible || current == before {
        return;
      }
    }
  }

  /** Infeasible exactly when no choice of different values exists; otherwise exactly the supported values stay. */
  ghost predicate GacOutcome(domains: Domains, r: Result<AllDifferentGacReport, GlobalPropagationError>) {
    if Satisfiable(domains, AllDifferent())
    then r.Ok? && KeepsExactlySupported(domains, AllDifferent(), r.value.domains)
         && Tally(domains, r.value.domains, r.value.removedValues, r.value.passes)
    else r == Err(Infeasible)
  }

  method PropagateAllDifferentGac(domains: Domains) returns (r: Result<AllDifferentGacReport, GlobalPropagationError>)
    ensures domains == [] ==> r == Err(EmptyVariables)
    ensures forall v: nat :: FirstEmpty(domains, v) ==> r == Err(EmptyDomain(v))
    ensures domains != [] && NoneEmpty(domains) ==> GacOutcome(domains, r)
  {
    if domains == [] {
      return Err(EmptyVariables);
    }
    FirstEmptyIsUnique(domains);
    var normalized := NormalizeDomains(domains);
    if normalized.Err? {
      return Err(normalized.error);
    }
    r := PropagateNormalized(domains, normalized.value);
    assert domains != [] && NoneEmpty(domains);
  }

  method PropagateNormalized(ghost domains: Domains, n: Domains) returns (r: Result<AllDifferentGacReport, GlobalPropagationError>)
    requires domains != [] && n == Normalized(domains)
    ensures GacOutcome(domains, r)
  {
    NormalizingKeepsChoices(domains, AllDifferent());
    var feasible, current, passes := RunPasses(n);
    if !feasible {
      return Err(Infeasible);
    }
    TotalSizeShrinks(n, current);
    ExactResult(domains, AllDifferent(), current);
    var removed := TotalSize(n) - TotalSize(current);
    TallyOfRun(domains, current, AllDifferent(), removed, passes);
    return Ok(AllDifferentGacReport(current, removed, passes));
  }
}
