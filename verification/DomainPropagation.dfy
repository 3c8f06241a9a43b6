/** Propagation of all-different, linear and no-overlap constraints over shared finite domains. */
module DomainPropagation {
  import opened Wrappers
  import opened Constraints
  import opened Sorting
  import opened Filtering
  import opened Propagation
  import opened LinearBounds
  import opened FiniteDomainProblems
  import opened ConsistentFamilies
  import opened ConstraintPasses

  datatype PropagationError =
    | InvalidProblem
    | Infeasible
    | InvalidNodeBudget
    | NodeBudgetExceeded(exploredNodes: nat)

  datatype PropagationReport = PropagationReport(domains: Domains, passes: nat, removedValues: nat)

  method RemoveValues(domains: array<seq<int>>, v: nat, removed: set<int>)
    requires v < domains.Length
    modifies domains
    ensures domains[..] == old(domains[..])[v := Retain(old(domains[v]), iset x | x !in removed)]
  {
    var candidates := domains[v];
    ghost var keep := iset x | x !in removed;
    var kept: seq<int> := [];
    for k := 0 to |candidates|
      invariant kept == Retain(candidates[..k], keep)
      invariant domains[..] == old(domains[..])
    {
      RetainNext(candidates, k, keep);
      if candidates[k] !in removed {
        kept := kept + [candidates[k]];
      }
    }
    RetainAll(candidates, keep);
    domains[v] := kept;
  }

  // ---- All different ----

  /** One of the first `n` listed variables has only the value `x` left. */
  ghost predicate FixedTo(d: Domains, variables: seq<nat>, n: nat, x: int)
    requires ValidIndices(variables, |d|) && n <= |variables|
  {
    exists i :: 0 <= i < n && d[variables[i]] == [x]
  }

  /** No two of the first `n` listed variables are fixed to one value. */
  ghost predicate FixedApart(d: Domains, variables: seq<nat>, n: nat)
    requires ValidIndices(variables, |d|) && n <= |variables|
  {
    forall i, j :: 0 <= i < j < n ==> |d[variables[i]]| == 1 ==> d[variables[i]] != d[variables[j]]
  }

  lemma {:induction false} FixedNext(d: Domains, variables: seq<nat>, k: nat)
    requires ValidIndices(variables, |d|) && k < |variables|
    ensures forall x :: FixedTo(d, variables, k + 1, x) <==> FixedTo(d, variables, k, x) || d[variables[k]] == [x]
    ensures FixedApart(d, variables, k + 1) <==>
              FixedApart(d, variables, k) && (|d[variables[k]]| == 1 ==> !FixedTo(d, variables, k, d[variables[k]][0]))
  {
    var here := d[variables[k]];
    if |here| == 1 {
      assert here == [here[0]];
      if FixedTo(d, variables, k, here[0]) {
        var i :| 0 <= i < k && d[variables[i]] == [here[0]];
        assert !FixedApart(d, variables, k + 1);
      } else {
        assert forall i :: 0 <= i < k ==> d[variables[i]] != here;
      }
    }
  }

  /** The fixed values with repetitions, and as a set. */
  method FixedValues(domains: array<seq<int>>, variables: seq<nat>) returns (values: seq<int>, unique: set<int>)
    requires ValidIndices(variables, domains.Length)
    ensures forall x :: x in unique <==> FixedTo(domains[..], variables, |variables|, x)
    ensures |unique| == |values| <==> FixedApart(domains[..], variables, |variables|)
  {
    values, unique := [], {};
    for k := 0 to |variables|
      invariant forall x :: x in unique <==> FixedTo(domains[..], variables, k, x)
      invariant |unique| <= |values|
      invariant |unique| == |values| <==> FixedApart(domains[..], variables, k)
    {
      FixedNext(domains[..], variables, k);
      var d := domains[variables[k]];
      if |d| == 1 {
        assert d == [d[0]];
        values, unique := values + [d[0]], unique + {d[0]};
      }
    }
  }

  /** The values two positions are fixed to clash in every family inside. */
  lemma {:induction false} FixedClashLeavesNoFamily(cs: ConstraintList, n: Domains, d: Domains, k: nat)
    requires AllWellFormed(cs, |n|) && Kept(cs, n, d) && k < |cs| && cs[k].AllDifferent?
    requires !FixedApart(d, cs[k].variables, |cs[k].variables|)
    ensures NoFamily(cs, n)
  {
    var variables := cs[k].variables;
    var i: nat, j: nat :| i < j < |variables| && |d[variables[i]]| == 1 && d[variables[i]] == d[variables[j]];
    var x := d[variables[i]][0];
    forall e | Within(e, d) && AllSorted(e) && NoneEmpty(e) ensures !Settles(cs[k], e) {
      FixedInside(d, e, variables[i], x);
      FixedInside(d, e, variables[j], x);
      assert !FreeOfFixed(e, variables, i, j);
    }
  }

  /** A variable that is not fixed never takes a value another listed variable is fixed to. */
  lemma {:induction false} FixedValuesAreTaken(cs: ConstraintList, n: Domains, d: Domains, k: nat, position: nat, unique: set<int>)
    requires AllWellFormed(cs, |n|) && Kept(cs, n, d) && k < |cs| && cs[k].AllDifferent?
    requires position < |cs[k].variables| && |d[cs[k].variables[position]]| != 1
    requires forall x :: x in unique ==> FixedTo(d, cs[k].variables, |cs[k].variables|, x)
    ensures AlwaysIn(cs, n, cs[k].variables[position], iset x | x !in unique)
  {
    var variables := cs[k].variables;
    forall e, x | Inside(cs, n, e) && x in unique ensures x !in e[variables[position]] {
      var i: nat :| i < |variables| && d[variables[i]] == [x];
      FixedInside(d, e, variables[i], x);
      assert Settles(cs[k], e) && FreeOfFixed(e, variables, position, i);
    }
  }

  lemma {:induction false} FixedStaysFixed(d: Domains, variables: seq<nat>, v: nat, kept: seq<int>, x: int)
    requires ValidIndices(variables, |d|) && v < |d| && |d[v]| != 1 && FixedTo(d, variables, |variables|, x)
    ensures FixedTo(d[v := kept], variables, |variables|, x)
  {
    var i :| 0 <= i < |variables| && d[variables[i]] == [x];
    assert d[v := kept][variables[i]] == [x];
  }

  /** The unfixed variables among the first `n` listed ones hold no fixed value. */
  ghost predicate Clean(d: Domains, variables: seq<nat>, n: nat, unique: set<int>)
    requires ValidIndices(variables, |d|) && n <= |variables|
  {
    forall i, x :: 0 <= i < n && |d[variables[i]]| != 1 && x in d[variables[i]] ==> x !in unique
  }

  /** What holds while the unfixed variables lose the fixed values. */
  ghost predicate Removing(cs: ConstraintList, n: Domains, before: Domains, d: Domains, k: nat, unique: set<int>, position: nat)
    requires AllWellFormed(cs, |n|) && k < |cs| && |before| == |n| && position <= |cs[k].variables|
  {
    && Kept(cs, n, d) && Smaller(d, before) && d == WithoutValues(cs[k].variables, unique, before, position)
    && (forall x :: x in unique ==> FixedTo(d, cs[k].variables, |cs[k].variables|, x))
    && (d == before ==> Clean(before, cs[k].variables, position, unique))
  }

  lemma {:induction false} RemovingStep(cs: ConstraintList, n: Domains, before: Domains, d: Domains, k: nat, unique: set<int>, position: nat)
    requires AllWellFormed(cs, |n|) && k < |cs| && cs[k].AllDifferent? && |before| == |n| && position < |cs[k].variables|
    requires Removing(cs, n, before, d, k, unique, position) && |d[cs[k].variables[position]]| != 1
    ensures var v := cs[k].variables[position]; var kept := Retain(d[v], iset x | x !in unique);
            if kept == [] then NoFamily(cs, n) else Removing(cs, n, before, d[v := kept], k, unique, position + 1)
  {
    var v := cs[k].variables[position];
    var keep := iset x | x !in unique;
    var next := d[v := Retain(d[v], keep)];
    FixedValuesAreTaken(cs, n, d, k, position, unique);
    KeptStep(cs, n, d, v, keep);
    forall x | x in unique { FixedStaysFixed(d, cs[k].variables, v, Retain(d[v], keep), x); }
    SmallerTransitive(next, d, before);
    if next == before { UnchangedStep(before, d, v, keep); }
  }

  lemma {:induction false} RemovingSkip(cs: ConstraintList, n: Domains, before: Domains, d: Domains, k: nat, unique: set<int>, position: nat)
    requires AllWellFormed(cs, |n|) && k < |cs| && |before| == |n| && position < |cs[k].variables|
    requires Removing(cs, n, before, d, k, unique, position) && |d[cs[k].variables[position]]| == 1
    ensures Removing(cs, n, before, d, k, unique, position + 1)
  {
  }

  /** Fixed values apart and no fixed value left elsewhere: nothing to delete. */
  lemma {:induction false} CleanSettles(d: Domains, c: FiniteDomainConstraint, unique: set<int>)
    requires c.AllDifferent? && WellFormed(c, |d|) && NoneEmpty(d) && FixedApart(d, c.variables, |c.variables|)
    requires Clean(d, c.variables, |c.variables|, unique)
    requires forall x :: FixedTo(d, c.variables, |c.variables|, x) ==> x in unique
    ensures Settles(c, d)
  {
    var variables := c.variables;
    forall i: nat, j: nat | i < |variables| && j < |variables| && i != j && |d[variables[j]]| == 1 ensures FreeOfFixed(d, variables, i, j) {
      var x := d[variables[j]][0];
      assert d[variables[j]] == [x] && FixedTo(d, variables, |variables|, x);
      if |d[variables[i]]| == 1 {
        assert d[variables[i]] == [d[variables[i]][0]];
        assert if i < j then d[variables[i]] != d[variables[j]] else d[variables[j]] != d[variables[i]];
      }
    }
  }

  lemma {:induction false} UniqueIsFixedSet(d: Domains, variables: seq<nat>, unique: set<int>)
    requires ValidIndices(variables, |d|) && forall x :: x in unique <==> FixedTo(d, variables, |variables|, x)
    ensures unique == FixedSet(d, variables)
  {
    forall x | x in unique ensures x in FixedSet(d, variables) {
      var i :| 0 <= i < |variables| && d[variables[i]] == [x];
      assert d[variables[i]][0] == x;
    }
    forall x | x in FixedSet(d, variables) ensures x in unique {
      var i :| 0 <= i < |variables| && |d[variables[i]]| == 1 && d[variables[i]][0] == x;
      assert d[variables[i]] == [x];
    }
  }

  /** Takes the fixed values from one position, unless it is fixed itself. */
  method ClearPosition(cs: ConstraintList, ghost n: Domains, ghost before: Domains, domains: array<seq<int>>, k: nat, unique: set<int>, position: nat)
    returns (ok: bool)
    requires AllWellFormed(cs, |n|) && k < |cs| && cs[k].AllDifferent? && |before| == |n| && position < |cs[k].variables|
    requires Removing(cs, n, before, domains[..], k, unique, position)
    modifies domains
    ensures if ok then Removing(cs, n, before, domains[..], k, unique, position + 1) else NoFamily(cs, n)
  {
    var variable := cs[k].variables[position];
    ghost var d := domains[..];
    if |domains[variable]| == 1 {
      RemovingSkip(cs, n, before, d, k, unique, position);
      return true;
    }
    RemovingStep(cs, n, before, d, k, unique, position);
    RemoveValues(domains, variable, unique);
    return domains[variable] != [];
  }

  /** All positions cleared of the fixed values. */
  lemma {:induction false} AllRemoved(cs: ConstraintList, n: Domains, before: Domains, d: Domains, k: nat, unique: set<int>)
    requires AllWellFormed(cs, |n|) && k < |cs| && cs[k].AllDifferent? && |before| == |n| && NoneEmpty(before)
    requires Removing(cs, n, before, d, k, unique, |cs[k].variables|) && FixedApart(before, cs[k].variables, |cs[k].variables|)
    requires forall x :: x in unique <==> FixedTo(before, cs[k].variables, |cs[k].variables|, x)
    ensures d == ConstraintPass(cs[k], before) && (d == before ==> Settles(cs[k], d))
  {
    UniqueIsFixedSet(before, cs[k].variables, unique);
    if d == before { CleanSettles(before, cs[k], unique); }
  }

  method ClearFixed(cs: ConstraintList, ghost n: Domains, domains: array<seq<int>>, k: nat, unique: set<int>) returns (ok: bool)
    requires AllWellFormed(cs, |n|) && k < |cs| && cs[k].AllDifferent? && Kept(cs, n, domains[..])
    requires forall x :: x in unique ==> FixedTo(domains[..], cs[k].variables, |cs[k].variables|, x)
    modifies domains
    ensures if ok then Removing(cs, n, old(domains[..]), domains[..], k, unique, |cs[k].variables|) else NoFamily(cs, n)
  {
    ghost var before := domains[..];
    for position := 0 to |cs[k].variables|
      invariant Removing(cs, n, before, domains[..], k, unique, position)
    {
      ok := ClearPosition(cs, n, before, domains, k, unique, position);
      if !ok {
        return;
      }
    }
    return true;
  }

  method PropagateAllDifferent(cs: ConstraintList, ghost n: Domains, domains: array<seq<int>>, k: nat) returns (ok: bool)
    requires AllWellFormed(cs, |n|) && k < |cs| && cs[k].AllDifferent? && Kept(cs, n, domains[..])
    modifies domains
    ensures !ok ==> NoFamily(cs, n)
    ensures ok ==> Kept(cs, n, domains[..]) && Smaller(domains[..], old(domains[..]))
    ensures ok && domains[..] == old(domains[..]) ==> Settles(cs[k], domains[..])
    ensures ok ==> domains[..] == ConstraintPass(cs[k], old(domains[..]))
  {
    ghost var before := domains[..];
    var values, unique := FixedValues(domains, cs[k].variables);
    if |unique| != |values| {
      FixedClashLeavesNoFamily(cs, n, before, k);
      return false;
    }
    ok := ClearFixed(cs, n, domains, k, unique);
    if ok { AllRemoved(cs, n, before, domains[..], k, unique); }
  }

  // ---- Linear constraints ----

  method LinearCandidateSupported(domains: array<seq<int>>, c: FiniteDomainConstraint, fixed: nat, x: int) returns (ok: bool)
    requires c.Linear? && WellFormed(c, domains.Length) && NoneEmpty(domains[..])
    ensures ok <==> LinearSupported(domains[..], c, fixed, x)
  {
    var minimum, maximum := 0, 0;
    ghost var low, high := LowEnds(domains[..], c.variables, fixed, x), HighEnds(domains[..], c.variables, fixed, x);
    for position := 0 to |c.variables|
      invariant minimum == Least(c.coefficients, low, high, position)
      invariant maximum == Greatest(c.coefficients, low, high, position)
    {
      var coefficient, d := c.coefficients[position], domains[c.variables[position]];
      assert d == domains[..][c.variables[position]];
      var least, greatest := x, x;
      if position != fixed {
        least, greatest := d[0], d[|d| - 1];
      }
      minimum := minimum + TermLow(coefficient, least, greatest);
      maximum := maximum + TermHigh(coefficient, least, greatest);
    }
    ok := RelationPossible(c.relation, minimum, maximum, c.rhs);
  }

  /** The values of a consistent family always have support. */
  lemma {:induction false} FamiliesAreSupported(cs: ConstraintList, n: Domains, d: Domains, k: nat, position: nat)
    requires AllWellFormed(cs, |n|) && Kept(cs, n, d) && k < |cs| && cs[k].Linear? && position < |cs[k].variables|
    ensures AlwaysIn(cs, n, cs[k].variables[position], LinearSupport(d, cs[k], position))
  {
    var c := cs[k];
    forall e, x | Inside(cs, n, e) && x in e[c.variables[position]] ensures LinearSupported(d, c, position, x) {
      assert Settles(c, e);
      SupportGrows(d, e, c, position, x);
    }
  }

  method FilterLinear(domains: array<seq<int>>, c: FiniteDomainConstraint, position: nat) returns (supported: seq<int>)
    requires c.Linear? && WellFormed(c, domains.Length) && NoneEmpty(domains[..]) && position < |c.variables|
    ensures supported == Retain(domains[c.variables[position]], LinearSupport(domains[..], c, position))
  {
    var candidates := domains[c.variables[position]];
    ghost var keep := LinearSupport(domains[..], c, position);
    supported := [];
    for k := 0 to |candidates|
      invariant supported == Retain(candidates[..k], keep)
    {
      RetainNext(candidates, k, keep);
      var ok := LinearCandidateSupported(domains, c, position, candidates[k]);
      if ok {
        supported := supported + [candidates[k]];
      }
    }
    RetainAll(candidates, keep);
  }

  /** Every value at the first `n` positions has support. */
  ghost predicate SupportedBelow(d: Domains, c: FiniteDomainConstraint, n: nat)
    requires c.Linear? && WellFormed(c, |d|) && NoneEmpty(d) && n <= |c.variables|
  {
    forall i: nat, x :: i < n && x in d[c.variables[i]] ==> LinearSupported(d, c, i, x)
  }

  /** What holds while the positions lose their unsupported values. */
  ghost predicate Supporting(cs: ConstraintList, n: Domains, before: Domains, d: Domains, k: nat, position: nat)
    requires AllWellFormed(cs, |n|) && k < |cs| && cs[k].Linear? && |before| == |n| && NoneEmpty(before) && position <= |cs[k].variables|
  {
    && Kept(cs, n, d) && Smaller(d, before) && d == Supported(cs[k], before, position)
    && (d == before ==> SupportedBelow(before, cs[k], position))
  }

  lemma {:induction false} SupportingStep(cs: ConstraintList, n: Domains, before: Domains, d: Domains, k: nat, position: nat, kept: seq<int>)
    requires AllWellFormed(cs, |n|) && k < |cs| && cs[k].Linear? && |before| == |n| && NoneEmpty(before) && position < |cs[k].variables|
    requires Supporting(cs, n, before, d, k, position)
    requires kept == Retain(d[cs[k].variables[position]], LinearSupport(d, cs[k], position))
    ensures kept == [] ==> NoFamily(cs, n)
    ensures kept != [] ==> Supporting(cs, n, before, d[cs[k].variables[position] := kept], k, position + 1)
  {
    var c := cs[k];
    var v, keep := c.variables[position], LinearSupport(d, c, position);
    FamiliesAreSupported(cs, n, d, k, position);
    KeptStep(cs, n, d, v, keep);
    if kept != [] {
      SmallerTransitive(d[v := kept], d, before);
      if d[v := kept] == before { UnchangedStep(before, d, v, keep); }
    }
  }

  /** Filters one position of the row. */
  method SupportPosition(cs: ConstraintList, ghost n: Domains, ghost before: Domains, domains: array<seq<int>>, k: nat, position: nat)
    returns (ok: bool)
    requires AllWellFormed(cs, |n|) && k < |cs| && cs[k].Linear? && |before| == |n| && NoneEmpty(before) && position < |cs[k].variables|
    requires Supporting(cs, n, before, domains[..], k, position)
    modifies domains
    ensures if ok then Supporting(cs, n, before, domains[..], k, position + 1) else NoFamily(cs, n)
  {
    ghost var d := domains[..];
    var supported := FilterLinear(domains, cs[k], position);
    SupportingStep(cs, n, before, d, k, position, supported);
    if supported == [] {
      return false;
    }
    domains[cs[k].variables[position]] := supported;
    assert domains[..] == d[cs[k].variables[position] := supported];
    return true;
  }

  method PropagateLinear(cs: ConstraintList, ghost n: Domains, domains: array<seq<int>>, k: nat) returns (ok: bool)
    requires AllWellFormed(cs, |n|) && k < |cs| && cs[k].Linear? && Kept(cs, n, domains[..])
    modifies domains
    ensures !ok ==> NoFamily(cs, n)
    ensures ok ==> Kept(cs, n, domains[..]) && Smaller(domains[..], old(domains[..]))
    ensures ok && domains[..] == old(domains[..]) ==> Settles(cs[k], domains[..])
    ensures ok ==> domains[..] == ConstraintPass(cs[k], old(domains[..]))
  {
    ghost var before := domains[..];
    for position := 0 to |cs[k].variables|
      invariant Supporting(cs, n, before, domains[..], k, position)
    {
      ok := SupportPosition(cs, n, before, domains, k, position);
      if !ok {
        return;
      }
    }
    return true;
  }

  // ---- No overlap ----

  method RemoveOverlapping(domains: array<seq<int>>, v: nat, fixedStart: int, fixedEnd: int, duration: int)
    requires v < domains.Length
    modifies domains
    ensures domains[..] == old(domains[..])[v := Retain(old(domains[v]), ClearOf(fixedStart, fixedEnd, duration))]
  {
    var candidates := domains[v];
    ghost var keep := ClearOf(fixedStart, fixedEnd, duration);
    var kept: seq<int> := [];
    for k := 0 to |candidates|
      invariant kept == Retain(candidates[..k], keep)
      invariant domains[..] == old(domains[..])
    {
      RetainNext(candidates, k, keep);
      if IsClear(candidates[k], fixedStart, fixedEnd, duration) {
        kept := kept + [candidates[k]];
      }
    }
    RetainAll(candidates, keep);
    domains[v] := kept;
  }

  /** Every consistent family stays clear of a fixed interval. */
  lemma {:induction false} FamiliesStayClear(cs: ConstraintList, n: Domains, d: Domains, k: nat, left: nat, right: nat, start: int)
    requires AllWellFormed(cs, |n|) && k < |cs| && cs[k].NoOverlap? && Kept(cs, n, d)
    requires left < |cs[k].variables| && right < |cs[k].variables| && left != right && d[cs[k].variables[left]] == [start]
    ensures AlwaysIn(cs, n, cs[k].variables[right], ClearOf(start, start + cs[k].durations[left], cs[k].durations[right]))
  {
    var c := cs[k];
    forall e | Inside(cs, n, e) ensures e[c.variables[left]] == [start] && ClearOfFixed(c, e, left, right) {
      FixedInside(d, e, c.variables[left], start);
      assert Settles(c, e);
    }
  }

  /** The positions below `right` stay clear of position `left`, which is fixed. */
  ghost predicate ClearBelow(c: FiniteDomainConstraint, d: Domains, left: nat, right: nat)
    requires c.NoOverlap? && WellFormed(c, |d|) && left < |c.variables| && right <= |c.variables|
  {
    forall j: nat :: j < right && j != left ==> ClearOfFixed(c, d, left, j)
  }

  /** What holds while the positions below `right` are kept clear of the fixed interval at `left`. */
  ghost predicate Clearing(cs: ConstraintList, n: Domains, before: Domains, d: Domains, k: nat, left: nat, right: nat, start: int)
    requires AllWellFormed(cs, |n|) && k < |cs| && cs[k].NoOverlap? && |before| == |n|
    requires left < |cs[k].variables| && right <= |cs[k].variables|
  {
    && Kept(cs, n, d) && Smaller(d, before) && d[cs[k].variables[left]] == [start]
    && (d == before ==> ClearBelow(cs[k], before, left, right))
  }

  lemma {:induction false} ClearingStep(cs: ConstraintList, n: Domains, before: Domains, d: Domains, k: nat, left: nat, right: nat, start: int, kept: seq<int>)
    requires AllWellFormed(cs, |n|) && k < |cs| && cs[k].NoOverlap? && |before| == |n|
    requires left < |cs[k].variables| && right < |cs[k].variables| && left != right
    requires Clearing(cs, n, before, d, k, left, right, start)
    requires kept == Retain(d[cs[k].variables[right]], ClearOf(start, start + cs[k].durations[left], cs[k].durations[right]))
    ensures kept == [] ==> NoFamily(cs, n)
    ensures kept != [] ==> Clearing(cs, n, before, d[cs[k].variables[right] := kept], k, left, right + 1, start)
  {
    var c := cs[k];
    var v, keep := c.variables[right], ClearOf(start, start + c.durations[left], c.durations[right]);
    FamiliesStayClear(cs, n, d, k, left, right, start);
    KeptStep(cs, n, d, v, keep);
    if kept != [] {
      SmallerTransitive(d[v := kept], d, before);
      if d[v := kept] == before { UnchangedStep(before, d, v, keep); }
      FixedSurvives(d, c.variables[left], v, start, kept);
    }
  }

  lemma {:induction false} FixedSurvives(d: Domains, u: nat, v: nat, x: int, kept: seq<int>)
    requires u < |d| && v < |d| && d[u] == [x] && kept != [] && Sublist(kept, d[v])
    ensures d[v := kept][u] == [x]
  {
  }

  lemma {:induction false} ClearingSkip(cs: ConstraintList, n: Domains, before: Domains, d: Domains, k: nat, left: nat, start: int)
    requires AllWellFormed(cs, |n|) && k < |cs| && cs[k].NoOverlap? && |before| == |n| && left < |cs[k].variables|
    requires Clearing(cs, n, before, d, k, left, left, start)
    ensures Clearing(cs, n, before, d, k, left, left + 1, start)
  {
  }

  /** Keeps every other interval clear of the fixed one at position `left`. */
  method ClearAround(cs: ConstraintList, ghost n: Domains, domains: array<seq<int>>, k: nat, left: nat, ghost before: Domains) returns (ok: bool)
    requires AllWellFormed(cs, |n|) && k < |cs| && cs[k].NoOverlap? && left < |cs[k].variables| && |before| == |n|
    requires Kept(cs, n, domains[..]) && Smaller(domains[..], before) && |domains[cs[k].variables[left]]| == 1
    modifies domains
    ensures !ok ==> NoFamily(cs, n)
    ensures ok ==> Kept(cs, n, domains[..]) && Smaller(domains[..], before)
    ensures ok && domains[..] == before ==> old(domains[..]) == before && ClearBelow(cs[k], before, left, |cs[k].variables|)
    ensures ok ==> domains[..] == ClearedAround(cs[k], old(domains[..]), left, old(domains[cs[k].variables[left]][0]), |cs[k].variables|)
  {
    var c := cs[k];
    ghost var entry := domains[..];
    var fixedStart := domains[c.variables[left]][0];
    var fixedEnd := fixedStart + c.durations[left];
    assert entry[c.variables[left]] == [fixedStart];
    for right := 0 to |c.variables|
      invariant Clearing(cs, n, before, domains[..], k, left, right, fixedStart) && Smaller(domains[..], entry)
      invariant domains[..] == ClearedAround(c, entry, left, fixedStart, right)
    {
      ghost var d := domains[..];
      if left == right {
        ClearingSkip(cs, n, before, d, k, left, fixedStart);
        continue;
      }
      RemoveOverlapping(domains, c.variables[right], fixedStart, fixedEnd, c.durations[right]);
      ClearingStep(cs, n, before, d, k, left, right, fixedStart, domains[c.variables[right]]);
      if domains[c.variables[right]] == [] {
        return false;
      }
      RetainIsSublist(d[c.variables[right]], ClearOf(fixedStart, fixedEnd, c.durations[right]));
      SmallerStep(entry, d, c.variables[right], domains[c.variables[right]]);
    }
    if domains[..] == before { SmallerAntisymmetric(domains[..], entry, before); }
    return true;
  }

  lemma {:induction false} SmallerStep(before: Domains, d: Domains, v: nat, kept: seq<int>)
    requires Smaller(d, before) && v < |d| && Sublist(kept, d[v])
    ensures Smaller(d[v := kept], before)
  {
    SmallerTransitive(d[v := kept], d, before);
  }

  method PropagateNoOverlap(cs: ConstraintList, ghost n: Domains, domains: array<seq<int>>, k: nat) returns (ok: bool)
    requires AllWellFormed(cs, |n|) && k < |cs| && cs[k].NoOverlap? && Kept(cs, n, domains[..])
    modifies domains
    ensures !ok ==> NoFamily(cs, n)
    ensures ok ==> Kept(cs, n, domains[..]) && Smaller(domains[..], old(domains[..]))
    ensures ok && domains[..] == old(domains[..]) ==> Settles(cs[k], domains[..])
    ensures ok ==> domains[..] == ConstraintPass(cs[k], old(domains[..]))
  {
    ghost var before := domains[..];
    var c := cs[k];
    for left := 0 to |c.variables|
      invariant Kept(cs, n, domains[..]) && Smaller(domains[..], before) && domains[..] == Cleared(c, before, left)
      invariant domains[..] == before ==> forall i: nat :: i < left ==> ClearBelow(c, before, i, |c.variables|)
    {
      if |domains[c.variables[left]]| != 1 {
        continue;
      }
      ok := ClearAround(cs, n, domains, k, left, before);
      if !ok {
        return false;
      }
    }
    if domains[..] == before { AllClearSettles(c, before); }
    return true;
  }

  lemma {:induction false} AllClearSettles(c: FiniteDomainConstraint, d: Domains)
    requires c.NoOverlap? && WellFormed(c, |d|) && NoneEmpty(d)
    requires forall i: nat :: i < |c.variables| ==> ClearBelow(c, d, i, |c.variables|)
    ensures Settles(c, d)
  {
    forall i: nat, j: nat | i < |c.variables| && j < |c.variables| && i != j ensures ClearOfFixed(c, d, i, j) {
      assert ClearBelow(c, d, i, |c.variables|);
    }
  }

  // ---- The fixed-point loop ----

  /** One sweep over the constraints of one kind. */
  ghost predicate Swept(cs: ConstraintList, before: Domains, d: Domains, kind: FiniteDomainConstraint, k: nat)
    requires AllWellFormed(cs, |before|) && k <= |cs| && NoneEmpty(before)
  {
    && Smaller(d, before)
    && (d == before ==> forall j :: 0 <= j < k && SameKind(cs[j], kind) ==> Settles(cs[j], before))
  }

  lemma {:induction false} SmallerAntisymmetric(d: Domains, mid: Domains, before: Domains)
    requires Smaller(d, mid) && Smaller(mid, before) && d == before
    ensures mid == before
  {
    forall v | 0 <= v < |before| ensures mid[v] == before[v] {
      assert Sublist(d[v], mid[v]) && Sublist(mid[v], before[v]);
    }
  }

  lemma {:induction false} SweepStep(cs: ConstraintList, before: Domains, mid: Domains, d: Domains, kind: FiniteDomainConstraint, k: nat)
    requires AllWellFormed(cs, |before|) && k < |cs| && NoneEmpty(before) && Swept(cs, before, mid, kind, k) && Smaller(d, mid)
    requires SameKind(cs[k], kind) && d == mid && NoneEmpty(d) ==> Settles(cs[k], d)
    ensures Swept(cs, before, d, kind, k + 1)
  {
    SmallerTransitive(d, mid, before);
    if d == before {
      SmallerAntisymmetric(d, mid, before);
    }
  }

  /** Runs one propagator over all constraints of its kind; each pass calls it once per kind. */
  method Sweep(cs: ConstraintList, ghost n: Domains, domains: array<seq<int>>, kind: FiniteDomainConstraint) returns (ok: bool)
    requires AllWellFormed(cs, |n|) && Kept(cs, n, domains[..])
    modifies domains
    ensures !ok ==> NoFamily(cs, n)
    ensures ok ==> Kept(cs, n, domains[..]) && Swept(cs, old(domains[..]), domains[..], kind, |cs|)
    ensures ok ==> domains[..] == KindPass(cs, kind, old(domains[..]), |cs|)
  {
    ghost var before := domains[..];
    for k := 0 to |cs|
      invariant Kept(cs, n, domains[..]) && Swept(cs, before, domains[..], kind, k)
      invariant domains[..] == KindPass(cs, kind, before, k)
    {
      ghost var mid := domains[..];
      if SameKind(cs[k], kind) {
        match cs[k] {
          case AllDifferent(_) => ok := PropagateAllDifferent(cs, n, domains, k);
          case Linear(_, _, _, _) => ok := PropagateLinear(cs, n, domains, k);
          case NoOverlap(_, _) => ok := PropagateNoOverlap(cs, n, domains, k);
        }
        if !ok {
          return false;
        }
      }
      SweepStep(cs, before, mid, domains[..], kind, k);
    }
    return true;
  }

  method AnyEmpty(domains: array<seq<int>>) returns (empty: bool)
    ensures empty <==> !NoneEmpty(domains[..])
  {
    for v := 0 to domains.Length
      invariant forall w :: 0 <= w < v ==> domains[w] != []
    {
      if domains[v] == [] {
        assert domains[..][v] == [];
        return true;
      }
    }
    return false;
  }

  /** All-different constraints first, then linear ones, then no-overlap ones. */
  method Pass(cs: ConstraintList, ghost n: Domains, domains: array<seq<int>>) returns (ok: bool)
    requires AllWellFormed(cs, |n|) && Kept(cs, n, domains[..])
    modifies domains
    ensures !ok ==> NoFamily(cs, n)
    ensures ok ==> Kept(cs, n, domains[..]) && Smaller(domains[..], old(domains[..]))
    ensures ok && domains[..] == old(domains[..]) ==> ConsistentFamily(cs, domains[..])
    ensures ok ==> domains[..] == AllKinds(cs, old(domains[..]))
  {
    ghost var d0 := domains[..];
    ok := Sweep(cs, n, domains, AllDifferent([]));
    if !ok { return; }
    ghost var d1 := domains[..];
    ok := Sweep(cs, n, domains, Linear([], [], Equal, 0));
    if !ok { return; }
    ghost var d2 := domains[..];
    ok := Sweep(cs, n, domains, NoOverlap([], []));
    if !ok { return; }
    var empty := AnyEmpty(domains);
    if empty {
      assert false;
      return false;
    }
    SmallerTransitive(d2, d1, d0);
    SmallerTransitive(domains[..], d2, d0);
    if domains[..] == d0 {
      SmallerAntisymmetric(domains[..], d2, d0);
      SmallerAntisymmetric(d2, d1, d0);
      ThreeSweepsSettle(cs, d0);
    }
  }

  lemma {:induction false} ThreeSweepsSettle(cs: ConstraintList, d: Domains)
    requires AllWellFormed(cs, |d|) && AllSorted(d) && NoneEmpty(d)
    requires Swept(cs, d, d, AllDifferent([]), |cs|)
    requires Swept(cs, d, d, Linear([], [], Equal, 0), |cs|)
    requires Swept(cs, d, d, NoOverlap([], []), |cs|)
    ensures ConsistentFamily(cs, d)
  {
    forall k | 0 <= k < |cs| ensures Settles(cs[k], d) {
      assert SameKind(cs[k], AllDifferent([])) || SameKind(cs[k], Linear([], [], Equal, 0)) || SameKind(cs[k], NoOverlap([], []));
    }
  }

  /** The solver's precondition: like the plain solver's, but every constraint must list a variable. */
  predicate Acceptable(c: FiniteDomainConstraint, width: nat) {
    c.variables != [] && WellFormed(c, width)
  }

  ghost predicate ValidForPropagation(problem: FiniteDomainProblem) {
    && problem.domains != [] && NoneEmpty(problem.domains)
    && forall k :: 0 <= k < |problem.constraints| ==>
         problem.constraints[k].variables != [] && WellFormed(problem.constraints[k], |problem.domains|)
  }

  method Validate(problem: FiniteDomainProblem) returns (valid: bool)
    ensures valid <==> ValidForPropagation(problem)
  {
    if problem.domains == [] {
      return false;
    }
    for v := 0 to |problem.domains|
      invariant forall w :: 0 <= w < v ==> problem.domains[w] != []
    {
      if problem.domains[v] == [] {
        return false;
      }
    }
    for k := 0 to |problem.constraints|
      invariant forall j :: 0 <= j < k ==> Acceptable(problem.constraints[j], |problem.domains|)
    {
      if !Acceptable(problem.constraints[k], |problem.domains|) {
        return false;
      }
    }
    return true;
  }

  /** Sorted sub-domains: the largest family of sub-domains on which no propagator deletes anything. */
  ghost predicate Propagated(problem: FiniteDomainProblem, report: PropagationReport)
    requires ValidForPropagation(problem)
  {
    && GreatestFamily(problem.constraints, problem.domains, report.domains) && Smaller(report.domains, Normalized(problem.domains))
    && report.removedValues == DistinctValues(problem.domains) - TotalSize(report.domains)
    && report.passes <= report.removedValues + 1
    && SettlesAfter(ProblemPass(problem.constraints), Normalized(problem.domains), report.passes, report.domains)
  }

  /** The error says that there is no such family. */
  ghost predicate PropagationOutcome(problem: FiniteDomainProblem, r: Result<PropagationReport, PropagationError>)
    requires ValidForPropagation(problem)
  {
    match r
    case Ok(report) => Propagated(problem, report)
    case Err(e) => e == Infeasible && NoFamily(problem.constraints, problem.domains)
  }

  ghost predicate Unsolvable(cs: ConstraintList, n: Domains)
    requires AllWellFormed(cs, |n|)
  {
    forall a :: !Solution(n, cs, a)
  }

  /** What propagation says about solutions: it loses none, it refutes only problems without one,
      and a single value per variable is a solution. */
  lemma {:induction false} PropagationKeepsSolutions(problem: FiniteDomainProblem, r: Result<PropagationReport, PropagationError>)
    requires ValidForPropagation(problem) && PropagationOutcome(problem, r)
    ensures r.Err? ==> Unsolvable(problem.constraints, problem.domains)
    ensures r.Ok? ==> forall a :: Solves(problem, a) <==> Solution(r.value.domains, problem.constraints, a)
    ensures r.Ok? ==> forall a :: r.value.domains == Singletons(a) ==> Solves(problem, a)
  {
    var cs, n := problem.constraints, problem.domains;
    match r {
      case Err(_) => NoFamilyNoSolution(cs, n);
      case Ok(report) => GreatestKeepsSolutions(cs, n, report.domains);
    }
  }

  lemma {:induction false} GreatestKeepsSolutions(cs: ConstraintList, n: Domains, d: Domains)
    requires AllWellFormed(cs, |n|) && GreatestFamily(cs, n, d)
    ensures forall a :: Solution(n, cs, a) <==> Solution(d, cs, a)
    ensures forall a :: d == Singletons(a) ==> Solution(n, cs, a)
  {
    GreatestSingleSolves(cs, n, d);
    forall a ensures Solution(n, cs, a) <==> Solution(d, cs, a) {
      SameSolution(cs, n, d, a);
    }
  }

  lemma {:induction false} SameSolution(cs: ConstraintList, n: Domains, d: Domains, a: seq<int>)
    requires AllWellFormed(cs, |n|) && GreatestFamily(cs, n, d)
    ensures Solution(n, cs, a) <==> Solution(d, cs, a)
  {
    if InDomains(d, a) {
      forall v | 0 <= v < |a| ensures a[v] in n[v] {
        WithinMember(d, n, v, a[v]);
      }
    }
    if Solution(n, cs, a) {
      SolutionsAreSingleFamilies(cs, n, a);
      SinglesWithin(d, a);
    }
  }

  method NormalizeInto(domains: Domains) returns (current: array<seq<int>>)
    ensures fresh(current) && current[..] == Normalized(domains)
  {
    current := new seq<int>[|domains|](_ => []);
    for v := 0 to |domains|
      invariant forall w :: 0 <= w < v ==> current[w] == SortDedup(domains[w])
    {
      current[v] := SortDedup(domains[v]);
    }
  }

  lemma {:induction false} NormalizedIsKept(cs: ConstraintList, d: Domains)
    requires AllWellFormed(cs, |d|) && NoneEmpty(d)
    ensures Kept(cs, Normalized(d), Normalized(d))
  {
    forall v | 0 <= v < |d| ensures Normalized(d)[v] != [] {
      SortDedupEmpty(d[v]);
    }
  }

  lemma {:induction false} KeptConsistentIsGreatest(cs: ConstraintList, n: Domains, d: Domains)
    requires AllWellFormed(cs, |n|) && Kept(cs, n, d) && ConsistentFamily(cs, d)
    ensures GreatestFamily(cs, n, d)
  {
    forall v, x | 0 <= v < |n| && x in d[v] ensures x in n[v] {
      SublistMember(d[v], n[v], x);
    }
  }

  /** Repeats passes until one deletes nothing. */
  method RunPasses(cs: ConstraintList, ghost n: Domains, domains: array<seq<int>>) returns (ok: bool, passes: nat)
    requires AllWellFormed(cs, |n|) && domains[..] == n && Kept(cs, n, n)
    modifies domains
    ensures !ok ==> NoFamily(cs, n)
    ensures ok ==> GreatestFamily(cs, n, domains[..]) && Smaller(domains[..], n)
    ensures ok ==> passes <= TotalSize(n) - TotalSize(domains[..]) + 1
    ensures ok ==> SettlesAfter(ProblemPass(cs), n, passes, domains[..])
  {
    passes := 0;
    while true
      invariant Kept(cs, n, domains[..])
      invariant passes <= TotalSize(n) - TotalSize(domains[..])
      invariant domains[..] == AfterPasses(ProblemPass(cs), n, passes) && AllChanged(ProblemPass(cs), n, passes)
      decreases TotalSize(domains[..])
    {
      passes := passes + 1;
      var before := domains[..];
      ok := Pass(cs, n, domains);
      if !ok {
        return;
      }
      TotalSizeShrinks(before, domains[..]);
      OneMorePass(cs, n, passes - 1, before, domains[..]);
      if domains[..] == before {
        KeptConsistentIsGreatest(cs, n, before);
        return;
      }
    }
  }

  method PropagateDomains(problem: FiniteDomainProblem) returns (r: Result<PropagationReport, PropagationError>)
    ensures if ValidForPropagation(problem) then PropagationOutcome(problem, r) else r == Err(InvalidProblem)
  {
    var valid := Validate(problem);
    if !valid {
      return Err(InvalidProblem);
    }
    ghost var n := Normalized(problem.domains);
    NormalizedIsKept(problem.constraints, problem.domains);
    NormalizingKeepsFamilies(problem.constraints, problem.domains);
    var domains := NormalizeInto(problem.domains);
    var initialValues := TotalSize(domains[..]);
    var ok, passes := RunPasses(problem.constraints, n, domains);
    if !ok {
      return Err(Infeasible);
    }
    TotalSizeShrinks(n, domains[..]);
    return Ok(PropagationReport(domains[..], passes, initialValues - TotalSize(domains[..])));
  }
}
