/** Fixed-point propagation: values without support are deleted until every value has support.
    A propagator is described by its support test; nothing else about it is assumed. */
module Propagation {
  import opened Sorting
  import opened Filtering

  type Supports = (Domains, nat, int) -> bool

  ghost predicate Within(e: Domains, d: Domains) {
    |e| == |d| && forall v, x :: 0 <= v < |d| && x in e[v] ==> x in d[v]
  }

  lemma WithinMember(e: Domains, d: Domains, v: nat, x: int)
    requires Within(e, d) && v < |e| && x in e[v]
    ensures x in d[v]
  {
  }

  /** Larger domains support no fewer values. */
  ghost predicate Monotone(supports: Supports) {
    forall e: Domains, d: Domains, v: nat, x: int ::
      Within(e, d) && NoneEmpty(e) && v < |e| && supports(e, v, x) ==> supports(d, v, x)
  }

  /** No domain is empty and every value has support. */
  ghost predicate Consistent(supports: Supports, e: Domains) {
    NoneEmpty(e) && forall v: nat, x :: v < |e| && x in e[v] ==> supports(e, v, x)
  }

  ghost predicate HasConsistent(supports: Supports, d: Domains) {
    exists e :: Within(e, d) && Consistent(supports, e)
  }

  /** `r` is the largest consistent family of sub-domains of `d`. */
  ghost predicate GreatestConsistent(supports: Supports, d: Domains, r: Domains) {
    && Within(r, d) && Consistent(supports, r)
    && forall e :: Within(e, d) && Consistent(supports, e) ==> Within(e, r)
  }

  /** The domains reached so far: sub-domains of `n` that contain every consistent family. */
  ghost predicate Reached(supports: Supports, n: Domains, current: Domains) {
    && Smaller(current, n) && AllSorted(current) && NoneEmpty(current)
    && forall e :: Within(e, n) && Consistent(supports, e) ==> Within(e, current)
  }

  ghost function SupportedIn(supports: Supports, d: Domains, v: nat): iset<int> {
    iset x | supports(d, v, x)
  }

  ghost function FilteredBy(supports: Supports, d: Domains, v: nat): seq<int>
    requires v < |d|
  {
    Retain(d[v], SupportedIn(supports, d, v))
  }

  lemma FilteringKeepsConsistent(supports: Supports, d: Domains, v: nat, e: Domains)
    requires v < |d| && Monotone(supports) && Within(e, d) && Consistent(supports, e)
    ensures Within(e, d[v := FilteredBy(supports, d, v)]) && FilteredBy(supports, d, v) != []
  {
    var kept := FilteredBy(supports, d, v);
    RetainMembers(d[v], SupportedIn(supports, d, v));
    forall x | x in e[v] ensures x in kept {
      assert supports(e, v, x) && supports(d, v, x);
    }
    assert e[v] != [] && e[v][0] in e[v];
  }

  /** Filtering one variable either proves that nothing is consistent or gives the next reached domains. */
  lemma ReachedStep(supports: Supports, n: Domains, current: Domains, v: nat)
    requires Monotone(supports) && Reached(supports, n, current) && v < |n|
    ensures FilteredBy(supports, current, v) == [] ==> !HasConsistent(supports, n)
    ensures FilteredBy(supports, current, v) != [] ==> Reached(supports, n, current[v := FilteredBy(supports, current, v)])
    ensures Sublist(FilteredBy(supports, current, v), current[v])
  {
    var kept := FilteredBy(supports, current, v);
    var next := current[v := kept];
    RetainIsSublist(current[v], SupportedIn(supports, current, v));
    RetainSorted(current[v], SupportedIn(supports, current, v));
    forall e | Within(e, n) && Consistent(supports, e) ensures Within(e, next) && kept != [] {
      FilteringKeepsConsistent(supports, current, v, e);
    }
    assert Sublist(current[v], n[v]);
    SublistTransitive(kept, current[v], n[v]);
  }

  /** The first `k` variables of `before` need no filtering unless some deletion already happened. */
  ghost predicate PassProgress(supports: Supports, before: Domains, current: Domains, k: nat) {
    && Smaller(current, before)
    && (current == before ==> forall v: nat, x :: v < k && v < |before| && x in before[v] ==> supports(before, v, x))
  }

  lemma PassStep(supports: Supports, before: Domains, current: Domains, k: nat)
    requires k < |before| && PassProgress(supports, before, current, k)
    ensures PassProgress(supports, before, current[k := FilteredBy(supports, current, k)], k + 1)
  {
    var kept := FilteredBy(supports, current, k);
    var next := current[k := kept];
    RetainIsSublist(current[k], SupportedIn(supports, current, k));
    assert Sublist(current[k], before[k]);
    SublistTransitive(kept, current[k], before[k]);
    if next == before {
      assert kept == current[k];
      assert current == before;
      RetainEverything(current[k], SupportedIn(supports, current, k));
      forall x | x in before[k] ensures supports(before, k, x) {
        assert x in SupportedIn(supports, current, k);
      }
    }
  }

  // ---- Counting passes ----

  /** The first `k` variables filtered in order, each from the domains reached so far. */
  ghost function FilteredUpTo(supports: Supports, d: Domains, k: nat): (r: Domains)
    ensures |r| == |d|
  {
    if k == 0 || k > |d| then d
    else
      var reached := FilteredUpTo(supports, d, k - 1);
      reached[k - 1 := FilteredBy(supports, reached, k - 1)]
  }

  /** Where a pass over `start` stands after the first `k` variables. */
  ghost predicate PassState(supports: Supports, n: Domains, start: Domains, current: Domains, k: nat) {
    && |start| == |n| && k <= |n| && Reached(supports, n, current) && PassProgress(supports, start, current, k)
    && current == FilteredUpTo(supports, start, k)
  }

  lemma PassStateStep(supports: Supports, n: Domains, start: Domains, current: Domains, k: nat)
    requires Monotone(supports) && PassState(supports, n, start, current, k) && k < |n|
    ensures FilteredBy(supports, current, k) == [] ==> !HasConsistent(supports, n)
    ensures FilteredBy(supports, current, k) != [] ==>
              PassState(supports, n, start, current[k := FilteredBy(supports, current, k)], k + 1)
  {
    ReachedStep(supports, n, current, k);
    PassStep(supports, start, current, k);
  }

  /** Tests that agree everywhere filter the same way. */
  lemma {:induction false} SameFiltering(a: Supports, b: Supports, d: Domains, k: nat)
    requires forall e: Domains, v: nat, x: int :: a(e, v, x) <==> b(e, v, x)
    ensures FilteredUpTo(a, d, k) == FilteredUpTo(b, d, k)
  {
    if 0 < k <= |d| {
      SameFiltering(a, b, d, k - 1);
      var reached := FilteredUpTo(a, d, k - 1);
      assert SupportedIn(a, reached, k - 1) == SupportedIn(b, reached, k - 1);
    }
  }

  /** What one pass makes of the domains. */
  type OnePass = Domains -> Domains

  ghost function PassOf(supports: Supports): OnePass {
    d => FilteredUpTo(supports, d, |d|)
  }

  ghost function AfterPasses(pass: OnePass, n: Domains, p: nat): Domains {
    if p == 0 then n else pass(AfterPasses(pass, n, p - 1))
  }

  /** Every one of the first `p` passes changed something. */
  ghost predicate AllChanged(pass: OnePass, n: Domains, p: nat) {
    forall q: nat :: q < p ==> AfterPasses(pass, n, q + 1) != AfterPasses(pass, n, q)
  }

  /** `d` is what the passes make of `n`, and pass number `passes` was the first to change nothing. */
  ghost predicate SettlesAfter(pass: OnePass, n: Domains, passes: nat, d: Domains) {
    && passes > 0 && d == AfterPasses(pass, n, passes) == AfterPasses(pass, n, passes - 1)
    && AllChanged(pass, n, passes - 1)
  }

  /** The number of passes and their result are determined by the first domains. */
  lemma {:induction false} PassesAreDetermined(pass: OnePass, n: Domains, p: nat, d: Domains, q: nat, e: Domains)
    requires SettlesAfter(pass, n, p, d) && SettlesAfter(pass, n, q, e)
    ensures p == q && d == e
  {
  }

  /** A pass that deletes nothing has reached the largest consistent family. */
  lemma UnchangedPassIsGreatest(supports: Supports, n: Domains, current: Domains)
    requires Reached(supports, n, current) && PassProgress(supports, current, current, |current|)
    ensures GreatestConsistent(supports, n, current) && HasConsistent(supports, n)
  {
    assert Within(current, n) by {
      forall v, x | 0 <= v < |n| && x in current[v] ensures x in n[v] {
        assert Sublist(current[v], n[v]);
      }
    }
  }

  /** Sorting and de-duplicating the domains does not change the largest consistent family. */
  lemma NormalizingKeepsGreatest(supports: Supports, d: Domains, n: Domains)
    requires |n| == |d| && forall v :: 0 <= v < |d| ==> n[v] == SortDedup(d[v])
    ensures forall e :: Within(e, n) <==> Within(e, d)
    ensures HasConsistent(supports, n) <==> HasConsistent(supports, d)
    ensures forall r :: GreatestConsistent(supports, n, r) <==> GreatestConsistent(supports, d, r)
  {
    assert forall v, x :: 0 <= v < |d| ==> (x in n[v] <==> x in d[v]);
  }
}
