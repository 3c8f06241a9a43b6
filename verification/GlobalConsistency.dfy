/** Generalised arc consistency of one constraint over finite domains: a value stays exactly when some
    accepted assignment of the domains uses it. Filtering every variable once already gets there. */
module GlobalConsistency {
  import opened Sorting
  import opened Filtering

  /** The assignments the constraint accepts. */
  type Accepts = seq<int> -> bool

  /** An accepted assignment from the domains. */
  ghost predicate Choice(d: Domains, accepts: Accepts, a: seq<int>) {
    InDomains(d, a) && accepts(a)
  }

  ghost predicate Satisfiable(d: Domains, accepts: Accepts) {
    exists a :: Choice(d, accepts, a)
  }

  /** Some choice gives variable `v` the value `x`. */
  ghost predicate Supported(d: Domains, accepts: Accepts, v: nat, x: int) {
    exists a :: Choice(d, accepts, a) && v < |a| && a[v] == x
  }

  ghost predicate SameChoices(d: Domains, e: Domains, accepts: Accepts) {
    |d| == |e| && forall a :: Choice(d, accepts, a) <==> Choice(e, accepts, a)
  }

  /** Keeping the supported values of one variable loses no choice. */
  lemma {:induction false} FilteringKeepsChoices(d: Domains, accepts: Accepts, v: nat, kept: seq<int>)
    requires v < |d| && forall x :: x in kept <==> x in d[v] && Supported(d, accepts, v, x)
    ensures SameChoices(d, d[v := kept], accepts)
  {
    var e := d[v := kept];
    forall a ensures Choice(d, accepts, a) <==> Choice(e, accepts, a) {
      if Choice(d, accepts, a) {
        assert Supported(d, accepts, v, a[v]);
        forall w | 0 <= w < |e| ensures a[w] in e[w] {
          assert a[w] in d[w];
        }
      }
      if Choice(e, accepts, a) {
        forall w | 0 <= w < |d| ensures a[w] in d[w] {
          assert a[w] in e[w];
        }
      }
    }
  }

  lemma SupportTransfers(d: Domains, e: Domains, accepts: Accepts, v: nat, x: int)
    requires SameChoices(d, e, accepts)
    ensures Supported(d, accepts, v, x) <==> Supported(e, accepts, v, x)
  {
  }

  lemma {:induction false} NormalizingKeepsChoices(d: Domains, accepts: Accepts)
    ensures SameChoices(d, Normalized(d), accepts)
  {
    var n := Normalized(d);
    forall a ensures InDomains(d, a) <==> InDomains(n, a) {
      assert forall v :: 0 <= v < |d| ==> n[v] == SortDedup(d[v]);
    }
    forall a ensures Choice(d, accepts, a) <==> Choice(n, accepts, a) {
      assert InDomains(d, a) <==> InDomains(n, a);
    }
  }

  /** The values of variable `v` that some choice uses. */
  ghost function SupportedValues(d: Domains, accepts: Accepts, v: nat): iset<int> {
    iset x | Supported(d, accepts, v, x)
  }

  /** What a filtered variable keeps: its supported values, in order. */
  ghost function Filtered(d: Domains, accepts: Accepts, v: nat): seq<int>
    requires v < |d|
  {
    Retain(d[v], SupportedValues(d, accepts, v))
  }

  lemma {:induction false} FilteredMembers(d: Domains, accepts: Accepts, v: nat)
    requires v < |d|
    ensures forall x :: x in Filtered(d, accepts, v) <==> x in d[v] && Supported(d, accepts, v, x)
    ensures Sublist(Filtered(d, accepts, v), d[v])
    ensures StrictlySorted(d[v]) ==> StrictlySorted(Filtered(d, accepts, v))
  {
    RetainMembers(d[v], SupportedValues(d, accepts, v));
    RetainIsSublist(d[v], SupportedValues(d, accepts, v));
    if StrictlySorted(d[v]) { RetainSorted(d[v], SupportedValues(d, accepts, v)); }
  }

  // ---- One pass, and why a second pass changes nothing ----

  /** Variable `v` of `current` holds exactly the values of `n` that some choice uses. */
  ghost predicate ExactAt(n: Domains, current: Domains, accepts: Accepts, v: nat)
    requires v < |n| == |current|
  {
    forall x :: x in current[v] <==> x in n[v] && Supported(n, accepts, v, x)
  }

  /** No choice was lost, and the first `done` variables hold exactly their supported values. */
  ghost predicate Progress(n: Domains, current: Domains, accepts: Accepts, done: nat) {
    && Smaller(current, n) && AllSorted(current) && SameChoices(n, current, accepts)
    && forall v :: 0 <= v < |n| && v < done ==> ExactAt(n, current, accepts, v)
  }

  /** Filtering variable `v` makes it exact; a variable that was exact already stays as it is. */
  lemma {:induction false} FilterStep(n: Domains, current: Domains, accepts: Accepts, v: nat, done: nat)
    requires v < |n| && Progress(n, current, accepts, done) && v <= done
    ensures Progress(n, current[v := Filtered(current, accepts, v)], accepts, if done == v then v + 1 else done)
    ensures v < done ==> Filtered(current, accepts, v) == current[v]
  {
    var kept := Filtered(current, accepts, v);
    var next := current[v := kept];
    FilteredMembers(current, accepts, v);
    FilteringKeepsChoices(current, accepts, v, kept);
    assert Sublist(current[v], n[v]);
    SublistTransitive(kept, current[v], n[v]);
    FilteredIsExact(n, current, accepts, v);
    forall w | 0 <= w < |n| && w < (if done == v then v + 1 else done) ensures ExactAt(n, next, accepts, w) {
      if w != v { assert ExactAt(n, current, accepts, w); }
    }
    if v < done {
      assert ExactAt(n, current, accepts, v);
      FilteredAgain(n, current, accepts, v);
    }
  }

  lemma {:induction false} FilteredAgain(n: Domains, current: Domains, accepts: Accepts, v: nat)
    requires v < |n| == |current| && SameChoices(n, current, accepts) && ExactAt(n, current, accepts, v)
    ensures Filtered(current, accepts, v) == current[v]
  {
    RetainEverything(current[v], SupportedValues(current, accepts, v));
    forall x | x in current[v] ensures x in SupportedValues(current, accepts, v) {
      SupportTransfers(n, current, accepts, v, x);
    }
  }

  lemma {:induction false} FilteredIsExact(n: Domains, current: Domains, accepts: Accepts, v: nat)
    requires v < |n| && Smaller(current, n) && SameChoices(n, current, accepts)
    ensures ExactAt(n, current[v := Filtered(current, accepts, v)], accepts, v)
  {
    FilteredMembers(current, accepts, v);
    assert Sublist(current[v], n[v]);
    forall x ensures x in Filtered(current, accepts, v) <==> x in n[v] && Supported(n, accepts, v, x) {
      SupportTransfers(n, current, accepts, v, x);
      if Supported(n, accepts, v, x) {
        var a :| Choice(n, accepts, a) && v < |a| && a[v] == x;
        assert Choice(current, accepts, a) && a[v] in current[v];
      }
    }
  }

  /** A satisfiable constraint leaves every variable a value. */
  lemma {:induction false} FilteredNotEmpty(d: Domains, accepts: Accepts, v: nat)
    requires v < |d|
    ensures Filtered(d, accepts, v) != [] <==> Satisfiable(d, accepts)
  {
    FilteredMembers(d, accepts, v);
    if a :| Choice(d, accepts, a) {
      assert Supported(d, accepts, v, a[v]) && a[v] in d[v];
    }
    if Filtered(d, accepts, v) != [] {
      var x := Filtered(d, accepts, v)[0];
      assert x in Filtered(d, accepts, v) && Supported(d, accepts, v, x);
    }
  }

  // ---- The result ----

  /** The result keeps, strictly increasing, exactly the values that some choice of the input uses. */
  ghost predicate KeepsExactlySupported(domains: Domains, accepts: Accepts, result: Domains) {
    && |result| == |domains| && AllSorted(result)
    && forall v :: 0 <= v < |domains| ==> forall x :: x in result[v] <==> x in domains[v] && Supported(domains, accepts, v, x)
  }

  lemma {:induction false} ExactResult(domains: Domains, accepts: Accepts, current: Domains)
    requires Progress(Normalized(domains), current, accepts, |domains|)
    ensures KeepsExactlySupported(domains, accepts, current)
  {
    var n := Normalized(domains);
    NormalizingKeepsChoices(domains, accepts);
    forall v | 0 <= v < |domains| ensures forall x :: x in current[v] <==> x in domains[v] && Supported(domains, accepts, v, x) {
      assert ExactAt(n, current, accepts, v) && n[v] == SortDedup(domains[v]);
      forall x { SupportTransfers(domains, n, accepts, v, x); }
    }
  }

  /** How many values were removed, and in how many passes: a second pass only if the first removed something. */
  ghost predicate Tally(domains: Domains, result: Domains, removed: nat, passes: nat) {
    removed == DistinctValues(domains) - TotalSize(result) && passes == if removed == 0 then 1 else 2
  }

  lemma {:induction false} TallyOfRun(domains: Domains, current: Domains, accepts: Accepts, removed: nat, passes: nat)
    requires Progress(Normalized(domains), current, accepts, |domains|)
    requires passes == if current == Normalized(domains) then 1 else 2
    requires removed == DistinctValues(domains) - TotalSize(current)
    ensures Tally(domains, current, removed, passes)
  {
    TotalSizeShrinks(Normalized(domains), current);
  }
}
