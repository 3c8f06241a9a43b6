/** Finite domains as strictly increasing lists, and the deletions that propagators make in them. */
module Filtering {
  import opened Finite
  import opened Sorting

  type Domains = seq<seq<int>>

  /** The entries of `s` that satisfy `keep`, in order. */
  ghost function Retain(s: seq<int>, keep: iset<int>): seq<int> {
    if s == [] then []
    else Retain(s[..|s| - 1], keep) + if s[|s| - 1] in keep then [s[|s| - 1]] else []
  }

  lemma RetainNext(s: seq<int>, k: nat, keep: iset<int>)
    requires k < |s|
    ensures Retain(s[..k + 1], keep) == Retain(s[..k], keep) + if s[k] in keep then [s[k]] else []
  {
    assert s[..k + 1][..k] == s[..k];
  }

  lemma RetainAll(s: seq<int>, keep: iset<int>)
    ensures s[..|s|] == s && Retain(s[..|s|], keep) == Retain(s, keep)
  {
    assert s[..|s|] == s;
  }

  lemma {:induction false} RetainMembers(s: seq<int>, keep: iset<int>)
    ensures forall x :: x in Retain(s, keep) <==> x in s && x in keep
    ensures |Retain(s, keep)| <= |s|
  {
    if s != [] {
      SplitLast(s);
      RetainMembers(s[..|s| - 1], keep);
    }
  }

  lemma {:induction false} RetainSorted(s: seq<int>, keep: iset<int>)
    requires StrictlySorted(s)
    ensures StrictlySorted(Retain(s, keep))
  {
    if s != [] {
      var rest, last := s[..|s| - 1], s[|s| - 1];
      RetainSorted(rest, keep);
      RetainMembers(rest, keep);
      var r := Retain(rest, keep);
      forall i | 0 <= i < |r| ensures r[i] < last {
        assert r[i] in r;
      }
    }
  }

  /** Nothing is deleted exactly when every entry is kept, and then the length alone tells. */
  lemma {:induction false} RetainEverything(s: seq<int>, keep: iset<int>)
    ensures Retain(s, keep) == s <==> forall x :: x in s ==> x in keep
    ensures |Retain(s, keep)| == |s| <==> Retain(s, keep) == s
  {
    if s != [] {
      var rest, last := s[..|s| - 1], s[|s| - 1];
      SplitLast(s);
      RetainEverything(rest, keep);
      RetainMembers(rest, keep);
      assert last in s;
      if last !in keep { assert |Retain(s, keep)| < |s|; }
    }
  }

  // ---- Assignments ----

  /** Every variable has a value of its domain. */
  ghost predicate InDomains(d: Domains, a: seq<int>) {
    |a| == |d| && forall v :: 0 <= v < |a| ==> a[v] in d[v]
  }

  /** The domains that contain one assignment only. */
  ghost function Singletons(a: seq<int>): (d: Domains)
    ensures |d| == |a| && forall v :: 0 <= v < |d| ==> d[v] == [a[v]]
  {
    seq(|a|, v requires 0 <= v < |a| => [a[v]])
  }

  // ---- Smaller domains ----

  /** `e` keeps a sub-list of `d`, and is `d` itself unless shorter. */
  ghost predicate Sublist(e: seq<int>, d: seq<int>) {
    && (forall x :: x in e ==> x in d)
    && |e| <= |d| && (|e| == |d| ==> e == d)
  }

  lemma SublistMember(e: seq<int>, d: seq<int>, x: int)
    requires Sublist(e, d) && x in e
    ensures x in d
  {
  }

  lemma SublistTransitive(f: seq<int>, e: seq<int>, d: seq<int>)
    requires Sublist(f, e) && Sublist(e, d)
    ensures Sublist(f, d)
  {
  }

  lemma RetainIsSublist(s: seq<int>, keep: iset<int>)
    ensures Sublist(Retain(s, keep), s)
  {
    RetainMembers(s, keep);
    RetainEverything(s, keep);
  }

  ghost predicate Smaller(e: Domains, d: Domains) {
    |e| == |d| && forall v :: 0 <= v < |d| ==> Sublist(e[v], d[v])
  }

  lemma SmallerTransitive(f: Domains, e: Domains, d: Domains)
    requires Smaller(f, e) && Smaller(e, d)
    ensures Smaller(f, d)
  {
    forall v | 0 <= v < |d| ensures Sublist(f[v], d[v]) {
      SublistTransitive(f[v], e[v], d[v]);
    }
  }

  /** How many values are left in all domains together. */
  function TotalSize(domains: Domains): nat {
    if domains == [] then 0 else TotalSize(domains[..|domains| - 1]) + |domains[|domains| - 1]|
  }

  /** Deleting values shrinks the total, strictly unless nothing is deleted. */
  lemma {:induction false} TotalSizeShrinks(d: Domains, e: Domains)
    requires Smaller(e, d)
    ensures TotalSize(e) <= TotalSize(d)
    ensures TotalSize(e) == TotalSize(d) <==> e == d
  {
    if d != [] {
      SplitLast(d);
      SplitLast(e);
      var d', e' := d[..|d| - 1], e[..|e| - 1];
      forall v | 0 <= v < |d'| ensures Sublist(e'[v], d'[v]) {
        assert Sublist(e[v], d[v]);
      }
      TotalSizeShrinks(d', e');
      assert Sublist(e[|d| - 1], d[|d| - 1]);
    }
  }

  // ---- Number of assignments ----

  /** How many assignments take one value from each domain. */
  ghost function Volume(d: Domains): nat {
    if d == [] then 1 else Multiple(Volume(d[..|d| - 1]), |d[|d| - 1]|)
  }

  lemma {:induction false} SingleVolume(d: Domains)
    requires forall v :: 0 <= v < |d| ==> |d[v]| == 1
    ensures Volume(d) == 1
  {
    if d != [] {
      SingleVolume(d[..|d| - 1]);
      MultipleNext(0, 1);
    }
  }

  lemma {:induction false} VolumePositive(d: Domains)
    requires forall v :: 0 <= v < |d| ==> d[v] != []
    ensures Volume(d) >= 1
  {
    if d != [] {
      VolumePositive(d[..|d| - 1]);
      assert d[|d| - 1] != [];
    }
  }

  lemma {:induction false} VolumeMonotone(d: Domains, e: Domains)
    requires |d| == |e| && forall v :: 0 <= v < |d| ==> |e[v]| <= |d[v]|
    ensures Volume(e) <= Volume(d)
  {
    if d != [] {
      var m, n := Volume(d[..|d| - 1]), Volume(e[..|e| - 1]);
      VolumeMonotone(d[..|d| - 1], e[..|e| - 1]);
      MultipleMonotone(n, m, |e[|e| - 1]|);
      MultipleMonotone(|e[|e| - 1]|, |d[|d| - 1]|, m);
      MultipleSwap(|e[|e| - 1]|, m);
      MultipleSwap(|d[|d| - 1]|, m);
    }
  }

  lemma {:induction false} SmallerVolume(d: Domains, e: Domains)
    requires Smaller(e, d)
    ensures Volume(e) <= Volume(d)
  {
    forall v | 0 <= v < |d| ensures |e[v]| <= |d[v]| {
      assert Sublist(e[v], d[v]);
    }
    VolumeMonotone(d, e);
  }

  /** Splitting a domain into single values splits the assignments evenly. */
  lemma {:induction false} VolumeSplits(d: Domains, v: nat, x: int)
    requires v < |d|
    ensures Volume(d) == Multiple(|d[v]|, Volume(d[v := [x]]))
  {
    var e, last := d[v := [x]], |d| - 1;
    if v < last {
      VolumeSplits(d[..last], v, x);
      assert e[..last] == d[..last][v := [x]];
      MultipleRegroup(|d[v]|, Volume(e[..last]), |d[last]|);
    } else {
      assert e[..last] == d[..last];
      MultipleNext(0, Volume(d[..last]));
      MultipleSwap(Volume(d[..last]), 1);
      MultipleSwap(Volume(d[..last]), |d[last]|);
    }
  }

  // ---- Normalised domains ----

  ghost predicate AllSorted(d: Domains) {
    forall v :: 0 <= v < |d| ==> StrictlySorted(d[v])
  }

  lemma SortDedupEmpty(s: seq<int>)
    ensures SortDedup(s) == [] <==> s == []
  {
    if s != [] { assert s[0] in SortDedup(s); }
    if SortDedup(s) != [] { assert SortDedup(s)[0] in s; }
  }

  ghost function Normalized(domains: Domains): (n: Domains)
    ensures |n| == |domains| && forall v :: 0 <= v < |n| ==> n[v] == SortDedup(domains[v])
    ensures AllSorted(n)
  {
    seq(|domains|, v requires 0 <= v < |domains| => SortDedup(domains[v]))
  }

  lemma {:induction false} NormalizedNext(domains: Domains, v: nat)
    requires v < |domains|
    ensures Normalized(domains)[..v + 1] == Normalized(domains)[..v] + [SortDedup(domains[v])]
    ensures SortDedup(domains[v]) == [] <==> domains[v] == []
  {
    SortDedupEmpty(domains[v]);
    var n := Normalized(domains);
    assert n[..v + 1] == n[..v] + [n[v]];
  }

  /** The total number of different values over all variables. */
  ghost function DistinctValues(domains: Domains): nat {
    TotalSize(Normalized(domains))
  }

  /** `v` is the first variable without values. */
  ghost predicate FirstEmpty(d: Domains, v: nat) {
    v < |d| && d[v] == [] && forall w :: 0 <= w < v ==> d[w] != []
  }

  ghost predicate NoneEmpty(d: Domains) {
    forall v :: 0 <= v < |d| ==> d[v] != []
  }

  lemma FirstEmptyIsUnique(d: Domains)
    ensures forall v, w :: FirstEmpty(d, v) && FirstEmpty(d, w) ==> v == w
    ensures NoneEmpty(d) ==> forall v :: !FirstEmpty(d, v)
  {
  }
}
