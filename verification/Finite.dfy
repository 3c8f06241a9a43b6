/** Cardinalities of finite sets of indices, and small integer functions. */
module Finite {
  function Min(a: int, b: int): int { if a <= b then a else b }

  function Abs(x: int): int { if x < 0 then -x else x }

  /** The instants of an interval. */
  ghost predicate Covers(start: int, duration: int, t: int) {
    start <= t < start + duration
  }

  function Max(a: int, b: int): int { if a >= b then a else b }

  /** The indices below `n`. */
  ghost function Below(n: nat): (s: set<nat>)
    ensures |s| == n
    ensures forall v: nat :: v in s <==> v < n
  {
    if n == 0 then {} else Below(n - 1) + {n - 1}
  }

  /** The same indices as integers. */
  ghost function Indices(n: nat): (s: set<int>)
    ensures |s| == n
    ensures forall v :: v in s <==> 0 <= v < n
  {
    if n == 0 then {} else Indices(n - 1) + {n - 1}
  }

  lemma {:induction false} SubsetCardinality<T>(a: set<T>, b: set<T>)
    requires a <= b
    ensures |a| <= |b| && (|a| == |b| ==> a == b)
  {
    if x :| x in a {
      SubsetCardinality(a - {x}, b - {x});
    }
  }

  ghost predicate Distinct<T>(s: seq<T>) {
    forall i, j :: 0 <= i < j < |s| ==> s[i] != s[j]
  }

  lemma {:induction false} DistinctAppend<T>(s: seq<T>, x: T)
    requires Distinct(s) && x !in s
    ensures Distinct(s + [x])
  {
    forall i, j | 0 <= i < j < |s| + 1 ensures (s + [x])[i] != (s + [x])[j] {
      assert s[i] in s;
    }
  }

  ghost function Members<T>(s: seq<T>): (m: set<T>) {
    set x | x in s
  }

  lemma {:induction false} DistinctCardinality<T>(s: seq<T>)
    ensures |Members(s)| <= |s|
    ensures Distinct(s) ==> |Members(s)| == |s|
  {
    if s != [] {
      var rest, last := s[..|s| - 1], s[|s| - 1];
      DistinctCardinality(rest);
      assert Members(s) == Members(rest) + {last};
      if Distinct(s) {
        assert forall k :: 0 <= k < |rest| ==> rest[k] == s[k];
        assert last !in rest;
      }
    }
  }

  lemma {:induction false} CountedOnceMeansDistinct<T>(s: seq<T>)
    requires forall x :: multiset(s)[x] <= 1
    ensures Distinct(s)
  {
    if s != [] {
      var rest, last := s[..|s| - 1], s[|s| - 1];
      assert s == rest + [last];
      assert multiset(s) == multiset(rest) + multiset{last};
      assert multiset(s)[last] == multiset(rest)[last] + 1;
      assert forall x :: multiset(rest)[x] <= multiset(s)[x];
      assert last !in multiset(rest);
      CountedOnceMeansDistinct(rest);
      DistinctAppend(rest, last);
    }
  }

  /** As many different entries as entries means no repetition. */
  lemma {:induction false} FullCardinalityMeansDistinct<T>(s: seq<T>)
    requires |Members(s)| == |s|
    ensures Distinct(s)
  {
    if s != [] {
      var rest, last := s[..|s| - 1], s[|s| - 1];
      assert Members(s) == Members(rest) + {last};
      DistinctCardinality(rest);
      FullCardinalityMeansDistinct(rest);
      SplitLast(s);
      DistinctAppend(rest, last);
    }
  }

  /** `n` distinct indices below `n` are all of them. */
  lemma DistinctFillsRange(s: seq<nat>, n: nat)
    requires Distinct(s) && forall i :: 0 <= i < |s| ==> s[i] < n
    ensures |s| <= n
    ensures |s| == n ==> forall v: nat :: v < n ==> v in s
  {
    DistinctCardinality(s);
    assert Members(s) <= Below(n) by {
      forall v | v in Members(s) ensures v in Below(n) {
        var i :| 0 <= i < |s| && s[i] == v;
      }
    }
    SubsetCardinality(Members(s), Below(n));
    if |s| == n {
      forall v: nat | v < n ensures v in s {
        assert v in Members(s);
      }
    }
  }

  /** More entries than available values forces a repetition. */
  lemma {:induction false} Pigeonhole<T>(p: seq<T>, s: set<T>) returns (i: nat, j: nat)
    requires |p| > |s| && forall x :: x in p ==> x in s
    ensures i < j < |p| && p[i] == p[j]
    decreases |p|
  {
    var last := p[|p| - 1];
    if k :| 0 <= k < |p| - 1 && p[k] == last {
      i, j := k, |p| - 1;
    } else {
      i, j := Pigeonhole(p[..|p| - 1], s - {last});
    }
  }

  lemma SplitLast<T>(s: seq<T>)
    requires s != []
    ensures s == s[..|s| - 1] + [s[|s| - 1]]
  {
  }

  lemma SplitFirst<T>(s: seq<T>)
    requires s != []
    ensures s == [s[0]] + s[1..]
  {
  }

  lemma PickFrom<T>(s: set<T>) returns (x: T)
    requires s != {}
    ensures x in s
  {
    x :| x in s;
  }

  method Choose<T(==)>(s: set<T>) returns (x: T)
    requires s != {}
    ensures x in s
  {
    ghost var y := PickFrom(s);
    assert y in s;
    x :| x in s;
  }

  // ---- Choosing subsets ----

  /** The number of `k`-element subsets of an `n`-element set. */
  ghost function Choices(n: nat, k: nat): nat {
    if k == 0 then 1 else if n == 0 then 0 else Choices(n - 1, k - 1) + Choices(n - 1, k)
  }

  /** Dropping at least as many elements as choices leaves no more ways to choose. */
  lemma {:induction false} FewerChoices(n: nat, k: nat, fewer: nat, chosen: nat)
    requires fewer <= n && chosen <= k && k - chosen <= n - fewer
    ensures Choices(fewer, chosen) <= Choices(n, k)
    decreases n
  {
    if fewer < n {
      if chosen < k { FewerChoices(n - 1, k - 1, fewer, chosen); } else { FewerChoices(n - 1, k, fewer, chosen); }
    }
  }

  /** Different places hold different entries, so there are no more places than entries. */
  lemma {:induction false} ImageSize(places: set<nat>, s: seq<nat>, image: set<nat>)
    requires Distinct(s) && forall i :: i in places ==> i < |s| && s[i] in image
    ensures |places| <= |image|
  {
    if i :| i in places {
      forall k | k in places - {i} ensures s[k] in image - {s[i]} {
        assert if k < i then s[k] != s[i] else s[i] != s[k];
      }
      ImageSize(places - {i}, s, image - {s[i]});
    }
  }

  /** Removing a common element keeps different sets different. */
  lemma {:induction false} StripKeepsCount(family: set<set<nat>>, e: nat)
    requires forall s :: s in family ==> e in s
    ensures |set s | s in family :: s - {e}| == |family|
  {
    if t :| t in family {
      var rest := family - {t};
      StripKeepsCount(rest, e);
      var stripped, all := set s | s in rest :: s - {e}, set s | s in family :: s - {e};
      assert t - {e} !in stripped by {
        forall s | s in rest ensures s - {e} != t - {e} {
          assert s == (s - {e}) + {e} && t == (t - {e}) + {e};
        }
      }
      assert all == stripped + {t - {e}};
    }
  }

  /** A set of `k` indices below `n`. */
  ghost predicate HasSize(s: set<nat>, n: nat, k: nat) {
    |s| == k && forall v :: v in s ==> v < n
  }

  ghost predicate IsFamily(family: set<set<nat>>, n: nat, k: nat) {
    forall s :: s in family ==> HasSize(s, n, k)
  }

  /** All `k`-element subsets of the indices below `n`. */
  ghost function Subsets(n: nat, k: nat): (family: set<set<nat>>)
    ensures forall s :: s in family <==> HasSize(s, n, k)
  {
    assert forall s: set<nat> :: s <= Below(n) <==> forall v :: v in s ==> v < n;
    set s | s <= Below(n) && |s| == k
  }

  lemma {:induction false} Stripped(s: set<nat>, last: nat, k: nat)
    ensures last in s && HasSize(s, last + 1, k) ==> k > 0 && HasSize(s - {last}, last, k - 1)
    ensures last !in s ==> (HasSize(s, last + 1, k) <==> HasSize(s, last, k))
  {
  }

  lemma {:induction false} Refilled(t: set<nat>, last: nat, k: nat)
    requires k > 0 && HasSize(t, last, k - 1)
    ensures HasSize(t + {last}, last + 1, k) && (t + {last}) - {last} == t
  {
  }

  /** The subsets with `last`: one element fewer without it. */
  lemma {:induction false} SubsetsWithLast(last: nat, k: nat, with: set<set<nat>>)
    requires k > 0 && forall s :: s in with <==> HasSize(s, last + 1, k) && last in s
    ensures |with| == |Subsets(last, k - 1)|
  {
    var stripped := set s | s in with :: s - {last};
    StripKeepsCount(with, last);
    forall t | t in stripped ensures HasSize(t, last, k - 1) {
      var s :| s in with && t == s - {last};
      Stripped(s, last, k);
    }
    forall t | HasSize(t, last, k - 1) ensures t in stripped {
      Refilled(t, last, k);
    }
    assert stripped == Subsets(last, k - 1);
  }

  /** There are exactly as many subsets as choices. */
  lemma {:induction false} SubsetsAreChoices(n: nat, k: nat)
    ensures |Subsets(n, k)| == Choices(n, k)
  {
    var all := Subsets(n, k);
    if k == 0 {
      assert HasSize({}, n, 0);
      assert all == {{}};
    } else if n == 0 {
      assert forall s :: HasSize(s, 0, k) ==> s == {};
      assert all == {};
    } else {
      var last: nat := n - 1;
      var with := set s | s in all && last in s;
      SubsetsAreChoices(last, k - 1);
      SubsetsAreChoices(last, k);
      SubsetsWithLast(last, k, with);
      forall s | last !in s { Stripped(s, last, k); }
      TwoParts(all, with, Subsets(last, k));
    }
  }

  lemma {:induction false} TwoParts<T>(all: set<T>, a: set<T>, b: set<T>)
    requires a !! b && forall x :: x in all <==> x in a || x in b
    ensures |all| == |a| + |b|
  {
    assert all == a + b;
  }

  /** There are no more `k`-element subsets in a family than choices. */
  lemma {:induction false} FamilyBound(family: set<set<nat>>, n: nat, k: nat)
    requires IsFamily(family, n, k)
    ensures |family| <= Choices(n, k)
  {
    SubsetsAreChoices(n, k);
    SubsetCardinality(family, Subsets(n, k));
  }

  // ---- Products of counts ----

  /** `k` times `t`, as a sum. */
  ghost function Multiple(k: nat, t: nat): nat {
    if k == 0 then 0 else Multiple(k - 1, t) + t
  }

  lemma {:induction false} MultipleIsProduct(k: nat, t: nat)
    ensures Multiple(k, t) == k * t
  {
    if k > 0 {
      MultipleIsProduct(k - 1, t);
      assert (k - 1) * t + t == k * t;
    }
  }

  lemma MultipleNext(k: nat, t: nat)
    ensures Multiple(k + 1, t) == Multiple(k, t) + t
    ensures Multiple(0, t) == 0 && Multiple(1, t) == t
  {
  }

  lemma {:induction false} MultipleMonotone(k: nat, n: nat, t: nat)
    requires k <= n
    ensures Multiple(k, t) <= Multiple(n, t)
  {
    if k < n {
      MultipleMonotone(k, n - 1, t);
      MultipleNext(n - 1, t);
    }
  }

  lemma {:induction false} MultipleSwap(k: nat, t: nat)
    ensures Multiple(k, t) == Multiple(t, k)
  {
    MultipleIsProduct(k, t);
    MultipleIsProduct(t, k);
  }

  lemma {:induction false} MultipleRegroup(a: nat, b: nat, c: nat)
    ensures Multiple(Multiple(a, b), c) == Multiple(a, Multiple(b, c))
  {
    MultipleIsProduct(a, b);
    MultipleIsProduct(b, c);
    MultipleIsProduct(a * b, c);
    MultipleIsProduct(a, b * c);
  }

  lemma {:induction false} MultipleInjective(k: nat, a: nat, b: nat)
    requires k > 0 && Multiple(k, a) == Multiple(k, b)
    ensures a == b
  {
    MultipleSwap(k, a);
    MultipleSwap(k, b);
    if a < b {
      MultipleNext(a, k);
      MultipleMonotone(a + 1, b, k);
    } else if b < a {
      MultipleNext(b, k);
      MultipleMonotone(b + 1, a, k);
    }
  }
}
