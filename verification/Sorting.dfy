/** Sorting and de-duplication of vectors, as the solvers use them to normalise domains. */
module Sorting {
  import opened Finite

  predicate Sorted(s: seq<int>) {
    forall i, j :: 0 <= i < j < |s| ==> s[i] <= s[j]
  }

  predicate StrictlySorted(s: seq<int>) {
    forall i, j :: 0 <= i < j < |s| ==> s[i] < s[j]
  }

  function Insert(x: int, s: seq<int>): (r: seq<int>)
    requires Sorted(s)
    ensures Sorted(r) && |r| == |s| + 1
    ensures r[0] == if s == [] || x <= s[0] then x else s[0]
    ensures multiset(r) == multiset(s) + multiset{x}
  {
    if s == [] then [x]
    else if x <= s[0] then [x] + s
    else
      assert s == [s[0]] + s[1..];
      [s[0]] + Insert(x, s[1..])
  }

  /** The sorted permutation of `s`. */
  function Sort(s: seq<int>): (r: seq<int>)
    ensures Sorted(r)
    ensures multiset(r) == multiset(s)
    ensures |r| == |s|
    ensures forall x :: x in r <==> x in s
  {
    if s == [] then []
    else
      assert s == [s[0]] + s[1..];
      var r := Insert(s[0], Sort(s[1..]));
      assert forall x :: x in r <==> x in multiset(r);
      assert forall x :: x in s <==> x in multiset(s);
      r
  }

  /** Drops repeated neighbours of a sorted sequence. */
  function Dedup(s: seq<int>): (r: seq<int>)
    requires Sorted(s)
    ensures StrictlySorted(r)
    ensures forall x :: x in r <==> x in s
    ensures s != [] ==> r != [] && r[0] == s[0]
  {
    if |s| <= 1 then s
    else
      assert s == [s[0]] + s[1..];
      var r := Dedup(s[1..]);
      if s[0] == s[1] then r
      else
        assert forall i :: 0 < i < |r| ==> r[0] < r[i];
        [s[0]] + r
  }

  /** `sort_unstable` followed by `dedup`. */
  function SortDedup(s: seq<int>): (r: seq<int>)
    ensures StrictlySorted(r)
    ensures forall x :: x in r <==> x in s
  {
    Dedup(Sort(s))
  }

  ghost predicate Repeats(s: seq<int>, x: int) {
    exists i, j :: 0 <= i < j < |s| && s[i] == s[j] == x
  }

  lemma {:induction false} RepeatsIffCountedTwice(s: seq<int>, x: int)
    ensures Repeats(s, x) <==> multiset(s)[x] >= 2
  {
    if s != [] {
      var rest, last := s[..|s| - 1], s[|s| - 1];
      assert s == rest + [last];
      RepeatsIffCountedTwice(rest, x);
      assert x in rest <==> x in multiset(rest);
      if Repeats(rest, x) {
        var i, j :| 0 <= i < j < |rest| && rest[i] == rest[j] == x;
        assert s[i] == s[j] == x;
      } else if last == x && x in rest {
        var i :| 0 <= i < |rest| && rest[i] == x;
        assert s[i] == s[|s| - 1] == x;
      }
    }
  }

  ghost predicate EqualNeighbours(s: seq<int>, i: int) {
    0 <= i < |s| - 1 && s[i] == s[i + 1]
  }

  /** The equal neighbours at `i` are copies of `x`. */
  ghost predicate RepeatsAt(s: seq<int>, i: int, x: int) {
    EqualNeighbours(s, i) && s[i] == x
  }

  /** Equal values of a sorted sequence stand side by side. */
  lemma {:induction false} RepetitionsAreNeighbours(r: seq<int>, x: int)
    requires Sorted(r)
    ensures Repeats(r, x) <==> exists i :: RepeatsAt(r, i, x)
  {
    if Repeats(r, x) {
      var i, j :| 0 <= i < j < |r| && r[i] == r[j] == x;
      assert r[i] <= r[i + 1] <= r[j];
      assert RepeatsAt(r, i, x);
    } else {
      forall i ensures !RepeatsAt(r, i, x) {
        var j := i + 1;
        assert 0 <= i < j < |r| ==> !(r[i] == r[j] == x);
      }
    }
  }

  /** Sorting keeps repetitions and brings equal values side by side. */
  lemma {:induction false} SortedRepetitions(s: seq<int>, r: seq<int>, x: int)
    requires Sorted(r) && multiset(r) == multiset(s)
    ensures Repeats(s, x) <==> exists i :: RepeatsAt(r, i, x)
  {
    RepeatsIffCountedTwice(s, x);
    RepeatsIffCountedTwice(r, x);
    RepetitionsAreNeighbours(r, x);
  }

  /** The first pair of equal neighbours after sorting holds the least repeated value. */
  lemma {:induction false} FirstNeighboursRepeatLeast(s: seq<int>, r: seq<int>, k: nat)
    requires Sorted(r) && multiset(r) == multiset(s)
    requires EqualNeighbours(r, k) && forall i :: EqualNeighbours(r, i) ==> k <= i
    ensures Repeats(s, r[k]) && !Distinct(s)
    ensures forall x :: Repeats(s, x) ==> r[k] <= x
  {
    SortedRepetitions(s, r, r[k]);
    assert RepeatsAt(r, k, r[k]);
    forall x | Repeats(s, x) ensures r[k] <= x {
      SortedRepetitions(s, r, x);
      var i :| RepeatsAt(r, i, x);
      assert k <= i;
    }
  }

  lemma {:induction false} DistinctIffNoRepeats(s: seq<int>)
    ensures Distinct(s) <==> forall x :: !Repeats(s, x)
  {
    forall i, j | 0 <= i < j < |s| && s[i] == s[j] ensures Repeats(s, s[i]) {
    }
  }

  /** Sorting a list without repetitions gives a strictly increasing list. */
  lemma {:induction false} SortDistinct(s: seq<int>)
    ensures Distinct(s) <==> StrictlySorted(Sort(s))
  {
    var r := Sort(s);
    forall x ensures Repeats(s, x) <==> Repeats(r, x) {
      RepeatsIffCountedTwice(r, x);
      RepeatsIffCountedTwice(s, x);
    }
    DistinctIffNoRepeats(s);
    DistinctIffNoRepeats(r);
    StrictIffDistinct(r);
  }

  lemma {:induction false} StrictIffDistinct(r: seq<int>)
    requires Sorted(r)
    ensures StrictlySorted(r) <==> Distinct(r)
  {
    if Distinct(r) {
      forall i, j | 0 <= i < j < |r| ensures r[i] < r[j] {
        assert r[i] <= r[j] && r[i] != r[j];
      }
    }
  }

  lemma {:induction false} TailMembers(s: seq<int>)
    requires StrictlySorted(s) && s != []
    ensures forall x :: x in s ==> s[0] <= x
    ensures forall x :: x in s[1..] <==> x in s && x != s[0]
  {
    forall x | x in s && x != s[0] ensures s[0] <= x && x in s[1..] {
      var i :| 0 <= i < |s| && s[i] == x;
      assert s[1..][i - 1] == x;
    }
    forall x | x in s[1..] ensures x in s && x != s[0] {
      var i :| 0 <= i < |s| - 1 && s[1..][i] == x;
      assert s[0] < s[i + 1];
    }
  }

  /** A strictly sorted sequence is determined by its elements. */
  lemma {:induction false} StrictlySortedUnique(a: seq<int>, b: seq<int>)
    requires StrictlySorted(a) && StrictlySorted(b) && forall x :: x in a <==> x in b
    ensures a == b
  {
    if a != [] { assert a[0] in a && a[0] in b; }
    if b != [] { assert b[0] in b && b[0] in a; }
    if a != [] && b != [] {
      TailMembers(a);
      TailMembers(b);
      assert a[0] == b[0];
      StrictlySortedUnique(a[1..], b[1..]);
      SplitFirst(a);
      SplitFirst(b);
    }
  }

  /** The elements of a set in increasing order. */
  method SortedElements(s: set<int>) returns (r: seq<int>)
    ensures StrictlySorted(r) && |r| == |s|
    ensures forall x :: x in r <==> x in s
  {
    var list: seq<int> := [];
    var rest := s;
    while rest != {}
      invariant rest <= s && Distinct(list) && |list| + |rest| == |s|
      invariant forall x :: x in list <==> x in s && x !in rest
      decreases |rest|
    {
      var x := Choose(rest);
      rest := rest - {x};
      list := list + [x];
    }
    SortDistinct(list);
    r := Sort(list);
  }
}
