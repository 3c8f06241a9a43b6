/** Sorting the indices of a vector by a comparison, as the solvers do to fix an order of visit. */
module IndexOrder {
  import opened Finite

  type Comparison = (nat, nat) -> bool

  /** A total, transitive comparison on the indices below `n`. */
  ghost predicate TotalPreorder(before: Comparison, n: nat) {
    && (forall u: nat, v: nat :: u < n && v < n ==> before(u, v) || before(v, u))
    && forall u: nat, v: nat, w: nat :: u < n && v < n && w < n && before(u, v) && before(v, w) ==> before(u, w)
  }

  ghost predicate Ordered(before: Comparison, s: seq<nat>) {
    forall i, j :: 0 <= i < j < |s| ==> before(s[i], s[j])
  }

  function Insert(before: Comparison, v: nat, s: seq<nat>): (r: seq<nat>)
    ensures |r| == |s| + 1 && forall u :: u in r <==> u in s || u == v
  {
    if s == [] || before(v, s[0]) then [v] + s
    else
      SplitFirst(s);
      var r := Insert(before, v, s[1..]);
      assert forall u :: u in [s[0]] + r <==> u == s[0] || u in r;
      [s[0]] + r
  }

  lemma {:induction false} InsertKeepsOrder(before: Comparison, v: nat, s: seq<nat>, n: nat)
    requires TotalPreorder(before, n) && v < n && forall u :: u in s ==> u < n
    requires Distinct(s) && v !in s && Ordered(before, s)
    ensures Distinct(Insert(before, v, s)) && Ordered(before, Insert(before, v, s))
  {
    if s == [] {
    } else if before(v, s[0]) {
      NewHead(before, v, s, n);
    } else {
      var rest := s[1..];
      TailFacts(s, n);
      SplitFirst(s);
      assert Ordered(before, rest);
      InsertKeepsOrder(before, v, rest, n);
      HeadStaysFirst(before, s[0], rest, Insert(before, v, rest), v);
    }
  }

  lemma {:induction false} NewHead(before: Comparison, v: nat, s: seq<nat>, n: nat)
    requires TotalPreorder(before, n) && v < n && (forall u :: u in s ==> u < n) && s != [] && before(v, s[0])
    requires Distinct(s) && v !in s && Ordered(before, s)
    ensures Distinct([v] + s) && Ordered(before, [v] + s)
  {
    forall j | 0 <= j < |s| ensures v != s[j] && before(v, s[j]) {
      assert s[j] in s && s[0] in s;
      assert j > 0 ==> before(s[0], s[j]);
    }
  }

  lemma {:induction false} HeadStaysFirst(before: Comparison, head: nat, rest: seq<nat>, r: seq<nat>, v: nat)
    requires Distinct([head] + rest) && Ordered(before, [head] + rest) && before(head, v) && head != v
    requires Distinct(r) && Ordered(before, r) && forall u :: u in r <==> u in rest || u == v
    ensures Distinct([head] + r) && Ordered(before, [head] + r)
  {
    forall i | 0 <= i < |r| ensures head != r[i] && before(head, r[i]) {
      assert r[i] in r;
      if r[i] in rest {
        var j :| 0 <= j < |rest| && rest[j] == r[i];
        assert ([head] + rest)[0] == head && ([head] + rest)[j + 1] == r[i];
      }
    }
  }

  /** The indices below `n` in the order of the comparison. */
  function SortIndices(before: Comparison, n: nat): (r: seq<nat>)
    ensures |r| == n && forall v: nat :: v in r <==> v < n
  {
    if n == 0 then [] else Insert(before, n - 1, SortIndices(before, n - 1))
  }

  lemma {:induction false} SortIndicesOrders(before: Comparison, n: nat, bound: nat)
    requires TotalPreorder(before, bound) && n <= bound
    ensures Distinct(SortIndices(before, n)) && Ordered(before, SortIndices(before, n))
  {
    if n > 0 {
      SortIndicesOrders(before, n - 1, bound);
      InsertKeepsOrder(before, n - 1, SortIndices(before, n - 1), bound);
    }
  }

  /** A list of indices in the order of the comparison. */
  function SortBy(before: Comparison, s: seq<nat>): (r: seq<nat>)
    ensures |r| == |s| && forall v :: v in r <==> v in s
  {
    if s == [] then []
    else
      SplitFirst(s);
      Insert(before, s[0], SortBy(before, s[1..]))
  }

  lemma {:induction false} SortByOrders(before: Comparison, s: seq<nat>, n: nat)
    requires TotalPreorder(before, n) && Distinct(s) && forall v :: v in s ==> v < n
    ensures Distinct(SortBy(before, s)) && Ordered(before, SortBy(before, s))
  {
    if s != [] {
      var rest := s[1..];
      TailFacts(s, n);
      SortByOrders(before, rest, n);
      InsertKeepsOrder(before, s[0], SortBy(before, rest), n);
    }
  }

  lemma {:induction false} TailFacts(s: seq<nat>, n: nat)
    requires s != [] && Distinct(s) && forall v :: v in s ==> v < n
    ensures Distinct(s[1..]) && s[0] !in s[1..] && s[0] < n && forall v :: v in s[1..] ==> v < n
  {
    assert s[0] in s;
    assert forall i :: 0 <= i < |s[1..]| ==> s[1..][i] == s[i + 1] && s[i + 1] in s;
  }
}
