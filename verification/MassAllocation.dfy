/** Distributing a fixed mass over entries with lower and upper limits, cheapest payoff first. */
module MassAllocation {
  import opened Finite
  import opened LinearAlgebra
  import opened LinearBounds
  import opened IndexOrder

  function Total(s: seq<int>, n: nat): int
    requires n <= |s|
  {
    if n == 0 then 0 else Total(s, n - 1) + s[n - 1]
  }

  lemma {:induction false} TotalAsReal(s: seq<int>, n: nat)
    requires n <= |s|
    ensures Total(s, n) as real == SumTo(Reals(s), n)
  {
    if n > 0 { TotalAsReal(s, n - 1); }
  }

  // ---- What makes an allocation worst ----

  /** Within its limits and of the given mass, with real shares. */
  ghost predicate Admissible(lower: seq<int>, upper: seq<int>, mass: int, q: Vector) {
    && |q| == |lower| == |upper| && SumTo(q, |q|) == mass as real
    && forall i :: 0 <= i < |q| ==> lower[i] as real <= q[i] <= upper[i] as real
  }

  /** Entries cheaper than `t` are full and entries dearer than `t` are at their least. */
  ghost predicate Threshold(payoff: seq<int>, lower: seq<int>, upper: seq<int>, p: seq<int>, t: int) {
    && |payoff| == |lower| == |upper| == |p|
    && forall i {:trigger p[i]} :: 0 <= i < |p| ==> (payoff[i] < t ==> p[i] == upper[i]) && (payoff[i] > t ==> p[i] == lower[i])
  }

  lemma {:induction false} TermGains(payoff: real, t: real, p: real, q: real)
    requires payoff < t ==> q <= p
    requires payoff > t ==> q >= p
    ensures payoff * q - payoff * p >= t * q - t * p
  {
    var gain := (payoff - t) * (q - p);
    if payoff < t {
      ProductSign(t - payoff, p - q);
      assert gain == (t - payoff) * (p - q);
    } else {
      if payoff > t { ProductSign(payoff - t, q - p); }
    }
    assert gain >= 0.0;
    assert gain == payoff * q - payoff * p - t * q + t * p;
  }

  ghost function Scaled(t: real, x: Vector): (r: Vector)
    ensures |r| == |x| && forall i :: 0 <= i < |r| ==> r[i] == t * x[i]
  {
    seq(|x|, i requires 0 <= i < |x| => t * x[i])
  }

  lemma {:induction false} SumScaled(t: real, x: Vector, n: nat)
    requires n <= |x|
    ensures SumTo(Scaled(t, x), n) == t * SumTo(x, n)
  {
    if n > 0 {
      SumScaled(t, x, n - 1);
      Distribute(t, SumTo(x, n - 1), x[n - 1]);
    }
  }

  ghost predicate GainsAt(a: Vector, b: Vector, c: Vector, d: Vector, i: nat)
    requires i < |a| == |b| == |c| == |d|
  {
    a[i] - b[i] >= c[i] - d[i]
  }

  lemma {:induction false} SumDifferences(a: Vector, b: Vector, c: Vector, d: Vector, n: nat)
    requires n <= |a| == |b| == |c| == |d| && forall i :: 0 <= i < n ==> GainsAt(a, b, c, d, i)
    ensures SumTo(a, n) - SumTo(b, n) >= SumTo(c, n) - SumTo(d, n)
  {
    if n > 0 {
      SumDifferences(a, b, c, d, n - 1);
      assert GainsAt(a, b, c, d, n - 1);
    }
  }

  lemma {:induction false} ThresholdGains(payoff: seq<int>, lower: seq<int>, upper: seq<int>, p: seq<int>, t: int, mass: int, q: Vector, i: nat)
    requires Threshold(payoff, lower, upper, p, t) && Admissible(lower, upper, mass, q) && i < |q|
    ensures GainsAt(Products(Reals(payoff), q), Products(Reals(payoff), Reals(p)), Scaled(t as real, q), Scaled(t as real, Reals(p)), i)
  {
    assert p[i] == p[i];
    TermGains(Reals(payoff)[i], t as real, Reals(p)[i], q[i]);
  }

  /** Moving mass away from a threshold allocation never lowers the expected payoff. */
  lemma {:induction false} ThresholdSums(payoff: seq<int>, lower: seq<int>, upper: seq<int>, p: seq<int>, t: int, mass: int, q: Vector)
    requires Threshold(payoff, lower, upper, p, t) && Admissible(lower, upper, mass, q)
    requires SumTo(Reals(p), |p|) == mass as real
    ensures Dot(Reals(payoff), Reals(p)) <= Dot(Reals(payoff), q)
  {
    var c, x, k := Reals(payoff), Reals(p), t as real;
    var a, b, kq, kx := Products(c, q), Products(c, x), Scaled(k, q), Scaled(k, x);
    forall i | 0 <= i < |q| ensures GainsAt(a, b, kq, kx, i) {
      ThresholdGains(payoff, lower, upper, p, t, mass, q, i);
    }
    SumDifferences(a, b, kq, kx, |q|);
    SumScaled(k, q, |q|);
    SumScaled(k, x, |q|);
  }

  /** Within its limits, of the given mass, and of least payoff among all such allocations. */
  ghost predicate Worst(payoff: seq<int>, lower: seq<int>, upper: seq<int>, mass: int, p: seq<int>)
    requires |payoff| == |lower| == |upper|
  {
    && Admissible(lower, upper, mass, Reals(p))
    && forall q :: Admissible(lower, upper, mass, q) ==> Dot(Reals(payoff), Reals(p)) <= Dot(Reals(payoff), q)
  }

  lemma {:induction false} ThresholdIsWorst(payoff: seq<int>, lower: seq<int>, upper: seq<int>, mass: int, p: seq<int>, t: int)
    requires Threshold(payoff, lower, upper, p, t) && Total(p, |p|) == mass
    requires forall i :: 0 <= i < |p| ==> lower[i] <= p[i] <= upper[i]
    ensures Worst(payoff, lower, upper, mass, p)
  {
    TotalAsReal(p, |p|);
    forall q | Admissible(lower, upper, mass, q) ensures Dot(Reals(payoff), Reals(p)) <= Dot(Reals(payoff), q) {
      ThresholdSums(payoff, lower, upper, p, t, mass, q);
    }
  }

  // ---- Order of the entries ----

  /** Smaller payoff first, then smaller index. */
  function PayoffComparison(payoff: seq<int>): Comparison {
    (u: nat, v: nat) => u < |payoff| && v < |payoff| && (payoff[u] < payoff[v] || (payoff[u] == payoff[v] && u <= v))
  }

  function PayoffOrder(payoff: seq<int>): (r: seq<nat>)
    ensures |r| == |payoff| && forall v: nat :: v in r <==> v < |payoff|
    ensures forall k :: 0 <= k < |r| ==> r[k] < |payoff|
  {
    var r := SortIndices(PayoffComparison(payoff), |payoff|);
    assert forall k :: 0 <= k < |r| ==> r[k] in r;
    r
  }

  lemma {:induction false} PayoffOrderIsSorted(payoff: seq<int>)
    ensures Distinct(PayoffOrder(payoff))
    ensures forall i, j :: 0 <= i < j < |payoff| ==> payoff[PayoffOrder(payoff)[i]] <= payoff[PayoffOrder(payoff)[j]]
  {
    SortIndicesOrders(PayoffComparison(payoff), |payoff|, |payoff|);
    var r := PayoffOrder(payoff);
    forall i, j | 0 <= i < j < |payoff| ensures payoff[r[i]] <= payoff[r[j]] {
      assert PayoffComparison(payoff)(r[i], r[j]);
    }
  }

  // ---- Greedy filling ----

  /** After the first `k` entries of the order: `remaining` mass is left, and while any is left those entries are full. */
  ghost predicate Filling(payoff: seq<int>, lower: seq<int>, upper: seq<int>, mass: int, k: nat, p: seq<int>, remaining: int, t: int) {
    && Threshold(payoff, lower, upper, p, t) && k <= |p|
    && Total(p, |p|) == mass - remaining && remaining >= 0
    && (forall i :: 0 <= i < |p| ==> lower[i] <= p[i] <= upper[i])
    && (remaining > 0 ==> forall j :: 0 <= j < k ==> p[PayoffOrder(payoff)[j]] == upper[PayoffOrder(payoff)[j]])
    && forall j :: k <= j < |p| ==> p[PayoffOrder(payoff)[j]] == lower[PayoffOrder(payoff)[j]]
  }

  lemma {:induction false} TotalUpdated(s: seq<int>, i: nat, x: int, n: nat)
    requires n <= |s| && i < |s|
    ensures Total(s[i := x], n) == Total(s, n) + if i < n then x - s[i] else 0
  {
    if n > 0 { TotalUpdated(s, i, x, n - 1); }
  }

  /** Every index has a place in the order. */
  lemma {:induction false} PlaceOf(payoff: seq<int>, i: nat) returns (j: nat)
    requires i < |payoff|
    ensures j < |payoff| && PayoffOrder(payoff)[j] == i
  {
    assert i in PayoffOrder(payoff);
    j :| 0 <= j < |payoff| && PayoffOrder(payoff)[j] == i;
  }

  lemma {:induction false} FillingStarts(payoff: seq<int>, lower: seq<int>, upper: seq<int>, mass: int, t: int)
    requires |payoff| == |lower| == |upper| && Total(lower, |lower|) <= mass
    requires forall i :: 0 <= i < |lower| ==> lower[i] <= upper[i] && payoff[i] >= t
    ensures Filling(payoff, lower, upper, mass, 0, lower, mass - Total(lower, |lower|), t)
  {
  }

  /** Giving the next entry as much as it can take keeps the allocation a threshold allocation. */
  lemma {:induction false} FillingStep(payoff: seq<int>, lower: seq<int>, upper: seq<int>, mass: int, k: nat, p: seq<int>, remaining: int, t: int,
                                       share: int, next: seq<int>)
    requires Filling(payoff, lower, upper, mass, k, p, remaining, t) && k < |p| && remaining > 0
    requires share == Min(remaining, upper[PayoffOrder(payoff)[k]] - p[PayoffOrder(payoff)[k]])
    requires next == p[PayoffOrder(payoff)[k] := p[PayoffOrder(payoff)[k]] + share]
    ensures Filling(payoff, lower, upper, mass, k + 1, next, remaining - share, payoff[PayoffOrder(payoff)[k]])
  {
    var order := PayoffOrder(payoff);
    PayoffOrderIsSorted(payoff);
    var i := order[k];
    TotalUpdated(p, i, p[i] + share, |p|);
    forall m | 0 <= m < |next|
      ensures (payoff[m] < payoff[i] ==> next[m] == upper[m]) && (payoff[m] > payoff[i] ==> next[m] == lower[m])
    {
      var j := PlaceOf(payoff, m);
      if payoff[m] < payoff[i] {
        assert j < k;
      } else if payoff[m] > payoff[i] {
        assert j > k;
      }
    }
    forall j | 0 <= j < |p| && j != k ensures next[order[j]] == p[order[j]] {
      assert order[j] != order[k];
    }
  }

  lemma {:induction false} LeftoverMeansFull(payoff: seq<int>, lower: seq<int>, upper: seq<int>, mass: int, p: seq<int>, remaining: int, t: int)
    requires Filling(payoff, lower, upper, mass, |p|, p, remaining, t)
    ensures remaining > 0 ==> p == upper
  {
    forall m | 0 <= m < |p| && remaining > 0 ensures p[m] == upper[m] {
      var j := PlaceOf(payoff, m);
    }
  }

  /** If the upper limits allow the mass, nothing is left at the end. */
  lemma {:induction false} FillingEnds(payoff: seq<int>, lower: seq<int>, upper: seq<int>, mass: int, p: seq<int>, remaining: int, t: int)
    requires Filling(payoff, lower, upper, mass, |p|, p, remaining, t) && Total(upper, |upper|) >= mass
    ensures remaining == 0
  {
    LeftoverMeansFull(payoff, lower, upper, mass, p, remaining, t);
  }

  lemma {:induction false} FilledIsWorst(payoff: seq<int>, lower: seq<int>, upper: seq<int>, mass: int, k: nat, p: seq<int>, t: int)
    requires Filling(payoff, lower, upper, mass, k, p, 0, t)
    ensures Worst(payoff, lower, upper, mass, p)
  {
    ThresholdIsWorst(payoff, lower, upper, mass, p, t);
  }

  // ---- Truncating division ----

  /** Integer division that rounds toward zero. */
  function Trunc(a: int, b: int): int
    requires b > 0
  {
    if a >= 0 then a / b else -((-a) / b)
  }

  lemma QuotientTimes(a: nat, b: nat)
    requires b > 0
    ensures a / b * b <= a && a / b >= 0
  {
  }

  lemma ScaleLe(x: int, y: int, k: nat)
    requires x <= y
    ensures x * k <= y * k
  {
  }

  lemma CancelLe(x: int, y: int, k: nat)
    requires k > 0 && x * k <= y * k
    ensures x <= y
  {
    assert (y + 1) * k == y * k + k;
    if x > y {
      ScaleLe(y + 1, x, k);
      assert false;
    }
  }

  lemma {:induction false} QuotientIsLargest(q: int, c: nat, d: nat)
    requires d > 0 && q * d <= c
    ensures q <= c / d
  {
    var r := c / d;
    assert c < (r + 1) * d;
    if q >= r + 1 {
      ScaleLe(r + 1, q, d);
      assert false;
    }
  }

  lemma {:induction false} DivisionMonotone(a: nat, b: nat, c: nat, d: nat)
    requires b > 0 && d > 0 && a * d <= c * b
    ensures a / b <= c / d
  {
    var q := a / b;
    QuotientTimes(a, b);
    ScaleLe(q * b, a, d);
    assert (q * d) * b == (q * b) * d;
    CancelLe(q * d, c, b);
    QuotientIsLargest(q, c, d);
  }

  lemma SignOfProduct(c: int, b: int)
    requires b > 0
    ensures c < 0 <==> c * b < 0
  {
  }

  /** Truncation gives the largest whole number of times that the divisor fits, with the sign of the dividend. */
  lemma {:induction false} TruncMeaning(a: int, b: int)
    requires b > 0
    ensures Abs(Trunc(a, b)) * b <= Abs(a) < (Abs(Trunc(a, b)) + 1) * b
    ensures (a >= 0 ==> Trunc(a, b) >= 0) && (a <= 0 ==> Trunc(a, b) <= 0)
  {
    var q := Abs(a) / b;
    QuotientTimes(Abs(a), b);
    assert Abs(Trunc(a, b)) == q;
    assert Abs(a) == q * b + Abs(a) % b;
  }

  /** Truncation keeps the order of fractions. */
  lemma {:induction false} TruncMonotone(a: int, b: int, c: int, d: int)
    requires b > 0 && d > 0 && a * d <= c * b
    ensures Trunc(a, b) <= Trunc(c, d)
  {
    SignOfProduct(a, d);
    SignOfProduct(c, b);
    if a >= 0 {
      DivisionMonotone(a, b, c, d);
    } else if c < 0 {
      NegatedProducts(a, d);
      NegatedProducts(c, b);
      DivisionMonotone(-c, d, -a, b);
    } else {
      QuotientTimes(-a, b);
      QuotientTimes(c, d);
    }
  }

  lemma NegatedProducts(x: int, y: int)
    ensures (-x) * y == -(x * y)
  {
  }
}
