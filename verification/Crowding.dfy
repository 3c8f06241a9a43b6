/** Crowding distances of a front: how far apart the neighbours of each candidate are, objective by objective. */
module CrowdingDistances {
  import opened Finite
  import opened IndexOrder
  import opened ParetoFronts

  datatype Distance = Infinite | Total(value: real)

  function ValueOf(population: Population, k: nat, i: nat): int {
    if i < |population| && k < |population[i].objectives| then population[i].objectives[k] else 0
  }

  /** Smaller value of objective `k` first. Fronts are listed by index, so a stable sort puts the smaller index first. */
  predicate NotAfter(population: Population, k: nat, u: nat, v: nat) {
    ValueOf(population, k, u) < ValueOf(population, k, v) || (ValueOf(population, k, u) == ValueOf(population, k, v) && u <= v)
  }

  function ObjectiveComparison(population: Population, k: nat): Comparison {
    (u: nat, v: nat) => NotAfter(population, k, u, v)
  }

  function ByObjective(population: Population, front: seq<nat>, k: nat): (r: seq<nat>)
    ensures |r| == |front| && forall i :: i in r <==> i in front
    ensures forall p :: 0 <= p < |r| ==> r[p] in front
  {
    var r := SortBy(ObjectiveComparison(population, k), front);
    assert forall p :: 0 <= p < |r| ==> r[p] in r;
    r
  }

  /** Different candidates of the population. */
  ghost predicate IsSubset(population: Population, front: seq<nat>) {
    Distinct(front) && forall p :: 0 <= p < |front| ==> front[p] < |population|
  }

  lemma {:induction false} ByObjectiveIsSorted(population: Population, front: seq<nat>, k: nat)
    requires IsSubset(population, front)
    ensures var r := ByObjective(population, front, k);
            Distinct(r) && forall p, q :: 0 <= p < q < |r| ==> NotAfter(population, k, r[p], r[q])
  {
    var before, r := ObjectiveComparison(population, k), ByObjective(population, front, k);
    assert TotalPreorder(before, |population|);
    SortByOrders(before, front, |population|);
    forall p, q | 0 <= p < q < |r| ensures NotAfter(population, k, r[p], r[q]) {
      assert before(r[p], r[q]);
    }
  }

  // ---- Ends and neighbours, without sorting ----

  ghost predicate IsFirst(population: Population, front: seq<nat>, k: nat, i: nat) {
    i in front && forall j: nat :: j in front ==>
      ValueOf(population, k, i) < ValueOf(population, k, j) || (ValueOf(population, k, i) == ValueOf(population, k, j) && i <= j)
  }

  ghost predicate IsLast(population: Population, front: seq<nat>, k: nat, i: nat) {
    i in front && forall j: nat :: j in front ==>
      ValueOf(population, k, j) < ValueOf(population, k, i) || (ValueOf(population, k, j) == ValueOf(population, k, i) && j <= i)
  }

  /** `j` is the next candidate after `i` in objective `k`. */
  ghost predicate Follows(population: Population, front: seq<nat>, k: nat, i: nat, j: nat) {
    && i in front && j in front && i != j && NotAfter(population, k, i, j)
    && forall u: nat :: u in front && u != i && NotAfter(population, k, i, u) ==> NotAfter(population, k, j, u)
  }

  lemma {:induction false} EndsOfOrder(population: Population, front: seq<nat>, k: nat)
    requires IsSubset(population, front) && front != []
    ensures var r := ByObjective(population, front, k);
            IsFirst(population, front, k, r[0]) && IsLast(population, front, k, r[|r| - 1])
  {
    var r := ByObjective(population, front, k);
    ByObjectiveIsSorted(population, front, k);
    forall j: nat | j in front ensures NotAfter(population, k, r[0], j) && NotAfter(population, k, j, r[|r| - 1]) {
      var p :| 0 <= p < |r| && r[p] == j;
    }
  }

  lemma {:induction false} NeighboursOfOrder(population: Population, front: seq<nat>, k: nat, p: nat)
    requires IsSubset(population, front) && p + 1 < |front|
    ensures var r := ByObjective(population, front, k); Follows(population, front, k, r[p], r[p + 1])
  {
    var r := ByObjective(population, front, k);
    ByObjectiveIsSorted(population, front, k);
    forall u: nat | u in front && u != r[p] && NotAfter(population, k, r[p], u) ensures NotAfter(population, k, r[p + 1], u) {
      var q :| 0 <= q < |r| && r[q] == u;
      assert q < p ==> NotAfter(population, k, u, r[p]);
    }
  }

  // ---- Distances ----

  /** What one objective contributes: the ends of its order are infinitely far, the others get a share of the value range. */
  datatype Part = End | Inner(share: real)

  function Added(d: Distance, part: Part): Distance {
    if d == Infinite || part == End then Infinite else Total(d.value + part.share)
  }

  function Sum(parts: seq<Part>): Distance {
    if parts == [] then Total(0.0) else Added(Sum(parts[..|parts| - 1]), parts[|parts| - 1])
  }

  /** The part of the candidate at place `p` of the order: the distance between its neighbours' values. */
  function PartAt(population: Population, order: seq<nat>, k: nat, p: nat): Part {
    if !(0 < p < |order| - 1) then End
    else
      var range := ValueOf(population, k, order[|order| - 1]) - ValueOf(population, k, order[0]);
      var gap := ValueOf(population, k, order[p + 1]) - ValueOf(population, k, order[p - 1]);
      Inner(if range == 0 then 0.0 else gap as real / range as real)
  }

  ghost function Place(s: seq<nat>, x: nat): (p: nat)
    ensures x in s ==> p < |s| && s[p] == x
  {
    if x in s then
      var p: nat :| p < |s| && s[p] == x;
      p
    else 0
  }

  ghost function PartOf(population: Population, front: seq<nat>, k: nat, i: nat): Part {
    var order := ByObjective(population, front, k);
    PartAt(population, order, k, Place(order, i))
  }

  ghost function Parts(population: Population, front: seq<nat>, n: nat, i: nat): (r: seq<Part>)
    ensures |r| == n && forall k :: 0 <= k < n ==> r[k] == PartOf(population, front, k, i)
  {
    seq(n, k requires 0 <= k < n => PartOf(population, front, k, i))
  }

  /** The crowding distance of candidate `i` over the first `n` objectives. */
  ghost function Crowding(population: Population, front: seq<nat>, n: nat, i: nat): Distance {
    if |front| <= 2 then Infinite else Sum(Parts(population, front, n, i))
  }

  lemma {:induction false} CrowdingStep(population: Population, front: seq<nat>, n: nat, i: nat)
    requires |front| > 2
    ensures Crowding(population, front, n + 1, i) == Added(Crowding(population, front, n, i), PartOf(population, front, n, i))
  {
    assert Parts(population, front, n + 1, i)[..n] == Parts(population, front, n, i);
  }

  /** Along the order the values of the objective do not decrease. */
  lemma {:induction false} ValuesAscend(population: Population, front: seq<nat>, k: nat, p: nat, q: nat)
    requires IsSubset(population, front) && p <= q < |front|
    ensures var order := ByObjective(population, front, k); ValueOf(population, k, order[p]) <= ValueOf(population, k, order[q])
  {
    ByObjectiveIsSorted(population, front, k);
    var order := ByObjective(population, front, k);
    assert p < q ==> NotAfter(population, k, order[p], order[q]);
  }

  /** Shares lie between 0 and 1; taking absolute values of differences does not change them. */
  lemma {:induction false} ShareIsFraction(population: Population, front: seq<nat>, k: nat, p: nat)
    requires IsSubset(population, front) && 0 < p < |front| - 1
    ensures var order := ByObjective(population, front, k);
            var gap := ValueOf(population, k, order[p + 1]) - ValueOf(population, k, order[p - 1]);
            var range := ValueOf(population, k, order[|order| - 1]) - ValueOf(population, k, order[0]);
            var part := PartAt(population, order, k, p);
            && part.Inner? && 0.0 <= part.share <= 1.0
            && (range != 0 ==> part.share == Abs(gap) as real / Abs(range) as real)
  {
    var order := ByObjective(population, front, k);
    ValuesAscend(population, front, k, 0, p - 1);
    ValuesAscend(population, front, k, p - 1, p + 1);
    ValuesAscend(population, front, k, p + 1, |front| - 1);
    Fraction(ValueOf(population, k, order[p + 1]) - ValueOf(population, k, order[p - 1]),
             ValueOf(population, k, order[|order| - 1]) - ValueOf(population, k, order[0]));
  }

  lemma {:induction false} Fraction(gap: int, range: int)
    requires 0 <= gap <= range
    ensures range != 0 ==> 0.0 <= gap as real / range as real <= 1.0
  {
  }

  // ---- The loops ----

  /** The entries of the candidates at places `from` to `to` of the order have received their parts. */
  ghost predicate ReceivedOn(order: seq<nat>, parts: seq<Part>, before: seq<Distance>, now: seq<Distance>, from: nat, to: nat) {
    && |before| == |now| && |parts| == |order| && (forall p :: 0 <= p < |order| ==> order[p] < |now|)
    && forall p :: from <= p < to && p < |order| ==> now[order[p]] == Added(before[order[p]], parts[p])
  }

  ghost predicate UntouchedOn(order: seq<nat>, before: seq<Distance>, now: seq<Distance>, from: nat, to: nat) {
    && |before| == |now| && (forall p :: 0 <= p < |order| ==> order[p] < |now|)
    && forall p :: from <= p < to && p < |order| ==> now[order[p]] == before[order[p]]
  }

  lemma {:induction false} ReceivesNext(order: seq<nat>, parts: seq<Part>, before: seq<Distance>, now: seq<Distance>, p: nat, d: Distance)
    requires Distinct(order) && 0 < p < |order| - 1
    requires ReceivedOn(order, parts, before, now, 0, p) && UntouchedOn(order, before, now, p, |order| - 1)
    requires now[order[|order| - 1]] == Infinite && d == Added(now[order[p]], parts[p])
    ensures ReceivedOn(order, parts, before, now[order[p] := d], 0, p + 1)
    ensures UntouchedOn(order, before, now[order[p] := d], p + 1, |order| - 1)
    ensures now[order[p] := d][order[|order| - 1]] == Infinite
  {
  }

  ghost function PartsOf(population: Population, front: seq<nat>, k: nat): (r: seq<Part>)
    ensures var order := ByObjective(population, front, k);
            |r| == |order| && forall p :: 0 <= p < |r| ==> r[p] == PartAt(population, order, k, p)
  {
    var order := ByObjective(population, front, k);
    seq(|order|, p requires 0 <= p < |order| => PartAt(population, order, k, p))
  }

  /** The share as the loop computes it. */
  function ComputedShare(population: Population, ordered: seq<nat>, k: nat, range: int, p: nat): real
    requires 0 < p < |ordered| - 1 && range != 0
  {
    Abs(ValueOf(population, k, ordered[p + 1]) - ValueOf(population, k, ordered[p - 1])) as real / Abs(range) as real
  }

  ghost predicate EndsAndShares(population: Population, ordered: seq<nat>, k: nat, range: int, parts: seq<Part>) {
    && |parts| == |ordered| > 2 && parts[0] == End && parts[|parts| - 1] == End
    && forall p :: 0 < p < |parts| - 1 ==> parts[p] == Inner(if range == 0 then 0.0 else ComputedShare(population, ordered, k, range, p))
  }

  lemma {:induction false} PartsAreComputed(population: Population, front: seq<nat>, k: nat)
    requires IsSubset(population, front) && |front| > 2
    ensures var ordered := ByObjective(population, front, k);
            var range := ValueOf(population, k, ordered[|ordered| - 1]) - ValueOf(population, k, ordered[0]);
            EndsAndShares(population, ordered, k, range, PartsOf(population, front, k))
  {
    var ordered := ByObjective(population, front, k);
    forall p | 0 < p < |ordered| - 1 {
      ShareIsFraction(population, front, k, p);
    }
  }

  /** Takes one objective into account for every candidate of the front. */
  method AddObjective(population: Population, front: seq<nat>, k: nat, distances: array<Distance>)
    requires IsSubset(population, front) && |front| > 2 && distances.Length == |population|
    modifies distances
    ensures ReceivedOn(ByObjective(population, front, k), PartsOf(population, front, k), old(distances[..]), distances[..], 0, |front|)
  {
    var ordered := ByObjective(population, front, k);
    ghost var before, parts := distances[..], PartsOf(population, front, k);
    ByObjectiveIsSorted(population, front, k);
    PartsAreComputed(population, front, k);
    assert forall p :: 0 <= p < |ordered| ==> ordered[p] in front && ordered[p] < distances.Length;
    MarkEnds(ordered, distances, parts);
    var range := ValueOf(population, k, ordered[|ordered| - 1]) - ValueOf(population, k, ordered[0]);
    AddShares(population, k, ordered, range, distances, parts, before);
  }

  /** The ends of the order become infinitely far. */
  method MarkEnds(ordered: seq<nat>, distances: array<Distance>, ghost parts: seq<Part>)
    requires |parts| == |ordered| > 2 && parts[0] == End && parts[|parts| - 1] == End
    requires Distinct(ordered) && forall p :: 0 <= p < |ordered| ==> ordered[p] < distances.Length
    modifies distances
    ensures ReceivedOn(ordered, parts, old(distances[..]), distances[..], 0, 1)
    ensures UntouchedOn(ordered, old(distances[..]), distances[..], 1, |ordered| - 1)
    ensures distances[ordered[|ordered| - 1]] == Infinite
  {
    distances[ordered[0]] := Infinite;
    distances[ordered[|ordered| - 1]] := Infinite;
  }

  /** Every candidate between the ends gets its share, unless all values of the objective are equal. */
  method AddShares(population: Population, k: nat, ordered: seq<nat>, range: int, distances: array<Distance>,
                   ghost parts: seq<Part>, ghost before: seq<Distance>)
    requires EndsAndShares(population, ordered, k, range, parts) && Distinct(ordered)
    requires ReceivedOn(ordered, parts, before, distances[..], 0, 1) && UntouchedOn(ordered, before, distances[..], 1, |ordered| - 1)
    requires distances[ordered[|ordered| - 1]] == Infinite
    modifies distances
    ensures ReceivedOn(ordered, parts, before, distances[..], 0, |ordered|)
  {
    if range == 0 {
      return;
    }
    for p := 1 to |ordered| - 1
      invariant ReceivedOn(ordered, parts, before, distances[..], 0, p) && UntouchedOn(ordered, before, distances[..], p, |ordered| - 1)
      invariant distances[..][ordered[|ordered| - 1]] == Infinite
    {
      ghost var now := distances[..];
      var middle := ordered[p];
      var d := Added(distances[middle], Inner(ComputedShare(population, ordered, k, range, p)));
      ReceivesNext(ordered, parts, before, now, p, d);
      if distances[middle] == Infinite {
        assert now[middle := d] == now;
        continue;
      }
      distances[middle] := d;
    }
  }

  /** The entries of the front's candidates hold their distances over the first `n` objectives. */
  ghost predicate HoldsCrowding(population: Population, front: seq<nat>, n: nat, distances: seq<Distance>) {
    |distances| == |population| && forall i: nat :: i in front && i < |distances| ==> distances[i] == Crowding(population, front, n, i)
  }

  lemma {:induction false} CrowdingNext(population: Population, front: seq<nat>, n: nat, before: seq<Distance>, now: seq<Distance>)
    requires IsSubset(population, front) && |front| > 2 && HoldsCrowding(population, front, n, before)
    requires ReceivedOn(ByObjective(population, front, n), PartsOf(population, front, n), before, now, 0, |front|)
    ensures HoldsCrowding(population, front, n + 1, now)
  {
    var order := ByObjective(population, front, n);
    forall i: nat | i in front && i < |now| ensures now[i] == Crowding(population, front, n + 1, i) {
      assert i in order;
      CrowdingStep(population, front, n, i);
      assert now[order[Place(order, i)]] == Added(before[i], PartsOf(population, front, n)[Place(order, i)]);
    }
  }

  method FrontDistances(population: Population, front: seq<nat>, width: nat) returns (result: seq<Distance>)
    requires IsSubset(population, front)
    ensures HoldsCrowding(population, front, width, result)
  {
    var distances := new Distance[|population|](_ => Total(0.0));
    if |front| <= 2 {
      for k := 0 to |front|
        invariant forall j :: 0 <= j < k ==> distances[front[j]] == Infinite
      {
        distances[front[k]] := Infinite;
      }
      return distances[..];
    }
    for k := 0 to width
      invariant HoldsCrowding(population, front, k, distances[..])
    {
      ghost var before := distances[..];
      AddObjective(population, front, k, distances);
      CrowdingNext(population, front, k, before, distances[..]);
    }
    return distances[..];
  }

  // ---- What the distances mean ----

  ghost predicate IsEnd(population: Population, front: seq<nat>, k: nat, i: nat) {
    IsFirst(population, front, k, i) || IsLast(population, front, k, i)
  }

  lemma {:induction false} EndHasNoShare(population: Population, front: seq<nat>, k: nat, i: nat)
    requires IsSubset(population, front) && i in front
    ensures IsEnd(population, front, k, i) <==> PartOf(population, front, k, i) == End
    ensures PartOf(population, front, k, i).Inner? ==> 0.0 <= PartOf(population, front, k, i).share <= 1.0
  {
    var order := ByObjective(population, front, k);
    var p := Place(order, i);
    ByObjectiveIsSorted(population, front, k);
    EndsOfOrder(population, front, k);
    assert order[0] in front && order[|order| - 1] in front;
    if 0 < p < |order| - 1 {
      ShareIsFraction(population, front, k, p);
      assert NotAfter(population, k, order[0], i) && NotAfter(population, k, i, order[|order| - 1]);
    }
  }

  lemma {:induction false} SumIsInfinite(parts: seq<Part>)
    ensures Sum(parts) == Infinite <==> exists k :: 0 <= k < |parts| && parts[k] == End
  {
    if parts != [] {
      SumIsInfinite(parts[..|parts| - 1]);
    }
  }

  lemma {:induction false} SumIsBounded(parts: seq<Part>)
    requires Sum(parts) != Infinite && forall k :: 0 <= k < |parts| && parts[k].Inner? ==> 0.0 <= parts[k].share <= 1.0
    ensures 0.0 <= Sum(parts).value <= |parts| as real
  {
    if parts != [] {
      SumIsBounded(parts[..|parts| - 1]);
    }
  }

  /** Infinitely far are exactly the ends of some objective, and everything in a front of at most two;
      any other distance is at least zero and at most the number of objectives. */
  lemma {:induction false} InfiniteMeansEnd(population: Population, front: seq<nat>, n: nat, i: nat)
    requires IsSubset(population, front) && i in front
    ensures var d := Crowding(population, front, n, i);
            && (d == Infinite <==> |front| <= 2 || exists k: nat :: k < n && IsEnd(population, front, k, i))
            && (d != Infinite ==> 0.0 <= d.value <= n as real)
  {
    var parts := Parts(population, front, n, i);
    forall k: nat | k < n
      ensures IsEnd(population, front, k, i) <==> parts[k] == End
      ensures parts[k].Inner? ==> 0.0 <= parts[k].share <= 1.0
    {
      EndHasNoShare(population, front, k, i);
    }
    SumIsInfinite(parts);
    if Sum(parts) != Infinite { SumIsBounded(parts); }
  }

  /** A candidate whose neighbours in objective `k` are `u` and `v` gets the share of the value range between them. */
  lemma {:induction false} ShareIsNeighbourGap(population: Population, front: seq<nat>, k: nat, i: nat, first: nat, u: nat, v: nat, last: nat)
    requires IsSubset(population, front) && Follows(population, front, k, u, i) && Follows(population, front, k, i, v)
    requires IsFirst(population, front, k, first) && IsLast(population, front, k, last)
    ensures var range := ValueOf(population, k, last) - ValueOf(population, k, first);
            var gap := ValueOf(population, k, v) - ValueOf(population, k, u);
            PartOf(population, front, k, i) == Inner(if range == 0 then 0.0 else gap as real / range as real)
  {
    var order := ByObjective(population, front, k);
    var p := Place(order, i);
    InnerPlace(population, front, k, i, u, v);
    EndsOfOrder(population, front, k);
    SameEnds(population, front, k, order[0], first, order[|order| - 1], last);
    NeighboursOfOrder(population, front, k, p - 1);
    NeighboursOfOrder(population, front, k, p);
    SameNeighbours(population, front, k, order[p - 1], u, i, v, order[p + 1]);
  }

  lemma {:induction false} InnerPlace(population: Population, front: seq<nat>, k: nat, i: nat, u: nat, v: nat)
    requires IsSubset(population, front) && Follows(population, front, k, u, i) && Follows(population, front, k, i, v)
    ensures 0 < Place(ByObjective(population, front, k), i) < |front| - 1
  {
    EndHasNoShare(population, front, k, i);
    assert !NotAfter(population, k, i, u) && !NotAfter(population, k, v, i);
  }

  lemma {:induction false} SameEnds(population: Population, front: seq<nat>, k: nat, a: nat, b: nat, c: nat, d: nat)
    requires IsFirst(population, front, k, a) && IsFirst(population, front, k, b) && IsLast(population, front, k, c) && IsLast(population, front, k, d)
    ensures a == b && c == d
  {
    assert NotAfter(population, k, a, b) && NotAfter(population, k, b, a) && NotAfter(population, k, c, d) && NotAfter(population, k, d, c);
  }

  /** The neighbours of a candidate are unique. */
  lemma {:induction false} SameNeighbours(population: Population, front: seq<nat>, k: nat, a: nat, u: nat, i: nat, v: nat, b: nat)
    requires Follows(population, front, k, a, i) && Follows(population, front, k, u, i)
    requires Follows(population, front, k, i, b) && Follows(population, front, k, i, v)
    ensures a == u && b == v
  {
    assert NotAfter(population, k, b, v) && NotAfter(population, k, v, b);
    assert a != u && NotAfter(population, k, a, u) ==> NotAfter(population, k, i, u);
    assert a != u && NotAfter(population, k, u, a) ==> NotAfter(population, k, i, a);
  }
}
