/** Environmental selection: the population front by front, the most isolated candidates of each front first. */
module EnvironmentalSelection {
  import opened Wrappers
  import opened Finite
  import opened IndexOrder
  import opened ParetoFronts
  import opened CrowdingDistances

  datatype SelectedCandidate = SelectedCandidate(index: nat, rank: nat, crowdingDistance: Distance)

  predicate Farther(a: Distance, b: Distance) {
    b.Total? && (a == Infinite || a.value > b.value)
  }

  /** Larger crowding distance first, then smaller index. */
  function CrowdingComparison(crowding: seq<Distance>): Comparison {
    (u: nat, v: nat) => u < |crowding| && v < |crowding| && (Farther(crowding[u], crowding[v]) || (crowding[u] == crowding[v] && u <= v))
  }

  function AsIndices(front: seq<int>, n: nat): (r: seq<nat>)
    requires InRange(front, n)
    ensures |r| == |front| && forall k :: 0 <= k < |r| ==> r[k] == front[k] < n
  {
    seq(|front|, k requires 0 <= k < |front| => front[k])
  }

  predicate InRange(front: seq<int>, n: nat) {
    forall k :: 0 <= k < |front| ==> 0 <= front[k] < n
  }

  function ByCrowding(crowding: seq<Distance>, front: seq<int>): (r: seq<nat>)
    requires InRange(front, |crowding|)
    ensures |r| == |front| && forall k :: 0 <= k < |r| ==> r[k] < |crowding| && r[k] in front
  {
    var r, indices := SortBy(CrowdingComparison(crowding), AsIndices(front, |crowding|)), AsIndices(front, |crowding|);
    assert forall k :: 0 <= k < |r| ==> r[k] in r && r[k] in indices;
    assert forall p :: 0 <= p < |indices| ==> indices[p] == front[p];
    r
  }

  /** One front with its rank, most isolated candidates first. */
  function RankedFront(crowding: seq<Distance>, front: seq<int>, rank: nat): (r: seq<SelectedCandidate>)
    requires InRange(front, |crowding|)
    ensures |r| == |front| && forall k :: 0 <= k < |r| ==> r[k].rank == rank
  {
    var order := ByCrowding(crowding, front);
    seq(|front|, k requires 0 <= k < |front| => SelectedCandidate(order[k], rank, crowding[order[k]]))
  }

  /** One distance per candidate for every front. */
  ghost predicate Measured(crowding: seq<seq<Distance>>, fronts: seq<seq<int>>) {
    |crowding| == |fronts| && forall r :: 0 <= r < |fronts| ==> InRange(fronts[r], |crowding[r]|)
  }

  /** The candidates of the first `n` fronts, front by front. */
  ghost function Ranking(crowding: seq<seq<Distance>>, fronts: seq<seq<int>>, n: nat): seq<SelectedCandidate>
    requires n <= |fronts| && Measured(crowding, fronts)
  {
    if n == 0 then [] else Ranking(crowding, fronts, n - 1) + RankedFront(crowding[n - 1], fronts[n - 1], n - 1)
  }

  lemma {:induction false} FrontsInRange(population: Population, directions: Directions, fronts: seq<seq<int>>)
    requires PeeledSoFar(population, directions, fronts)
    ensures forall r :: 0 <= r < |fronts| ==> InRange(fronts[r], |population|)
  {
    forall r, k | 0 <= r < |fronts| && 0 <= k < |fronts[r]| ensures 0 <= fronts[r][k] < |population| {
      assert FrontAt(population, directions, fronts, r) && fronts[r][k] in fronts[r];
    }
  }

  /** How many candidates the first `n` fronts list. */
  ghost function Listed(fronts: seq<seq<int>>, n: nat): nat
    requires n <= |fronts|
  {
    if n == 0 then 0 else Listed(fronts, n - 1) + |fronts[n - 1]|
  }

  lemma {:induction false} RankingListed(crowding: seq<seq<Distance>>, fronts: seq<seq<int>>, n: nat)
    requires n <= |fronts| && Measured(crowding, fronts)
    ensures |Ranking(crowding, fronts, n)| == Listed(fronts, n)
  {
    if n > 0 {
      RankingListed(crowding, fronts, n - 1);
      assert |RankedFront(crowding[n - 1], fronts[n - 1], n - 1)| == |fronts[n - 1]|;
    }
  }

  lemma {:induction false} PeeledListed(population: Population, directions: Directions, fronts: seq<seq<int>>, n: nat)
    requires PeeledSoFar(population, directions, fronts) && n <= |fronts|
    ensures |Peeled(fronts, n)| == Listed(fronts, n)
  {
    if n > 0 {
      PeeledListed(population, directions, fronts, n - 1);
      FrontAddsItsSize(population, directions, fronts, n);
    }
  }

  /** The ranking lists as many candidates as were peeled. */
  lemma {:induction false} RankingSize(population: Population, directions: Directions, crowding: seq<seq<Distance>>, fronts: seq<seq<int>>)
    requires PeeledSoFar(population, directions, fronts) && Measured(crowding, fronts)
    ensures |Ranking(crowding, fronts, |fronts|)| == |Peeled(fronts, |fronts|)|
  {
    RankingListed(crowding, fronts, |fronts|);
    PeeledListed(population, directions, fronts, |fronts|);
  }

  lemma {:induction false} FrontAddsItsSize(population: Population, directions: Directions, fronts: seq<seq<int>>, n: nat)
    requires PeeledSoFar(population, directions, fronts) && 0 < n <= |fronts|
    ensures |Peeled(fronts, n)| == |Peeled(fronts, n - 1)| + |fronts[n - 1]|
  {
    var front := fronts[n - 1];
    assert FrontAt(population, directions, fronts, n - 1);
    assert Distinct(front);
    DistinctCardinality(front);
    forall j | j in Members(front) ensures j !in Peeled(fronts, n - 1) {
      assert j in front;
    }
    DisjointUnion(Peeled(fronts, n - 1), Members(front));
  }

  lemma {:induction false} DisjointUnion(a: set<int>, b: set<int>)
    requires a !! b
    ensures |a + b| == |a| + |b|
  {
  }

  /** Ranks never decrease along the ranking. */
  lemma {:induction false} RanksAscend(crowding: seq<seq<Distance>>, fronts: seq<seq<int>>, n: nat, a: nat, b: nat)
    requires n <= |fronts| && Measured(crowding, fronts)
    requires a <= b < |Ranking(crowding, fronts, n)|
    ensures Ranking(crowding, fronts, n)[a].rank <= Ranking(crowding, fronts, n)[b].rank < n
  {
    var shorter := Ranking(crowding, fronts, n - 1);
    if b < |shorter| {
      RanksAscend(crowding, fronts, n - 1, a, b);
    } else if a < |shorter| {
      RanksAscend(crowding, fronts, n - 1, a, a);
    }
  }

  /** Each entry of the ranking belongs to the front of its rank. */
  lemma {:induction false} RankedFromFront(crowding: seq<seq<Distance>>, fronts: seq<seq<int>>, n: nat, a: nat)
    requires n <= |fronts| && Measured(crowding, fronts)
    requires a < |Ranking(crowding, fronts, n)|
    ensures var x := Ranking(crowding, fronts, n)[a];
            x.rank < n && x.index in fronts[x.rank] && x.index < |crowding[x.rank]| && x.crowdingDistance == crowding[x.rank][x.index]
  {
    var shorter := Ranking(crowding, fronts, n - 1);
    if a < |shorter| {
      RankedFromFront(crowding, fronts, n - 1, a);
    } else {
      assert Ranking(crowding, fronts, n)[a] == RankedFront(crowding[n - 1], fronts[n - 1], n - 1)[a - |shorter|];
    }
  }

  lemma {:induction false} RankingPrefix(crowding: seq<seq<Distance>>, fronts: seq<seq<int>>, m: nat, n: nat)
    requires m <= n <= |fronts| && Measured(crowding, fronts)
    ensures Ranking(crowding, fronts, m) <= Ranking(crowding, fronts, n)
  {
    if m < n { RankingPrefix(crowding, fronts, m, n - 1); }
  }

  ghost function FrontCrowding(population: Population, width: nat, front: seq<int>): (r: seq<Distance>)
    requires InRange(front, |population|)
    ensures |r| == |population|
    ensures forall i: nat :: i < |r| ==> r[i] == Crowding(population, AsIndices(front, |population|), width, i)
  {
    seq(|population|, i requires 0 <= i < |population| => Crowding(population, AsIndices(front, |population|), width, i))
  }

  /** The crowding distances of every front. */
  ghost function Distances(population: Population, width: nat, fronts: seq<seq<int>>): (r: seq<seq<Distance>>)
    requires forall q :: 0 <= q < |fronts| ==> InRange(fronts[q], |population|)
    ensures Measured(r, fronts) && forall q :: 0 <= q < |r| ==> r[q] == FrontCrowding(population, width, fronts[q])
  {
    seq(|fronts|, q requires 0 <= q < |fronts| => FrontCrowding(population, width, fronts[q]))
  }

  ghost function FullRanking(population: Population, directions: Directions, fronts: seq<seq<int>>): seq<SelectedCandidate>
    requires forall q :: 0 <= q < |fronts| ==> InRange(fronts[q], |population|)
  {
    Ranking(Distances(population, |directions|, fronts), fronts, |fronts|)
  }

  /** The first `limit` candidates of the ranking of the fronts. */
  ghost predicate TakesFirst(population: Population, directions: Directions, fronts: seq<seq<int>>, limit: nat, selected: seq<SelectedCandidate>) {
    && (forall q :: 0 <= q < |fronts| ==> InRange(fronts[q], |population|))
    && var all := FullRanking(population, directions, fronts);
       |all| == |population| && |selected| == Min(limit, |all|) && selected <= all
  }

  ghost predicate SelectsBest(population: Population, directions: Directions, limit: nat, selected: seq<SelectedCandidate>) {
    exists fronts :: AreFronts(population, directions, fronts) && TakesFirst(population, directions, fronts, limit, selected)
  }

  // ---- The selection loop ----

  /** Sorting looks at the comparison of the listed candidates only. */
  lemma {:induction false} InsertAgrees(before: Comparison, after: Comparison, v: nat, s: seq<nat>)
    requires forall u: nat :: u in s ==> before(v, u) == after(v, u)
    ensures Insert(before, v, s) == Insert(after, v, s)
  {
    if s != [] {
      assert s[0] in s;
      SplitFirst(s);
      InsertAgrees(before, after, v, s[1..]);
    }
  }

  lemma {:induction false} SortByAgrees(before: Comparison, after: Comparison, s: seq<nat>)
    requires forall u: nat, v: nat :: u in s && v in s ==> before(u, v) == after(u, v)
    ensures SortBy(before, s) == SortBy(after, s)
  {
    if s != [] {
      assert s[0] in s;
      SplitFirst(s);
      SortByAgrees(before, after, s[1..]);
      InsertAgrees(before, after, s[0], SortBy(before, s[1..]));
    }
  }

  /** Distances that agree on the front rank it the same way. */
  lemma {:induction false} RankedFrontAgrees(a: seq<Distance>, b: seq<Distance>, front: seq<int>, rank: nat)
    requires InRange(front, |a|) && |a| == |b| && forall i: nat :: i in AsIndices(front, |a|) && i < |a| ==> a[i] == b[i]
    ensures RankedFront(a, front, rank) == RankedFront(b, front, rank)
  {
    var indices := AsIndices(front, |a|);
    SortByAgrees(CrowdingComparison(a), CrowdingComparison(b), indices);
    forall k | 0 <= k < |front| ensures ByCrowding(a, front)[k] in indices {
      assert ByCrowding(a, front)[k] in SortBy(CrowdingComparison(a), indices);
    }
  }

  /** One front of the population, its distances computed. */
  method RankFront(population: Population, front: seq<int>, width: nat, rank: nat) returns (candidates: seq<SelectedCandidate>)
    requires InRange(front, |population|) && Distinct(front)
    ensures candidates == RankedFront(FrontCrowding(population, width, front), front, rank)
  {
    var indices := AsIndices(front, |population|);
    var distances := FrontDistances(population, indices, width);
    RankedFrontAgrees(distances, FrontCrowding(population, width, front), front, rank);
    candidates := RankedFront(distances, front, rank);
  }

  /** Fills the selection front by front until the limit or the population is exhausted. */
  method EnvironmentalSelect(population: Population, directions: Directions, limit: nat)
    returns (r: Result<seq<SelectedCandidate>, OptimizationError>)
    ensures limit == 0 ==> r == Err(InvalidSelectionLimit)
    ensures limit > 0 && (population == [] || directions == []) ==> r == Err(EmptyPopulation)
    ensures limit > 0 && population != [] && directions != [] && !SameWidths(population, directions) ==> r == Err(ObjectiveWidthMismatch)
    ensures limit > 0 && population != [] && directions != [] && SameWidths(population, directions) ==>
              r.Ok? && SelectsBest(population, directions, limit, r.value)
  {
    if limit == 0 {
      return Err(InvalidSelectionLimit);
    }
    var peeled := NonDominatedFronts(population, directions);
    if peeled.Err? {
      return Err(peeled.error);
    }
    var fronts := peeled.value;
    FrontsInRange(population, directions, fronts);
    RankingSize(population, directions, Distances(population, |directions|, fronts), fronts);
    assert Peeled(fronts, |fronts|) == Indices(|population|);
    var selected := TakeFronts(population, directions, fronts, limit);
    return Ok(selected);
  }

  method TakeFronts(population: Population, directions: Directions, fronts: seq<seq<int>>, limit: nat) returns (selected: seq<SelectedCandidate>)
    requires PeeledSoFar(population, directions, fronts)
    requires forall q :: 0 <= q < |fronts| ==> InRange(fronts[q], |population|)
    requires |FullRanking(population, directions, fronts)| == |population|
    ensures TakesFirst(population, directions, fronts, limit, selected)
  {
    selected := [];
    ghost var crowding := Distances(population, |directions|, fronts);
    for rank := 0 to |fronts|
      invariant Taken(crowding, fronts, rank, limit, selected)
    {
      assert FrontAt(population, directions, fronts, rank);
      var candidates := RankFront(population, fronts[rank], |directions|, rank);
      TakeNext(crowding, fronts, rank, limit, selected, candidates);
      selected := selected + candidates[..Min(limit - |selected|, |candidates|)];
      if |selected| == limit || |selected| == |population| {
        TakenAll(crowding, fronts, rank + 1, limit, selected);
        return;
      }
    }
  }

  /** The selection is the beginning of the ranking, from the first `n` fronts. */
  ghost predicate Taken(crowding: seq<seq<Distance>>, fronts: seq<seq<int>>, n: nat, limit: nat, selected: seq<SelectedCandidate>) {
    && n <= |fronts| && Measured(crowding, fronts)
    && selected <= Ranking(crowding, fronts, |fronts|) && |selected| == Min(limit, |Ranking(crowding, fronts, n)|)
  }

  lemma {:induction false} TakeNext(crowding: seq<seq<Distance>>, fronts: seq<seq<int>>, rank: nat, limit: nat, selected: seq<SelectedCandidate>,
                                    candidates: seq<SelectedCandidate>)
    requires Taken(crowding, fronts, rank, limit, selected) && rank < |fronts|
    requires candidates == RankedFront(crowding[rank], fronts[rank], rank)
    ensures Taken(crowding, fronts, rank + 1, limit, selected + candidates[..Min(limit - |selected|, |candidates|)])
  {
    RankingPrefix(crowding, fronts, rank + 1, |fronts|);
    TakeExtends(Ranking(crowding, fronts, rank), candidates, limit, selected, Ranking(crowding, fronts, |fronts|));
  }

  /** Once the limit or the population is exhausted, later fronts add nothing. */
  lemma {:induction false} TakenAll(crowding: seq<seq<Distance>>, fronts: seq<seq<int>>, n: nat, limit: nat, selected: seq<SelectedCandidate>)
    requires Taken(crowding, fronts, n, limit, selected) && (|selected| == limit || |selected| == |Ranking(crowding, fronts, |fronts|)|)
    ensures Taken(crowding, fronts, |fronts|, limit, selected)
  {
    RankingPrefix(crowding, fronts, n, |fronts|);
  }

  lemma {:induction false} TakeExtends(a: seq<SelectedCandidate>, b: seq<SelectedCandidate>, limit: nat, selected: seq<SelectedCandidate>, all: seq<SelectedCandidate>)
    requires selected <= all && a + b <= all && |selected| == Min(limit, |a|)
    ensures selected + b[..Min(limit - |selected|, |b|)] <= all
    ensures |selected + b[..Min(limit - |selected|, |b|)]| == Min(limit, |a + b|)
  {
  }

  // ---- What is selected ----

  /** No candidate of a better front is passed over for one of a worse front. */
  lemma {:induction false} NoBetterRankSkipped(population: Population, directions: Directions, limit: nat, selected: seq<SelectedCandidate>,
                                               fronts: seq<seq<int>>, k: nat, j: int, r: nat)
    requires AreFronts(population, directions, fronts) && TakesFirst(population, directions, fronts, limit, selected)
    requires k < |selected| && r < |fronts| && j in fronts[r]
    requires forall i :: 0 <= i < |selected| ==> selected[i].index != j
    ensures selected[k].rank <= r
  {
    var crowding := Distances(population, |directions|, fronts);
    var all := Ranking(crowding, fronts, |fronts|);
    var b := PlaceInRanking(crowding, fronts, |fronts|, r, j);
    assert forall i :: 0 <= i < |selected| ==> selected[i] == all[i];
    RanksAscend(crowding, fronts, |fronts|, k, b);
  }

  /** Every candidate of a front has its place in the ranking. */
  lemma {:induction false} PlaceInRanking(crowding: seq<seq<Distance>>, fronts: seq<seq<int>>, n: nat, r: nat, j: int) returns (b: nat)
    requires r < n <= |fronts| && Measured(crowding, fronts) && j in fronts[r]
    ensures b < |Ranking(crowding, fronts, n)| && Ranking(crowding, fronts, n)[b].index == j && Ranking(crowding, fronts, n)[b].rank == r
  {
    if r < n - 1 {
      b := PlaceInRanking(crowding, fronts, n - 1, r, j);
    } else {
      var front := AsIndices(fronts[r], |crowding[r]|);
      var order := SortBy(CrowdingComparison(crowding[r]), front);
      var k :| 0 <= k < |fronts[r]| && fronts[r][k] == j;
      assert front[k] in order;
      var p :| 0 <= p < |order| && order[p] == j;
      b := |Ranking(crowding, fronts, n - 1)| + p;
    }
  }

  lemma {:induction false} CrowdingIsPreorder(crowding: seq<Distance>)
    ensures TotalPreorder(CrowdingComparison(crowding), |crowding|)
  {
  }

  /** Within one front the ranking follows the crowding comparison. */
  lemma {:induction false} RankedByCrowding(crowding: seq<seq<Distance>>, fronts: seq<seq<int>>, n: nat, a: nat, b: nat)
    requires n <= |fronts| && Measured(crowding, fronts) && forall r :: 0 <= r < |fronts| ==> Distinct(fronts[r])
    requires a < b < |Ranking(crowding, fronts, n)| && Ranking(crowding, fronts, n)[a].rank == Ranking(crowding, fronts, n)[b].rank
    ensures var (x, y) := (Ranking(crowding, fronts, n)[a], Ranking(crowding, fronts, n)[b]);
            x.rank < |crowding| && CrowdingComparison(crowding[x.rank])(x.index, y.index)
  {
    var shorter, front := Ranking(crowding, fronts, n - 1), AsIndices(fronts[n - 1], |crowding[n - 1]|);
    if b < |shorter| {
      RankedByCrowding(crowding, fronts, n - 1, a, b);
    } else {
      if a < |shorter| { RanksAscend(crowding, fronts, n - 1, a, a); }
      CrowdingIsPreorder(crowding[n - 1]);
      SortByOrders(CrowdingComparison(crowding[n - 1]), front, |crowding[n - 1]|);
    }
  }

  /** The crowding distance of a member of front `r`. */
  ghost function DistanceIn(population: Population, directions: Directions, fronts: seq<seq<int>>, r: nat, i: int): Distance
    requires r < |fronts| && InRange(fronts[r], |population|) && i in fronts[r]
  {
    Crowding(population, AsIndices(fronts[r], |population|), |directions|, i)
  }

  /** Every selected candidate carries the front and crowding distance it has there, and no candidate of that front that was
      passed over is farther from its neighbours, or as far with a smaller index. */
  lemma {:induction false} MostIsolatedFirst(population: Population, directions: Directions, limit: nat, selected: seq<SelectedCandidate>,
                                             fronts: seq<seq<int>>, k: nat, j: int)
    requires AreFronts(population, directions, fronts) && TakesFirst(population, directions, fronts, limit, selected) && k < |selected|
    ensures var x := selected[k];
            && x.rank < |fronts| && x.index in fronts[x.rank]
            && x.crowdingDistance == DistanceIn(population, directions, fronts, x.rank, x.index)
            && (j in fronts[x.rank] && (forall i :: 0 <= i < |selected| ==> selected[i].index != j) ==>
                  var d := DistanceIn(population, directions, fronts, x.rank, j);
                  && (d == Infinite ==> x.crowdingDistance == Infinite)
                  && (d.Total? && x.crowdingDistance.Total? ==> x.crowdingDistance.value >= d.value)
                  && (x.crowdingDistance == d ==> x.index < j))
  {
    var crowding := Distances(population, |directions|, fronts);
    var all, r := Ranking(crowding, fronts, |fronts|), selected[k].rank;
    RankedFromFront(crowding, fronts, |fronts|, k);
    if j in fronts[r] && (forall i :: 0 <= i < |selected| ==> selected[i].index != j) {
      var b := PlaceInRanking(crowding, fronts, |fronts|, r, j);
      assert forall i :: 0 <= i < |selected| ==> selected[i] == all[i];
      forall q | 0 <= q < |fronts| ensures Distinct(fronts[q]) {
        assert FrontAt(population, directions, fronts, q);
      }
      RankedByCrowding(crowding, fronts, |fronts|, k, b);
    }
  }

  /** A candidate that is first or last of its front in some objective is never passed over for one that is not. */
  lemma {:induction false} ExtremesComeFirst(population: Population, directions: Directions, limit: nat, selected: seq<SelectedCandidate>,
                                             fronts: seq<seq<int>>, k: nat, j: nat, o: nat)
    requires AreFronts(population, directions, fronts) && TakesFirst(population, directions, fronts, limit, selected)
    requires k < |selected| && selected[k].rank < |fronts| && j in fronts[selected[k].rank] && o < |directions|
    requires var front := AsIndices(fronts[selected[k].rank], |population|);
             && IsEnd(population, front, o, j)
             && forall p: nat :: p < |directions| ==> !IsEnd(population, front, p, selected[k].index)
    ensures (exists i :: 0 <= i < |selected| && selected[i].index == j) || |fronts[selected[k].rank]| <= 2
  {
    var x := selected[k];
    var front := AsIndices(fronts[x.rank], |population|);
    MostIsolatedFirst(population, directions, limit, selected, fronts, k, j);
    assert FrontAt(population, directions, fronts, x.rank) && IsSubset(population, front);
    InFront(fronts[x.rank], |population|, x.index);
    InFront(fronts[x.rank], |population|, j);
    InfiniteMeansEnd(population, front, |directions|, x.index);
    InfiniteMeansEnd(population, front, |directions|, j);
  }

  lemma {:induction false} InFront(front: seq<int>, n: nat, i: nat)
    requires InRange(front, n) && i in front
    ensures i in AsIndices(front, n)
  {
    var k :| 0 <= k < |front| && front[k] == i;
    assert AsIndices(front, n)[k] == i;
  }

  ghost function IndexList(ranking: seq<SelectedCandidate>): (r: seq<int>)
    ensures |r| == |ranking| && forall k :: 0 <= k < |r| ==> r[k] == ranking[k].index
  {
    seq(|ranking|, k requires 0 <= k < |ranking| => ranking[k].index)
  }

  /** No candidate is selected twice. */
  lemma {:induction false} SelectedOnce(population: Population, directions: Directions, limit: nat, selected: seq<SelectedCandidate>,
                                        fronts: seq<seq<int>>)
    requires AreFronts(population, directions, fronts) && TakesFirst(population, directions, fronts, limit, selected)
    ensures Distinct(IndexList(selected))
  {
    var crowding := Distances(population, |directions|, fronts);
    var ranking := Ranking(crowding, fronts, |fronts|);
    var all := IndexList(ranking);
    forall j | j in Indices(|population|) ensures j in Members(all) {
      var r := PeeledFrom(fronts, |fronts|, j);
      var b := PlaceInRanking(crowding, fronts, |fronts|, r, j);
      assert all[b] == j;
    }
    SubsetCardinality(Indices(|population|), Members(all));
    DistinctCardinality(all);
    FullCardinalityMeansDistinct(all);
    forall i, k | 0 <= i < k < |selected| ensures IndexList(selected)[i] != IndexList(selected)[k] {
      assert all[i] != all[k] && selected[i] == ranking[i] && selected[k] == ranking[k];
    }
  }
}
