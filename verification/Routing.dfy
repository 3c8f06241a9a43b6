/** Shortest closed routes through every node, by depth-first search with pruning. */
module Routing {
  import opened Wrappers
  import opened Finite
  import opened Incumbents
  import opened LexicographicSearch

  const MAX_ROUTE_NODES: nat := 11

  datatype RoutingProblem = RoutingProblem(distanceMinor: seq<seq<int>>)

  /** The route starts and ends at node 0. */
  datatype RoutingSolution = RoutingSolution(route: seq<int>, totalDistanceMinor: int)

  datatype OperationsError =
    | EmptyProblem
    | InvalidDistanceMatrix
    | TooManyRouteNodes(actual: nat, maximum: nat)

  type Matrix = seq<seq<int>>

  predicate NonNegativeRow(row: seq<int>, n: nat) {
    |row| == n && forall j :: 0 <= j < n ==> row[j] >= 0
  }

  ghost predicate Square(d: Matrix) {
    forall i :: 0 <= i < |d| ==> |d[i]| == |d| && forall j :: 0 <= j < |d| ==> d[i][j] >= 0
  }

  /** Different nodes, starting at node 0. */
  ghost predicate Path(d: Matrix, a: seq<int>) {
    && a != [] && a[0] == 0 && Distinct(a)
    && forall k :: 0 <= k < |a| ==> 0 <= a[k] < |d|
  }

  /** A path through every node; closing it gives a Hamiltonian cycle through node 0. */
  ghost predicate Tour(d: Matrix, a: seq<int>) {
    Path(d, a) && |a| == |d|
  }

  /** Length of the path, without the way back. */
  ghost function PathLength(d: Matrix, a: seq<int>): int
    requires Square(d) && Path(d, a)
    decreases |a|
  {
    if |a| == 1 then 0
    else
      assert Path(d, a[..|a| - 1]);
      PathLength(d, a[..|a| - 1]) + d[a[|a| - 2]][a[|a| - 1]]
  }

  ghost function TourLength(d: Matrix, a: seq<int>): int
    requires Square(d) && Path(d, a)
  {
    PathLength(d, a) + d[a[|a| - 1]][0]
  }

  /** Shorter is better. */
  ghost function Saving(d: Matrix): Objective {
    a => if Square(d) && Path(d, a) then -TourLength(d, a) else 0
  }

  ghost function Tours(d: Matrix): (s: iset<seq<int>>)
    ensures OfLength(s, |d|)
  {
    iset a | Tour(d, a)
  }

  /** No tour returns to a visited node, in particular not to node 0. */
  lemma {:induction false} NothingUnderVisited(d: Matrix, prefix: seq<int>, x: int)
    requires x in prefix
    ensures Under(Tours(d), prefix + [x]) == iset{}
  {
    forall a | prefix + [x] <= a ensures !Distinct(a) {
      var k :| 0 <= k < |prefix| && prefix[k] == x;
      assert a[k] == x && a[|prefix|] == x;
    }
  }

  lemma {:induction false} AllNodesTried(d: Matrix, prefix: seq<int>)
    requires Path(d, prefix) && |prefix| < |d|
    ensures UnderBelow(Tours(d), prefix, |d|) == Under(Tours(d), prefix)
    ensures UnderBelow(Tours(d), prefix, 1) == iset{}
  {
    forall a | a in Under(Tours(d), prefix) ensures Continues(a, prefix, |d|) {
      assert prefix + [a[|prefix|]] <= a;
    }
    forall a | Continues(a, prefix, |d|) ensures prefix <= a {
      var x :| x < |d| && prefix + [x] <= a;
    }
    NothingUnderVisited(d, prefix, 0);
    forall a | Tour(d, a) ensures !Continues(a, prefix, 1) {
      forall x | prefix + [x] <= a ensures x >= 1 {
        assert a[|prefix|] == x && 0 <= x;
        assert x == 0 ==> a in Under(Tours(d), prefix + [0]);
      }
    }
  }

  lemma {:induction false} StepIsPath(d: Matrix, prefix: seq<int>, x: int)
    requires Square(d) && Path(d, prefix) && 0 <= x < |d| && x !in prefix
    ensures Path(d, prefix + [x])
    ensures PathLength(d, prefix + [x]) == PathLength(d, prefix) + d[prefix[|prefix| - 1]][x]
  {
    DistinctAppend(prefix, x);
    assert (prefix + [x])[..|prefix|] == prefix;
  }

  /** Every tour that starts with a path is at least as long as the path. */
  lemma {:induction false} TourIsLonger(d: Matrix, prefix: seq<int>, a: seq<int>)
    requires Square(d) && Path(d, prefix) && Path(d, a) && prefix <= a
    ensures PathLength(d, prefix) <= PathLength(d, a) <= TourLength(d, a)
    decreases |a|
  {
    assert NonNegativeRow(d[a[|a| - 1]], |d|);
    if |prefix| < |a| {
      var shorter := a[..|a| - 1];
      assert prefix <= shorter && Path(d, shorter);
      TourIsLonger(d, prefix, shorter);
      assert NonNegativeRow(d[a[|a| - 2]], |d|);
    } else {
      assert prefix == a;
    }
  }

  lemma {:induction false} FullPrefix(d: Matrix, prefix: seq<int>)
    requires Tour(d, prefix)
    ensures Under(Tours(d), prefix) == iset{prefix}
  {
    forall a | a in Under(Tours(d), prefix) ensures a == prefix {
    }
  }

  ghost predicate Marks(flags: seq<bool>, prefix: seq<int>) {
    forall v :: 0 <= v < |flags| ==> (flags[v] <==> v in prefix)
  }

  lemma {:induction false} MarksStep(flags: seq<bool>, prefix: seq<int>, x: nat)
    requires Marks(flags, prefix) && x < |flags|
    ensures Marks(flags[x := true], prefix + [x])
  {
  }

  class RouteSearch {
    const distance: Matrix
    const visited: array<bool>
    var route: seq<int>
    var best: Option<RoutingSolution>
    /** The tours accounted for so far. */
    ghost var seen: iset<seq<int>>

    constructor (d: Matrix)
      requires Square(d) && |d| > 0
      ensures distance == d && fresh(visited) && Valid() && route == [0] && VisitedIs(route) && seen == iset{}
    {
      distance := d;
      visited := new bool[|d|](i => i == 0);
      route, best, seen := [0], None, iset{};
    }

    /** The incumbent without its closing step. */
    ghost function BestTour(): Option<seq<int>>
      reads this`best
    {
      if best == None || best.value.route == [] then None else Some(best.value.route[..|best.value.route| - 1])
    }

    ghost predicate Valid()
      reads this`best, this`seen
    {
      && Square(distance) && visited.Length == |distance| > 0
      && Incumbent(seen, |distance|, Saving(distance), BestTour())
      && (best.Some? ==> |best.value.route| == |distance| + 1 && ClosedTour(distance, best.value))
    }

    /** The flags mark exactly the nodes of the route. */
    ghost predicate VisitedIs(prefix: seq<int>)
      reads visited
    {
      Marks(visited[..], prefix)
    }

    ghost predicate At()
      requires Valid()
      reads this, visited
    {
      Path(distance, route) && VisitedIs(route) && ComesFirst(seen, |distance|, route)
    }

    /** Accounts for every tour that starts with the route; route and flags are restored. */
    method Dfs(current: nat, cost: int)
      requires Valid() && At() && current == route[|route| - 1] && cost == PathLength(distance, route)
      modifies this, visited
      ensures Valid() && seen == old(seen) + Under(Tours(distance), old(route))
      ensures route == old(route) && visited[..] == old(visited[..])
      decreases |distance| - |route|
    {
      DistinctFits(distance, route);
      if best.Some? && cost >= best.value.totalDistanceMinor {
        Skip();
        return;
      }
      if |route| == visited.Length {
        Record(current, cost);
        return;
      }
      TryNodes(current, cost);
    }

    /** A complete route that is shorter than the incumbent becomes the incumbent. */
    method Record(current: nat, cost: int)
      requires Valid() && At() && |route| == |distance| && current == route[|route| - 1] && cost == PathLength(distance, route)
      modifies this`best, this`seen
      ensures Valid() && seen == old(seen) + Under(Tours(distance), route)
    {
      FullPrefix(distance, route);
      var total := cost + distance[current][0];
      IncumbentMeetsLater(seen, |distance|, Saving(distance), BestTour(), route);
      if best == None || total < best.value.totalDistanceMinor {
        best := Some(RoutingSolution(route + [0], total));
        assert (route + [0])[..|route|] == route;
      }
      seen := seen + iset{route};
    }

    /** Tries every unvisited node, in order. */
    method TryNodes(current: nat, cost: int)
      requires Valid() && At() && current == route[|route| - 1] && cost == PathLength(distance, route) && |route| < |distance|
      modifies this, visited
      ensures Valid() && seen == old(seen) + Under(Tours(distance), old(route))
      ensures route == old(route) && visited[..] == old(visited[..])
      decreases |distance| - |route|, 1
    {
      ghost var start, prefix, before := seen, route, visited[..];
      AllNodesTried(distance, prefix);
      for next := 1 to visited.Length
        invariant Valid() && seen == start + UnderBelow(Tours(distance), prefix, next)
        invariant route == prefix && visited[..] == before && VisitedIs(prefix)
      {
        ConsiderNode(current, cost, next, start);
      }
    }

    /** Skips a visited node and searches below any other. */
    method ConsiderNode(current: nat, cost: int, next: nat, ghost start: iset<seq<int>>)
      requires Valid() && Path(distance, route) && VisitedIs(route) && ComesFirst(start, |distance|, route)
      requires current == route[|route| - 1] && cost == PathLength(distance, route) && |route| < |distance| && next < visited.Length
      requires seen == start + UnderBelow(Tours(distance), route, next)
      modifies this, visited
      ensures Valid() && seen == start + UnderBelow(Tours(distance), old(route), next + 1)
      ensures route == old(route) && visited[..] == old(visited[..]) && VisitedIs(route)
      decreases |distance| - |route|, 0, 1
    {
      UnderSplits(Tours(distance), route, next);
      assert visited[next] == visited[..][next];
      if visited[next] {
        NothingUnderVisited(distance, route, next);
      } else {
        StepComesFirst(Tours(distance), |distance|, start, route, next);
        TryNode(current, cost, next);
      }
    }

    /** Searches below one node and takes the step back. */
    method TryNode(current: nat, cost: int, next: nat)
      requires Valid() && Path(distance, route) && VisitedIs(route) && ComesFirst(seen, |distance|, route + [next])
      requires current == route[|route| - 1] && cost == PathLength(distance, route) && |route| < |distance|
      requires next < visited.Length && !visited[next]
      modifies this, visited
      ensures Valid() && seen == old(seen) + Under(Tours(distance), old(route) + [next])
      ensures route == old(route) && visited[..] == old(visited[..]) && VisitedIs(route)
      decreases |distance| - |route|, 0, 0
    {
      ghost var prefix, before := route, visited[..];
      StepIsPath(distance, route, next);
      MarksStep(before, prefix, next);
      Push(next);
      Dfs(next, cost + distance[current][next]);
      Pop(next);
      assert route == prefix && visited[..] == before;
    }

    method Push(next: nat)
      requires next < visited.Length
      modifies this`route, visited
      ensures route == old(route) + [next] && visited[..] == old(visited[..])[next := true]
    {
      visited[next] := true;
      route := route + [next];
    }

    method Pop(next: nat)
      requires next < visited.Length && route != []
      modifies this`route, visited
      ensures route == old(route)[..|old(route)| - 1] && visited[..] == old(visited[..])[next := false]
    {
      route := route[..|route| - 1];
      visited[next] := false;
    }

    /** A route that is already as long as the incumbent cannot lead to a shorter one. */
    ghost method Skip()
      requires Valid() && At() && best.Some? && PathLength(distance, route) >= best.value.totalDistanceMinor
      modifies this`seen
      ensures Valid() && seen == old(seen) + Under(Tours(distance), route)
    {
      forall a | a in Under(Tours(distance), route)
        ensures Saving(distance)(a) <= Saving(distance)(BestTour().value) && LexLess(BestTour().value, a)
      {
        TourIsLonger(distance, route, a);
      }
      IncumbentOutlasts(seen, Under(Tours(distance), route), |distance|, Saving(distance), BestTour());
      seen := seen + Under(Tours(distance), route);
    }
  }

  /** A path has at most as many nodes as there are. */
  lemma {:induction false} DistinctFits(d: Matrix, a: seq<int>)
    requires Path(d, a)
    ensures |a| <= |d|
  {
    DistinctCardinality(a);
    forall x | x in Members(a) ensures x in Indices(|d|) {
      var k :| 0 <= k < |a| && a[k] == x;
    }
    SubsetCardinality(Members(a), Indices(|d|));
  }

  /** The route is a tour closed at node 0, with its length. */
  ghost predicate ClosedTour(d: Matrix, solution: RoutingSolution)
    requires Square(d)
  {
    && |solution.route| == |d| + 1 && solution.route[|d|] == 0
    && Tour(d, solution.route[..|d|]) && solution.totalDistanceMinor == TourLength(d, solution.route[..|d|])
  }

  /** Visiting the nodes in their own order is a tour, so there always is one. */
  lemma {:induction false} TourExists(d: Matrix)
    requires |d| > 0
    ensures exists a :: a in Tours(d)
  {
    var a: seq<int> := seq(|d|, i => i);
    assert Tour(d, a);
    assert a in Tours(d);
  }

  /** The lexicographically first of the shortest closed tours. */
  ghost predicate ShortestTour(d: Matrix, solution: RoutingSolution)
    requires Square(d)
  {
    ClosedTour(d, solution) && IsBest(Tours(d), |d|, Saving(d), solution.route[..|d|])
  }

  method SolveRouteExact(problem: RoutingProblem) returns (r: Result<RoutingSolution, OperationsError>)
    ensures problem.distanceMinor == [] ==> r == Err(EmptyProblem)
    ensures |problem.distanceMinor| > MAX_ROUTE_NODES ==> r == Err(TooManyRouteNodes(|problem.distanceMinor|, MAX_ROUTE_NODES))
    ensures 0 < |problem.distanceMinor| <= MAX_ROUTE_NODES && !Square(problem.distanceMinor) ==> r == Err(InvalidDistanceMatrix)
    ensures |problem.distanceMinor| == 1 && Square(problem.distanceMinor) ==> r == Ok(RoutingSolution([0, 0], 0))
    ensures 1 < |problem.distanceMinor| <= MAX_ROUTE_NODES && Square(problem.distanceMinor) ==>
              r.Ok? && ShortestTour(problem.distanceMinor, r.value)
  {
    var d := problem.distanceMinor;
    if |d| == 0 {
      return Err(EmptyProblem);
    }
    if |d| > MAX_ROUTE_NODES {
      return Err(TooManyRouteNodes(|d|, MAX_ROUTE_NODES));
    }
    for i := 0 to |d|
      invariant forall k :: 0 <= k < i ==> NonNegativeRow(d[k], |d|)
    {
      if !NonNegativeRow(d[i], |d|) {
        return Err(InvalidDistanceMatrix);
      }
    }
    if |d| == 1 {
      return Ok(RoutingSolution([0, 0], 0));
    }
    var search := new RouteSearch(d);
    search.Dfs(0, 0);
    StartsAtZero(d);
    TourExists(d);
    if search.best == None {
      assert false;
      return Err(EmptyProblem);
    }
    return Ok(search.best.value);
  }

  lemma {:induction false} StartsAtZero(d: Matrix)
    requires |d| > 0
    ensures Under(Tours(d), [0]) == Tours(d)
  {
  }
}
