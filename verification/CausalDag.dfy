/** Causal graphs: construction from an edge list, Kahn's acyclicity test, descendants. */
module CausalGraphs {
  import opened Wrappers
  import opened Sorting
  import opened Finite
  import opened Reachability

  datatype CausalError =
    | EmptyGraph
    | UnknownVariable(index: nat)
    | SelfEdge(index: nat)
    | DuplicateEdge(from: nat, to: nat)
    | CyclicGraph
    | SameEndpoint
    | DuplicateAdjustmentVariable(index: nat)
    | AdjustmentContainsEndpoint(index: nat)
    | OutcomeIsParentOfTreatment

  ghost function SetsOf(lists: seq<seq<nat>>): (adj: Adjacency)
    ensures |adj| == |lists|
    ensures forall v: nat, u: nat :: Step(adj, v, u) <==> v < |lists| && u in lists[v]
  {
    seq(|lists|, v requires 0 <= v < |lists| => set u: nat | u in lists[v])
  }

  datatype CausalDag = CausalDag(parents: seq<seq<nat>>, children: seq<seq<nat>>) {

    ghost function Parents(): Adjacency { SetsOf(parents) }

    ghost function Children(): Adjacency { SetsOf(children) }

    /** Both lists describe one graph without self edges; each list is strictly sorted. */
    ghost predicate WellFormed() {
      && |parents| == |children|
      && (forall v, u :: 0 <= v < |parents| && u in parents[v] ==> u < |parents| && u != v)
      && (forall v, u :: 0 <= v < |parents| && u in children[v] ==> u < |parents|)
      && (forall v, u :: 0 <= v < |parents| && 0 <= u < |parents| ==> (u in children[v] <==> v in parents[u]))
      && (forall v :: 0 <= v < |parents| ==> StrictlySorted(parents[v]) && StrictlySorted(children[v]))
    }

    ghost predicate Valid() {
      WellFormed() && |parents| > 0 && Acyclic(Parents())
    }
  }

  // ---- Construction ----

  /** The complaint raised by edge `i`, given the edges before it. */
  function EdgeFault(nodeCount: nat, edges: seq<(nat, nat)>, i: nat): Option<CausalError>
    requires i < |edges|
  {
    var (from, to) := edges[i];
    if from >= nodeCount then Some(UnknownVariable(from))
    else if to >= nodeCount then Some(UnknownVariable(to))
    else if from == to then Some(SelfEdge(from))
    else if edges[i] in edges[..i] then Some(DuplicateEdge(from, to))
    else None
  }

  ghost predicate FaultFree(nodeCount: nat, edges: seq<(nat, nat)>, end: nat)
    requires end <= |edges|
  {
    forall i :: 0 <= i < end ==> EdgeFault(nodeCount, edges, i) == None
  }

  /** The graph the edge list denotes, as parent sets. */
  ghost function EdgeSets(nodeCount: nat, edges: seq<(nat, nat)>): (adj: Adjacency) {
    seq(nodeCount, v requires 0 <= v < nodeCount => set i | 0 <= i < |edges| && edges[i].1 == v :: edges[i].0)
  }

  lemma EdgeSetsSteps(nodeCount: nat, edges: seq<(nat, nat)>, v: nat, u: nat)
    ensures Step(EdgeSets(nodeCount, edges), v, u) <==> v < nodeCount && (u, v) in edges
  {
    if v < nodeCount {
      var sources := set i | 0 <= i < |edges| && edges[i].1 == v :: edges[i].0;
      assert EdgeSets(nodeCount, edges)[v] == sources;
      if (u, v) in edges {
        var i :| 0 <= i < |edges| && edges[i] == (u, v);
        assert u in sources;
      }
      if i :| 0 <= i < |edges| && edges[i].1 == v && edges[i].0 == u {
        assert edges[i] == (u, v);
      }
    }
  }

  /** `sort_unstable` on a vector of indices. */
  function SortNats(s: seq<nat>): (r: seq<nat>)
    ensures Sorted(r) && |r| == |s|
    ensures forall x :: x in r <==> x in s
    ensures Distinct(s) <==> StrictlySorted(r)
    ensures r == Sort(s)
  {
    var r := Sort(s);
    SortDistinct(s);
    assert forall i :: 0 <= i < |r| ==> r[i] in s;
    r
  }

  // ---- Kahn's algorithm ----

  /** The parents of `v` not yet removed. */
  ghost function Remaining(dag: CausalDag, done: set<nat>, v: nat): set<nat>
    requires v < |dag.parents|
  {
    set u | u in dag.parents[v] && u !in done
  }

  /** A processed node's parents all come earlier in `order`. */
  ghost predicate Topological(dag: CausalDag, order: seq<nat>) {
    && Distinct(order)
    && (forall i :: 0 <= i < |order| ==> order[i] < |dag.parents|)
    && (forall i, u :: 0 <= i < |order| && u in dag.parents[order[i]] ==> u in order[..i])
  }

  lemma TopologicalOrderIsAcyclic(dag: CausalDag, order: seq<nat>)
    requires dag.WellFormed() && Topological(dag, order)
    requires forall v: nat :: v < |dag.parents| ==> v in order
    ensures Acyclic(dag.Parents())
  {
    var adj := dag.Parents();
    forall v, u | Step(adj, v, u) ensures !Reaches(adj, u, v) {
      assert v in order;
      var i :| 0 <= i < |order| && order[i] == v;
      var earlier := set w | w in order[..i];
      forall x, y | x in earlier && Step(adj, x, y) ensures y in earlier {
        var k :| 0 <= k < i && order[k] == x;
        assert y in order[..k];
      }
      if Reaches(adj, u, v) {
        ClosedSetHoldsReachable(adj, earlier, u, v);
      }
    }
  }

  /** A node outside `order` whose parents were not exhausted keeps Kahn's algorithm from finishing. */
  lemma {:induction false} StuckNodesFormCycle(dag: CausalDag, order: seq<nat>)
    requires dag.WellFormed() && Topological(dag, order)
    requires forall v: nat :: v < |dag.parents| && v !in order ==> exists u :: u in dag.parents[v] && u !in order
    ensures Acyclic(dag.Parents()) ==> forall v: nat :: v < |dag.parents| ==> v in order
  {
    var adj := dag.Parents();
    var stuck := set v: nat | v < |dag.parents| && v !in order;
    if stuck != {} {
      forall v | v in stuck ensures HasSuccessorIn(adj, stuck, v) {
        var u :| u in dag.parents[v] && u !in order;
        assert Step(adj, v, u) && u in stuck;
      }
      EndlessSetHasCycle(adj, stuck);
    }
    forall v: nat | Acyclic(adj) && v < |dag.parents| ensures v in order {
      assert v !in stuck;
    }
  }

  /** In-degrees count unprocessed parents; while the children of `x` from position `k` on have not
      been told that `x` is processed, their counters are one too high. */
  ghost predicate Counting(dag: CausalDag, indegree: seq<nat>, done: set<nat>, untold: seq<nat>) {
    && |indegree| == |dag.parents|
    && forall v :: 0 <= v < |indegree| ==>
         indegree[v] == |Remaining(dag, done, v)| + (if v in untold then 1 else 0)
  }

  /** The queue holds exactly the unprocessed nodes whose counter is zero. */
  ghost predicate Queued(indegree: seq<nat>, done: set<nat>, queue: seq<nat>) {
    Distinct(queue) && forall v: nat :: v in queue <==> v < |indegree| && v !in done && indegree[v] == 0
  }

  lemma NextIsReady(dag: CausalDag, indegree: seq<nat>, order: seq<nat>, queue: seq<nat>)
    requires dag.WellFormed() && Topological(dag, order) && queue != []
    requires Counting(dag, indegree, Members(order), []) && Queued(indegree, Members(order), queue)
    ensures queue[0] < |dag.parents| && queue[0] !in order && queue[0] !in queue[1..]
    ensures Topological(dag, order + [queue[0]])
  {
    var x := queue[0];
    assert x in queue;
    assert Remaining(dag, Members(order), x) == {};
    forall u | u in dag.parents[x] ensures u in order {
      assert u !in Remaining(dag, Members(order), x);
    }
    var after := order + [x];
    forall i, u | 0 <= i < |after| && u in dag.parents[after[i]] ensures u in after[..i] {
      assert after[..i] == order[..i];
    }
  }

  lemma ChildrenAreUnprocessed(dag: CausalDag, order: seq<nat>, x: nat)
    requires dag.WellFormed() && Topological(dag, order) && x < |dag.parents| && x !in order
    ensures forall c :: c in dag.children[x] ==> c !in order + [x]
  {
    forall c | c in dag.children[x] ensures c !in order + [x] {
      assert x in dag.parents[c];
    }
  }

  lemma {:induction false} RemoveFromCounts(dag: CausalDag, indegree: seq<nat>, order: seq<nat>, x: nat)
    requires dag.WellFormed() && x < |dag.parents| && x !in order
    requires Counting(dag, indegree, Members(order), [])
    ensures Counting(dag, indegree, Members(order + [x]), dag.children[x])
  {
    var done, after := Members(order), Members(order + [x]);
    assert after == done + {x};
    forall v | 0 <= v < |indegree|
      ensures indegree[v] == |Remaining(dag, after, v)| + (if v in dag.children[x] then 1 else 0)
    {
      if x in dag.parents[v] {
        assert Remaining(dag, done, v) == Remaining(dag, after, v) + {x};
      } else {
        assert Remaining(dag, done, v) == Remaining(dag, after, v);
      }
    }
  }

  /** Decrements the counters of the children of a processed node and queues those that reach zero. */
  method TellChildren(dag: CausalDag, indegree: array<nat>, queue: seq<nat>, children: seq<nat>, ghost done: set<nat>)
      returns (extended: seq<nat>)
    requires StrictlySorted(children) && forall c :: c in children ==> c < |dag.parents| && c !in done
    requires Counting(dag, indegree[..], done, children) && Queued(indegree[..], done, queue)
    modifies indegree
    ensures Counting(dag, indegree[..], done, []) && Queued(indegree[..], done, extended)
  {
    extended := queue;
    for k := 0 to |children|
      invariant Counting(dag, indegree[..], done, children[k..])
      invariant Queued(indegree[..], done, extended)
    {
      var child := children[k];
      ghost var before := indegree[..];
      assert child in children;
      assert children[k..] == [child] + children[k + 1..];
      assert before[child] >= 1;
      indegree[child] := indegree[child] - 1;
      assert indegree[..] == before[child := before[child] - 1];
      if indegree[child] == 0 {
        extended := extended + [child];
      }
    }
    assert children[|children|..] == [];
  }

  /** The state of Kahn's algorithm between two removals. */
  ghost predicate KahnState(dag: CausalDag, indegree: seq<nat>, order: seq<nat>, queue: seq<nat>) {
    && Topological(dag, order) && |order| <= |dag.parents|
    && Counting(dag, indegree, Members(order), []) && Queued(indegree, Members(order), queue)
  }

  /** Removes the first queued node from the graph. */
  method RemoveFirst(dag: CausalDag, indegree: array<nat>, queue: seq<nat>, ghost order: seq<nat>)
      returns (extended: seq<nat>)
    requires dag.WellFormed() && queue != [] && KahnState(dag, indegree[..], order, queue)
    modifies indegree
    ensures KahnState(dag, indegree[..], order + [queue[0]], extended)
  {
    var node: nat := queue[0];
    NextIsReady(dag, indegree[..], order, queue);
    ChildrenAreUnprocessed(dag, order, node);
    RemoveFromCounts(dag, indegree[..], order, node);
    DistinctFillsRange(order + [node], |dag.parents|);
    SplitFirst(queue);
    extended := TellChildren(dag, indegree, queue[1..], dag.children[node], Members(order + [node]));
  }

  method ParentlessNodes(indegree: array<nat>) returns (queue: seq<nat>)
    ensures Queued(indegree[..], {}, queue)
  {
    queue := [];
    for i := 0 to indegree.Length
      invariant Distinct(queue) && forall v: nat :: v in queue <==> v < i && indegree[v] == 0
    {
      if indegree[i] == 0 { queue := queue + [i]; }
    }
  }

  /** Kahn's algorithm: remove parentless nodes until none is left. */
  method IsAcyclic(dag: CausalDag) returns (acyclic: bool)
    requires dag.WellFormed()
    ensures acyclic <==> Acyclic(dag.Parents())
  {
    var n := |dag.parents|;
    var indegree := new nat[n](i requires 0 <= i < n => |dag.parents[i]|);
    InitialCounts(dag, indegree[..]);
    var queue := ParentlessNodes(indegree);
    assert Members<nat>([]) == {};
    var visited := 0;
    ghost var order: seq<nat> := [];
    while queue != []
      invariant visited == |order| && KahnState(dag, indegree[..], order, queue)
      decreases n - |order|
    {
      ghost var node: nat := queue[0];
      queue := RemoveFirst(dag, indegree, queue, order);
      visited, order := visited + 1, order + [node];
    }
    acyclic := visited == n;
    KahnIsExact(dag, indegree[..], order);
  }

  lemma InitialCounts(dag: CausalDag, indegree: seq<nat>)
    requires dag.WellFormed() && |indegree| == |dag.parents|
    requires forall v :: 0 <= v < |indegree| ==> indegree[v] == |dag.parents[v]|
    ensures Counting(dag, indegree, Members([]), [])
  {
    forall v | 0 <= v < |indegree| ensures |dag.parents[v]| == |Remaining(dag, Members([]), v)| {
      DistinctCardinality(dag.parents[v]);
      assert Members(dag.parents[v]) == Remaining(dag, Members([]), v);
    }
  }

  /** Once the queue is empty, all nodes were processed exactly when the graph has no cycle. */
  lemma KahnIsExact(dag: CausalDag, indegree: seq<nat>, order: seq<nat>)
    requires dag.WellFormed() && Topological(dag, order)
    requires Counting(dag, indegree, Members(order), []) && Queued(indegree, Members(order), [])
    ensures |order| == |dag.parents| <==> Acyclic(dag.Parents())
  {
    var n := |dag.parents|;
    DistinctFillsRange(order, n);
    if |order| == n {
      TopologicalOrderIsAcyclic(dag, order);
    } else {
      forall v: nat | v < n && v !in order ensures exists u :: u in dag.parents[v] && u !in order {
        var u :| u in Remaining(dag, Members(order), v);
      }
      StuckNodesFormCycle(dag, order);
      if Acyclic(dag.Parents()) {
        SubsetCardinality(Below(n), Members(order));
        DistinctCardinality(order);
      }
    }
  }

  // ---- The constructor ----

  /** `lists[v]` holds, once each, the sources (or targets) of the edges at `v`. */
  ghost predicate Collected(lists: seq<seq<nat>>, edges: seq<(nat, nat)>, incoming: bool) {
    forall v :: 0 <= v < |lists| ==>
      Distinct(lists[v]) && forall u: nat :: u in lists[v] <==> (if incoming then (u, v) else (v, u)) in edges
  }

  lemma CollectEdge(lists: seq<seq<nat>>, edges: seq<(nat, nat)>, incoming: bool, e: (nat, nat))
    requires Collected(lists, edges, incoming) && e !in edges && e.0 < |lists| && e.1 < |lists|
    ensures var (at, new_) := if incoming then (e.1, e.0) else (e.0, e.1);
            Collected(lists[at := lists[at] + [new_]], edges + [e], incoming)
  {
    var (at, new_) := if incoming then (e.1, e.0) else (e.0, e.1);
    var after := lists[at := lists[at] + [new_]];
    forall v | 0 <= v < |after|
      ensures Distinct(after[v])
      ensures forall u: nat :: u in after[v] <==> (if incoming then (u, v) else (v, u)) in edges + [e]
    {
      assert (if incoming then (new_, at) else (at, new_)) == e;
    }
  }

  /** `sort_unstable` applied to every list in place. */
  method SortAll(lists: array<seq<nat>>)
    modifies lists
    ensures forall v :: 0 <= v < lists.Length ==> lists[v] == SortNats(old(lists[v]))
  {
    for v := 0 to lists.Length
      invariant forall w :: 0 <= w < v ==> lists[w] == SortNats(old(lists[w]))
      invariant forall w :: v <= w < lists.Length ==> lists[w] == old(lists[w])
    {
      lists[v] := SortNats(lists[v]);
    }
  }

  lemma CollectedGraph(dag: CausalDag, parents: seq<seq<nat>>, children: seq<seq<nat>>, edges: seq<(nat, nat)>)
    requires |parents| == |children| == |dag.parents| == |dag.children| && FaultFree(|parents|, edges, |edges|)
    requires Collected(parents, edges, true) && Collected(children, edges, false)
    requires forall v :: 0 <= v < |parents| ==> dag.parents[v] == SortNats(parents[v])
    requires forall v :: 0 <= v < |parents| ==> dag.children[v] == SortNats(children[v])
    ensures dag.WellFormed() && dag.Parents() == EdgeSets(|parents|, edges)
  {
    var n := |parents|;
    forall v: nat, u: nat
      ensures v < n && u in dag.parents[v] ==> (u, v) in edges && u < n && u != v
      ensures v < n && u in dag.children[v] ==> (v, u) in edges && u < n
    {
      if (u, v) in edges {
        var i :| 0 <= i < |edges| && edges[i] == (u, v);
        assert EdgeFault(n, edges, i) == None;
      }
      if (v, u) in edges {
        var i :| 0 <= i < |edges| && edges[i] == (v, u);
        assert EdgeFault(n, edges, i) == None;
      }
    }
    forall v | 0 <= v < n ensures dag.Parents()[v] == EdgeSets(n, edges)[v] {
      forall u: nat ensures u in dag.Parents()[v] <==> u in EdgeSets(n, edges)[v] {
        EdgeSetsSteps(n, edges, v, u);
        assert Step(dag.Parents(), v, u) <==> u in dag.parents[v];
      }
    }
  }

  /** Checks the edges in order, fills both adjacency vectors and rejects cycles. */
  method New(nodeCount: nat, edges: seq<(nat, nat)>) returns (r: Result<CausalDag, CausalError>)
    ensures nodeCount == 0 ==> r == Err(EmptyGraph)
    ensures nodeCount > 0 && !FaultFree(nodeCount, edges, |edges|) ==>
      exists i :: 0 <= i < |edges| && FaultFree(nodeCount, edges, i) &&
        EdgeFault(nodeCount, edges, i).Some? && r == Err(EdgeFault(nodeCount, edges, i).value)
    ensures nodeCount > 0 && FaultFree(nodeCount, edges, |edges|) ==>
      if Acyclic(EdgeSets(nodeCount, edges))
      then r.Ok? && r.value.Valid() && r.value.Parents() == EdgeSets(nodeCount, edges)
      else r == Err(CyclicGraph)
  {
    if nodeCount == 0 { return Err(EmptyGraph); }
    var parents := new seq<nat>[nodeCount](_ => []);
    var children := new seq<nat>[nodeCount](_ => []);
    var seen: set<(nat, nat)> := {};
    for i := 0 to |edges|
      invariant FaultFree(nodeCount, edges, i)
      invariant forall e :: e in seen <==> e in edges[..i]
      invariant Collected(parents[..], edges[..i], true) && Collected(children[..], edges[..i], false)
    {
      var (from, to) := edges[i];
      if from >= nodeCount {
        assert EdgeFault(nodeCount, edges, i) == Some(UnknownVariable(from));
        return Err(UnknownVariable(from));
      }
      if to >= nodeCount {
        assert EdgeFault(nodeCount, edges, i) == Some(UnknownVariable(to));
        return Err(UnknownVariable(to));
      }
      if from == to {
        assert EdgeFault(nodeCount, edges, i) == Some(SelfEdge(from));
        return Err(SelfEdge(from));
      }
      if (from, to) in seen {
        assert EdgeFault(nodeCount, edges, i) == Some(DuplicateEdge(from, to));
        return Err(DuplicateEdge(from, to));
      }
      seen := seen + {(from, to)};
      CollectEdge(parents[..], edges[..i], true, edges[i]);
      CollectEdge(children[..], edges[..i], false, edges[i]);
      ghost var oldParents, oldChildren := parents[..], children[..];
      children[from] := children[from] + [to];
      parents[to] := parents[to] + [from];
      assert parents[..] == oldParents[to := oldParents[to] + [from]];
      assert children[..] == oldChildren[from := oldChildren[from] + [to]];
      assert edges[..i + 1] == edges[..i] + [edges[i]];
    }
    assert edges[..|edges|] == edges;
    ghost var unsortedParents, unsortedChildren := parents[..], children[..];
    SortAll(parents);
    SortAll(children);
    var graph := CausalDag(parents[..], children[..]);
    CollectedGraph(graph, unsortedParents, unsortedChildren, edges);
    var acyclic := IsAcyclic(graph);
    if !acyclic { return Err(CyclicGraph); }
    return Ok(graph);
  }

  // ---- Descendants ----

  /** `v` lies strictly below `top`. */
  ghost predicate Descendant(parents: Adjacency, top: nat, v: nat) {
    exists c :: Step(parents, c, top) && Reaches(parents, v, c)
  }

  ghost function DescendantSet(dag: CausalDag, top: nat): set<nat> {
    set v | v in Below(|dag.parents|) && Descendant(dag.Parents(), top, v)
  }

  /** The search has met only members of `below`, and every child of a found node was met. */
  ghost predicate Searching(dag: CausalDag, variable: nat, below: set<nat>, found: set<nat>, stack: seq<nat>) {
    && |dag.children| == |dag.parents| && variable < |dag.parents| && found <= below
    && (forall k :: 0 <= k < |stack| ==> stack[k] in below)
    && (forall c :: c in dag.children[variable] ==> c in found || c in stack)
    && (forall v, c :: v in found && v < |dag.children| && c in dag.children[v] ==> c in found || c in stack)
  }

  ghost predicate ClosedUnderChildren(dag: CausalDag, s: set<nat>) {
    forall v :: v in s ==> v < |dag.children| && forall c :: c in dag.children[v] ==> c in s
  }

  lemma ChildOfDescendant(dag: CausalDag, top: nat, v: nat, c: nat)
    requires dag.WellFormed() && v < |dag.parents| && c in dag.children[v]
    requires v == top || Descendant(dag.Parents(), top, v)
    ensures Descendant(dag.Parents(), top, c)
  {
    var adj := dag.Parents();
    assert Step(adj, c, v);
    ReachesSelf(adj, c);
    if v != top {
      var d :| Step(adj, d, top) && Reaches(adj, v, d);
      StepReaches(adj, c, v, d);
    }
  }

  lemma DescendantSetIsClosed(dag: CausalDag, top: nat)
    requires dag.WellFormed() && top < |dag.parents|
    ensures ClosedUnderChildren(dag, DescendantSet(dag, top))
    ensures Searching(dag, top, DescendantSet(dag, top), {}, dag.children[top])
  {
    forall v: nat, c: nat | v < |dag.parents| && (v == top || Descendant(dag.Parents(), top, v)) && c in dag.children[v]
      ensures c in DescendantSet(dag, top)
    {
      ChildOfDescendant(dag, top, v, c);
    }
    forall k | 0 <= k < |dag.children[top]| ensures dag.children[top][k] in DescendantSet(dag, top) {
      assert dag.children[top][k] in dag.children[top];
    }
  }

  /** When the stack is empty the found nodes are all descendants. */
  lemma {:induction false} FoundAll(dag: CausalDag, variable: nat, found: set<nat>)
    requires dag.WellFormed() && Searching(dag, variable, DescendantSet(dag, variable), found, [])
    ensures forall v: nat :: v in found <==> Descendant(dag.Parents(), variable, v)
  {
    var up, down := dag.Parents(), dag.Children();
    forall w, x | w in found && Step(down, w, x) ensures x in found {
      assert x in dag.children[w];
    }
    forall v: nat | Descendant(up, variable, v) ensures v in found {
      var c :| Step(up, c, variable) && Reaches(up, v, c);
      ReachesReversed(up, down, v, c);
      assert c in dag.children[variable];
      ClosedSetHoldsReachable(down, found, c, v);
    }
  }

  method MarkedIndices(marks: array<bool>) returns (r: seq<nat>)
    ensures StrictlySorted(r)
    ensures forall v: nat :: v in r <==> v < marks.Length && marks[v]
  {
    r := [];
    for i := 0 to marks.Length
      invariant StrictlySorted(r) && forall k :: 0 <= k < |r| ==> r[k] < i
      invariant forall v: nat :: v in r <==> v < i && marks[v]
    {
      if marks[i] { r := r + [i]; }
    }
  }

  lemma Pop(dag: CausalDag, variable: nat, below: set<nat>, found: set<nat>, stack: seq<nat>)
    requires ClosedUnderChildren(dag, below) && stack != [] && Searching(dag, variable, below, found, stack)
    ensures var (node, rest) := (stack[|stack| - 1], stack[..|stack| - 1]);
            && node in below && node < |dag.children|
            && (node in found ==> Searching(dag, variable, below, found, rest))
            && Searching(dag, variable, below, found + {node}, rest + dag.children[node])
  {
    SplitLast(stack);
    var node := stack[|stack| - 1];
    var children := dag.children[node];
    assert forall k :: 0 <= k < |children| ==> children[k] in children;
  }

  /** Depth-first search along the child lists, marking each node when it leaves the stack. */
  method MarkBelow(dag: CausalDag, variable: nat, visited: array<bool>, ghost below: set<nat>)
      returns (ghost found: set<nat>)
    requires ClosedUnderChildren(dag, below) && variable < |dag.children|
    requires Searching(dag, variable, below, {}, dag.children[variable])
    requires visited.Length == |dag.parents| && forall v :: 0 <= v < visited.Length ==> !visited[v]
    modifies visited
    ensures forall v :: 0 <= v < visited.Length ==> (visited[v] <==> v in found)
    ensures Searching(dag, variable, below, found, [])
  {
    var stack: seq<nat> := dag.children[variable];
    found := {};
    while stack != []
      invariant forall v :: 0 <= v < visited.Length ==> (visited[v] <==> v in found)
      invariant Searching(dag, variable, below, found, stack)
      decreases below - found, |stack|
    {
      var node: nat := stack[|stack| - 1];
      Pop(dag, variable, below, found, stack);
      stack := stack[..|stack| - 1];
      if !visited[node] {
        visited[node] := true;
        found := found + {node};
        stack := stack + dag.children[node];
      }
    }
  }

  /** The strict descendants of `variable`, in increasing order. */
  method Descendants(dag: CausalDag, variable: nat) returns (r: seq<nat>)
    requires dag.WellFormed()
    ensures StrictlySorted(r)
    ensures variable >= |dag.parents| ==> r == []
    ensures variable < |dag.parents| ==> forall v: nat :: v in r <==> Descendant(dag.Parents(), variable, v)
  {
    var n := |dag.parents|;
    if variable >= n { return []; }
    var visited := new bool[n](_ => false);
    DescendantSetIsClosed(dag, variable);
    ghost var found := MarkBelow(dag, variable, visited, DescendantSet(dag, variable));
    FoundAll(dag, variable, found);
    r := MarkedIndices(visited);
  }
}
