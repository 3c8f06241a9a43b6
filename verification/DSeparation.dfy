/** The d-separation test of the causal module: ancestral set, moral graph, breadth-first search. */
module DSeparation {
  import opened Wrappers
  import opened Finite
  import opened Reachability
  import opened Trails
  import opened CausalGraphs

  function KeepParents(parents: seq<nat>, removed: Option<nat>): (r: seq<nat>)
    ensures forall u :: u in r <==> u in parents && removed != Some(u)
    ensures Distinct(parents) ==> Distinct(r)
  {
    if parents == [] then []
    else
      SplitFirst(parents);
      var rest := KeepParents(parents[1..], removed);
      if removed != Some(parents[0]) then [parents[0]] + rest else rest
  }

  /** The parents of `node` once the edges leaving `removed` are deleted. */
  function EffectiveParents(dag: CausalDag, node: nat, removed: Option<nat>): seq<nat>
    requires node < |dag.parents|
  {
    KeepParents(dag.parents[node], removed)
  }

  /** The graph without the edges leaving `removed`. */
  ghost function Pruned(dag: CausalDag, removed: Option<nat>): (adj: Adjacency)
    ensures |adj| == |dag.parents|
  {
    seq(|dag.parents|, v requires 0 <= v < |dag.parents| => set u | u in dag.parents[v] && removed != Some(u))
  }

  lemma PrunedSteps(dag: CausalDag, removed: Option<nat>)
    ensures forall v: nat, u: nat :: Step(Pruned(dag, removed), v, u) <==>
              v < |dag.parents| && u in dag.parents[v] && removed != Some(u)
    ensures forall v: nat, u: nat :: Step(Pruned(dag, removed), v, u) ==> Step(dag.Parents(), v, u)
  {
  }

  lemma PrunedIsOneWay(dag: CausalDag, removed: Option<nat>)
    requires dag.Valid()
    ensures OneWay(Pruned(dag, removed)) && InRange(Pruned(dag, removed))
    ensures OneWay(dag.Parents())
  {
    PrunedSteps(dag, removed);
    forall u, v | Step(dag.Parents(), v, u) ensures !Step(dag.Parents(), u, v) {
      AcyclicHasNoTwoCycle(dag.Parents(), v, u);
    }
  }

  // ---- Marking searches ----

  /** Marked nodes stay inside `limit`; all but the pending ones (and `busy`) are fully expanded. */
  ghost predicate Exploring(adj: Adjacency, limit: set<nat>, marked: set<nat>, pending: seq<nat>, busy: set<nat>) {
    && marked <= limit
    && (forall k :: 0 <= k < |pending| ==> pending[k] in marked)
    && (forall v, u :: v in marked && v !in pending && v !in busy && Step(adj, v, u) ==> u in marked)
  }

  ghost predicate ClosedUnder(adj: Adjacency, s: set<nat>) {
    forall v, u :: v in s && Step(adj, v, u) ==> u in s
  }

  ghost predicate Flags(flags: seq<bool>, marked: set<nat>) {
    forall v: nat :: v in marked <==> v < |flags| && flags[v]
  }

  /** Marks and pushes the unmarked entries of `found`. */
  method Push(ghost adj: Adjacency, ghost limit: set<nat>, flags: array<bool>, ghost marked: set<nat>,
              pending: seq<nat>, found: seq<nat>, ghost busy: set<nat>)
      returns (ghost grown: set<nat>, extended: seq<nat>)
    requires Exploring(adj, limit, marked, pending, busy) && Flags(flags[..], marked)
    requires forall k :: 0 <= k < |found| ==> found[k] < flags.Length && found[k] in limit
    modifies flags
    ensures Exploring(adj, limit, grown, extended, busy) && Flags(flags[..], grown)
    ensures marked <= grown && (forall k :: 0 <= k < |found| ==> found[k] in grown)
    ensures marked == grown ==> extended == pending
  {
    grown, extended := marked, pending;
    for k := 0 to |found|
      invariant Exploring(adj, limit, grown, extended, busy) && Flags(flags[..], grown)
      invariant marked <= grown && (forall i :: 0 <= i < k ==> found[i] in grown)
      invariant marked == grown ==> extended == pending
    {
      var node: nat := found[k];
      if !flags[node] {
        flags[node] := true;
        grown, extended := grown + {node}, extended + [node];
      }
    }
  }

  /** Taking `node` off the pending list and pushing all its successors completes its expansion. */
  lemma Expanded(adj: Adjacency, limit: set<nat>, marked: set<nat>, pending: seq<nat>, node: nat)
    requires Exploring(adj, limit, marked, pending, {node})
    requires forall u: nat :: Step(adj, node, u) ==> u in marked
    ensures Exploring(adj, limit, marked, pending, {})
  {
  }

  lemma TakeLast(adj: Adjacency, limit: set<nat>, marked: set<nat>, pending: seq<nat>)
    requires Exploring(adj, limit, marked, pending, {}) && pending != []
    ensures pending[|pending| - 1] in marked
    ensures Exploring(adj, limit, marked, pending[..|pending| - 1], {pending[|pending| - 1]})
  {
    SplitLast(pending);
  }

  lemma TakeFirst(adj: Adjacency, limit: set<nat>, marked: set<nat>, pending: seq<nat>)
    requires Exploring(adj, limit, marked, pending, {}) && pending != []
    ensures pending[0] in marked
    ensures Exploring(adj, limit, marked, pending[1..], {pending[0]})
  {
    SplitFirst(pending);
  }

  ghost function AncestralSet(parents: Adjacency, a: nat, b: nat, z: set<nat>): set<nat> {
    set v | v in Below(|parents|) && Ancestral(parents, a, b, z, v)
  }

  lemma AncestralSetFacts(parents: Adjacency, a: nat, b: nat, z: set<nat>)
    requires InRange(parents) && a < |parents| && b < |parents| && forall v :: v in z ==> v < |parents|
    ensures ClosedUnder(parents, AncestralSet(parents, a, b, z))
    ensures IsAncestralSet(parents, a, b, z, AncestralSet(parents, a, b, z))
    ensures a in AncestralSet(parents, a, b, z) && b in AncestralSet(parents, a, b, z)
    ensures z <= AncestralSet(parents, a, b, z)
  {
    var all := Below(|parents|);
    forall v, u | Step(parents, v, u) && Ancestral(parents, a, b, z, v) ensures Ancestral(parents, a, b, z, u) {
      if Reaches(parents, a, v) { ReachesStep(parents, a, v, u); }
      else if Reaches(parents, b, v) { ReachesStep(parents, b, v, u); }
      else { ObservedStep(parents, z, u, v); }
    }
    forall v: nat | Ancestral(parents, a, b, z, v) ensures v in all {
      var s: nat :| (s == a || s == b || s in z) && Reaches(parents, s, v);
      forall x, y | x in all && Step(parents, x, y) ensures y in all {
        assert y in parents[x];
      }
      ClosedSetHoldsReachable(parents, all, s, v);
    }
    ReachesSelf(parents, a);
    ReachesSelf(parents, b);
    forall v | v in z ensures Ancestral(parents, a, b, z, v) {
      ConditionedIsObserved(parents, z, v);
    }
  }

  /** A closed set of ancestral nodes that holds the seeds is the whole ancestral set. */
  lemma ClosedMarksAreAncestral(parents: Adjacency, a: nat, b: nat, z: set<nat>, marked: set<nat>)
    requires a in marked && b in marked && z <= marked && ClosedUnder(parents, marked)
    requires marked <= AncestralSet(parents, a, b, z)
    ensures marked == AncestralSet(parents, a, b, z)
  {
    forall v | v in AncestralSet(parents, a, b, z) ensures v in marked {
      var s: nat :| (s == a || s == b || s in z) && Reaches(parents, s, v);
      ClosedSetHoldsReachable(parents, marked, s, v);
    }
  }

  /** The seeds of the ancestral set. */
  method PushSeeds(ghost adj: Adjacency, ghost limit: set<nat>, flags: array<bool>, left: nat, right: nat, conditioned: seq<nat>)
      returns (ghost marked: set<nat>, stack: seq<nat>)
    requires limit <= Below(flags.Length) && forall v :: 0 <= v < flags.Length ==> !flags[v]
    requires left in limit && right in limit && forall k :: 0 <= k < |conditioned| ==> conditioned[k] in limit
    modifies flags
    ensures Exploring(adj, limit, marked, stack, {}) && Flags(flags[..], marked)
    ensures left in marked && right in marked && forall v :: v in conditioned ==> v in marked
  {
    var seeds := [left, right] + conditioned;
    marked, stack := Push(adj, limit, flags, {}, [], seeds, {});
    assert seeds[0] == left && seeds[1] == right;
    forall v | v in conditioned ensures v in marked {
      var k :| 0 <= k < |conditioned| && conditioned[k] == v;
      assert seeds[k + 2] == v;
    }
  }

  /** Expands the node just taken off the stack. */
  method PushParents(dag: CausalDag, removed: Option<nat>, flags: array<bool>, ghost limit: set<nat>, ghost marked: set<nat>,
                     pending: seq<nat>, node: nat)
      returns (ghost grown: set<nat>, stack: seq<nat>)
    requires flags.Length == |dag.parents| && node in marked
    requires limit <= Below(|dag.parents|) && ClosedUnder(Pruned(dag, removed), limit)
    requires Exploring(Pruned(dag, removed), limit, marked, pending, {node}) && Flags(flags[..], marked)
    modifies flags
    ensures Exploring(Pruned(dag, removed), limit, grown, stack, {}) && Flags(flags[..], grown)
    ensures marked <= grown && (marked == grown ==> stack == pending)
  {
    ghost var adj := Pruned(dag, removed);
    PrunedSteps(dag, removed);
    var found := EffectiveParents(dag, node, removed);
    forall k | 0 <= k < |found| ensures found[k] < flags.Length && found[k] in limit {
      assert found[k] in found;
      assert Step(adj, node, found[k]);
    }
    grown, stack := Push(adj, limit, flags, marked, pending, found, {node});
    assert forall u :: u in found ==> u in grown;
    Expanded(adj, limit, grown, stack, node);
  }

  /** Marks the two endpoints, the conditioned nodes and whatever can be reached from them within `limit`. */
  method MarkClosure(dag: CausalDag, left: nat, right: nat, conditioned: seq<nat>, removed: Option<nat>,
                       flags: array<bool>, ghost limit: set<nat>)
      returns (ghost marked: set<nat>)
    requires flags.Length == |dag.parents| && forall v :: 0 <= v < flags.Length ==> !flags[v]
    requires limit <= Below(|dag.parents|) && ClosedUnder(Pruned(dag, removed), limit)
    requires left in limit && right in limit && forall k :: 0 <= k < |conditioned| ==> conditioned[k] in limit
    modifies flags
    ensures Flags(flags[..], marked) && marked <= limit && ClosedUnder(Pruned(dag, removed), marked)
    ensures left in marked && right in marked && forall v :: v in conditioned ==> v in marked
  {
    ghost var adj := Pruned(dag, removed);
    var stack: seq<nat>;
    marked, stack := PushSeeds(adj, limit, flags, left, right, conditioned);
    ghost var initial := marked;
    while stack != []
      invariant initial <= marked && Exploring(adj, limit, marked, stack, {}) && Flags(flags[..], marked)
      decreases limit - marked, |stack|
    {
      var node: nat := stack[|stack| - 1];
      TakeLast(adj, limit, marked, stack);
      stack := stack[..|stack| - 1];
      marked, stack := PushParents(dag, removed, flags, limit, marked, stack, node);
    }
  }

  /** Marks exactly the two endpoints, the conditioned nodes and all their ancestors. */
  method MarkAncestral(dag: CausalDag, left: nat, right: nat, conditioned: seq<nat>, removed: Option<nat>, flags: array<bool>)
    requires dag.Valid() && left < |dag.parents| && right < |dag.parents|
    requires forall k :: 0 <= k < |conditioned| ==> conditioned[k] < |dag.parents|
    requires flags.Length == |dag.parents| && forall v :: 0 <= v < flags.Length ==> !flags[v]
    modifies flags
    ensures Flags(flags[..], AncestralSet(Pruned(dag, removed), left, right, Members(conditioned)))
  {
    ghost var adj, z := Pruned(dag, removed), Members(conditioned);
    ghost var limit := AncestralSet(adj, left, right, z);
    PrunedIsOneWay(dag, removed);
    AncestralSetFacts(adj, left, right, z);
    ghost var marked := MarkClosure(dag, left, right, conditioned, removed, flags, limit);
    ClosedMarksAreAncestral(adj, left, right, z, marked);
  }

  // ---- The moral graph ----

  /** `u` and `v` become neighbours because of the family of `child`. */
  ghost predicate Related(child: nat, parents: seq<nat>, u: nat, v: nat) {
    (u == child && v in parents) || (v == child && u in parents) || (u in parents && v in parents && u != v)
  }

  /** Inserts each of the two nodes into the other's neighbour set. */
  method Join(moral: array<set<nat>>, u: nat, v: nat)
    requires u < moral.Length && v < moral.Length
    modifies moral
    ensures forall x: nat, y: nat ::
      Step(moral[..], x, y) <==> Step(old(moral[..]), x, y) || (x == u && y == v) || (x == v && y == u)
  {
    moral[u] := moral[u] + {v};
    moral[v] := moral[v] + {u};
  }

  /** Adds the edges of one family: child to parents, and parents among each other. */
  method AddFamily(moral: array<set<nat>>, child: nat, parents: seq<nat>)
    requires child < moral.Length && Distinct(parents) && forall k :: 0 <= k < |parents| ==> parents[k] < moral.Length
    modifies moral
    ensures forall u: nat, v: nat ::
      Step(moral[..], u, v) <==> Step(old(moral[..]), u, v) || Related(child, parents, u, v)
  {
    JoinToParents(moral, child, parents);
    JoinParents(moral, parents);
  }

  /** Links the child with each of its parents. */
  method JoinToParents(moral: array<set<nat>>, child: nat, parents: seq<nat>)
    requires child < moral.Length && forall k :: 0 <= k < |parents| ==> parents[k] < moral.Length
    modifies moral
    ensures forall u: nat, v: nat :: Step(moral[..], u, v) <==>
      Step(old(moral[..]), u, v) || (u == child && v in parents) || (v == child && u in parents)
  {
    ghost var before := moral[..];
    for k := 0 to |parents|
      invariant forall u: nat, v: nat :: Step(moral[..], u, v) <==>
        Step(before, u, v) || (u == child && v in parents[..k]) || (v == child && u in parents[..k])
    {
      Join(moral, parents[k], child);
      assert parents[..k + 1] == parents[..k] + [parents[k]];
    }
    assert parents[..|parents|] == parents;
  }

  /** Two different members of `parents`. */
  ghost predicate Spouses(parents: seq<nat>, u: nat, v: nat) {
    u in parents && v in parents && u != v
  }

  /** Links the parents among each other. */
  method JoinParents(moral: array<set<nat>>, parents: seq<nat>)
    requires Distinct(parents) && forall k :: 0 <= k < |parents| ==> parents[k] < moral.Length
    modifies moral
    ensures forall u: nat, v: nat :: Step(moral[..], u, v) <==> Step(old(moral[..]), u, v) || Spouses(parents, u, v)
  {
    ghost var linked := moral[..];
    for first := 0 to |parents|
      invariant forall u: nat, v: nat :: Step(moral[..], u, v) ==> Step(linked, u, v) || Spouses(parents, u, v)
      invariant forall u: nat, v: nat :: Step(linked, u, v) ==> Step(moral[..], u, v)
      invariant forall i, j :: 0 <= i < first && i < j < |parents| ==> Step(moral[..], parents[i], parents[j]) && Step(moral[..], parents[j], parents[i])
    {
      for second := first + 1 to |parents|
        invariant forall u: nat, v: nat :: Step(moral[..], u, v) ==> Step(linked, u, v) || Spouses(parents, u, v)
        invariant forall u: nat, v: nat :: Step(linked, u, v) ==> Step(moral[..], u, v)
        invariant forall i, j :: 0 <= i < first && i < j < |parents| ==> Step(moral[..], parents[i], parents[j]) && Step(moral[..], parents[j], parents[i])
        invariant forall j :: first < j < second ==> Step(moral[..], parents[first], parents[j]) && Step(moral[..], parents[j], parents[first])
      {
        Join(moral, parents[first], parents[second]);
      }
    }
    forall u: nat, v: nat | Spouses(parents, u, v) ensures Step(moral[..], u, v) {
      var i: nat :| i < |parents| && parents[i] == u;
      var j: nat :| j < |parents| && parents[j] == v;
      assert i < j || j < i;
    }
  }

  function KeepMarked(nodes: seq<nat>, flags: seq<bool>): (r: seq<nat>)
    requires forall k :: 0 <= k < |nodes| ==> nodes[k] < |flags|
    ensures forall u :: u in r <==> u in nodes && u < |flags| && flags[u]
    ensures Distinct(nodes) ==> Distinct(r)
  {
    if nodes == [] then []
    else
      SplitFirst(nodes);
      var rest := KeepMarked(nodes[1..], flags);
      if flags[nodes[0]] then [nodes[0]] + rest else rest
  }

  /** Some family among the first `end` children relates `u` and `v`. */
  ghost predicate RelatedBelow(adj: Adjacency, marked: set<nat>, end: nat, u: nat, v: nat) {
    exists child: nat :: child < end && FamilyOf(adj, marked, child, u, v)
  }

  ghost predicate FamilyOf(adj: Adjacency, marked: set<nat>, child: nat, u: nat, v: nat) {
    && child in marked && u in marked && v in marked
    && ((u == child && Edge(adj, v, child)) || (v == child && Edge(adj, u, child))
        || (Edge(adj, u, child) && Edge(adj, v, child) && u != v))
  }

  lemma FamiliesGiveMoralEdges(adj: Adjacency, marked: set<nat>, n: nat)
    requires marked <= Below(n)
    ensures forall u: nat, v: nat :: RelatedBelow(adj, marked, n, u, v) <==> MoralEdge(adj, marked, u, v)
  {
    forall u: nat, v: nat | MoralEdge(adj, marked, u, v) ensures RelatedBelow(adj, marked, n, u, v) {
      if Edge(adj, u, v) { assert FamilyOf(adj, marked, v, u, v); }
      else if Edge(adj, v, u) { assert FamilyOf(adj, marked, u, u, v); }
      else {
        var c :| c in marked && Edge(adj, u, c) && Edge(adj, v, c);
        assert FamilyOf(adj, marked, c, u, v);
      }
    }
  }

  lemma FamilyAdded(adj: Adjacency, marked: set<nat>, child: nat, parents: seq<nat>, u: nat, v: nat)
    requires child in marked && forall x :: x in parents <==> Edge(adj, x, child) && x in marked
    ensures RelatedBelow(adj, marked, child + 1, u, v) <==>
              RelatedBelow(adj, marked, child, u, v) || Related(child, parents, u, v)
  {
    assert FamilyOf(adj, marked, child, u, v) <==> Related(child, parents, u, v);
    if RelatedBelow(adj, marked, child, u, v) {
      var c: nat :| c < child && FamilyOf(adj, marked, c, u, v);
      assert c < child + 1;
    }
  }

  /** Moralises the ancestral part of the pruned graph, family by family. */
  method BuildMoral(dag: CausalDag, flags: array<bool>, removed: Option<nat>, ghost marked: set<nat>)
      returns (moral: array<set<nat>>)
    requires dag.WellFormed() && flags.Length == |dag.parents| && Flags(flags[..], marked)
    ensures fresh(moral) && moral.Length == |dag.parents|
    ensures IsMoralGraph(Pruned(dag, removed), marked, moral[..])
  {
    var n := |dag.parents|;
    ghost var adj := Pruned(dag, removed);
    PrunedSteps(dag, removed);
    moral := new set<nat>[n](_ => {});
    for child := 0 to n
      invariant fresh(moral) && moral.Length == n
      invariant forall u: nat, v: nat :: Step(moral[..], u, v) <==> RelatedBelow(adj, marked, child, u, v)
    {
      if flags[child] {
        var all := EffectiveParents(dag, child, removed);
        assert forall k :: 0 <= k < |all| ==> all[k] in all;
        var parents := KeepMarked(all, flags[..]);
        assert forall k :: 0 <= k < |parents| ==> parents[k] in parents;
        assert forall x :: x in parents <==> Edge(adj, x, child) && x in marked;
        AddFamily(moral, child, parents);
        forall u: nat, v: nat
          ensures RelatedBelow(adj, marked, child + 1, u, v) <==>
                    RelatedBelow(adj, marked, child, u, v) || Related(child, parents, u, v)
        {
          FamilyAdded(adj, marked, child, parents, u, v);
        }
      } else {
        forall u: nat, v: nat
          ensures RelatedBelow(adj, marked, child + 1, u, v) <==> RelatedBelow(adj, marked, child, u, v)
        {
          if RelatedBelow(adj, marked, child + 1, u, v) {
            var c: nat :| c < child + 1 && FamilyOf(adj, marked, c, u, v);
            assert c < child;
          }
        }
      }
    }
    assert marked <= Below(n);
    FamiliesGiveMoralEdges(adj, marked, n);
  }

  lemma MoralInRange(adj: Adjacency, marked: set<nat>, moral: Adjacency)
    requires IsMoralGraph(adj, marked, moral) && marked <= Below(|moral|)
    ensures InRange(moral)
  {
    forall v, u | 0 <= v < |moral| && u in moral[v] ensures u < |moral| {
      assert Step(moral, v, u);
    }
  }

  // ---- The final search ----

  ghost function WithoutConditioned(moral: Adjacency, z: set<nat>): (free: Adjacency)
    ensures Avoiding(moral, z, free) && |free| == |moral|
  {
    seq(|moral|, v requires 0 <= v < |moral| => moral[v] - z)
  }

  /** Breadth-first search of the moral graph outside the blocked nodes. */
  method SearchMoral(moral: array<set<nat>>, left: nat, right: nat, blocked: set<nat>) returns (separated: bool)
    requires left < moral.Length && InRange(moral[..])
    ensures separated <==> !Reaches(WithoutConditioned(moral[..], blocked), left, right)
  {
    ghost var free := WithoutConditioned(moral[..], blocked);
    ghost var limit := set v | v in Below(moral.Length) && Reaches(free, left, v);
    ReachesSelf(free, left);
    forall v, u | v in limit && Step(free, v, u) ensures u in limit {
      ReachesStep(free, left, v, u);
      assert Step(moral[..], v, u);
    }
    var visited := new bool[moral.Length](_ => false);
    visited[left] := true;
    var queue: seq<nat> := [left];
    ghost var marked: set<nat> := {left};
    while queue != []
      invariant Exploring(free, limit, marked, queue, {}) && Flags(visited[..], marked)
      invariant left in marked && (right in marked ==> right in queue)
      decreases limit - marked, |queue|
    {
      var node: nat := queue[0];
      TakeFirst(free, limit, marked, queue);
      SplitFirst(queue);
      queue := queue[1..];
      if node == right { return false; }
      marked, queue := VisitNeighbours(free, limit, visited, marked, queue, node, moral[node], blocked, right);
      Expanded(free, limit, marked, queue, node);
    }
    if Reaches(free, left, right) {
      ClosedSetHoldsReachable(free, marked, left, right);
    }
    return true;
  }

  /** Marks and queues the neighbours that are neither blocked nor visited. */
  method VisitNeighbours(ghost free: Adjacency, ghost limit: set<nat>, visited: array<bool>, ghost marked: set<nat>,
                         pending: seq<nat>, node: nat, neighbours: set<nat>, blocked: set<nat>, ghost target: nat)
      returns (ghost grown: set<nat>, queue: seq<nat>)
    requires Exploring(free, limit, marked, pending, {node}) && Flags(visited[..], marked)
    requires forall u: nat :: Step(free, node, u) <==> u in neighbours && u !in blocked
    requires forall u: nat :: Step(free, node, u) ==> u in limit
    requires limit <= Below(visited.Length) && (target in marked ==> target in pending)
    modifies visited
    ensures Exploring(free, limit, grown, queue, {node}) && Flags(visited[..], grown)
    ensures marked <= grown && (marked == grown ==> queue == pending)
    ensures forall u: nat :: Step(free, node, u) ==> u in grown
    ensures target in grown ==> target in queue
  {
    grown, queue := marked, pending;
    var rest := neighbours;
    while rest != {}
      invariant rest <= neighbours
      invariant Exploring(free, limit, grown, queue, {node}) && Flags(visited[..], grown)
      invariant marked <= grown && (marked == grown ==> queue == pending)
      invariant forall u :: u in neighbours && u !in blocked && u !in rest ==> u in grown
      invariant target in grown ==> target in queue
    {
      var neighbour: nat :| neighbour in rest;
      rest := rest - {neighbour};
      assert neighbour in blocked || Step(free, node, neighbour);
      if neighbour !in blocked && !visited[neighbour] {
        visited[neighbour] := true;
        grown, queue := grown + {neighbour}, queue + [neighbour];
      }
    }
  }

  /** Separation of `left` and `right` by `conditioned` in the graph without the edges leaving `removed`. */
  method IsDSeparatedMoral(dag: CausalDag, left: nat, right: nat, conditioned: seq<nat>, removed: Option<nat>)
      returns (separated: bool)
    requires dag.Valid() && left < |dag.parents| && right < |dag.parents|
    requires left !in conditioned && right !in conditioned
    requires forall k :: 0 <= k < |conditioned| ==> conditioned[k] < |dag.parents|
    ensures separated <==> DSeparated(Pruned(dag, removed), left, right, Members(conditioned))
  {
    ghost var adj, z := Pruned(dag, removed), Members(conditioned);
    ghost var marked := AncestralSet(adj, left, right, z);
    PrunedIsOneWay(dag, removed);
    AncestralSetFacts(adj, left, right, z);
    var ancestral := new bool[|dag.parents|](_ => false);
    MarkAncestral(dag, left, right, conditioned, removed, ancestral);
    var moral := BuildMoral(dag, ancestral, removed, marked);
    MoralInRange(adj, marked, moral[..]);
    var blocked := set v | v in conditioned;
    separated := SearchMoral(moral, left, right, blocked);
    assert blocked == z;
    MoralCriterion(adj, left, right, z, marked, moral[..], WithoutConditioned(moral[..], z));
  }
}
