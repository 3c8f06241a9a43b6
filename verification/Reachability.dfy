/** Paths over adjacency sets: `adj[v]` holds the nodes one step away from `v`. */
module Reachability {
  import opened Finite

  type Adjacency = seq<set<nat>>

  ghost predicate InRange(adj: Adjacency) {
    forall v, u :: 0 <= v < |adj| && u in adj[v] ==> u < |adj|
  }

  ghost predicate Step(adj: Adjacency, v: nat, u: nat) {
    v < |adj| && u in adj[v]
  }

  ghost predicate StepAt(adj: Adjacency, p: seq<nat>, i: nat)
    requires i + 1 < |p|
  {
    Step(adj, p[i], p[i + 1])
  }

  ghost predicate IsPath(adj: Adjacency, p: seq<nat>) {
    |p| > 0 && forall i: nat :: i + 1 < |p| ==> StepAt(adj, p, i)
  }

  ghost predicate PathBetween(adj: Adjacency, p: seq<nat>, a: nat, b: nat) {
    IsPath(adj, p) && p[0] == a && p[|p| - 1] == b
  }

  /** `b` can be reached from `a` in zero or more steps. */
  ghost predicate Reaches(adj: Adjacency, a: nat, b: nat) {
    exists p :: PathBetween(adj, p, a, b)
  }

  lemma ReachesSelf(adj: Adjacency, a: nat)
    ensures Reaches(adj, a, a)
  {
    assert PathBetween(adj, [a], a, a);
  }

  lemma PathsJoin(adj: Adjacency, p: seq<nat>, q: seq<nat>)
    requires IsPath(adj, p) && IsPath(adj, q) && Step(adj, p[|p| - 1], q[0])
    ensures IsPath(adj, p + q)
  {
    forall i: nat | i + 1 < |p + q| ensures StepAt(adj, p + q, i) {
      if i + 1 < |p| {
        assert StepAt(adj, p, i);
      } else if i >= |p| {
        assert StepAt(adj, q, i - |p|);
      }
    }
  }

  lemma ReachesStep(adj: Adjacency, a: nat, b: nat, c: nat)
    requires Reaches(adj, a, b) && Step(adj, b, c)
    ensures Reaches(adj, a, c)
  {
    var p :| PathBetween(adj, p, a, b);
    PathsJoin(adj, p, [c]);
    assert PathBetween(adj, p + [c], a, c);
  }

  lemma StepReaches(adj: Adjacency, a: nat, b: nat, c: nat)
    requires Step(adj, a, b) && Reaches(adj, b, c)
    ensures Reaches(adj, a, c)
  {
    var p :| PathBetween(adj, p, b, c);
    PathsJoin(adj, [a], p);
    assert PathBetween(adj, [a] + p, a, c);
  }

  lemma SegmentIsPath(adj: Adjacency, p: seq<nat>, i: nat, j: nat)
    requires IsPath(adj, p) && i <= j < |p|
    ensures PathBetween(adj, p[i..j + 1], p[i], p[j])
    ensures Reaches(adj, p[i], p[j])
  {
    var q := p[i..j + 1];
    forall k: nat | k + 1 < |q| ensures StepAt(adj, q, k) {
      assert StepAt(adj, p, i + k);
    }
    assert PathBetween(adj, q, p[i], p[j]);
  }

  /** A set closed under `adj` holds everything reachable from its members. */
  lemma ClosedSetHoldsReachable(adj: Adjacency, s: set<nat>, a: nat, b: nat)
    requires a in s && Reaches(adj, a, b)
    requires forall v, u :: v in s && Step(adj, v, u) ==> u in s
    ensures b in s
  {
    var p :| PathBetween(adj, p, a, b);
    var i := 0;
    while i < |p| - 1
      invariant 0 <= i < |p|
      invariant p[i] in s
    {
      assert StepAt(adj, p, i);
      i := i + 1;
    }
  }

  /** Reachability grows with the adjacency sets. */
  lemma ReachesMonotone(adj: Adjacency, wider: Adjacency, a: nat, b: nat)
    requires Reaches(adj, a, b)
    requires forall v, u :: Step(adj, v, u) ==> Step(wider, v, u)
    ensures Reaches(wider, a, b)
  {
    var p :| PathBetween(adj, p, a, b);
    forall i: nat | i + 1 < |p| ensures StepAt(wider, p, i) {
      assert StepAt(adj, p, i);
    }
    assert PathBetween(wider, p, a, b);
  }

  function Reverse(p: seq<nat>): (r: seq<nat>)
    ensures |r| == |p|
    ensures forall i :: 0 <= i < |p| ==> r[i] == p[|p| - 1 - i]
  {
    seq(|p|, i requires 0 <= i < |p| => p[|p| - 1 - i])
  }

  /** Walking backwards over the opposite adjacency. */
  lemma ReachesReversed(adj: Adjacency, opposite: Adjacency, a: nat, b: nat)
    requires Reaches(adj, a, b)
    requires forall v, u :: Step(adj, v, u) ==> Step(opposite, u, v)
    ensures Reaches(opposite, b, a)
  {
    var p :| PathBetween(adj, p, a, b);
    var r := Reverse(p);
    forall i: nat | i + 1 < |r| ensures StepAt(opposite, r, i) {
      assert StepAt(adj, p, |p| - 2 - i);
    }
    assert PathBetween(opposite, r, b, a);
  }

  /** No node lies on a directed cycle. */
  ghost predicate Acyclic(adj: Adjacency) {
    forall v, u :: Step(adj, v, u) ==> !Reaches(adj, u, v)
  }

  lemma AcyclicHasNoTwoCycle(adj: Adjacency, v: nat, u: nat)
    requires Acyclic(adj) && Step(adj, v, u)
    ensures !Step(adj, u, v) && u != v
  {
    ReachesSelf(adj, u);
    if Step(adj, u, v) { ReachesStep(adj, u, u, v); }
  }

  ghost predicate HasSuccessorIn(adj: Adjacency, s: set<nat>, v: nat) {
    exists u :: u in s && Step(adj, v, u)
  }

  lemma {:induction false} LongPathInside(adj: Adjacency, s: set<nat>, length: nat) returns (p: seq<nat>)
    requires s != {} && length > 0
    requires forall v {:trigger HasSuccessorIn(adj, s, v)} :: v in s ==> HasSuccessorIn(adj, s, v)
    ensures IsPath(adj, p) && |p| == length
    ensures forall x :: x in p ==> x in s
  {
    if length == 1 {
      var start :| start in s;
      p := [start];
    } else {
      var q := LongPathInside(adj, s, length - 1);
      assert HasSuccessorIn(adj, s, q[|q| - 1]);
      var u :| u in s && Step(adj, q[|q| - 1], u);
      PathsJoin(adj, q, [u]);
      p := q + [u];
    }
  }

  /** A finite non-empty set in which every node has a successor contains a cycle. */
  lemma EndlessSetHasCycle(adj: Adjacency, s: set<nat>)
    requires s != {}
    requires forall v {:trigger HasSuccessorIn(adj, s, v)} :: v in s ==> HasSuccessorIn(adj, s, v)
    ensures !Acyclic(adj)
  {
    var p := LongPathInside(adj, s, |s| + 1);
    var i, j := Pigeonhole(p, s);
    SegmentIsPath(adj, p, i + 1, j);
    assert StepAt(adj, p, i);
  }
}
