/** Trails of a directed graph and the meaning of d-separation.
    A graph is given by its parent sets: `u in parents[v]` is the edge u -> v. */
module Trails {
  import opened Reachability

  ghost predicate Edge(parents: Adjacency, u: nat, v: nat) {
    Step(parents, v, u)
  }

  ghost predicate Adjacent(parents: Adjacency, u: nat, v: nat) {
    Edge(parents, u, v) || Edge(parents, v, u)
  }

  ghost predicate LinkAt(parents: Adjacency, p: seq<nat>, i: nat)
    requires i + 1 < |p|
  {
    Adjacent(parents, p[i], p[i + 1])
  }

  /** Consecutive nodes are joined by an edge, whichever way it points. */
  ghost predicate IsTrail(parents: Adjacency, p: seq<nat>) {
    |p| > 0 && forall i: nat :: i + 1 < |p| ==> LinkAt(parents, p, i)
  }

  /** Both neighbours of the interior position `i` point into it. */
  ghost predicate Collider(parents: Adjacency, p: seq<nat>, i: nat)
    requires 0 < i && i + 1 < |p|
  {
    Edge(parents, p[i - 1], p[i]) && Edge(parents, p[i + 1], p[i])
  }

  /** `v` or one of its descendants belongs to `z`. */
  ghost predicate Observed(parents: Adjacency, z: set<nat>, v: nat) {
    exists w :: w in z && Reaches(parents, w, v)
  }

  ghost predicate OpenAt(parents: Adjacency, p: seq<nat>, i: nat, z: set<nat>)
    requires 0 < i && i + 1 < |p|
  {
    if Collider(parents, p, i) then Observed(parents, z, p[i]) else p[i] !in z
  }

  /** The conditioning set `z` blocks `p` at no interior node. */
  ghost predicate Open(parents: Adjacency, p: seq<nat>, z: set<nat>) {
    IsTrail(parents, p) && forall i: nat :: 0 < i && i + 1 < |p| ==> OpenAt(parents, p, i, z)
  }

  ghost predicate OpenBetween(parents: Adjacency, p: seq<nat>, a: nat, b: nat, z: set<nat>) {
    Open(parents, p, z) && p[0] == a && p[|p| - 1] == b
  }

  ghost predicate DSeparated(parents: Adjacency, a: nat, b: nat, z: set<nat>) {
    !exists p :: OpenBetween(parents, p, a, b, z)
  }

  ghost predicate OneWay(parents: Adjacency) {
    forall u, v :: Edge(parents, u, v) ==> !Edge(parents, v, u)
  }

  /** A self-or-ancestor of an endpoint or of a conditioned node. */
  ghost predicate Ancestral(parents: Adjacency, a: nat, b: nat, z: set<nat>, v: nat) {
    Reaches(parents, a, v) || Reaches(parents, b, v) || Observed(parents, z, v)
  }

  lemma ObservedStep(parents: Adjacency, z: set<nat>, u: nat, v: nat)
    requires Edge(parents, u, v) && Observed(parents, z, v)
    ensures Observed(parents, z, u)
  {
    var w :| w in z && Reaches(parents, w, v);
    ReachesStep(parents, w, v, u);
  }

  lemma ConditionedIsObserved(parents: Adjacency, z: set<nat>, v: nat)
    requires v in z
    ensures Observed(parents, z, v)
  {
    ReachesSelf(parents, v);
  }

  /** Leaving a trail's node forwards leads to an observed collider or to the far end. */
  lemma {:induction false} ForwardFromNode(parents: Adjacency, p: seq<nat>, z: set<nat>, i: nat)
    requires Open(parents, p, z) && i + 1 < |p| && Edge(parents, p[i], p[i + 1])
    ensures Observed(parents, z, p[i]) || Reaches(parents, p[|p| - 1], p[i])
    decreases |p| - i
  {
    if i + 2 == |p| {
      ReachesSelf(parents, p[i + 1]);
      ReachesStep(parents, p[i + 1], p[i + 1], p[i]);
    } else {
      assert OpenAt(parents, p, i + 1, z) && LinkAt(parents, p, i + 1);
      if !Collider(parents, p, i + 1) {
        ForwardFromNode(parents, p, z, i + 1);
      }
      if Observed(parents, z, p[i + 1]) {
        ObservedStep(parents, z, p[i], p[i + 1]);
      } else {
        ReachesStep(parents, p[|p| - 1], p[i + 1], p[i]);
      }
    }
  }

  lemma OpenReversed(parents: Adjacency, p: seq<nat>, z: set<nat>)
    requires Open(parents, p, z)
    ensures Open(parents, Reverse(p), z)
  {
    var r := Reverse(p);
    forall i: nat | i + 1 < |r| ensures LinkAt(parents, r, i) {
      assert LinkAt(parents, p, |p| - 2 - i);
    }
    forall i: nat | 0 < i && i + 1 < |r| ensures OpenAt(parents, r, i, z) {
      assert OpenAt(parents, p, |p| - 1 - i, z);
    }
  }

  /** Every node of an open trail is ancestral. */
  lemma OpenTrailIsAncestral(parents: Adjacency, p: seq<nat>, a: nat, b: nat, z: set<nat>, i: nat)
    requires OpenBetween(parents, p, a, b, z) && i < |p|
    ensures Ancestral(parents, a, b, z, p[i])
  {
    if i == 0 || i == |p| - 1 {
      ReachesSelf(parents, p[i]);
    } else {
      assert OpenAt(parents, p, i, z) && LinkAt(parents, p, i) && LinkAt(parents, p, i - 1);
      if Edge(parents, p[i], p[i + 1]) {
        ForwardFromNode(parents, p, z, i);
      } else if Edge(parents, p[i], p[i - 1]) {
        OpenReversed(parents, p, z);
        ForwardFromNode(parents, Reverse(p), z, |p| - 1 - i);
      }
    }
  }

  // ---- Open trails follow moral edges ----

  /** `moral` joins two ancestral nodes that are adjacent or share an ancestral child. */
  ghost predicate Married(parents: Adjacency, ancestral: set<nat>, u: nat, v: nat) {
    u != v && exists c :: c in ancestral && Edge(parents, u, c) && Edge(parents, v, c)
  }

  ghost predicate MoralEdge(parents: Adjacency, ancestral: set<nat>, u: nat, v: nat) {
    u in ancestral && v in ancestral && (Adjacent(parents, u, v) || Married(parents, ancestral, u, v))
  }

  ghost predicate IsMoralGraph(parents: Adjacency, ancestral: set<nat>, moral: Adjacency) {
    forall u, v :: Step(moral, u, v) <==> MoralEdge(parents, ancestral, u, v)
  }

  /** The moral graph with every conditioned node made unreachable. */
  ghost predicate Avoiding(moral: Adjacency, z: set<nat>, free: Adjacency) {
    forall u, v :: Step(free, u, v) <==> Step(moral, u, v) && v !in z
  }

  ghost predicate IsAncestralSet(parents: Adjacency, a: nat, b: nat, z: set<nat>, ancestral: set<nat>) {
    forall v :: v in ancestral <==> Ancestral(parents, a, b, z, v)
  }

  /** The setting of the separation test: everything it computes before the final search. */
  ghost predicate MoralSetting(parents: Adjacency, a: nat, b: nat, z: set<nat>,
                               ancestral: set<nat>, moral: Adjacency, free: Adjacency) {
    && OneWay(parents) && a !in z && b !in z
    && IsAncestralSet(parents, a, b, z, ancestral)
    && IsMoralGraph(parents, ancestral, moral) && Avoiding(moral, z, free)
  }

  ghost predicate PassesThrough(parents: Adjacency, p: seq<nat>, i: nat) {
    i < |p| && (0 < i && i + 1 < |p| ==> !Collider(parents, p, i))
  }

  /** Skipping colliders turns an open trail into a moral path outside `z`. */
  lemma {:induction false} OpenTrailReachesMorally(parents: Adjacency, p: seq<nat>, a: nat, b: nat, z: set<nat>,
                                 ancestral: set<nat>, moral: Adjacency, free: Adjacency, i: nat)
    requires MoralSetting(parents, a, b, z, ancestral, moral, free)
    requires OpenBetween(parents, p, a, b, z) && PassesThrough(parents, p, i)
    ensures Reaches(free, a, p[i])
    decreases i
  {
    if i == 0 {
      ReachesSelf(free, a);
    } else {
      OpenTrailIsAncestral(parents, p, a, b, z, i);
      OpenTrailIsAncestral(parents, p, a, b, z, i - 1);
      assert LinkAt(parents, p, i - 1);
      assert p[i] !in z by {
        if i + 1 < |p| { assert OpenAt(parents, p, i, z); }
      }
      if PassesThrough(parents, p, i - 1) {
        OpenTrailReachesMorally(parents, p, a, b, z, ancestral, moral, free, i - 1);
        assert MoralEdge(parents, ancestral, p[i - 1], p[i]);
        ReachesStep(free, a, p[i - 1], p[i]);
      } else {
        OpenTrailIsAncestral(parents, p, a, b, z, i - 2);
        assert Edge(parents, p[i - 2], p[i - 1]) && Edge(parents, p[i], p[i - 1]);
        OpenTrailReachesMorally(parents, p, a, b, z, ancestral, moral, free, i - 2);
        if p[i - 2] != p[i] {
          assert Married(parents, ancestral, p[i - 2], p[i]);
          ReachesStep(free, a, p[i - 2], p[i]);
        }
      }
    }
  }

  // ---- Moral paths yield open trails ----

  lemma OpenAppend(parents: Adjacency, p: seq<nat>, z: set<nat>, u: nat)
    requires Open(parents, p, z) && Adjacent(parents, p[|p| - 1], u)
    requires |p| > 1 ==> OpenAt(parents, p + [u], |p| - 1, z)
    ensures Open(parents, p + [u], z)
  {
    var q := p + [u];
    forall i: nat | i + 1 < |q| ensures LinkAt(parents, q, i) {
      if i + 1 < |p| { assert LinkAt(parents, p, i); }
    }
    forall i: nat | 0 < i && i + 1 < |q| ensures OpenAt(parents, q, i, z) {
      if i + 1 < |p| { assert OpenAt(parents, p, i, z); }
    }
  }

  /** A path upwards to an unobserved node meets no conditioned node. */
  lemma UnobservedPathAvoids(parents: Adjacency, w: seq<nat>, z: set<nat>, i: nat)
    requires IsPath(parents, w) && !Observed(parents, z, w[|w| - 1]) && i < |w|
    ensures w[i] !in z
  {
    SegmentIsPath(parents, w, i, |w| - 1);
  }

  /** The ancestors' path `w`, read from its lower end, is an open trail. */
  lemma UpwardPathIsOpen(parents: Adjacency, w: seq<nat>, z: set<nat>)
    requires OneWay(parents) && IsPath(parents, w) && !Observed(parents, z, w[|w| - 1])
    ensures Open(parents, w, z)
  {
    forall i: nat | i + 1 < |w| ensures LinkAt(parents, w, i) {
      assert StepAt(parents, w, i);
    }
    forall i: nat | 0 < i && i + 1 < |w| ensures OpenAt(parents, w, i, z) {
      assert StepAt(parents, w, i) && StepAt(parents, w, i - 1);
      UnobservedPathAvoids(parents, w, z, i);
    }
  }

  /** An open trail that ends in an unobserved ancestor of `b` continues down to `b`. */
  lemma {:induction false} DescendTo(parents: Adjacency, p: seq<nat>, z: set<nat>, w: seq<nat>) returns (q: seq<nat>)
    requires OneWay(parents) && Open(parents, p, z) && IsPath(parents, w)
    requires w[|w| - 1] == p[|p| - 1] && !Observed(parents, z, p[|p| - 1])
    ensures Open(parents, q, z) && q[0] == p[0] && q[|q| - 1] == w[0]
    decreases |w|
  {
    if |w| == 1 {
      q := p;
    } else {
      var next := w[|w| - 2];
      assert StepAt(parents, w, |w| - 2);
      UnobservedPathAvoids(parents, w, z, |w| - 1);
      OpenAppend(parents, p, z, next);
      SegmentIsPath(parents, w, 0, |w| - 2);
      if Observed(parents, z, next) { ObservedStep(parents, z, p[|p| - 1], next); }
      q := DescendTo(parents, p + [next], z, w[0..|w| - 1]);
    }
  }

  /** Extends an open trail by one edge, or else completes it to `b`: a closed collider at the
      junction is an ancestor of an endpoint, so the trail can leave it there or be replaced. */
  lemma Extend(parents: Adjacency, p: seq<nat>, a: nat, b: nat, z: set<nat>, u: nat) returns (q: seq<nat>, arrived: bool)
    requires OneWay(parents) && Open(parents, p, z) && p[0] == a
    requires Ancestral(parents, a, b, z, p[|p| - 1]) && Adjacent(parents, p[|p| - 1], u)
    requires PassesThrough(parents, p + [u], |p| - 1) && |p| > 1 ==> p[|p| - 1] !in z
    ensures Open(parents, q, z) && q[0] == a
    ensures if arrived then q[|q| - 1] == b else |q| > 1 && q[|q| - 2] == p[|p| - 1] && q[|q| - 1] == u
  {
    var v := p[|p| - 1];
    if |p| == 1 || !Collider(parents, p + [u], |p| - 1) || Observed(parents, z, v) {
      OpenAppend(parents, p, z, u);
      q, arrived := p + [u], false;
    } else if Reaches(parents, b, v) {
      var w :| PathBetween(parents, w, b, v);
      q := DescendTo(parents, p, z, w);
      arrived := true;
    } else {
      var w :| PathBetween(parents, w, a, v);
      UpwardPathIsOpen(parents, w, z);
      if |w| > 1 { assert StepAt(parents, w, |w| - 2); }
      UnobservedPathAvoids(parents, w, z, |w| - 1);
      OpenAppend(parents, w, z, u);
      q, arrived := w + [u], false;
    }
  }

  /** One moral edge, taken from the end of an open trail. */
  lemma FollowMoralEdge(parents: Adjacency, p: seq<nat>, a: nat, b: nat, z: set<nat>, ancestral: set<nat>, u: nat)
      returns (q: seq<nat>, arrived: bool)
    requires OneWay(parents) && IsAncestralSet(parents, a, b, z, ancestral)
    requires Open(parents, p, z) && p[0] == a && p[|p| - 1] !in z
    requires MoralEdge(parents, ancestral, p[|p| - 1], u)
    ensures OpenBetween(parents, q, a, if arrived then b else u, z)
  {
    var v := p[|p| - 1];
    if Adjacent(parents, v, u) {
      q, arrived := Extend(parents, p, a, b, z, u);
    } else {
      var c :| c in ancestral && Edge(parents, v, c) && Edge(parents, u, c);
      q, arrived := Extend(parents, p, a, b, z, c);
      if !arrived {
        assert Collider(parents, q + [u], |q| - 1);
        q, arrived := Extend(parents, q, a, b, z, u);
      }
    }
  }

  lemma {:induction false} MoralPathYieldsOpenTrail(parents: Adjacency, m: seq<nat>, a: nat, b: nat, z: set<nat>,
                                 ancestral: set<nat>, moral: Adjacency, free: Adjacency)
      returns (q: seq<nat>, arrived: bool)
    requires MoralSetting(parents, a, b, z, ancestral, moral, free)
    requires IsPath(free, m) && m[0] == a
    ensures OpenBetween(parents, q, a, if arrived then b else m[|m| - 1], z)
    decreases |m|
  {
    if |m| == 1 {
      q, arrived := [a], false;
    } else {
      var k := |m| - 2;
      SegmentIsPath(free, m, 0, k);
      q, arrived := MoralPathYieldsOpenTrail(parents, m[0..k + 1], a, b, z, ancestral, moral, free);
      if !arrived {
        assert StepAt(free, m, k);
        assert m[k] !in z by {
          if k > 0 { assert StepAt(free, m, k - 1); }
        }
        q, arrived := FollowMoralEdge(parents, q, a, b, z, ancestral, m[k + 1]);
      }
    }
  }

  /** The moral-graph criterion: `z` d-separates `a` from `b` exactly when no path of the
      moralised ancestral graph joins them outside `z`. */
  lemma MoralCriterion(parents: Adjacency, a: nat, b: nat, z: set<nat>,
                       ancestral: set<nat>, moral: Adjacency, free: Adjacency)
    requires MoralSetting(parents, a, b, z, ancestral, moral, free)
    ensures DSeparated(parents, a, b, z) <==> !Reaches(free, a, b)
  {
    if p :| OpenBetween(parents, p, a, b, z) {
      OpenTrailReachesMorally(parents, p, a, b, z, ancestral, moral, free, |p| - 1);
    }
    if m :| PathBetween(free, m, a, b) {
      var q, arrived := MoralPathYieldsOpenTrail(parents, m, a, b, z, ancestral, moral, free);
    }
  }

  // ---- Trails without repeated nodes ----

  ghost predicate Simple(p: seq<nat>) {
    forall i, j :: 0 <= i < j < |p| ==> p[i] != p[j]
  }

  /** Between two departures that point at each other lies a collider, so both ends are observed. */
  lemma {:induction false} FacingDepartures(parents: Adjacency, p: seq<nat>, z: set<nat>, i: nat, j: nat)
    requires OneWay(parents) && Open(parents, p, z) && i < j < |p|
    requires Edge(parents, p[i], p[i + 1]) && Edge(parents, p[j], p[j - 1])
    ensures Observed(parents, z, p[i])
    decreases j - i
  {
    assert i + 1 < j && OpenAt(parents, p, i + 1, z) && LinkAt(parents, p, i + 1);
    if !Collider(parents, p, i + 1) {
      FacingDepartures(parents, p, z, i + 1, j);
    }
    ObservedStep(parents, z, p[i], p[i + 1]);
  }

  /** Cutting the loop between two visits of one node keeps a trail open. */
  lemma CutLoop(parents: Adjacency, p: seq<nat>, z: set<nat>, i: nat, j: nat)
    requires OneWay(parents) && Open(parents, p, z) && i < j < |p| && p[i] == p[j]
    ensures Open(parents, p[..i] + p[j..], z)
  {
    var q := p[..i] + p[j..];
    forall k: nat | k + 1 < |q| ensures LinkAt(parents, q, k) {
      if k < i { assert LinkAt(parents, p, k); } else { assert LinkAt(parents, p, k + (j - i)); }
    }
    forall k: nat | 0 < k && k + 1 < |q| ensures OpenAt(parents, q, k, z) {
      if k < i {
        assert OpenAt(parents, p, k, z);
      } else {
        assert OpenAt(parents, p, k + (j - i), z);
        if k == i { CutLoopJunction(parents, p, z, i, j); }
      }
    }
  }

  lemma CutLoopJunction(parents: Adjacency, p: seq<nat>, z: set<nat>, i: nat, j: nat)
    requires OneWay(parents) && Open(parents, p, z) && 0 < i < j < |p| - 1 && p[i] == p[j]
    ensures OpenAt(parents, p[..i] + p[j..], i, z)
  {
    var q := p[..i] + p[j..];
    assert q[i - 1] == p[i - 1] && q[i] == p[i] && q[i + 1] == p[j + 1];
    assert OpenAt(parents, p, i, z) && OpenAt(parents, p, j, z);
    assert LinkAt(parents, p, i) && LinkAt(parents, p, j - 1);
    if Collider(parents, q, i) && !Collider(parents, p, i) && !Collider(parents, p, j) {
      FacingDepartures(parents, p, z, i, j);
    }
  }

  /** Whenever an open trail exists, one that repeats no node exists too. */
  lemma {:induction false} SimplifyTrail(parents: Adjacency, p: seq<nat>, a: nat, b: nat, z: set<nat>) returns (q: seq<nat>)
    requires OneWay(parents) && OpenBetween(parents, p, a, b, z)
    ensures OpenBetween(parents, q, a, b, z) && Simple(q)
    decreases |p|
  {
    if i, j :| 0 <= i < j < |p| && p[i] == p[j] {
      CutLoop(parents, p, z, i, j);
      q := SimplifyTrail(parents, p[..i] + p[j..], a, b, z);
    } else {
      q := p;
    }
  }
}
