/** Choosing the next variable of a partial assignment, and how large a search over the open variables can get. */
module OpenVariables {
  import opened Wrappers
  import opened Finite
  import opened Filtering
  import opened Sorting
  import opened PartialAssignments

  /** Every assigned value comes from its domain. */
  ghost predicate FromDomains(d: Domains, p: Partial) {
    |p| == |d| && forall v :: 0 <= v < |p| && p[v].Some? ==> p[v].value in d[v]
  }

  /** `u` has fewer values than `v`, or as many and a smaller index. */
  ghost predicate ComesFirst(d: Domains, u: nat, v: nat)
    requires u < |d| && v < |d|
  {
    |d[u]| < |d[v]| || (|d[u]| == |d[v]| && u < v)
  }

  /** `v` is the first of the open variables. */
  ghost predicate SmallestOpen(d: Domains, p: Partial, v: nat) {
    && v < |p| == |d| && p[v] == None
    && forall w: nat :: w < |p| && p[w] == None && w != v ==> ComesFirst(d, v, w)
  }

  method SelectOpen(d: Domains, p: array<Option<int>>) returns (choice: Option<nat>)
    requires |d| == p.Length
    ensures choice == None <==> Complete(p[..])
    ensures choice.Some? ==> SmallestOpen(d, p[..], choice.value)
  {
    choice := None;
    for w := 0 to p.Length
      invariant choice == None <==> forall v :: 0 <= v < w ==> p[v].Some?
      invariant choice.Some? ==> SmallestOpen(d[..w], p[..w], choice.value)
    {
      assert forall v :: 0 <= v < w ==> p[..w + 1][v] == p[..w][v] && d[..w + 1][v] == d[..w][v];
      if p[w] == None && (choice == None || |d[w]| < |d[choice.value]|) {
        choice := Some(w);
      }
    }
    assert d[..p.Length] == d && p[..p.Length] == p[..];
  }

  lemma {:induction false} CompleteHasOneExtension(p: Partial, a: seq<int>, b: seq<int>)
    requires Complete(p) && Extends(a, p) && Extends(b, p)
    ensures a == b
  {
    forall v | 0 <= v < |p| ensures a[v] == b[v] {
      assert p[v].Some?;
    }
  }

  // ---- Search trees in a fixed order ----

  ghost function OpenSet(p: Partial): (open: set<nat>)
    ensures forall v: nat :: v in open <==> v < |p| && p[v] == None
  {
    if p == [] then {}
    else OpenSet(p[..|p| - 1]) + if p[|p| - 1] == None then {|p| - 1} else {}
  }

  ghost predicate FirstOf(d: Domains, open: set<nat>, v: nat) {
    && v in open && v < |d|
    && forall w :: w in open && w != v ==> w < |d| && ComesFirst(d, v, w)
  }

  /** The nodes of the full search tree that branches on the variables in the order of `ComesFirst`,
      with one child for every different value. */
  ghost function TreeNodes(d: Domains, open: set<nat>): (n: nat)
    ensures n >= 1
    decreases |open|
  {
    if v: nat :| FirstOf(d, open, v) then 1 + Multiple(|SortDedup(d[v])|, TreeNodes(d, open - {v})) else 1
  }

  lemma {:induction false} TreeBranches(d: Domains, p: Partial, v: nat, x: int)
    requires SmallestOpen(d, p, v)
    ensures TreeNodes(d, OpenSet(p)) == 1 + Multiple(|SortDedup(d[v])|, TreeNodes(d, OpenSet(p[v := Some(x)])))
  {
    var open := OpenSet(p);
    assert FirstOf(d, open, v);
    assert forall w: nat :: FirstOf(d, open, w) ==> w == v;
    assert OpenSet(p[v := Some(x)]) == open - {v};
  }

  lemma {:induction false} SameOpen(p: Partial, v: nat, x: int, y: int)
    requires v < |p|
    ensures OpenSet(p[v := Some(x)]) == OpenSet(p[v := Some(y)])
  {
  }
}
