/** Assignments in which some variables have no value yet. */
module PartialAssignments {
  import opened Wrappers

  type Partial = seq<Option<int>>

  ghost predicate Extends(a: seq<int>, p: Partial) {
    |a| == |p| && forall v :: 0 <= v < |p| && p[v].Some? ==> a[v] == p[v].value
  }

  ghost predicate Complete(p: Partial) {
    forall v :: 0 <= v < |p| ==> p[v].Some?
  }

  /** Number of unassigned variables. */
  ghost function Open(p: Partial): nat {
    if p == [] then 0 else Open(p[..|p| - 1]) + if p[|p| - 1] == None then 1 else 0
  }

  lemma {:induction false} AssigningClosesOne(p: Partial, v: nat, x: int)
    requires v < |p| && p[v] == None
    ensures Open(p[v := Some(x)]) == Open(p) - 1
  {
    var q := p[v := Some(x)];
    if v < |p| - 1 {
      AssigningClosesOne(p[..|p| - 1], v, x);
      assert q[..|p| - 1] == p[..|p| - 1][v := Some(x)];
    } else {
      assert q[..|p| - 1] == p[..|p| - 1];
    }
  }

  method Values(p: array<Option<int>>) returns (a: seq<int>)
    requires Complete(p[..])
    ensures Extends(a, p[..])
  {
    a := [];
    for v := 0 to p.Length
      invariant |a| == v && forall w :: 0 <= w < v ==> a[w] == p[w].value
    {
      assert p[..][v].Some?;
      a := a + [p[v].value];
    }
  }

  /** Giving variable `v` a value splits the assignments that extend `p`. */
  lemma {:induction false} ExtendsWithValue(a: seq<int>, p: Partial, v: nat, x: int)
    requires v < |p| && p[v] == None
    ensures Extends(a, p[v := Some(x)]) <==> Extends(a, p) && a[v] == x
  {
    var q := p[v := Some(x)];
    if Extends(a, q) {
      assert q[v].Some?;
      forall w | 0 <= w < |p| && p[w].Some? ensures a[w] == p[w].value {
        assert q[w] == p[w];
      }
    }
  }
}
