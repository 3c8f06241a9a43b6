/** Pearl's back-door criterion and its decision by d-separation in a pruned graph. */
module Backdoor {
  import opened Wrappers
  import opened Sorting
  import opened Finite
  import opened Reachability
  import opened Trails
  import opened CausalGraphs
  import opened DSeparation

  datatype BackdoorViolation =
    | ContainsDescendantOfTreatment(variable: nat)
    | UnblockedBackdoorPath

  datatype BackdoorVerdict = Satisfied | Violated(violation: BackdoorViolation)

  /** An open path without repeated nodes that enters the treatment through an arrow. */
  ghost predicate OpenBackdoorPath(parents: Adjacency, treatment: nat, outcome: nat, z: set<nat>, p: seq<nat>) {
    OpenBetween(parents, p, treatment, outcome, z) && Simple(p) && |p| > 1 && Edge(parents, p[1], p[0])
  }

  ghost predicate NoDescendants(parents: Adjacency, treatment: nat, z: set<nat>) {
    forall v :: v in z ==> !Descendant(parents, treatment, v)
  }

  /** Pearl's criterion for the unmodified graph. */
  ghost predicate BackdoorCriterion(parents: Adjacency, treatment: nat, outcome: nat, z: set<nat>) {
    && NoDescendants(parents, treatment, z)
    && !exists p :: OpenBackdoorPath(parents, treatment, outcome, z, p)
  }

  /** A path upwards from a non-descendant of `top` survives the deletion of the edges leaving `top`. */
  lemma ReachesWithoutTop(dag: CausalDag, top: nat, w: nat, v: nat)
    requires dag.Valid() && Reaches(dag.Parents(), w, v) && v != top
    requires w != top && !Descendant(dag.Parents(), top, w)
    ensures Reaches(Pruned(dag, Some(top)), w, v)
  {
    var adj, cut := dag.Parents(), Pruned(dag, Some(top));
    var p :| PathBetween(adj, p, w, v);
    forall i: nat | i + 1 < |p| ensures StepAt(cut, p, i) {
      assert StepAt(adj, p, i);
      if p[i + 1] == top {
        SegmentIsPath(adj, p, 0, i);
      }
    }
    assert PathBetween(cut, p, w, v);
  }

  /** Off the treatment the pruned graph has the same colliders; only arrows leaving it are gone. */
  lemma SameTrailPositions(dag: CausalDag, treatment: nat, z: set<nat>, p: seq<nat>, i: nat)
    requires dag.Valid() && 0 < i < |p| - 1 && Simple(p) && p[0] == treatment && Edge(dag.Parents(), p[1], p[0])
    ensures Collider(dag.Parents(), p, i) <==> Collider(Pruned(dag, Some(treatment)), p, i)
  {
    PrunedSteps(dag, Some(treatment));
    PrunedIsOneWay(dag, Some(treatment));
  }

  lemma BackdoorPathSurvivesPruning(dag: CausalDag, treatment: nat, outcome: nat, z: set<nat>, p: seq<nat>)
    requires dag.Valid() && treatment !in z && NoDescendants(dag.Parents(), treatment, z)
    requires OpenBackdoorPath(dag.Parents(), treatment, outcome, z, p)
    ensures OpenBetween(Pruned(dag, Some(treatment)), p, treatment, outcome, z)
  {
    var adj, cut := dag.Parents(), Pruned(dag, Some(treatment));
    PrunedSteps(dag, Some(treatment));
    forall i: nat | i + 1 < |p| ensures LinkAt(cut, p, i) {
      assert LinkAt(adj, p, i);
    }
    forall i: nat | 0 < i && i + 1 < |p| ensures OpenAt(cut, p, i, z) {
      assert OpenAt(adj, p, i, z);
      SameTrailPositions(dag, treatment, z, p, i);
      if Collider(adj, p, i) {
        var w :| w in z && Reaches(adj, w, p[i]);
        ReachesWithoutTop(dag, treatment, w, p[i]);
      }
    }
  }

  lemma PrunedPathIsBackdoorPath(dag: CausalDag, treatment: nat, outcome: nat, z: set<nat>, p: seq<nat>)
    requires dag.Valid() && treatment != outcome
    requires OpenBetween(Pruned(dag, Some(treatment)), p, treatment, outcome, z) && Simple(p)
    ensures OpenBackdoorPath(dag.Parents(), treatment, outcome, z, p)
  {
    var adj, cut := dag.Parents(), Pruned(dag, Some(treatment));
    PrunedSteps(dag, Some(treatment));
    forall i: nat | i + 1 < |p| ensures LinkAt(adj, p, i) {
      assert LinkAt(cut, p, i);
    }
    assert LinkAt(cut, p, 0);
    forall i: nat | 0 < i && i + 1 < |p| ensures OpenAt(adj, p, i, z) {
      assert OpenAt(cut, p, i, z);
      SameTrailPositions(dag, treatment, z, p, i);
      if Collider(adj, p, i) {
        var w :| w in z && Reaches(cut, w, p[i]);
        ReachesMonotone(cut, adj, w, p[i]);
      }
    }
  }

  /** When no descendant of the treatment is adjusted for, the open back-door paths are the open trails
      of the graph without the treatment's outgoing edges. */
  lemma BackdoorByPruning(dag: CausalDag, treatment: nat, outcome: nat, z: set<nat>)
    requires dag.Valid() && treatment != outcome && treatment !in z
    requires NoDescendants(dag.Parents(), treatment, z)
    ensures BackdoorCriterion(dag.Parents(), treatment, outcome, z) <==>
              DSeparated(Pruned(dag, Some(treatment)), treatment, outcome, z)
  {
    var cut := Pruned(dag, Some(treatment));
    if p :| OpenBackdoorPath(dag.Parents(), treatment, outcome, z, p) {
      BackdoorPathSurvivesPruning(dag, treatment, outcome, z, p);
    }
    if p :| OpenBetween(cut, p, treatment, outcome, z) {
      PrunedIsOneWay(dag, Some(treatment));
      var q := SimplifyTrail(cut, p, treatment, outcome, z);
      PrunedPathIsBackdoorPath(dag, treatment, outcome, z, q);
    }
  }

  // ---- Queries ----

  ghost predicate QueryValid(dag: CausalDag, treatment: nat, outcome: nat, adjustment: seq<nat>) {
    && treatment < |dag.parents| && outcome < |dag.parents| && treatment != outcome && Distinct(adjustment)
    && forall v :: v in adjustment ==> v < |dag.parents| && v != treatment && v != outcome
  }

  /** The adjustment variables below `v` raise no complaint. */
  ghost predicate FineBelow(dag: CausalDag, treatment: nat, outcome: nat, adjustment: seq<nat>, v: nat) {
    forall u :: u in adjustment && u < v ==> u < |dag.parents| && u != treatment && u != outcome
  }

  ghost predicate QueryFault(dag: CausalDag, treatment: nat, outcome: nat, adjustment: seq<nat>, e: CausalError) {
    var n := |dag.parents|;
    if treatment >= n then e == UnknownVariable(treatment)
    else if outcome >= n then e == UnknownVariable(outcome)
    else if treatment == outcome then e == SameEndpoint
    else if !Distinct(adjustment) then
      e.DuplicateAdjustmentVariable? && Repeats(adjustment, e.index) && forall x: nat :: Repeats(adjustment, x) ==> e.index <= x
    else if e.UnknownVariable? then
      e.index in adjustment && e.index >= n && FineBelow(dag, treatment, outcome, adjustment, e.index)
    else
      e.AdjustmentContainsEndpoint? && e.index in adjustment && (e.index == treatment || e.index == outcome)
      && FineBelow(dag, treatment, outcome, adjustment, e.index)
  }

  /** Sorts the adjustment variables and checks them in increasing order. */
  method ValidateQuery(dag: CausalDag, treatment: nat, outcome: nat, adjustment: seq<nat>)
      returns (r: Result<seq<nat>, CausalError>)
    ensures r.Ok? <==> QueryValid(dag, treatment, outcome, adjustment)
    ensures r.Ok? ==> r.value == SortNats(adjustment)
    ensures r.Err? ==> QueryFault(dag, treatment, outcome, adjustment, r.error)
  {
    if treatment >= |dag.parents| { return Err(UnknownVariable(treatment)); }
    if outcome >= |dag.parents| { return Err(UnknownVariable(outcome)); }
    if treatment == outcome { return Err(SameEndpoint); }
    var sorted := SortNats(adjustment);
    var k: nat := 0;
    while k + 1 < |sorted|
      invariant forall i :: EqualNeighbours(sorted, i) ==> k <= i
    {
      if sorted[k] == sorted[k + 1] {
        FirstNeighboursRepeatLeast(adjustment, sorted, k);
        return Err(DuplicateAdjustmentVariable(sorted[k]));
      }
      k := k + 1;
    }
    NoRepetition(adjustment, sorted);
    r := CheckSortedVariables(dag, treatment, outcome, adjustment, sorted);
  }

  method CheckSortedVariables(dag: CausalDag, treatment: nat, outcome: nat, ghost adjustment: seq<nat>, sorted: seq<nat>)
      returns (r: Result<seq<nat>, CausalError>)
    requires treatment < |dag.parents| && outcome < |dag.parents| && treatment != outcome
    requires Distinct(adjustment) && sorted == SortNats(adjustment)
    ensures r.Ok? <==> QueryValid(dag, treatment, outcome, adjustment)
    ensures r.Ok? ==> r.value == sorted
    ensures r.Err? ==> QueryFault(dag, treatment, outcome, adjustment, r.error)
  {
    for m := 0 to |sorted|
      invariant forall i :: 0 <= i < m ==> sorted[i] < |dag.parents| && sorted[i] != treatment && sorted[i] != outcome
    {
      var variable: nat := sorted[m];
      assert variable in adjustment;
      forall u | u in adjustment && u < variable ensures u < |dag.parents| && u != treatment && u != outcome {
        assert u in sorted;
      }
      if variable >= |dag.parents| { return Err(UnknownVariable(variable)); }
      if variable == treatment || variable == outcome { return Err(AdjustmentContainsEndpoint(variable)); }
    }
    assert forall v :: v in adjustment ==> v in sorted;
    return Ok(sorted);
  }

  lemma {:induction false} NoRepetition(adjustment: seq<nat>, sorted: seq<nat>)
    requires Sorted(sorted) && multiset(sorted) == multiset(adjustment)
    requires forall i :: !EqualNeighbours(sorted, i)
    ensures Distinct(adjustment)
  {
    forall x ensures !Repeats(adjustment, x) {
      SortedRepetitions(adjustment, sorted, x);
    }
    DistinctIffNoRepeats(adjustment);
  }

  // ---- The verdict ----

  ghost predicate VerdictIsRight(dag: CausalDag, treatment: nat, outcome: nat, adjustment: seq<nat>, verdict: BackdoorVerdict) {
    var z := Members(adjustment);
    match verdict
    case Satisfied => BackdoorCriterion(dag.Parents(), treatment, outcome, z)
    case Violated(ContainsDescendantOfTreatment(variable)) =>
      exists k :: 0 <= k < |adjustment| && adjustment[k] == variable && Descendant(dag.Parents(), treatment, variable)
        && NoDescendants(dag.Parents(), treatment, Members(adjustment[..k]))
    case Violated(UnblockedBackdoorPath) =>
      NoDescendants(dag.Parents(), treatment, z)
      && exists p :: OpenBackdoorPath(dag.Parents(), treatment, outcome, z, p)
  }

  method CheckBackdoorCriterionValidated(dag: CausalDag, treatment: nat, outcome: nat, adjustment: seq<nat>)
      returns (verdict: BackdoorVerdict)
    requires dag.Valid() && QueryValid(dag, treatment, outcome, adjustment)
    ensures VerdictIsRight(dag, treatment, outcome, adjustment, verdict)
  {
    var descendants := Descendants(dag, treatment);
    for k := 0 to |adjustment|
      invariant NoDescendants(dag.Parents(), treatment, Members(adjustment[..k]))
    {
      if adjustment[k] in descendants {
        return Violated(ContainsDescendantOfTreatment(adjustment[k]));
      }
      assert Members(adjustment[..k + 1]) == Members(adjustment[..k]) + {adjustment[k]};
    }
    assert adjustment[..|adjustment|] == adjustment;
    assert forall k :: 0 <= k < |adjustment| ==> adjustment[k] in adjustment;
    BackdoorByPruning(dag, treatment, outcome, Members(adjustment));
    var separated := IsDSeparatedMoral(dag, treatment, outcome, adjustment, Some(treatment));
    return if separated then Satisfied else Violated(UnblockedBackdoorPath);
  }

  method CheckBackdoorCriterion(dag: CausalDag, treatment: nat, outcome: nat, adjustment: seq<nat>)
      returns (r: Result<BackdoorVerdict, CausalError>)
    requires dag.Valid()
    ensures r.Ok? <==> QueryValid(dag, treatment, outcome, adjustment)
    ensures r.Ok? ==> VerdictIsRight(dag, treatment, outcome, SortNats(adjustment), r.value)
    ensures r.Ok? ==> (r.value.Satisfied? <==> BackdoorCriterion(dag.Parents(), treatment, outcome, Members(adjustment)))
    ensures r.Err? ==> QueryFault(dag, treatment, outcome, adjustment, r.error)
  {
    var query := ValidateQuery(dag, treatment, outcome, adjustment);
    if query.Err? { return Err(query.error); }
    SortDistinct(adjustment);
    assert Members(query.value) == Members(adjustment);
    var verdict := CheckBackdoorCriterionValidated(dag, treatment, outcome, query.value);
    return Ok(verdict);
  }
}
