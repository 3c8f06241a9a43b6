/** The search for all inclusion-minimal back-door adjustment sets up to a size limit. */
module AdjustmentSets {
  import opened Wrappers
  import opened Sorting
  import opened Finite
  import opened Reachability
  import opened Trails
  import opened CausalGraphs
  import opened DSeparation
  import opened Backdoor

  // ---- Combinations ----

  /** `output` followed by all completions of `prefix` with `size` of the values in `values[start..]`, in the order of their positions. */
  function WithCompletions(values: seq<nat>, size: nat, start: nat, prefix: seq<nat>, output: seq<seq<nat>>): seq<seq<nat>>
    requires start <= |values|
    decreases |values| - start
  {
    if size == 0 then output + [prefix]
    else if start == |values| then output
    else WithCompletions(values, size, start + 1, prefix, WithCompletions(values, size - 1, start + 1, prefix + [values[start]], output))
  }

  /** The `size`-element selections from `values`. */
  function Combinations(values: seq<nat>, size: nat): seq<seq<nat>> {
    WithCompletions(values, size, 0, [], [])
  }

  lemma {:induction false} TooFewValues(values: seq<nat>, size: nat, start: nat, prefix: seq<nat>, output: seq<seq<nat>>)
    requires start <= |values| && |values| - start < size
    ensures WithCompletions(values, size, start, prefix, output) == output
    decreases |values| - start
  {
    if start < |values| {
      TooFewValues(values, size - 1, start + 1, prefix + [values[start]], output);
      TooFewValues(values, size, start + 1, prefix, output);
    }
  }

  ghost predicate OccursFrom(values: seq<nat>, start: nat, x: nat) {
    exists k :: start <= k < |values| && values[k] == x
  }

  ghost predicate Selection(values: seq<nat>, size: nat, start: nat, c: seq<nat>) {
    |c| == size && StrictlySorted(c) && forall i :: 0 <= i < |c| ==> OccursFrom(values, start, c[i])
  }

  lemma {:induction false} SelectionFromLater(values: seq<nat>, size: nat, start: nat, c: seq<nat>)
    requires Selection(values, size, start + 1, c)
    ensures Selection(values, size, start, c)
  {
    forall i | 0 <= i < |c| ensures OccursFrom(values, start, c[i]) {
      assert OccursFrom(values, start + 1, c[i]);
    }
  }

  lemma {:induction false} SelectionGrows(values: seq<nat>, size: nat, start: nat, c: seq<nat>)
    requires start < |values| && StrictlySorted(values) && size > 0 && c != [] && c[0] == values[start]
    requires Selection(values, size - 1, start + 1, c[1..])
    ensures Selection(values, size, start, c)
  {
    forall i | 0 <= i < |c| ensures OccursFrom(values, start, c[i]) && (i > 0 ==> c[0] < c[i]) {
      if i > 0 {
        assert OccursFrom(values, start + 1, c[1..][i - 1]);
      }
    }
    forall i, j | 0 <= i < j < |c| ensures c[i] < c[j] {
      if i > 0 { assert c[1..][i - 1] < c[1..][j - 1]; }
    }
  }

  lemma {:induction false} SelectionSplits(values: seq<nat>, size: nat, start: nat, c: seq<nat>)
    requires start < |values| && StrictlySorted(values) && size > 0 && Selection(values, size, start, c)
    ensures if c[0] == values[start] then Selection(values, size - 1, start + 1, c[1..])
            else Selection(values, size, start + 1, c)
  {
    assert OccursFrom(values, start, c[0]);
    forall i | 0 <= i < |c| && (i > 0 || c[0] != values[start]) ensures OccursFrom(values, start + 1, c[i]) {
      var k :| start <= k < |values| && values[k] == c[i];
      assert c[i] >= c[0] >= values[start];
    }
    assert forall i :: 0 <= i < |c| - 1 ==> c[1..][i] == c[i + 1];
  }

  /** `c` is `prefix` followed by a selection. */
  ghost predicate Completes(values: seq<nat>, size: nat, start: nat, prefix: seq<nat>, c: seq<nat>) {
    prefix <= c && Selection(values, size, start, c[|prefix|..])
  }

  /** A completion either takes `values[start]` or leaves it out, never both. */
  lemma {:induction false} CompletesSplits(values: seq<nat>, size: nat, start: nat, prefix: seq<nat>, c: seq<nat>)
    requires start < |values| && StrictlySorted(values) && size > 0
    ensures Completes(values, size, start, prefix, c) <==>
              Completes(values, size - 1, start + 1, prefix + [values[start]], c) || Completes(values, size, start + 1, prefix, c)
    ensures !(Completes(values, size - 1, start + 1, prefix + [values[start]], c) && Completes(values, size, start + 1, prefix, c))
  {
    if prefix <= c && |c| > |prefix| {
      var rest := c[|prefix|..];
      assert rest[1..] == c[|prefix| + 1..];
      assert rest[0] == values[start] <==> prefix + [values[start]] <= c;
      if Selection(values, size, start, rest) { SelectionSplits(values, size, start, rest); }
      if Selection(values, size, start + 1, rest) {
        SelectionFromLater(values, size, start, rest);
        assert OccursFrom(values, start + 1, rest[0]);
      }
      if rest[0] == values[start] && Selection(values, size - 1, start + 1, rest[1..]) { SelectionGrows(values, size, start, rest); }
    }
  }

  lemma {:induction false} CompletesEnds(values: seq<nat>, size: nat, start: nat, prefix: seq<nat>, c: seq<nat>)
    requires start <= |values| && (size == 0 || start == |values|)
    ensures Completes(values, size, start, prefix, c) <==> size == 0 && c == prefix
  {
    if size > 0 {
      assert prefix <= c && |c| > |prefix| ==> !OccursFrom(values, start, c[|prefix|..][0]);
    } else {
      assert prefix <= c && |c| == |prefix| ==> c == prefix;
    }
  }

  /** How often `c` is collected. */
  ghost function Copies(values: seq<nat>, size: nat, start: nat, prefix: seq<nat>, c: seq<nat>): nat
    requires start <= |values|
    decreases |values| - start
  {
    if size == 0 then (if c == prefix then 1 else 0)
    else if start == |values| then 0
    else Copies(values, size - 1, start + 1, prefix + [values[start]], c) + Copies(values, size, start + 1, prefix, c)
  }

  lemma {:induction false} CopiesCounted(values: seq<nat>, size: nat, start: nat, prefix: seq<nat>, output: seq<seq<nat>>, c: seq<nat>)
    requires start <= |values|
    ensures multiset(WithCompletions(values, size, start, prefix, output))[c] == multiset(output)[c] + Copies(values, size, start, prefix, c)
    decreases |values| - start
  {
    if size > 0 && start < |values| {
      var longer := prefix + [values[start]];
      CopiesCounted(values, size - 1, start + 1, longer, output, c);
      CopiesCounted(values, size, start + 1, prefix, WithCompletions(values, size - 1, start + 1, longer, output), c);
    }
  }

  /** Each selection occurs once, and nothing else occurs. */
  lemma {:induction false} CompletionsOnce(values: seq<nat>, size: nat, start: nat, prefix: seq<nat>, c: seq<nat>)
    requires start <= |values| && StrictlySorted(values)
    ensures Copies(values, size, start, prefix, c) == if Completes(values, size, start, prefix, c) then 1 else 0
    decreases |values| - start
  {
    if size == 0 || start == |values| {
      CompletesEnds(values, size, start, prefix, c);
    } else {
      CompletesSplits(values, size, start, prefix, c);
      CompletionsOnce(values, size - 1, start + 1, prefix + [values[start]], c);
      CompletionsOnce(values, size, start + 1, prefix, c);
    }
  }

  /** The enumeration is complete: it holds exactly the increasing selections. */
  lemma {:induction false} CombinationsComplete(values: seq<nat>, size: nat, c: seq<nat>)
    requires StrictlySorted(values)
    ensures c in Combinations(values, size) <==> Selection(values, size, 0, c)
  {
    CopiesCounted(values, size, 0, [], [], c);
    CompletionsOnce(values, size, 0, [], c);
    assert c in Combinations(values, size) <==> c in multiset(Combinations(values, size));
    assert c[0..] == c;
  }

  /** No selection is listed twice. */
  lemma {:induction false} CombinationsDistinct(values: seq<nat>, size: nat)
    requires StrictlySorted(values)
    ensures Distinct(Combinations(values, size))
  {
    forall c ensures multiset(Combinations(values, size))[c] <= 1 {
      CopiesCounted(values, size, 0, [], [], c);
      CompletionsOnce(values, size, 0, [], c);
    }
    CountedOnceMeansDistinct(Combinations(values, size));
  }

  /** The recursive enumerator, with its shared prefix and output list. */
  class CombinationCollector {
    var current: seq<nat>
    var output: seq<seq<nat>>

    constructor ()
      ensures current == [] && output == []
    {
      current, output := [], [];
    }

    /** Appends all completions of `current` and leaves `current` as it was. */
    method Collect(values: seq<nat>, targetSize: nat, start: nat)
      requires start <= |values| && |current| <= targetSize
      modifies this
      ensures current == old(current)
      ensures output == WithCompletions(values, targetSize - |current|, start, current, old(output))
      decreases |values| - start
    {
      if |current| == targetSize {
        output := output + [current];
        return;
      }
      var remainingNeeded := targetSize - |current|;
      if |values| - start < remainingNeeded {
        TooFewValues(values, remainingNeeded, start, current, output);
        return;
      }
      for index := start to |values|
        invariant current == old(current)
        invariant WithCompletions(values, remainingNeeded, index, current, output) == WithCompletions(values, remainingNeeded, start, current, old(output))
      {
        current := current + [values[index]];
        Collect(values, targetSize, index + 1);
        current := current[..|current| - 1];
      }
    }
  }

  // ---- Minimal sets ----

  ghost predicate ValidSet(dag: CausalDag, treatment: nat, outcome: nat, z: set<nat>) {
    && (forall v :: v in z ==> v < |dag.parents| && v != treatment && v != outcome)
    && BackdoorCriterion(dag.Parents(), treatment, outcome, z)
  }

  ghost predicate MinimalSet(dag: CausalDag, treatment: nat, outcome: nat, z: set<nat>) {
    ValidSet(dag, treatment, outcome, z) && forall y :: y < z ==> !ValidSet(dag, treatment, outcome, y)
  }

  lemma {:induction false} MinimalSetInside(dag: CausalDag, treatment: nat, outcome: nat, z: set<nat>) returns (m: set<nat>)
    requires ValidSet(dag, treatment, outcome, z)
    ensures m <= z && MinimalSet(dag, treatment, outcome, m)
    decreases |z|
  {
    if y :| y < z && ValidSet(dag, treatment, outcome, y) {
      SubsetCardinality(y, z);
      m := MinimalSetInside(dag, treatment, outcome, y);
    } else {
      m := z;
    }
  }

  lemma {:induction false} SetAsSortedList(m: set<nat>) returns (s: seq<nat>)
    ensures StrictlySorted(s) && Members(s) == m && |s| == |m|
  {
    if m == {} {
      s := [];
    } else {
      var x :| x in m;
      var rest := SetAsSortedList(m - {x});
      assert forall v :: v in rest <==> v in Members(rest);
      s := SortNats(rest + [x]);
      assert Members(s) == m;
      DistinctCardinality(s);
    }
  }

  /** The minimal sets of a list, in the order of the list. */
  ghost function MinimalOnes(dag: CausalDag, treatment: nat, outcome: nat, list: seq<seq<nat>>): seq<seq<nat>> {
    if list == [] then []
    else
      MinimalOnes(dag, treatment, outcome, list[..|list| - 1])
      + (if MinimalSet(dag, treatment, outcome, Members(list[|list| - 1])) then [list[|list| - 1]] else [])
  }

  lemma {:induction false} MinimalOnesMembers(dag: CausalDag, treatment: nat, outcome: nat, list: seq<seq<nat>>, c: seq<nat>)
    ensures c in MinimalOnes(dag, treatment, outcome, list) <==>
              c in list && MinimalSet(dag, treatment, outcome, Members(c))
  {
    if list != [] {
      SplitLast(list);
      MinimalOnesMembers(dag, treatment, outcome, list[..|list| - 1], c);
    }
  }

  lemma {:induction false} MinimalOnesDistinct(dag: CausalDag, treatment: nat, outcome: nat, list: seq<seq<nat>>)
    requires Distinct(list)
    ensures Distinct(MinimalOnes(dag, treatment, outcome, list))
  {
    if list != [] {
      var shorter, last := list[..|list| - 1], list[|list| - 1];
      MinimalOnesDistinct(dag, treatment, outcome, shorter);
      MinimalOnesMembers(dag, treatment, outcome, shorter, last);
      assert forall k :: 0 <= k < |shorter| ==> shorter[k] == list[k];
    }
  }

  /** All selections of fewer than `sizes` values, smaller selections first. */
  ghost function Enumerated(values: seq<nat>, sizes: nat): seq<seq<nat>> {
    if sizes == 0 then [] else Enumerated(values, sizes - 1) + Combinations(values, sizes - 1)
  }

  lemma {:induction false} EnumeratedComplete(values: seq<nat>, sizes: nat, c: seq<nat>)
    requires StrictlySorted(values)
    ensures c in Enumerated(values, sizes) <==> |c| < sizes && Selection(values, |c|, 0, c)
  {
    if sizes > 0 {
      EnumeratedComplete(values, sizes - 1, c);
      CombinationsComplete(values, sizes - 1, c);
    }
  }

  lemma {:induction false} EnumeratedDistinct(values: seq<nat>, sizes: nat)
    requires StrictlySorted(values)
    ensures Distinct(Enumerated(values, sizes))
  {
    if sizes > 0 {
      EnumeratedDistinct(values, sizes - 1);
      CombinationsDistinct(values, sizes - 1);
      var smaller, latest := Enumerated(values, sizes - 1), Combinations(values, sizes - 1);
      forall i, j | 0 <= i < |smaller| && 0 <= j < |latest| ensures smaller[i] != latest[j] {
        assert smaller[i] in smaller && latest[j] in latest;
        EnumeratedComplete(values, sizes - 1, smaller[i]);
        CombinationsComplete(values, sizes - 1, latest[j]);
      }
    }
  }

  /** The nodes a valid set may use. */
  ghost predicate AreCandidates(dag: CausalDag, treatment: nat, outcome: nat, candidates: seq<nat>) {
    && StrictlySorted(candidates)
    && forall v: nat :: v in candidates <==>
         v < |dag.parents| && v != treatment && v != outcome && !Descendant(dag.Parents(), treatment, v)
  }

  /** A valid set, listed in order, is a selection of candidates. */
  lemma ValidSetsAreSelections(dag: CausalDag, treatment: nat, outcome: nat, candidates: seq<nat>, c: seq<nat>)
    requires AreCandidates(dag, treatment, outcome, candidates) && StrictlySorted(c)
    requires ValidSet(dag, treatment, outcome, Members(c))
    ensures Selection(candidates, |c|, 0, c) && |c| <= |candidates|
  {
    forall i | 0 <= i < |c| ensures OccursFrom(candidates, 0, c[i]) {
      assert c[i] in Members(c) && c[i] in candidates;
    }
    DistinctCardinality(c);
    DistinctCardinality(candidates);
    assert Members(c) <= Members(candidates);
    SubsetCardinality(Members(c), Members(candidates));
  }

  ghost predicate ContainsOneOf(accepted: seq<seq<nat>>, c: seq<nat>) {
    exists existing :: existing in accepted && forall v :: v in existing ==> v in c
  }

  /** With all earlier minimal sets accepted, a valid candidate is minimal exactly when it contains none of them. */
  lemma AcceptanceIsMinimality(dag: CausalDag, treatment: nat, outcome: nat, candidates: seq<nat>, size: nat, index: nat)
    requires AreCandidates(dag, treatment, outcome, candidates) && index < |Combinations(candidates, size)|
    ensures var combinations := Combinations(candidates, size);
            var accepted := MinimalOnes(dag, treatment, outcome, Enumerated(candidates, size) + combinations[..index]);
            MinimalSet(dag, treatment, outcome, Members(combinations[index])) <==>
              ValidSet(dag, treatment, outcome, Members(combinations[index])) && !ContainsOneOf(accepted, combinations[index])
  {
    var combinations := Combinations(candidates, size);
    var c := combinations[index];
    var earlier := Enumerated(candidates, size) + combinations[..index];
    var accepted := MinimalOnes(dag, treatment, outcome, earlier);
    assert c in combinations;
    CombinationsComplete(candidates, size, c);
    DistinctCardinality(c);
    if MinimalSet(dag, treatment, outcome, Members(c)) {
      forall existing | existing in accepted && (forall v :: v in existing ==> v in c) ensures false {
        MinimalOnesMembers(dag, treatment, outcome, earlier, existing);
        assert Members(existing) <= Members(c);
        assert Members(existing) == Members(c);
        EarlierIsDifferent(candidates, size, index, existing);
      }
    } else if ValidSet(dag, treatment, outcome, Members(c)) {
      var y :| y < Members(c) && ValidSet(dag, treatment, outcome, y);
      var m := MinimalSetInside(dag, treatment, outcome, y);
      var w := SetAsSortedList(m);
      SubsetCardinality(m, Members(c));
      ValidSetsAreSelections(dag, treatment, outcome, candidates, w);
      EnumeratedComplete(candidates, size, w);
      MinimalOnesMembers(dag, treatment, outcome, earlier, w);
      assert w in accepted;
      assert forall v :: v in w ==> v in Members(w) && v in Members(c);
    }
  }

  /** No earlier selection has the same elements. */
  lemma EarlierIsDifferent(candidates: seq<nat>, size: nat, index: nat, existing: seq<nat>)
    requires StrictlySorted(candidates) && index < |Combinations(candidates, size)|
    requires existing in Enumerated(candidates, size) + Combinations(candidates, size)[..index]
    ensures Members(existing) != Members(Combinations(candidates, size)[index])
  {
    var combinations := Combinations(candidates, size);
    var c := combinations[index];
    assert c in combinations;
    CombinationsComplete(candidates, size, c);
    EnumeratedComplete(candidates, size, existing);
    CombinationsComplete(candidates, size, existing);
    CombinationsDistinct(candidates, size);
    DistinctCardinality(c);
    DistinctCardinality(existing);
    if Members(existing) == Members(c) {
      forall x ensures x in existing <==> x in c {
        assert x in existing <==> x in Members(existing);
        assert x in c <==> x in Members(c);
      }
      StrictlySortedUnique(existing, c);
    }
  }

  // ---- The search ----

  /** Nodes other than the endpoints that do not descend from the treatment. */
  method Candidates(dag: CausalDag, treatment: nat, outcome: nat) returns (candidates: seq<nat>)
    requires dag.WellFormed() && treatment < |dag.parents|
    ensures AreCandidates(dag, treatment, outcome, candidates)
  {
    var descendants := Descendants(dag, treatment);
    candidates := [];
    for v := 0 to |dag.parents|
      invariant StrictlySorted(candidates) && forall k :: 0 <= k < |candidates| ==> candidates[k] < v
      invariant forall u: nat :: u in candidates <==> u < v && u != treatment && u != outcome && u !in descendants
    {
      if v != treatment && v != outcome && v !in descendants { candidates := candidates + [v]; }
    }
  }

  method HasAcceptedSubset(accepted: seq<seq<nat>>, candidate: seq<nat>) returns (found: bool)
    ensures found <==> ContainsOneOf(accepted, candidate)
  {
    for k := 0 to |accepted|
      invariant !ContainsOneOf(accepted[..k], candidate)
    {
      if forall variable :: variable in accepted[k] ==> variable in candidate {
        assert accepted[k] in accepted;
        return true;
      }
      assert accepted[..k + 1] == accepted[..k] + [accepted[k]];
    }
    assert accepted[..|accepted|] == accepted;
    return false;
  }

  ghost function AcceptedSoFar(dag: CausalDag, treatment: nat, outcome: nat, candidates: seq<nat>, size: nat, k: nat): seq<seq<nat>>
    requires k <= |Combinations(candidates, size)|
  {
    MinimalOnes(dag, treatment, outcome, Enumerated(candidates, size) + Combinations(candidates, size)[..k])
  }

  lemma AcceptNext(dag: CausalDag, treatment: nat, outcome: nat, candidates: seq<nat>, size: nat, k: nat)
    requires k < |Combinations(candidates, size)|
    ensures var candidate := Combinations(candidates, size)[k];
            AcceptedSoFar(dag, treatment, outcome, candidates, size, k + 1) ==
              AcceptedSoFar(dag, treatment, outcome, candidates, size, k)
              + (if MinimalSet(dag, treatment, outcome, Members(candidate)) then [candidate] else [])
  {
    var combinations := Combinations(candidates, size);
    TakeOneMore(Enumerated(candidates, size), combinations, k);
    MinimalOnesAppend(dag, treatment, outcome, Enumerated(candidates, size) + combinations[..k], combinations[k]);
  }

  lemma TakeOneMore<T>(front: seq<T>, s: seq<T>, k: nat)
    requires k < |s|
    ensures front + s[..k + 1] == (front + s[..k]) + [s[k]]
  {
  }

  lemma MinimalOnesAppend(dag: CausalDag, treatment: nat, outcome: nat, list: seq<seq<nat>>, c: seq<nat>)
    ensures MinimalOnes(dag, treatment, outcome, list + [c]) ==
              MinimalOnes(dag, treatment, outcome, list) + (if MinimalSet(dag, treatment, outcome, Members(c)) then [c] else [])
  {
    assert (list + [c])[..|list + [c]| - 1] == list;
  }

  lemma AcceptedEnds(dag: CausalDag, treatment: nat, outcome: nat, candidates: seq<nat>, size: nat)
    ensures AcceptedSoFar(dag, treatment, outcome, candidates, size, 0) ==
              MinimalOnes(dag, treatment, outcome, Enumerated(candidates, size))
    ensures AcceptedSoFar(dag, treatment, outcome, candidates, size, |Combinations(candidates, size)|) ==
              MinimalOnes(dag, treatment, outcome, Enumerated(candidates, size + 1))
  {
    var combinations := Combinations(candidates, size);
    assert Enumerated(candidates, size) + combinations[..0] == Enumerated(candidates, size);
    assert combinations[..|combinations|] == combinations;
  }

  /** Considers the selections of one size, in order. */
  method AcceptOfSize(dag: CausalDag, treatment: nat, outcome: nat, candidates: seq<nat>, size: nat, accepted: seq<seq<nat>>)
      returns (extended: seq<seq<nat>>)
    requires dag.Valid() && treatment < |dag.parents| && outcome < |dag.parents| && treatment != outcome
    requires AreCandidates(dag, treatment, outcome, candidates)
    requires accepted == MinimalOnes(dag, treatment, outcome, Enumerated(candidates, size))
    ensures extended == MinimalOnes(dag, treatment, outcome, Enumerated(candidates, size + 1))
  {
    var collector := new CombinationCollector();
    collector.Collect(candidates, size, 0);
    var combinations := collector.output;
    assert combinations == Combinations(candidates, size);
    AcceptedEnds(dag, treatment, outcome, candidates, size);
    extended := accepted;
    for k := 0 to |combinations|
      invariant extended == AcceptedSoFar(dag, treatment, outcome, candidates, size, k)
    {
      AcceptNext(dag, treatment, outcome, candidates, size, k);
      extended := Consider(dag, treatment, outcome, candidates, size, k, combinations[k], extended);
    }
  }

  /** Skips a candidate that contains an accepted set, and accepts it if it is valid. */
  method Consider(dag: CausalDag, treatment: nat, outcome: nat, ghost candidates: seq<nat>, ghost size: nat, ghost k: nat,
                  candidate: seq<nat>, accepted: seq<seq<nat>>)
      returns (extended: seq<seq<nat>>)
    requires dag.Valid() && treatment < |dag.parents| && outcome < |dag.parents| && treatment != outcome
    requires AreCandidates(dag, treatment, outcome, candidates)
    requires k < |Combinations(candidates, size)| && candidate == Combinations(candidates, size)[k]
    requires accepted == AcceptedSoFar(dag, treatment, outcome, candidates, size, k)
    ensures extended == accepted + (if MinimalSet(dag, treatment, outcome, Members(candidate)) then [candidate] else [])
  {
    AcceptanceIsMinimality(dag, treatment, outcome, candidates, size, k);
    CandidateIsQuery(dag, treatment, outcome, candidates, size, k);
    var skip := HasAcceptedSubset(accepted, candidate);
    if skip { return accepted; }
    var verdict := CheckBackdoorCriterionValidated(dag, treatment, outcome, candidate);
    return if verdict == Satisfied then accepted + [candidate] else accepted;
  }

  lemma CandidateIsQuery(dag: CausalDag, treatment: nat, outcome: nat, candidates: seq<nat>, size: nat, k: nat)
    requires treatment < |dag.parents| && outcome < |dag.parents| && treatment != outcome
    requires AreCandidates(dag, treatment, outcome, candidates) && k < |Combinations(candidates, size)|
    ensures QueryValid(dag, treatment, outcome, Combinations(candidates, size)[k])
  {
    var c := Combinations(candidates, size)[k];
    assert c in Combinations(candidates, size);
    CombinationsComplete(candidates, size, c);
    forall v | v in c ensures v in candidates {
      var i :| 0 <= i < |c| && c[i] == v;
      assert OccursFrom(candidates, 0, c[i]);
    }
  }

  ghost predicate BySize(list: seq<seq<nat>>) {
    forall i, j :: 0 <= i < j < |list| ==> |list[i]| <= |list[j]|
  }

  /** `list` holds, once each and by size, precisely the minimal sets of at most `maximumSize` variables. */
  ghost predicate ExactlyMinimal(dag: CausalDag, treatment: nat, outcome: nat, maximumSize: nat, list: seq<seq<nat>>) {
    && Distinct(list) && BySize(list)
    && forall c: seq<nat> :: c in list <==>
         StrictlySorted(c) && |c| <= maximumSize && MinimalSet(dag, treatment, outcome, Members(c))
  }

  /** Every minimal back-door set of at most `maximumSize` variables, smaller sets first. */
  method FindMinimalAdjustmentSets(dag: CausalDag, treatment: nat, outcome: nat, maximumSize: nat)
      returns (r: Result<seq<seq<nat>>, CausalError>)
    requires dag.Valid()
    ensures r.Ok? <==> QueryValid(dag, treatment, outcome, [])
    ensures r.Err? ==> QueryFault(dag, treatment, outcome, [], r.error)
    ensures r.Ok? ==> ExactlyMinimal(dag, treatment, outcome, maximumSize, r.value)
  {
    var query := ValidateQuery(dag, treatment, outcome, []);
    if query.Err? { return Err(query.error); }
    var accepted := SearchSizes(dag, treatment, outcome, maximumSize);
    return Ok(accepted);
  }

  method SearchSizes(dag: CausalDag, treatment: nat, outcome: nat, maximumSize: nat) returns (accepted: seq<seq<nat>>)
    requires dag.Valid() && treatment < |dag.parents| && outcome < |dag.parents| && treatment != outcome
    ensures ExactlyMinimal(dag, treatment, outcome, maximumSize, accepted)
  {
    var candidates := Candidates(dag, treatment, outcome);
    var limit := if maximumSize < |candidates| then maximumSize else |candidates|;
    accepted := AcceptUpTo(dag, treatment, outcome, candidates, limit);
    SearchIsExact(dag, treatment, outcome, candidates, maximumSize, limit);
  }

  method AcceptUpTo(dag: CausalDag, treatment: nat, outcome: nat, candidates: seq<nat>, limit: nat)
      returns (accepted: seq<seq<nat>>)
    requires dag.Valid() && treatment < |dag.parents| && outcome < |dag.parents| && treatment != outcome
    requires AreCandidates(dag, treatment, outcome, candidates)
    ensures accepted == MinimalOnes(dag, treatment, outcome, Enumerated(candidates, limit + 1))
  {
    accepted := [];
    for size := 0 to limit + 1
      invariant accepted == MinimalOnes(dag, treatment, outcome, Enumerated(candidates, size))
    {
      accepted := AcceptOfSize(dag, treatment, outcome, candidates, size, accepted);
    }
  }

  lemma {:induction false} EnumeratedBySize(candidates: seq<nat>, sizes: nat)
    requires StrictlySorted(candidates)
    ensures BySize(Enumerated(candidates, sizes))
    ensures forall i :: 0 <= i < |Enumerated(candidates, sizes)| ==> |Enumerated(candidates, sizes)[i]| < sizes
  {
    forall i | 0 <= i < |Enumerated(candidates, sizes)| ensures |Enumerated(candidates, sizes)[i]| < sizes {
      EnumeratedComplete(candidates, sizes, Enumerated(candidates, sizes)[i]);
    }
    if sizes > 0 {
      EnumeratedBySize(candidates, sizes - 1);
      var latest := Combinations(candidates, sizes - 1);
      forall i | 0 <= i < |latest| ensures |latest[i]| == sizes - 1 {
        assert latest[i] in latest;
        CombinationsComplete(candidates, sizes - 1, latest[i]);
      }
    }
  }

  lemma {:induction false} MinimalOnesKeepOrder(dag: CausalDag, treatment: nat, outcome: nat, list: seq<seq<nat>>)
    requires BySize(list)
    ensures BySize(MinimalOnes(dag, treatment, outcome, list))
  {
    if list != [] {
      var shorter, last := list[..|list| - 1], list[|list| - 1];
      MinimalOnesKeepOrder(dag, treatment, outcome, shorter);
      var rest := MinimalOnes(dag, treatment, outcome, shorter);
      var r := MinimalOnes(dag, treatment, outcome, list);
      assert r == rest + [last] || r == rest;
      forall i | 0 <= i < |rest| ensures |rest[i]| <= |last| {
        assert rest[i] in rest;
        MinimalOnesMembers(dag, treatment, outcome, shorter, rest[i]);
        var k :| 0 <= k < |shorter| && shorter[k] == rest[i];
        assert |list[k]| <= |list[|list| - 1]|;
      }
      forall i, j | 0 <= i < j < |r| ensures |r[i]| <= |r[j]| {
        assert r[i] == rest[i] && r[j] == if j < |rest| then rest[j] else last;
      }
    }
  }

  /** What the collected list means: exactly the minimal sets within the size limit, once each, by size. */
  lemma {:induction false} SearchIsExact(dag: CausalDag, treatment: nat, outcome: nat, candidates: seq<nat>, maximumSize: nat, limit: nat)
    requires AreCandidates(dag, treatment, outcome, candidates)
    requires limit == if maximumSize < |candidates| then maximumSize else |candidates|
    ensures ExactlyMinimal(dag, treatment, outcome, maximumSize,
                           MinimalOnes(dag, treatment, outcome, Enumerated(candidates, limit + 1)))
  {
    EnumeratedDistinct(candidates, limit + 1);
    EnumeratedBySize(candidates, limit + 1);
    MinimalOnesKeepOrder(dag, treatment, outcome, Enumerated(candidates, limit + 1));
    MinimalOnesDistinct(dag, treatment, outcome, Enumerated(candidates, limit + 1));
    forall c: seq<nat>
      ensures c in MinimalOnes(dag, treatment, outcome, Enumerated(candidates, limit + 1)) <==>
                StrictlySorted(c) && |c| <= maximumSize && MinimalSet(dag, treatment, outcome, Members(c))
    {
      EnumeratedComplete(candidates, limit + 1, c);
      MinimalOnesMembers(dag, treatment, outcome, Enumerated(candidates, limit + 1), c);
      if StrictlySorted(c) && MinimalSet(dag, treatment, outcome, Members(c)) {
        ValidSetsAreSelections(dag, treatment, outcome, candidates, c);
      }
    }
  }

  // ---- The canonical set ----

  ghost predicate CanonicalIsRight(dag: CausalDag, treatment: nat, outcome: nat, r: Result<seq<nat>, CausalError>) {
    if !QueryValid(dag, treatment, outcome, []) then r.Err? && QueryFault(dag, treatment, outcome, [], r.error)
    else if outcome in dag.parents[treatment] then r == Err(OutcomeIsParentOfTreatment)
    else r == Ok(dag.parents[treatment])
  }

  method CanonicalAdjustmentSet(dag: CausalDag, treatment: nat, outcome: nat) returns (r: Result<seq<nat>, CausalError>)
    requires dag.Valid()
    ensures CanonicalIsRight(dag, treatment, outcome, r)
    ensures r.Ok? ==> ValidSet(dag, treatment, outcome, Members(r.value))
  {
    var query := ValidateQuery(dag, treatment, outcome, []);
    if query.Err? { return Err(query.error); }
    var parents := dag.parents[treatment];
    if outcome in parents { return Err(OutcomeIsParentOfTreatment); }
    ParentsAreValid(dag, treatment, outcome);
    return Ok(parents);
  }

  /** Unless the outcome is one of them, the treatment's parents satisfy the back-door criterion. */
  lemma ParentsAreValid(dag: CausalDag, treatment: nat, outcome: nat)
    requires dag.Valid() && treatment < |dag.parents| && outcome < |dag.parents| && treatment != outcome
    requires outcome !in dag.parents[treatment]
    ensures ValidSet(dag, treatment, outcome, Members(dag.parents[treatment]))
  {
    var adj, z := dag.Parents(), Members(dag.parents[treatment]);
    forall v | v in z ensures !Descendant(adj, treatment, v) {
      assert Step(adj, treatment, v);
      if Descendant(adj, treatment, v) {
        var c :| Step(adj, c, treatment) && Reaches(adj, v, c);
        StepReaches(adj, treatment, v, c);
      }
    }
    PrunedIsOneWay(dag, Some(treatment));
    forall p ensures !OpenBackdoorPath(adj, treatment, outcome, z, p) {
      assert OpenBackdoorPath(adj, treatment, outcome, z, p) ==> p[1] in z && (|p| == 2 || OpenAt(adj, p, 1, z));
    }
  }
}
