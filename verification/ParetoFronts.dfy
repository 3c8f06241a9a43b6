/** Non-dominated fronts of a population by peeling. */
module ParetoFronts {
  import opened Wrappers
  import opened Finite
  import opened Sorting

  datatype ObjectiveDirection = Maximize | Minimize

  datatype ParetoCandidate = ParetoCandidate(id: string, objectives: seq<int>)

  datatype OptimizationError = EmptyPopulation | ObjectiveWidthMismatch | InvalidSelectionLimit

  type Population = seq<ParetoCandidate>
  type Directions = seq<ObjectiveDirection>

  predicate BetterAt(direction: ObjectiveDirection, left: int, right: int) {
    if direction == Maximize then left > right else left < right
  }

  ghost predicate NowhereWorse(left: ParetoCandidate, right: ParetoCandidate, directions: Directions, n: nat)
    requires |left.objectives| == |right.objectives| == |directions| && n <= |directions|
  {
    forall k :: 0 <= k < n ==> !BetterAt(directions[k], right.objectives[k], left.objectives[k])
  }

  ghost predicate SomewhereBetter(left: ParetoCandidate, right: ParetoCandidate, directions: Directions, n: nat)
    requires |left.objectives| == |right.objectives| == |directions| && n <= |directions|
  {
    exists k :: 0 <= k < n && BetterAt(directions[k], left.objectives[k], right.objectives[k])
  }

  /** At least as good in every objective and better in one. */
  method Dominates(left: ParetoCandidate, right: ParetoCandidate, directions: Directions) returns (r: bool)
    requires |left.objectives| == |right.objectives| == |directions|
    ensures r <==> NowhereWorse(left, right, directions, |directions|) && SomewhereBetter(left, right, directions, |directions|)
  {
    var strictlyBetter := false;
    for k := 0 to |directions|
      invariant NowhereWorse(left, right, directions, k)
      invariant strictlyBetter <==> SomewhereBetter(left, right, directions, k)
    {
      if BetterAt(directions[k], right.objectives[k], left.objectives[k]) {
        return false;
      }
      if BetterAt(directions[k], left.objectives[k], right.objectives[k]) {
        strictlyBetter := true;
      }
    }
    return strictlyBetter;
  }

  ghost predicate SameWidths(population: Population, directions: Directions) {
    forall i :: 0 <= i < |population| ==> |population[i].objectives| == |directions|
  }

  /** Candidate `i` dominates candidate `j`. */
  ghost predicate Dom(population: Population, directions: Directions, i: int, j: int) {
    && 0 <= i < |population| && 0 <= j < |population| && SameWidths(population, directions)
    && NowhereWorse(population[i], population[j], directions, |directions|)
    && SomewhereBetter(population[i], population[j], directions, |directions|)
  }

  lemma {:induction false} DomIsStrictOrder(population: Population, directions: Directions, i: int, j: int, k: int)
    ensures !Dom(population, directions, i, i)
    ensures Dom(population, directions, i, j) ==> !Dom(population, directions, j, i)
    ensures Dom(population, directions, i, j) && Dom(population, directions, j, k) ==> Dom(population, directions, i, k)
  {
  }

  /** What dominance means in each direction: a maximised objective is at least as large, a minimised one at least as small,
      and the two candidates differ somewhere. */
  lemma {:induction false} DominanceMeaning(population: Population, directions: Directions, i: nat, j: nat)
    requires SameWidths(population, directions) && i < |population| && j < |population|
    ensures var (x, y) := (population[i].objectives, population[j].objectives);
            Dom(population, directions, i, j) <==>
              && (forall k :: 0 <= k < |directions| && directions[k] == Maximize ==> x[k] >= y[k])
              && (forall k :: 0 <= k < |directions| && directions[k] == Minimize ==> x[k] <= y[k])
              && x != y
  {
  }

  /** The candidates among the first `n` that dominate `j`. */
  ghost function Dominators(population: Population, directions: Directions, j: int, n: int): set<int> {
    set i | 0 <= i < n && Dom(population, directions, i, j)
  }

  ghost function AllDominators(population: Population, directions: Directions, j: int): set<int> {
    Dominators(population, directions, j, |population|)
  }

  /** The candidates `i` dominates, in order, and how many candidates dominate it. */
  method DominationRow(population: Population, directions: Directions, i: nat) returns (dominated: seq<int>, count: int)
    requires SameWidths(population, directions) && i < |population|
    ensures Distinct(dominated) && forall j :: j in dominated <==> Dom(population, directions, i, j)
    ensures count == |AllDominators(population, directions, i)|
  {
    dominated, count := [], 0;
    for j := 0 to |population|
      invariant Distinct(dominated) && forall k :: k in dominated <==> k < j && Dom(population, directions, i, k)
      invariant count == |Dominators(population, directions, i, j)|
    {
      DomIsStrictOrder(population, directions, i, j, i);
      DominatorsNext(population, directions, i, j);
      if i == j { continue; }
      var forward := Dominates(population[i], population[j], directions);
      if forward {
        DistinctAppend(dominated, j);
        dominated := dominated + [j];
      } else {
        var backward := Dominates(population[j], population[i], directions);
        if backward {
          count := count + 1;
        }
      }
    }
  }

  lemma {:induction false} DominatorsNext(population: Population, directions: Directions, j: int, n: nat)
    ensures |Dominators(population, directions, j, n + 1)|
         == |Dominators(population, directions, j, n)| + if Dom(population, directions, n, j) then 1 else 0
  {
    var before, after := Dominators(population, directions, j, n), Dominators(population, directions, j, n + 1);
    assert after == if Dom(population, directions, n, j) then before + {n} else before;
  }

  // ---- Peeling ----

  /** The dominators of `j` that are not yet peeled. */
  ghost function Waiting(population: Population, directions: Directions, j: int, peeled: set<int>): set<int> {
    AllDominators(population, directions, j) - peeled
  }

  /** Every counter holds the number of dominators not yet peeled. */
  ghost predicate Counted(population: Population, directions: Directions, counts: seq<int>, peeled: set<int>) {
    |counts| == |population| && forall j :: 0 <= j < |counts| ==> counts[j] == |Waiting(population, directions, j, peeled)|
  }

  /** All dominators of `j` are peeled, and one of them is in `front`. */
  ghost predicate Freed(population: Population, directions: Directions, j: int, peeled: set<int>, front: set<int>) {
    && 0 <= j < |population| && AllDominators(population, directions, j) <= peeled
    && exists i :: i in front && Dom(population, directions, i, j)
  }

  /** Exactly the candidates freed by the peeled part of the front are listed. */
  ghost predicate Listed(population: Population, directions: Directions, next: seq<int>, peeled: set<int>, front: set<int>) {
    forall j :: j in next <==> Freed(population, directions, j, peeled, front)
  }

  lemma {:induction false} RemovingOneDominator(population: Population, directions: Directions, j: int, peeled: set<int>, i: int)
    requires i !in peeled
    ensures |Waiting(population, directions, j, peeled + {i})|
         == |Waiting(population, directions, j, peeled)| - if Dom(population, directions, i, j) then 1 else 0
    ensures |Waiting(population, directions, j, peeled + {i})| == 0 <==> AllDominators(population, directions, j) <= peeled + {i}
  {
    var before, after := Waiting(population, directions, j, peeled), Waiting(population, directions, j, peeled + {i});
    if Dom(population, directions, i, j) {
      assert i in before && after == before - {i};
    } else {
      assert i !in AllDominators(population, directions, j);
      assert after == before;
    }
    assert after == {} <==> AllDominators(population, directions, j) <= peeled + {i};
  }

  /** Lowers the counters of the listed candidates and appends those that reach zero. */
  method LowerCounters(counts: array<int>, dominated: seq<int>, next: seq<int>) returns (freed: seq<int>)
    requires Distinct(dominated) && forall j :: j in dominated ==> 0 <= j < counts.Length && counts[j] >= 1
    modifies counts
    ensures forall j :: 0 <= j < counts.Length ==> counts[j] == old(counts[j]) - if j in dominated then 1 else 0
    ensures forall j :: j in freed <==> j in next || (j in dominated && counts[j] == 0)
  {
    freed := next;
    ghost var before := counts[..];
    for k := 0 to |dominated|
      invariant forall j :: 0 <= j < counts.Length ==> counts[j] == before[j] - if j in dominated[..k] then 1 else 0
      invariant forall j :: j in freed <==> j in next || (0 <= j < counts.Length && j in dominated[..k] && before[j] == 1)
    {
      var j := dominated[k];
      assert j in dominated && dominated[..k + 1] == dominated[..k] + [j];
      assert j !in dominated[..k];
      counts[j] := counts[j] - 1;
      if counts[j] == 0 {
        freed := freed + [j];
      }
    }
    assert dominated[..|dominated|] == dominated;
  }

  /** Peels candidate `i`: lowers the counters of everything it dominates and lists what is freed. No counter underflows. */
  method PeelOne(ghost population: Population, ghost directions: Directions, counts: array<int>, dominated: seq<int>, ghost i: nat, next: seq<int>,
                 ghost peeled: set<int>, ghost front: set<int>) returns (freed: seq<int>)
    requires i < |population| && i !in peeled && Distinct(dominated) && forall j :: j in dominated <==> Dom(population, directions, i, j)
    requires Counted(population, directions, counts[..], peeled) && Listed(population, directions, next, peeled, front)
    modifies counts
    ensures Counted(population, directions, counts[..], peeled + {i})
    ensures Listed(population, directions, freed, peeled + {i}, front + {i})
  {
    forall j | 0 <= j < counts.Length
      ensures counts[j] == |Waiting(population, directions, j, peeled + {i})| + if j in dominated then 1 else 0
      ensures |Waiting(population, directions, j, peeled + {i})| == 0 <==> AllDominators(population, directions, j) <= peeled + {i}
    {
      RemovingOneDominator(population, directions, j, peeled, i);
      assert counts[..][j] == |Waiting(population, directions, j, peeled)|;
    }
    freed := LowerCounters(counts, dominated, next);
    PeeledIsListed(population, directions, next, freed, i, dominated, peeled, front);
  }

  lemma {:induction false} PeeledIsListed(population: Population, directions: Directions, next: seq<int>, freed: seq<int>, i: int, dominated: seq<int>,
                                          peeled: set<int>, front: set<int>)
    requires i !in peeled && forall j :: j in dominated <==> Dom(population, directions, i, j)
    requires Listed(population, directions, next, peeled, front)
    requires forall j :: j in freed <==> j in next || (j in dominated && AllDominators(population, directions, j) <= peeled + {i})
    ensures Listed(population, directions, freed, peeled + {i}, front + {i})
  {
    forall j ensures j in freed <==> Freed(population, directions, j, peeled + {i}, front + {i}) {
      var d := AllDominators(population, directions, j);
      if Freed(population, directions, j, peeled + {i}, front + {i}) && !Dom(population, directions, i, j) {
        assert i !in d;
        assert d <= peeled;
        assert Freed(population, directions, j, peeled, front);
      }
      if Dom(population, directions, i, j) { assert i in front + {i}; }
    }
  }

  /** The unpeeled candidates whose dominators are all peeled. */
  ghost predicate IsFront(population: Population, directions: Directions, front: seq<int>, peeled: set<int>) {
    forall j :: j in front <==> 0 <= j < |population| && j !in peeled && AllDominators(population, directions, j) <= peeled
  }

  /** Whatever dominates a peeled candidate is peeled. */
  ghost predicate Closed(population: Population, directions: Directions, peeled: set<int>) {
    forall j :: j in peeled ==> 0 <= j < |population| && AllDominators(population, directions, j) <= peeled
  }

  lemma {:induction false} PeelingKeepsClosed(population: Population, directions: Directions, front: seq<int>, peeled: set<int>)
    requires Closed(population, directions, peeled) && IsFront(population, directions, front, peeled)
    ensures Closed(population, directions, peeled + Members(front))
  {
  }

  /** What is freed by a whole front is the next front. */
  lemma {:induction false} FreedIsNextFront(population: Population, directions: Directions, front: seq<int>, next: seq<int>, peeled: set<int>)
    requires Closed(population, directions, peeled) && IsFront(population, directions, front, peeled)
    requires Listed(population, directions, next, peeled + Members(front), Members(front))
    ensures IsFront(population, directions, next, peeled + Members(front))
    ensures Linked(population, directions, front, next)
  {
    var after := peeled + Members(front);
    forall j | 0 <= j < |population| && j !in after && AllDominators(population, directions, j) <= after
      ensures Freed(population, directions, j, after, Members(front))
    {
      UnpeeledHasFrontDominator(population, directions, front, peeled, j);
    }
    forall j, i | i in Members(front) && Dom(population, directions, i, j) ensures j !in after {
      assert i in AllDominators(population, directions, j) && i !in peeled;
    }
  }

  lemma {:induction false} UnpeeledHasFrontDominator(population: Population, directions: Directions, front: seq<int>, peeled: set<int>, j: int)
    requires IsFront(population, directions, front, peeled) && 0 <= j < |population| && j !in peeled && j !in front
    requires AllDominators(population, directions, j) <= peeled + Members(front)
    ensures exists i :: i in Members(front) && Dom(population, directions, i, j)
  {
    assert !(AllDominators(population, directions, j) <= peeled);
    var i :| i in AllDominators(population, directions, j) && i !in peeled;
    assert i in Members(front) && Dom(population, directions, i, j);
  }

  // ---- The fronts ----

  /** The candidates in the first `n` fronts. */
  ghost function Peeled(fronts: seq<seq<int>>, n: nat): set<int>
    requires n <= |fronts|
  {
    if n == 0 then {} else Peeled(fronts, n - 1) + Members(fronts[n - 1])
  }

  /** Front `r` is sorted, not empty, holds exactly the candidates whose dominators all lie in earlier fronts,
      and each of them is dominated by someone in the front just before. */
  ghost predicate FrontAt(population: Population, directions: Directions, fronts: seq<seq<int>>, r: nat)
    requires r < |fronts|
  {
    && fronts[r] != [] && StrictlySorted(fronts[r])
    && IsFront(population, directions, fronts[r], Peeled(fronts, r))
    && (r > 0 ==> Linked(population, directions, fronts[r - 1], fronts[r]))
  }

  /** Everyone in the later front is dominated by someone in the earlier one. */
  ghost predicate Linked(population: Population, directions: Directions, earlier: seq<int>, later: seq<int>) {
    forall j :: j in later ==> exists i :: i in earlier && Dom(population, directions, i, j)
  }

  ghost predicate PeeledSoFar(population: Population, directions: Directions, fronts: seq<seq<int>>) {
    && (forall r :: 0 <= r < |fronts| ==> FrontAt(population, directions, fronts, r))
    && Closed(population, directions, Peeled(fronts, |fronts|))
  }

  /** The fronts cover the population. */
  ghost predicate AreFronts(population: Population, directions: Directions, fronts: seq<seq<int>>) {
    && PeeledSoFar(population, directions, fronts)
    && forall j :: j in Peeled(fronts, |fronts|) <==> 0 <= j < |population|
  }

  /** Counters, rows and first front are right for the candidates below `n`. */
  ghost predicate RowsBelow(population: Population, directions: Directions, counts: seq<int>, dominated: seq<seq<int>>, first: seq<int>, n: nat) {
    && n == |dominated| <= |counts| == |population| && StrictlySorted(first)
    && (forall j :: 0 <= j < n ==> counts[j] == |Waiting(population, directions, j, {})|)
    && (forall j :: 0 <= j < n ==> IsRow(population, directions, j, dominated[j]))
    && forall j :: j in first <==> 0 <= j < n && AllDominators(population, directions, j) == {}
  }

  lemma {:induction false} RowsNext(population: Population, directions: Directions, counts: seq<int>, dominated: seq<seq<int>>, first: seq<int>,
                                    i: nat, row: seq<int>, count: int)
    requires RowsBelow(population, directions, counts, dominated, first, i) && i < |population|
    requires IsRow(population, directions, i, row) && count == |AllDominators(population, directions, i)|
    ensures RowsBelow(population, directions, counts[i := count], dominated + [row], if count == 0 then first + [i] else first, i + 1)
  {
    FirstFrontNext(population, directions, first, i, count);
    CountsNext(population, directions, counts, i, count);
    forall j | 0 <= j < i + 1 ensures IsRow(population, directions, j, (dominated + [row])[j]) {
      if j < i { assert IsRow(population, directions, j, dominated[j]); }
    }
  }

  lemma {:induction false} CountsNext(population: Population, directions: Directions, counts: seq<int>, i: nat, count: int)
    requires i < |counts| && count == |AllDominators(population, directions, i)|
    requires forall j :: 0 <= j < i ==> counts[j] == |Waiting(population, directions, j, {})|
    ensures forall j :: 0 <= j < i + 1 ==> counts[i := count][j] == |Waiting(population, directions, j, {})|
  {
    assert Waiting(population, directions, i, {}) == AllDominators(population, directions, i);
  }

  lemma {:induction false} FirstFrontNext(population: Population, directions: Directions, first: seq<int>, i: nat, count: int)
    requires StrictlySorted(first) && forall j :: j in first <==> 0 <= j < i && AllDominators(population, directions, j) == {}
    requires count == |AllDominators(population, directions, i)|
    ensures var next := if count == 0 then first + [i] else first;
            StrictlySorted(next) && forall j :: j in next <==> 0 <= j < i + 1 && AllDominators(population, directions, j) == {}
  {
    assert forall k :: 0 <= k < |first| ==> first[k] in first;
  }

  method InitialFront(population: Population, directions: Directions) returns (counts: array<int>, dominated: seq<seq<int>>, first: seq<int>)
    requires SameWidths(population, directions)
    ensures fresh(counts) && RowsBelow(population, directions, counts[..], dominated, first, |population|)
  {
    counts := new int[|population|](_ => 0);
    dominated, first := [], [];
    for i := 0 to |population|
      invariant RowsBelow(population, directions, counts[..], dominated, first, i)
    {
      var row, count := DominationRow(population, directions, i);
      RowsNext(population, directions, counts[..], dominated, first, i, row, count);
      counts[i] := count;
      dominated := dominated + [row];
      if count == 0 {
        first := first + [i];
      }
    }
  }

  ghost predicate IsRow(population: Population, directions: Directions, i: int, row: seq<int>) {
    Distinct(row) && forall j :: j in row <==> Dom(population, directions, i, j)
  }

  /** Peels a whole front and returns what it frees. */
  method PeelFront(ghost population: Population, ghost directions: Directions, counts: array<int>, dominated: seq<seq<int>>,
                   current: seq<int>, ghost peeled: set<int>) returns (next: seq<int>)
    requires |dominated| == |population| && forall i :: 0 <= i < |population| ==> IsRow(population, directions, i, dominated[i])
    requires Counted(population, directions, counts[..], peeled) && Closed(population, directions, peeled)
    requires IsFront(population, directions, current, peeled) && StrictlySorted(current)
    modifies counts
    ensures Counted(population, directions, counts[..], peeled + Members(current))
    ensures IsFront(population, directions, next, peeled + Members(current))
    ensures Linked(population, directions, current, next)
  {
    next := [];
    assert peeled + Members(current[..0]) == peeled;
    for a := 0 to |current|
      invariant Counted(population, directions, counts[..], peeled + Members(current[..a]))
      invariant Listed(population, directions, next, peeled + Members(current[..a]), Members(current[..a]))
    {
      var i := current[a];
      assert i in current && IsRow(population, directions, i, dominated[i]);
      assert i !in current[..a];
      assert current[..a + 1] == current[..a] + [i];
      assert Members(current[..a + 1]) == Members(current[..a]) + {i};
      ghost var before := peeled + Members(current[..a]);
      assert before + {i} == peeled + Members(current[..a + 1]);
      next := PeelOne(population, directions, counts, dominated[i], i, next, before, Members(current[..a]));
    }
    assert current[..|current|] == current;
    FreedIsNextFront(population, directions, current, next, peeled);
  }

  lemma {:induction false} PeeledPrefix(fronts: seq<seq<int>>, front: seq<int>, n: nat)
    requires n <= |fronts|
    ensures Peeled(fronts + [front], n) == Peeled(fronts, n)
  {
    if n > 0 { PeeledPrefix(fronts, front, n - 1); }
  }

  lemma {:induction false} AddFront(population: Population, directions: Directions, fronts: seq<seq<int>>, front: seq<int>)
    requires PeeledSoFar(population, directions, fronts) && front != [] && StrictlySorted(front)
    requires IsFront(population, directions, front, Peeled(fronts, |fronts|))
    requires fronts != [] ==> Linked(population, directions, fronts[|fronts| - 1], front)
    ensures PeeledSoFar(population, directions, fronts + [front])
    ensures Peeled(fronts + [front], |fronts| + 1) == Peeled(fronts, |fronts|) + Members(front)
  {
    var all := fronts + [front];
    PeeledPrefix(fronts, front, |fronts|);
    forall r | 0 <= r < |all| ensures FrontAt(population, directions, all, r) {
      PeeledPrefix(fronts, front, r);
      if r < |fronts| { assert FrontAt(population, directions, fronts, r); }
    }
    PeelingKeepsClosed(population, directions, front, Peeled(fronts, |fronts|));
  }

  /** A finite set of unpeeled candidates has one that no unpeeled candidate dominates. */
  lemma {:induction false} SomeoneIsMinimal(population: Population, directions: Directions, rest: set<int>, peeled: set<int>) returns (j: int)
    requires rest != {} && forall i :: i in rest <==> 0 <= i < |population| && i !in peeled
    ensures j in rest && AllDominators(population, directions, j) <= peeled
  {
    j := PickFrom(rest);
    var below := set i | i in rest && Dom(population, directions, i, j);
    while below != {}
      invariant j in rest && below == set i | i in rest && Dom(population, directions, i, j)
      decreases |below|
    {
      var i := PickFrom(below);
      var smaller := set h | h in rest && Dom(population, directions, h, i);
      forall h | h in smaller ensures h in below {
        DomIsStrictOrder(population, directions, h, i, j);
      }
      DomIsStrictOrder(population, directions, i, i, i);
      assert i in below && i !in smaller;
      SubsetCardinality(smaller, below - {i});
      j, below := i, smaller;
    }
    forall i | i in AllDominators(population, directions, j) ensures i in peeled {
      assert i !in below;
    }
  }

  /** An empty front means that everything is peeled. */
  lemma {:induction false} EmptyFrontMeansDone(population: Population, directions: Directions, peeled: set<int>)
    requires IsFront(population, directions, [], peeled) && Closed(population, directions, peeled)
    ensures forall j :: j in peeled <==> 0 <= j < |population|
  {
    var rest := set j | 0 <= j < |population| && j !in peeled;
    if rest != {} {
      var j := SomeoneIsMinimal(population, directions, rest, peeled);
    }
    forall j | 0 <= j < |population| ensures j in peeled {
      assert j !in rest;
    }
  }

  method NonDominatedFronts(population: Population, directions: Directions) returns (r: Result<seq<seq<int>>, OptimizationError>)
    ensures population == [] || directions == [] ==> r == Err(EmptyPopulation)
    ensures population != [] && directions != [] && !SameWidths(population, directions) ==> r == Err(ObjectiveWidthMismatch)
    ensures population != [] && directions != [] && SameWidths(population, directions) ==>
              r.Ok? && AreFronts(population, directions, r.value)
  {
    if population == [] || directions == [] {
      return Err(EmptyPopulation);
    }
    for i := 0 to |population|
      invariant forall j :: 0 <= j < i ==> |population[j].objectives| == |directions|
    {
      if |population[i].objectives| != |directions| {
        return Err(ObjectiveWidthMismatch);
      }
    }
    var fronts := Peel(population, directions);
    return Ok(fronts);
  }

  /** What holds between two rounds of peeling. */
  ghost predicate PeelState(population: Population, directions: Directions, counts: seq<int>, fronts: seq<seq<int>>, current: seq<int>) {
    && PeeledSoFar(population, directions, fronts)
    && Counted(population, directions, counts, Peeled(fronts, |fronts|))
    && IsFront(population, directions, current, Peeled(fronts, |fronts|)) && StrictlySorted(current)
    && (fronts != [] ==> Linked(population, directions, fronts[|fronts| - 1], current))
  }

  lemma {:induction false} PeelStarts(population: Population, directions: Directions, counts: seq<int>, dominated: seq<seq<int>>, first: seq<int>)
    requires RowsBelow(population, directions, counts, dominated, first, |population|)
    ensures PeelState(population, directions, counts, [], first)
  {
  }

  lemma {:induction false} PeelStep(population: Population, directions: Directions, counts: seq<int>, fronts: seq<seq<int>>, current: seq<int>,
                                    after: seq<int>, next: seq<int>, sorted: seq<int>)
    requires PeelState(population, directions, counts, fronts, current) && current != []
    requires Counted(population, directions, after, Peeled(fronts, |fronts|) + Members(current))
    requires IsFront(population, directions, next, Peeled(fronts, |fronts|) + Members(current))
    requires Linked(population, directions, current, next)
    requires StrictlySorted(sorted) && Members(sorted) == Members(next)
    ensures PeelState(population, directions, after, fronts + [current], sorted)
    ensures |Peeled(fronts, |fronts|)| < |Peeled(fronts + [current], |fronts| + 1)| <= |population|
  {
    AddFront(population, directions, fronts, current);
    PeeledBound(population, current, Peeled(fronts, |fronts|));
    var all := fronts + [current];
    assert |all| == |fronts| + 1 && all[|all| - 1] == current;
    SameFront(population, directions, next, sorted, Peeled(all, |all|));
    SameLinks(population, directions, current, next, sorted);
  }

  lemma {:induction false} SameFront(population: Population, directions: Directions, next: seq<int>, sorted: seq<int>, peeled: set<int>)
    requires IsFront(population, directions, next, peeled) && Members(sorted) == Members(next)
    ensures IsFront(population, directions, sorted, peeled)
  {
    assert forall j :: j in sorted <==> j in Members(sorted);
    assert forall j :: j in next <==> j in Members(next);
  }

  lemma {:induction false} SameLinks(population: Population, directions: Directions, current: seq<int>, next: seq<int>, sorted: seq<int>)
    requires Linked(population, directions, current, next) && Members(sorted) == Members(next)
    ensures Linked(population, directions, current, sorted)
  {
    assert forall j :: j in sorted <==> j in Members(sorted);
    assert forall j :: j in next <==> j in Members(next);
  }

  method Peel(population: Population, directions: Directions) returns (fronts: seq<seq<int>>)
    requires SameWidths(population, directions)
    ensures AreFronts(population, directions, fronts)
  {
    var counts, dominated, current := InitialFront(population, directions);
    PeelStarts(population, directions, counts[..], dominated, current);
    fronts := [];
    while current != []
      invariant PeelState(population, directions, counts[..], fronts, current)
      invariant |Peeled(fronts, |fronts|)| <= |population|
      decreases |population| - |Peeled(fronts, |fronts|)|
    {
      SortingSortedChangesNothing(current);
      current := Sort(current);
      ghost var before := counts[..];
      var next := PeelFront(population, directions, counts, dominated, current, Peeled(fronts, |fronts|));
      assert Members(Dedup(Sort(next))) == Members(next);
      PeelStep(population, directions, before, fronts, current, counts[..], next, Dedup(Sort(next)));
      fronts := fronts + [current];
      current := Dedup(Sort(next));
    }
    EmptyFrontMeansDone(population, directions, Peeled(fronts, |fronts|));
  }

  lemma {:induction false} SortingSortedChangesNothing(s: seq<int>)
    requires StrictlySorted(s)
    ensures Sort(s) == s
  {
    assert Distinct(s);
    SortDistinct(s);
    StrictlySortedUnique(Sort(s), s);
  }

  /** Peeled candidates are indices, so there are at most as many as candidates. */
  lemma {:induction false} PeeledBound(population: Population, current: seq<int>, peeled: set<int>)
    requires current != [] && forall j :: j in current ==> 0 <= j < |population| && j !in peeled
    requires forall j :: j in peeled ==> 0 <= j < |population|
    ensures |peeled| < |peeled + Members(current)| <= |population|
  {
    assert current[0] in current && current[0] in Members(current);
    SubsetCardinality(peeled + {current[0]}, peeled + Members(current));
    SubsetCardinality(peeled + Members(current), Indices(|population|));
  }

  // ---- What the fronts mean ----

  lemma {:induction false} PeeledContains(fronts: seq<seq<int>>, r: nat, n: nat, j: int)
    requires r < n <= |fronts| && j in fronts[r]
    ensures j in Peeled(fronts, n)
  {
    if r < n - 1 { PeeledContains(fronts, r, n - 1, j); }
  }

  lemma {:induction false} PeeledFrom(fronts: seq<seq<int>>, n: nat, j: int) returns (r: nat)
    requires n <= |fronts| && j in Peeled(fronts, n)
    ensures r < n && j in fronts[r]
  {
    if j in fronts[n - 1] {
      r := n - 1;
    } else {
      r := PeeledFrom(fronts, n - 1, j);
    }
  }

  /** Every candidate lands in exactly one front. */
  lemma {:induction false} ExactlyOneFront(population: Population, directions: Directions, fronts: seq<seq<int>>, j: int) returns (r: nat)
    requires AreFronts(population, directions, fronts) && 0 <= j < |population|
    ensures r < |fronts| && j in fronts[r]
    ensures forall s :: 0 <= s < |fronts| && j in fronts[s] ==> s == r
  {
    r := PeeledFrom(fronts, |fronts|, j);
    forall s | 0 <= s < |fronts| && j in fronts[s] ensures s == r {
      FrontsDisjoint(population, directions, fronts, r, s, j);
    }
  }

  lemma {:induction false} FrontsDisjoint(population: Population, directions: Directions, fronts: seq<seq<int>>, r: nat, s: nat, j: int)
    requires PeeledSoFar(population, directions, fronts) && r < |fronts| && s < |fronts| && j in fronts[r] && j in fronts[s]
    ensures r == s
  {
    assert FrontAt(population, directions, fronts, r) && FrontAt(population, directions, fronts, s);
    if r < s {
      PeeledContains(fronts, r, s, j);
    } else if s < r {
      PeeledContains(fronts, s, r, j);
    }
  }

  /** A dominator stands in a strictly earlier front; so members of one front never dominate each other. */
  lemma {:induction false} DominatorsComeEarlier(population: Population, directions: Directions, fronts: seq<seq<int>>, r: nat, s: nat, i: int, j: int)
    requires AreFronts(population, directions, fronts) && r < |fronts| && s < |fronts| && i in fronts[r] && j in fronts[s]
    requires Dom(population, directions, i, j)
    ensures r < s
  {
    assert FrontAt(population, directions, fronts, s) && i in AllDominators(population, directions, j);
    var q := PeeledFrom(fronts, s, i);
    FrontsDisjoint(population, directions, fronts, q, r, i);
  }

  /** With one objective the first front holds exactly the candidates of largest value, or of smallest if it is minimised. */
  lemma {:induction false} SingleObjective(population: Population, direction: ObjectiveDirection, fronts: seq<seq<int>>, i: nat)
    requires AreFronts(population, [direction], fronts) && SameWidths(population, [direction]) && i < |population| && fronts != []
    ensures i in fronts[0] <==> forall j :: 0 <= j < |population| ==>
              if direction == Maximize then population[j].objectives[0] <= population[i].objectives[0]
              else population[j].objectives[0] >= population[i].objectives[0]
  {
    assert FrontAt(population, [direction], fronts, 0);
    forall j: nat | j < |population|
      ensures Dom(population, [direction], j, i) <==>
                if direction == Maximize then population[j].objectives[0] > population[i].objectives[0]
                else population[j].objectives[0] < population[i].objectives[0]
    {
      DominanceMeaning(population, [direction], j, i);
    }
    assert i in fronts[0] <==> AllDominators(population, [direction], i) == {};
    forall j: nat | j < |population| ensures j in AllDominators(population, [direction], i) <==> Dom(population, [direction], j, i) {
    }
  }

  /** Each candidate of the chain dominates the next one. */
  ghost predicate Chain(population: Population, directions: Directions, c: seq<int>) {
    && c != [] && (forall k :: 0 <= k < |c| ==> 0 <= c[k] < |population|)
    && forall k :: 0 < k < |c| ==> Dom(population, directions, c[k - 1], c[k])
  }

  /** A candidate of front `r` ends a chain of `r + 1` candidates... */
  lemma {:induction false} ChainToFront(population: Population, directions: Directions, fronts: seq<seq<int>>, r: nat, j: int) returns (c: seq<int>)
    requires AreFronts(population, directions, fronts) && r < |fronts| && j in fronts[r]
    ensures Chain(population, directions, c) && |c| == r + 1 && c[|c| - 1] == j
  {
    assert FrontAt(population, directions, fronts, r);
    if r == 0 {
      c := [j];
    } else {
      var i :| i in fronts[r - 1] && Dom(population, directions, i, j);
      var shorter := ChainToFront(population, directions, fronts, r - 1, i);
      c := shorter + [j];
    }
  }

  /** ... and no longer one: the front number is the length of the longest chain of dominators. */
  lemma {:induction false} NoLongerChain(population: Population, directions: Directions, fronts: seq<seq<int>>, r: nat, c: seq<int>)
    requires AreFronts(population, directions, fronts) && r < |fronts|
    requires Chain(population, directions, c) && c[|c| - 1] in fronts[r]
    ensures |c| <= r + 1
  {
    if |c| > 1 {
      var rest := c[..|c| - 1];
      var s := ExactlyOneFront(population, directions, fronts, rest[|rest| - 1]);
      DominatorsComeEarlier(population, directions, fronts, s, r, rest[|rest| - 1], c[|c| - 1]);
      NoLongerChain(population, directions, fronts, s, rest);
    }
  }
}
