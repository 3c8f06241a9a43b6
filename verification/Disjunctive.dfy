/** Tasks that must not overlap on one resource. */
module DisjunctiveTasks {
  import opened Wrappers
  import opened Finite
  import opened Sorting
  import opened Filtering

  datatype DisjunctiveTask = DisjunctiveTask(startDomain: seq<int>, duration: int)

  function Starts(tasks: seq<DisjunctiveTask>): (d: Domains)
    ensures |d| == |tasks| && forall i :: 0 <= i < |d| ==> d[i] == tasks[i].startDomain
  {
    seq(|tasks|, i requires 0 <= i < |tasks| => tasks[i].startDomain)
  }

  function Durations(tasks: seq<DisjunctiveTask>): (d: seq<int>)
    ensures |d| == |tasks| && forall i :: 0 <= i < |d| ==> d[i] == tasks[i].duration
  {
    seq(|tasks|, i requires 0 <= i < |tasks| => tasks[i].duration)
  }

  function WithStarts(durations: seq<int>, d: Domains): (tasks: seq<DisjunctiveTask>)
    requires |durations| == |d|
    ensures |tasks| == |d| && forall i :: 0 <= i < |d| ==> tasks[i] == DisjunctiveTask(d[i], durations[i])
  {
    seq(|d|, i requires 0 <= i < |d| => DisjunctiveTask(d[i], durations[i]))
  }

  lemma {:induction false} PartsOfTasks(durations: seq<int>, d: Domains)
    requires |durations| == |d|
    ensures Starts(WithStarts(durations, d)) == d && Durations(WithStarts(durations, d)) == durations
  {
  }

  predicate NonOverlapping(left: int, leftDuration: int, right: int, rightDuration: int) {
    left + leftDuration <= right || right + rightDuration <= left
  }

  /** No two tasks overlap. */
  /** Intervals of positive length do not overlap exactly when no instant belongs to both. */
  lemma {:induction false} NonOverlappingMeaning(left: int, leftDuration: int, right: int, rightDuration: int)
    requires leftDuration > 0 && rightDuration > 0
    ensures NonOverlapping(left, leftDuration, right, rightDuration) <==>
              !exists t :: Covers(left, leftDuration, t) && Covers(right, rightDuration, t)
  {
    var t := if left <= right then right else left;
    assert !NonOverlapping(left, leftDuration, right, rightDuration) ==> Covers(left, leftDuration, t) && Covers(right, rightDuration, t);
  }

  ghost predicate Separate(durations: seq<int>, s: seq<int>) {
    |s| == |durations| && forall i, j :: 0 <= i < j < |s| ==> NonOverlapping(s[i], durations[i], s[j], durations[j])
  }

  lemma {:induction false} SeparateEitherWay(durations: seq<int>, s: seq<int>, i: nat, j: nat)
    requires Separate(durations, s) && i < |s| && j < |s| && i != j
    ensures NonOverlapping(s[i], durations[i], s[j], durations[j])
  {
    assert if i < j then NonOverlapping(s[i], durations[i], s[j], durations[j])
           else NonOverlapping(s[j], durations[j], s[i], durations[i]);
  }

  /** Task `v` is the first one that is rejected. */
  predicate BadTask(task: DisjunctiveTask) {
    task.duration <= 0 || task.startDomain == []
  }

  ghost predicate NoneBadBelow(tasks: seq<DisjunctiveTask>, v: nat)
    requires v <= |tasks|
  {
    forall w :: 0 <= w < v ==> !BadTask(tasks[w])
  }

  ghost predicate FirstBad(tasks: seq<DisjunctiveTask>, v: nat) {
    v < |tasks| && BadTask(tasks[v]) && NoneBadBelow(tasks, v)
  }

  ghost predicate NoBadTask(tasks: seq<DisjunctiveTask>) {
    NoneBadBelow(tasks, |tasks|)
  }

  lemma AtMostOneFirstBad(tasks: seq<DisjunctiveTask>)
    ensures forall v, w :: FirstBad(tasks, v) && FirstBad(tasks, w) ==> v == w
    ensures NoBadTask(tasks) ==> forall v :: !FirstBad(tasks, v)
  {
  }

  /** Sorts and de-duplicates every start domain; fails with the index of the first bad task. */
  method NormalizeTasks(tasks: seq<DisjunctiveTask>) returns (r: Result<Domains, nat>)
    ensures r.Ok? ==> r.value == Normalized(Starts(tasks)) && NoBadTask(tasks) && NoneEmpty(r.value)
    ensures r.Err? ==> FirstBad(tasks, r.error)
  {
    var n: Domains := [];
    ghost var d := Starts(tasks);
    for v := 0 to |tasks|
      invariant n == Normalized(d)[..v] && NoneEmpty(n) && NoneBadBelow(tasks, v)
    {
      NormalizedNext(d, v);
      if tasks[v].duration <= 0 {
        return Err(v);
      }
      var starts := SortDedup(tasks[v].startDomain);
      if starts == [] {
        return Err(v);
      }
      n := n + [starts];
    }
    assert Normalized(d)[..|d|] == Normalized(d);
    return Ok(n);
  }
}

/** Pairwise arc consistency for tasks that must not overlap. */
module PairwiseDisjunctive {
  import opened Wrappers
  import opened Finite
  import opened Filtering
  import opened Propagation
  import opened DisjunctiveTasks

  datatype ForcedPrecedence = ForcedPrecedence(before: nat, after: nat)

  datatype DisjunctivePropagationReport =
    DisjunctivePropagationReport(tasks: seq<DisjunctiveTask>, removedStarts: nat, passes: nat, forcedPrecedences: seq<ForcedPrecedence>)

  datatype DisjunctivePropagationError =
    | EmptyTasks
    | EmptyDomain(task: nat)
    | InvalidDuration(task: nat)
    | Infeasible

  // ---- Support ----

  /** One of the starts keeps clear of a task starting at `x`. */
  ghost predicate HasSupport(x: int, duration: int, starts: seq<int>, other: int) {
    exists y :: y in starts && NonOverlapping(x, duration, y, other)
  }

  /** Every other task has a start that keeps clear of task `v` starting at `x`. */
  ghost predicate PairSupported(durations: seq<int>, d: Domains, v: nat, x: int)
    requires |d| == |durations| && v < |d|
  {
    forall w :: 0 <= w < |d| && w != v ==> HasSupport(x, durations[v], d[w], durations[w])
  }

  ghost function PairSupports(durations: seq<int>): Supports {
    (d: Domains, v: nat, x: int) => |d| == |durations| && v < |d| && PairSupported(durations, d, v, x)
  }

  lemma {:induction false} PairSupportsIsMonotone(durations: seq<int>)
    ensures Monotone(PairSupports(durations))
  {
    var supports := PairSupports(durations);
    forall e: Domains, d: Domains, v: nat, x: int | Within(e, d) && NoneEmpty(e) && v < |e| && supports(e, v, x)
      ensures supports(d, v, x)
    {
      forall w | 0 <= w < |d| && w != v ensures HasSupport(x, durations[v], d[w], durations[w]) {
        assert HasSupport(x, durations[v], e[w], durations[w]);
        var y :| y in e[w] && NonOverlapping(x, durations[v], y, durations[w]);
        assert y in d[w];
      }
    }
  }

  /** The starts of a non-overlapping schedule support one another. */
  lemma {:induction false} ScheduleIsConsistent(durations: seq<int>, d: Domains, s: seq<int>)
    requires |d| == |durations| && InDomains(d, s) && Separate(durations, s)
    ensures Within(Singletons(s), d) && Consistent(PairSupports(durations), Singletons(s))
    ensures HasConsistent(PairSupports(durations), d)
  {
    var e := Singletons(s);
    forall v: nat, x | v < |e| && x in e[v] ensures PairSupported(durations, e, v, x) {
      forall w | 0 <= w < |e| && w != v ensures HasSupport(x, durations[v], e[w], durations[w]) {
        SeparateEitherWay(durations, s, v, w);
        assert s[w] in e[w];
      }
    }
  }

  /** Soundness: no start of any non-overlapping schedule is ever removed. */
  lemma {:induction false} PairwiseKeepsSchedules(durations: seq<int>, d: Domains, r: Domains, s: seq<int>)
    requires |d| == |durations| && InDomains(d, s) && Separate(durations, s)
    requires GreatestConsistent(PairSupports(durations), d, r)
    ensures InDomains(r, s)
  {
    ScheduleIsConsistent(durations, d, s);
    assert Within(Singletons(s), r);
    forall i | 0 <= i < |s| ensures s[i] in r[i] {
      WithinMember(Singletons(s), r, i, s[i]);
    }
  }

  method FindSupport(x: int, duration: int, starts: seq<int>, other: int) returns (found: bool)
    ensures found <==> HasSupport(x, duration, starts, other)
  {
    for k := 0 to |starts|
      invariant forall i :: 0 <= i < k ==> !NonOverlapping(x, duration, starts[i], other)
    {
      if NonOverlapping(x, duration, starts[k], other) {
        return true;
      }
    }
    return false;
  }

  method CandidateSupported(durations: seq<int>, current: Domains, left: nat, candidate: int) returns (ok: bool)
    requires |current| == |durations| && left < |current|
    ensures ok <==> PairSupported(durations, current, left, candidate)
  {
    for right := 0 to |current|
      invariant forall w :: 0 <= w < right && w != left ==> HasSupport(candidate, durations[left], current[w], durations[w])
    {
      if left == right { continue; }
      var hasSupport := FindSupport(candidate, durations[left], current[right], durations[right]);
      if !hasSupport {
        return false;
      }
    }
    return true;
  }

  method FilterStarts(durations: seq<int>, current: Domains, left: nat) returns (supported: seq<int>)
    requires |current| == |durations| && left < |current|
    ensures supported == FilteredBy(PairSupports(durations), current, left)
  {
    var candidates := current[left];
    ghost var keep := SupportedIn(PairSupports(durations), current, left);
    supported := [];
    for k := 0 to |candidates|
      invariant supported == Retain(candidates[..k], keep)
    {
      RetainNext(candidates, k, keep);
      var ok := CandidateSupported(durations, current, left, candidates[k]);
      if ok {
        supported := supported + [candidates[k]];
      }
    }
    RetainAll(candidates, keep);
  }

  /** One pass over all tasks, each updated before the next one is filtered. */
  method Pass(durations: seq<int>, ghost n: Domains, start: Domains) returns (feasible: bool, current: Domains)
    requires |n| == |durations| && Reached(PairSupports(durations), n, start)
    ensures !feasible ==> !HasConsistent(PairSupports(durations), n)
    ensures feasible ==> Reached(PairSupports(durations), n, current) && Smaller(current, start)
    ensures feasible && current == start ==>
              GreatestConsistent(PairSupports(durations), n, current) && HasConsistent(PairSupports(durations), n)
    ensures feasible ==> current == PassOf(PairSupports(durations))(start)
  {
    ghost var supports := PairSupports(durations);
    PairSupportsIsMonotone(durations);
    current := start;
    for left := 0 to |start|
      invariant PassState(supports, n, start, current, left)
    {
      PassStateStep(supports, n, start, current, left);
      var supported := FilterStarts(durations, current, left);
      if supported == [] {
        return false, current;
      }
      current := current[left := supported];
    }
    feasible := true;
    if current == start {
      UnchangedPassIsGreatest(supports, n, current);
    }
  }

  /** Repeats passes until one removes no start. */
  method RunPasses(durations: seq<int>, n: Domains) returns (feasible: bool, current: Domains, passes: nat)
    requires |n| == |durations| && AllSorted(n) && NoneEmpty(n)
    ensures feasible <==> HasConsistent(PairSupports(durations), n)
    ensures feasible ==> GreatestConsistent(PairSupports(durations), n, current) && Smaller(current, n) && AllSorted(current)
    ensures feasible ==> passes <= TotalSize(n) - TotalSize(current) + 1
    ensures feasible ==> SettlesAfter(PassOf(PairSupports(durations)), n, passes, current)
  {
    ghost var pass := PassOf(PairSupports(durations));
    current, passes := n, 0;
    while true
      invariant Reached(PairSupports(durations), n, current)
      invariant passes <= TotalSize(n) - TotalSize(current)
      invariant current == AfterPasses(pass, n, passes) && AllChanged(pass, n, passes)
      decreases TotalSize(current)
    {
      passes := passes + 1;
      var before := current;
      feasible, current := Pass(durations, n, current);
      if !feasible || current == before {
        return;
      }
      TotalSizeShrinks(before, current);
    }
  }

  // ---- Forced precedences ----

  /** Every compatible pair of starts puts the first task first. */
  ghost predicate PairsForced(before: seq<int>, beforeDuration: int, after: seq<int>, afterDuration: int) {
    forall x, y :: x in before && y in after && NonOverlapping(x, beforeDuration, y, afterDuration) ==> x + beforeDuration <= y
  }

  /** Some pair of starts is compatible. */
  ghost predicate SomePair(before: seq<int>, beforeDuration: int, after: seq<int>, afterDuration: int) {
    exists x, y :: x in before && y in after && NonOverlapping(x, beforeDuration, y, afterDuration)
  }

  ghost predicate ForcedBefore(before: seq<int>, beforeDuration: int, after: seq<int>, afterDuration: int) {
    SomePair(before, beforeDuration, after, afterDuration) && PairsForced(before, beforeDuration, after, afterDuration)
  }

  /** The test for one start of the first task. */
  method OneForcesBefore(x: int, beforeDuration: int, after: seq<int>, afterDuration: int) returns (forced: bool, saw: bool)
    ensures forced <==> PairsForced([x], beforeDuration, after, afterDuration)
    ensures forced ==> (saw <==> SomePair([x], beforeDuration, after, afterDuration))
  {
    saw := false;
    for k := 0 to |after|
      invariant forall i :: 0 <= i < k && NonOverlapping(x, beforeDuration, after[i], afterDuration) ==> x + beforeDuration <= after[i]
      invariant saw <==> exists i :: 0 <= i < k && NonOverlapping(x, beforeDuration, after[i], afterDuration)
    {
      if NonOverlapping(x, beforeDuration, after[k], afterDuration) {
        saw := true;
        if x + beforeDuration > after[k] {
          assert x in [x] && after[k] in after;
          return false, true;
        }
      }
    }
    forced := true;
    if saw {
      ghost var i :| 0 <= i < |after| && NonOverlapping(x, beforeDuration, after[i], afterDuration);
      assert x in [x] && after[i] in after;
    }
  }

  method AllPairsForceBefore(before: seq<int>, beforeDuration: int, after: seq<int>, afterDuration: int) returns (forced: bool)
    ensures forced <==> ForcedBefore(before, beforeDuration, after, afterDuration)
  {
    var sawSupportedPair := false;
    for k := 0 to |before|
      invariant PairsForced(before[..k], beforeDuration, after, afterDuration)
      invariant sawSupportedPair <==> SomePair(before[..k], beforeDuration, after, afterDuration)
    {
      assert before[..k + 1] == before[..k] + [before[k]];
      var here, saw := OneForcesBefore(before[k], beforeDuration, after, afterDuration);
      PairsOfConcat(before[..k], before[k], beforeDuration, after, afterDuration);
      if !here {
        NotForcedInWhole(before, k, beforeDuration, after, afterDuration);
        return false;
      }
      sawSupportedPair := sawSupportedPair || saw;
    }
    assert before[..|before|] == before;
    return sawSupportedPair;
  }

  lemma {:induction false} PairsOfConcat(s: seq<int>, x: int, beforeDuration: int, after: seq<int>, afterDuration: int)
    ensures PairsForced(s + [x], beforeDuration, after, afterDuration) <==>
              PairsForced(s, beforeDuration, after, afterDuration) && PairsForced([x], beforeDuration, after, afterDuration)
    ensures SomePair(s + [x], beforeDuration, after, afterDuration) <==>
              SomePair(s, beforeDuration, after, afterDuration) || SomePair([x], beforeDuration, after, afterDuration)
  {
    assert forall y :: y in s + [x] <==> y in s || y in [x];
  }

  lemma {:induction false} NotForcedInWhole(before: seq<int>, k: nat, beforeDuration: int, after: seq<int>, afterDuration: int)
    requires k < |before| && !PairsForced([before[k]], beforeDuration, after, afterDuration)
    ensures !ForcedBefore(before, beforeDuration, after, afterDuration)
  {
    var x, y :| x in [before[k]] && y in after && NonOverlapping(x, beforeDuration, y, afterDuration) && x + beforeDuration > y;
    assert x in before;
  }

  predicate PrecedenceLess(p: ForcedPrecedence, q: ForcedPrecedence) {
    p.before < q.before || (p.before == q.before && p.after < q.after)
  }

  ghost predicate StrictlyOrdered(s: seq<ForcedPrecedence>) {
    forall i, j :: 0 <= i < j < |s| ==> s[i].before < s[j].before || (s[i].before == s[j].before && s[i].after < s[j].after)
  }

  function InsertPrecedence(p: ForcedPrecedence, s: seq<ForcedPrecedence>): (r: seq<ForcedPrecedence>)
    ensures forall q :: q in r <==> q in s || q == p
  {
    if s == [] || !PrecedenceLess(s[0], p) then [p] + s
    else
      SplitFirst(s);
      var r := InsertPrecedence(p, s[1..]);
      assert forall q :: q in [s[0]] + r <==> q == s[0] || q in r;
      [s[0]] + r
  }

  lemma {:induction false} InsertKeepsOrder(p: ForcedPrecedence, s: seq<ForcedPrecedence>)
    requires StrictlyOrdered(s) && p !in s
    ensures StrictlyOrdered(InsertPrecedence(p, s))
  {
    if s == [] {
    } else if PrecedenceLess(s[0], p) {
      SplitFirst(s);
      var rest := s[1..];
      InsertKeepsOrder(p, rest);
      var r := InsertPrecedence(p, rest);
      forall i | 0 <= i < |r| ensures PrecedenceLess(s[0], r[i]) {
        assert r[i] in r;
        if r[i] in rest {
          var j :| 0 <= j < |rest| && rest[j] == r[i];
          assert PrecedenceLess(s[0], s[j + 1]);
        }
      }
    } else {
      assert s[0] in s && PrecedenceLess(p, s[0]);
      forall j | 0 <= j < |s| ensures PrecedenceLess(p, s[j]) {
        assert j > 0 ==> PrecedenceLess(s[0], s[j]);
      }
    }
  }

  /** The precedences ordered by their first and then their second task. */
  function SortPrecedences(s: seq<ForcedPrecedence>): (r: seq<ForcedPrecedence>)
    ensures forall q :: q in r <==> q in s
  {
    if s == [] then []
    else
      SplitFirst(s);
      InsertPrecedence(s[0], SortPrecedences(s[1..]))
  }

  lemma {:induction false} SortingOrders(s: seq<ForcedPrecedence>)
    requires Distinct(s)
    ensures StrictlyOrdered(SortPrecedences(s))
  {
    if s != [] {
      SplitFirst(s);
      forall i, j | 0 <= i < j < |s[1..]| ensures s[1..][i] != s[1..][j] {
        assert s[i + 1] != s[j + 1];
      }
      forall i | 0 <= i < |s[1..]| ensures s[1..][i] != s[0] {
        assert s[0] != s[i + 1];
      }
      SortingOrders(s[1..]);
      InsertKeepsOrder(s[0], SortPrecedences(s[1..]));
    }
  }

  ghost predicate Precedes(durations: seq<int>, d: Domains, p: ForcedPrecedence) {
    && p.before < |d| == |durations| && p.after < |d| && p.before != p.after
    && ForcedBefore(d[p.before], durations[p.before], d[p.after], durations[p.after])
  }

  /** A task cannot be forced both before and after another one. */
  lemma {:induction false} OneWayOnly(left: seq<int>, leftDuration: int, right: seq<int>, rightDuration: int)
    requires leftDuration > 0 && rightDuration > 0
    ensures !(ForcedBefore(left, leftDuration, right, rightDuration) && ForcedBefore(right, rightDuration, left, leftDuration))
  {
    if x, y :| x in left && y in right && NonOverlapping(x, leftDuration, y, rightDuration) {
      assert NonOverlapping(y, rightDuration, x, leftDuration);
    }
  }

  /** The pairs already decided when the scan has reached `right` in the row of `left`. */
  predicate Scanned(p: ForcedPrecedence, left: nat, right: nat) {
    var low, high := if p.before < p.after then p.before else p.after, if p.before < p.after then p.after else p.before;
    low < left || (low == left && high < right)
  }

  method ForcedPrecedences(durations: seq<int>, d: Domains) returns (forced: seq<ForcedPrecedence>)
    requires |d| == |durations| && forall i :: 0 <= i < |durations| ==> durations[i] > 0
    ensures StrictlyOrdered(forced) && forall p :: p in forced <==> Precedes(durations, d, p)
  {
    forced := [];
    for left := 0 to |d|
      invariant Distinct(forced) && forall p :: p in forced <==> Precedes(durations, d, p) && Scanned(p, left, 0)
    {
      for right := left + 1 to |d|
        invariant Distinct(forced) && forall p :: p in forced <==> Precedes(durations, d, p) && Scanned(p, left, right)
      {
        var leftBefore := AllPairsForceBefore(d[left], durations[left], d[right], durations[right]);
        var rightBefore := AllPairsForceBefore(d[right], durations[right], d[left], durations[left]);
        OneWayOnly(d[left], durations[left], d[right], durations[right]);
        ScanStep(left, right);
        if leftBefore && !rightBefore {
          DistinctAppend(forced, ForcedPrecedence(left, right));
          forced := forced + [ForcedPrecedence(left, right)];
        } else if rightBefore && !leftBefore {
          DistinctAppend(forced, ForcedPrecedence(right, left));
          forced := forced + [ForcedPrecedence(right, left)];
        }
      }
      RowScanned(left, |d|);
    }
    SortingOrders(forced);
    forced := SortPrecedences(forced);
  }

  lemma ScanStep(left: nat, right: nat)
    requires left < right
    ensures !Scanned(ForcedPrecedence(left, right), left, right) && !Scanned(ForcedPrecedence(right, left), left, right)
    ensures forall p: ForcedPrecedence :: Scanned(p, left, right + 1) <==>
              Scanned(p, left, right) || p == ForcedPrecedence(left, right) || p == ForcedPrecedence(right, left)
  {
    forall p: ForcedPrecedence
      ensures Scanned(p, left, right + 1) <==>
                Scanned(p, left, right) || p == ForcedPrecedence(left, right) || p == ForcedPrecedence(right, left)
    {
      assert p == ForcedPrecedence(p.before, p.after);
    }
  }

  lemma RowScanned(left: nat, n: nat)
    ensures forall p: ForcedPrecedence :: p.before < n && p.after < n ==> (Scanned(p, left + 1, 0) <==> Scanned(p, left, n))
  {
  }

  /** A reported precedence holds in every non-overlapping schedule of the input. */
  lemma {:induction false} PrecedenceHolds(durations: seq<int>, d: Domains, r: Domains, p: ForcedPrecedence, s: seq<int>)
    requires |d| == |durations| && GreatestConsistent(PairSupports(durations), d, r) && Precedes(durations, r, p)
    requires InDomains(d, s) && Separate(durations, s)
    ensures s[p.before] + durations[p.before] <= s[p.after]
  {
    PairwiseKeepsSchedules(durations, d, r, s);
    SeparateEitherWay(durations, s, p.before, p.after);
    assert s[p.before] in r[p.before] && s[p.after] in r[p.after];
  }

  // ---- The propagator ----

  function TaskError(task: DisjunctiveTask, index: nat): (e: DisjunctivePropagationError)
    ensures task.duration <= 0 ==> e == InvalidDuration(index)
    ensures task.duration > 0 ==> e == EmptyDomain(index)
  {
    if task.duration <= 0 then InvalidDuration(index) else EmptyDomain(index)
  }

  /** The largest arc-consistent sub-domains, and all precedences they force. */
  ghost predicate PairwiseReport(tasks: seq<DisjunctiveTask>, report: DisjunctivePropagationReport) {
    var d, r, durations := Starts(tasks), Starts(report.tasks), Durations(tasks);
    && |report.tasks| == |tasks| && Durations(report.tasks) == durations && AllSorted(r)
    && GreatestConsistent(PairSupports(durations), d, r)
    && report.removedStarts == DistinctValues(d) - TotalSize(r) && report.passes <= report.removedStarts + 1
    && SettlesAfter(PassOf(PairSupports(durations)), Normalized(d), report.passes, r)
    && StrictlyOrdered(report.forcedPrecedences)
    && forall p :: p in report.forcedPrecedences <==> Precedes(durations, r, p)
  }

  ghost predicate PairwiseOutcome(tasks: seq<DisjunctiveTask>, r: Result<DisjunctivePropagationReport, DisjunctivePropagationError>) {
    if HasConsistent(PairSupports(Durations(tasks)), Starts(tasks))
    then r.Ok? && PairwiseReport(tasks, r.value)
    else r == Err(Infeasible)
  }

  method PropagatePairwiseDisjunctive(tasks: seq<DisjunctiveTask>)
    returns (r: Result<DisjunctivePropagationReport, DisjunctivePropagationError>)
    ensures tasks == [] ==> r == Err(EmptyTasks)
    ensures forall v: nat :: FirstBad(tasks, v) ==> r == Err(TaskError(tasks[v], v))
    ensures tasks != [] && NoBadTask(tasks) ==> PairwiseOutcome(tasks, r)
  {
    AtMostOneFirstBad(tasks);
    if tasks == [] {
      return Err(EmptyTasks);
    }
    var normalized := NormalizeTasks(tasks);
    if normalized.Err? {
      return Err(TaskError(tasks[normalized.error], normalized.error));
    }
    r := PropagateNormalized(tasks, normalized.value);
  }

  method PropagateNormalized(tasks: seq<DisjunctiveTask>, n: Domains)
    returns (r: Result<DisjunctivePropagationReport, DisjunctivePropagationError>)
    requires NoBadTask(tasks) && n == Normalized(Starts(tasks)) && NoneEmpty(n)
    ensures PairwiseOutcome(tasks, r)
  {
    var durations := Durations(tasks);
    NormalizingKeepsGreatest(PairSupports(durations), Starts(tasks), n);
    var feasible, current, passes := RunPasses(durations, n);
    if !feasible {
      return Err(Infeasible);
    }
    forall i | 0 <= i < |durations| ensures durations[i] > 0 {
      assert !BadTask(tasks[i]);
    }
    var forced := ForcedPrecedences(durations, current);
    TotalSizeShrinks(n, current);
    PartsOfTasks(durations, current);
    var removed := TotalSize(n) - TotalSize(current);
    return Ok(DisjunctivePropagationReport(WithStarts(durations, current), removed, passes, forced));
  }
}
