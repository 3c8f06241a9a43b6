/** Energetic reasoning for a cumulative resource over a finite family of intervals. */
module CumulativeEnergy {
  import opened Wrappers
  import opened Finite
  import opened Sorting
  import opened Filtering
  import opened Propagation
  import opened CumulativeTasks

  type Interval = (int, int)

  datatype EnergeticPropagationReport =
    EnergeticPropagationReport(tasks: Tasks, removedStarts: nat, passes: nat, examinedIntervals: nat, minimumEnergySlack: int)

  datatype EnergeticPropagationError =
    | EmptyTasks
    | EmptyDomain(task: nat)
    | InvalidTask(task: nat)
    | InvalidCapacity
    | InvalidIntervalBudget
    | IntervalBudgetExceeded(needed: nat, maximum: nat)
    | Infeasible

  // ---- Energy of a schedule ----

  /** How long a task started at `start` runs inside the interval. */
  function OverlapLength(start: int, duration: int, interval: Interval): int {
    Max(Min(start + duration, interval.1) - Max(start, interval.0), 0)
  }

  /** Demand times overlap, over the first `n` tasks. */
  ghost function ScheduleEnergy(tasks: Tasks, s: seq<int>, n: nat, interval: Interval): int
    requires n <= |tasks| == |s|
  {
    if n == 0 then 0
    else ScheduleEnergy(tasks, s, n - 1, interval) + OverlapLength(s[n - 1], tasks[n - 1].duration, interval) * tasks[n - 1].demand
  }

  /** The load of the first `n` tasks, summed over the instants of an interval. */
  ghost function SummedLoad(tasks: Tasks, s: seq<int>, n: nat, a: int, b: int): int
    requires n <= |tasks| == |s|
    decreases b - a
  {
    if b <= a then 0 else SummedLoad(tasks, s, n, a, b - 1) + Load(tasks, s, n, b - 1)
  }

  /** Extending an interval by one instant lengthens the overlap exactly when the task runs then. */
  lemma OverlapGrows(task: CumulativeTask, start: int, a: int, b: int)
    requires a < b
    ensures OverlapLength(start, task.duration, (a, b)) * task.demand
         == OverlapLength(start, task.duration, (a, b - 1)) * task.demand + if RunsAt(task, start, b - 1) then task.demand else 0
  {
    var shorter, longer := OverlapLength(start, task.duration, (a, b - 1)), OverlapLength(start, task.duration, (a, b));
    if RunsAt(task, start, b - 1) {
      assert longer == shorter + 1;
    } else {
      assert longer == shorter;
    }
  }

  lemma {:induction false} LoadSplitsOff(tasks: Tasks, s: seq<int>, n: nat, a: int, b: int)
    requires 0 < n <= |tasks| == |s|
    ensures SummedLoad(tasks, s, n, a, b)
         == SummedLoad(tasks, s, n - 1, a, b) + OverlapLength(s[n - 1], tasks[n - 1].duration, (a, b)) * tasks[n - 1].demand
    decreases b - a
  {
    if a < b {
      LoadSplitsOff(tasks, s, n, a, b - 1);
      OverlapGrows(tasks[n - 1], s[n - 1], a, b);
    }
  }

  /** Double counting: summing demand times overlap per task, or load per instant, gives the same energy. */
  lemma {:induction false} EnergyIsSummedLoad(tasks: Tasks, s: seq<int>, n: nat, a: int, b: int)
    requires n <= |tasks| == |s|
    ensures ScheduleEnergy(tasks, s, n, (a, b)) == SummedLoad(tasks, s, n, a, b)
  {
    if n == 0 {
      NoTasksNoLoad(tasks, s, a, b);
    } else {
      EnergyIsSummedLoad(tasks, s, n - 1, a, b);
      LoadSplitsOff(tasks, s, n, a, b);
    }
  }

  lemma {:induction false} NoTasksNoLoad(tasks: Tasks, s: seq<int>, a: int, b: int)
    requires |tasks| == |s|
    ensures SummedLoad(tasks, s, 0, a, b) == 0
    decreases b - a
  {
    if a < b { NoTasksNoLoad(tasks, s, a, b - 1); }
  }

  function AvailableEnergy(capacity: int, interval: Interval): int {
    (interval.1 - interval.0) * capacity
  }

  lemma {:induction false} CapacityBoundsLoad(tasks: Tasks, s: seq<int>, capacity: int, a: int, b: int)
    requires |tasks| == |s| && Fits(tasks, s, capacity) && a <= b
    ensures SummedLoad(tasks, s, |tasks|, a, b) <= AvailableEnergy(capacity, (a, b))
    decreases b - a
  {
    if a < b {
      CapacityBoundsLoad(tasks, s, capacity, a, b - 1);
      assert Load(tasks, s, |tasks|, b - 1) <= capacity;
      assert (b - a) * capacity == (b - 1 - a) * capacity + capacity;
    }
  }

  // ---- Energy that cannot be avoided ----

  /** The least overlap over the first `k` starts of the domain. */
  ghost function LeastOverlap(task: CumulativeTask, k: nat, interval: Interval): int
    requires 0 < k <= |task.startDomain|
  {
    var here := OverlapLength(task.startDomain[k - 1], task.duration, interval);
    if k == 1 then here else Min(LeastOverlap(task, k - 1, interval), here)
  }

  lemma {:induction false} LeastOverlapBounds(task: CumulativeTask, k: nat, interval: Interval, x: int)
    requires 0 < k <= |task.startDomain| && x in task.startDomain[..k]
    ensures LeastOverlap(task, k, interval) <= OverlapLength(x, task.duration, interval)
  {
    if k > 1 && x in task.startDomain[..k - 1] {
      LeastOverlapBounds(task, k - 1, interval, x);
    }
  }

  lemma {:induction false} LeastOverlapAttained(task: CumulativeTask, k: nat, interval: Interval) returns (x: int)
    requires 0 < k <= |task.startDomain|
    ensures x in task.startDomain[..k] && OverlapLength(x, task.duration, interval) == LeastOverlap(task, k, interval)
  {
    x := task.startDomain[k - 1];
    if k > 1 {
      var earlier := LeastOverlapAttained(task, k - 1, interval);
      if OverlapLength(earlier, task.duration, interval) <= OverlapLength(x, task.duration, interval) { x := earlier; }
    }
  }

  /** The overlap counted for task `i`: of the fixed start, or the least over its domain. */
  ghost function CountedOverlap(tasks: Tasks, i: nat, fixed: Option<(nat, int)>, interval: Interval): int
    requires i < |tasks| && tasks[i].startDomain != []
  {
    if fixed.Some? && fixed.value.0 == i then OverlapLength(fixed.value.1, tasks[i].duration, interval)
    else LeastOverlap(tasks[i], |tasks[i].startDomain|, interval)
  }

  ghost predicate HaveStarts(tasks: Tasks) {
    forall i :: 0 <= i < |tasks| ==> tasks[i].startDomain != []
  }

  ghost function RequiredEnergy(tasks: Tasks, n: nat, fixed: Option<(nat, int)>, interval: Interval): int
    requires n <= |tasks| && HaveStarts(tasks)
  {
    if n == 0 then 0
    else RequiredEnergy(tasks, n - 1, fixed, interval) + CountedOverlap(tasks, n - 1, fixed, interval) * tasks[n - 1].demand
  }

  ghost predicate EnergyWithin(tasks: Tasks, fixed: Option<(nat, int)>, capacity: int, interval: Interval)
    requires HaveStarts(tasks)
  {
    RequiredEnergy(tasks, |tasks|, fixed, interval) <= AvailableEnergy(capacity, interval)
  }

  lemma ScaledOverlap(a: int, b: int, demand: int)
    requires a <= b && demand > 0
    ensures a * demand <= b * demand
  {
  }

  /** One start per task: the fixed one, or any of the task's domain. */
  ghost predicate Agrees(tasks: Tasks, s: seq<int>, fixed: Option<(nat, int)>) {
    && |s| == |tasks|
    && forall i: nat :: i < |tasks| ==>
         if fixed.Some? && fixed.value.0 == i then s[i] == fixed.value.1 else s[i] in tasks[i].startDomain
  }

  /** Some choice of starts spends no more in the interval than the required energy. */
  lemma {:induction false} RequiredEnergyAttained(tasks: Tasks, n: nat, fixed: Option<(nat, int)>, interval: Interval) returns (s: seq<int>)
    requires HaveStarts(tasks) && n <= |tasks|
    ensures Agrees(tasks[..n], s, fixed)
    ensures forall z :: |z| == |tasks| && s <= z ==> ScheduleEnergy(tasks, z, n, interval) == RequiredEnergy(tasks, n, fixed, interval)
  {
    s := [];
    if n > 0 {
      var task := tasks[n - 1];
      var rest := RequiredEnergyAttained(tasks, n - 1, fixed, interval);
      var x := LeastOverlapAttained(task, |task.startDomain|, interval);
      if fixed.Some? && fixed.value.0 == n - 1 { x := fixed.value.1; }
      s := rest + [x];
    }
  }

  /** The counted energy never exceeds the energy of a choice of starts that agrees with the fixed start. */
  lemma {:induction false} RequiredBelowSchedule(tasks: Tasks, s: seq<int>, n: nat, fixed: Option<(nat, int)>, interval: Interval)
    requires WellFormed(tasks) && HaveStarts(tasks) && Agrees(tasks, s, fixed) && n <= |tasks|
    ensures RequiredEnergy(tasks, n, fixed, interval) <= ScheduleEnergy(tasks, s, n, interval)
  {
    if n > 0 {
      RequiredBelowSchedule(tasks, s, n - 1, fixed, interval);
      var task := tasks[n - 1];
      assert task.startDomain == task.startDomain[..|task.startDomain|];
      if s[n - 1] in task.startDomain { LeastOverlapBounds(task, |task.startDomain|, interval, s[n - 1]); }
      ScaledOverlap(CountedOverlap(tasks, n - 1, fixed, interval), OverlapLength(s[n - 1], task.duration, interval), task.demand);
    }
  }

  /** The energy test is exact for one interval: it passes exactly when some choice of starts fits the energy of the interval. */
  lemma {:induction false} EnergyTestIsExact(tasks: Tasks, fixed: Option<(nat, int)>, capacity: int, interval: Interval)
    requires WellFormed(tasks) && HaveStarts(tasks)
    ensures EnergyWithin(tasks, fixed, capacity, interval) <==>
              exists s :: Agrees(tasks, s, fixed) && ScheduleEnergy(tasks, s, |tasks|, interval) <= AvailableEnergy(capacity, interval)
    ensures exists s :: Agrees(tasks, s, fixed) &&
              ScheduleEnergy(tasks, s, |tasks|, interval) == RequiredEnergy(tasks, |tasks|, fixed, interval)
  {
    var least := RequiredEnergyAttained(tasks, |tasks|, fixed, interval);
    assert tasks[..|tasks|] == tasks && least <= least;
    forall s | Agrees(tasks, s, fixed)
      ensures RequiredEnergy(tasks, |tasks|, fixed, interval) <= ScheduleEnergy(tasks, s, |tasks|, interval)
    {
      RequiredBelowSchedule(tasks, s, |tasks|, fixed, interval);
    }
  }

  /** A feasible schedule leaves enough energy in every interval, with any of its own starts fixed. */
  lemma ScheduleHasEnergy(tasks: Tasks, s: seq<int>, capacity: int, fixed: Option<(nat, int)>, interval: Interval)
    requires WellFormed(tasks) && HaveStarts(tasks) && FeasibleSchedule(tasks, s, capacity) && interval.0 <= interval.1
    requires fixed.Some? && fixed.value.0 < |tasks| ==> s[fixed.value.0] == fixed.value.1
    ensures EnergyWithin(tasks, fixed, capacity, interval)
  {
    RequiredBelowSchedule(tasks, s, |tasks|, fixed, interval);
    EnergyIsSummedLoad(tasks, s, |tasks|, interval.0, interval.1);
    CapacityBoundsLoad(tasks, s, capacity, interval.0, interval.1);
  }

  method MinimumOverlap(task: CumulativeTask, interval: Interval) returns (minimum: int)
    requires task.startDomain != []
    ensures minimum == LeastOverlap(task, |task.startDomain|, interval)
  {
    minimum := OverlapLength(task.startDomain[0], task.duration, interval);
    for k := 1 to |task.startDomain|
      invariant minimum == LeastOverlap(task, k, interval)
    {
      minimum := Min(minimum, OverlapLength(task.startDomain[k], task.duration, interval));
    }
  }

  method ComputeRequiredEnergy(tasks: Tasks, fixed: Option<(nat, int)>, interval: Interval) returns (required: int)
    requires HaveStarts(tasks)
    ensures required == RequiredEnergy(tasks, |tasks|, fixed, interval)
  {
    required := 0;
    for index := 0 to |tasks|
      invariant required == RequiredEnergy(tasks, index, fixed, interval)
    {
      var overlap: int;
      if fixed.Some? && fixed.value.0 == index {
        overlap := OverlapLength(fixed.value.1, tasks[index].duration, interval);
      } else {
        overlap := MinimumOverlap(tasks[index], interval);
      }
      required := required + overlap * tasks[index].demand;
    }
  }

  /** The energy test over a list of intervals, with or without a fixed start. */
  ghost predicate EnergyFits(tasks: Tasks, fixed: Option<(nat, int)>, capacity: int, intervals: seq<Interval>)
    requires HaveStarts(tasks)
  {
    forall k :: 0 <= k < |intervals| ==> EnergyWithin(tasks, fixed, capacity, intervals[k])
  }

  method CheckEnergy(tasks: Tasks, fixed: Option<(nat, int)>, capacity: int, intervals: seq<Interval>) returns (ok: bool)
    requires HaveStarts(tasks)
    ensures ok <==> EnergyFits(tasks, fixed, capacity, intervals)
  {
    for k := 0 to |intervals|
      invariant forall j :: 0 <= j < k ==> EnergyWithin(tasks, fixed, capacity, intervals[j])
    {
      var required := ComputeRequiredEnergy(tasks, fixed, intervals[k]);
      if required > AvailableEnergy(capacity, intervals[k]) {
        return false;
      }
    }
    return true;
  }

  ghost function Slack(tasks: Tasks, capacity: int, interval: Interval): int
    requires HaveStarts(tasks)
  {
    AvailableEnergy(capacity, interval) - RequiredEnergy(tasks, |tasks|, None, interval)
  }

  ghost predicate IsMinimumSlack(tasks: Tasks, capacity: int, intervals: seq<Interval>, slack: int)
    requires HaveStarts(tasks)
  {
    && (forall k :: 0 <= k < |intervals| ==> slack <= Slack(tasks, capacity, intervals[k]))
    && if intervals == [] then slack == 0 else exists k :: 0 <= k < |intervals| && slack == Slack(tasks, capacity, intervals[k])
  }

  method MinimumSlack(tasks: Tasks, capacity: int, intervals: seq<Interval>) returns (slack: int)
    requires HaveStarts(tasks)
    ensures IsMinimumSlack(tasks, capacity, intervals, slack)
  {
    var minimum: Option<int> := None;
    for k := 0 to |intervals|
      invariant minimum == None <==> k == 0
      invariant forall j :: 0 <= j < k ==> minimum.value <= Slack(tasks, capacity, intervals[j])
      invariant k > 0 ==> exists j :: 0 <= j < k && minimum.value == Slack(tasks, capacity, intervals[j])
    {
      var required := ComputeRequiredEnergy(tasks, None, intervals[k]);
      var here := AvailableEnergy(capacity, intervals[k]) - required;
      assert here == Slack(tasks, capacity, intervals[k]);
      minimum := if minimum == None then Some(here) else Some(Min(minimum.value, here));
    }
    slack := if minimum == None then 0 else minimum.value;
  }

  // ---- Candidate intervals ----

  /** A task of the given duration can start or end at `t`. */
  predicate StartOrEnd(starts: seq<int>, duration: int, t: int) {
    t in starts || t - duration in starts
  }

  predicate EndpointOf(task: CumulativeTask, t: int) {
    StartOrEnd(task.startDomain, task.duration, t)
  }

  ghost predicate IsEndpoint(tasks: Tasks, n: nat, t: int)
    requires n <= |tasks|
  {
    exists i :: 0 <= i < n && EndpointOf(tasks[i], t)
  }

  method AddEndpoints(task: CumulativeTask, endpoints: set<int>) returns (r: set<int>)
    ensures forall t :: t in r <==> t in endpoints || EndpointOf(task, t)
  {
    r := endpoints;
    var d := task.startDomain;
    for k := 0 to |d|
      invariant forall t :: t in r <==> t in endpoints || StartOrEnd(d[..k], task.duration, t)
    {
      assert d[..k + 1] == d[..k] + [d[k]];
      forall t ensures StartOrEnd(d[..k + 1], task.duration, t)
          <==> StartOrEnd(d[..k], task.duration, t) || t == d[k] || t == d[k] + task.duration
      {
      }
      r := r + {d[k]} + {d[k] + task.duration};
    }
    assert d[..|d|] == d;
  }

  method Endpoints(tasks: Tasks) returns (endpoints: set<int>)
    ensures forall t :: t in endpoints <==> IsEndpoint(tasks, |tasks|, t)
  {
    endpoints := {};
    for i := 0 to |tasks|
      invariant forall t :: t in endpoints <==> IsEndpoint(tasks, i, t)
    {
      ghost var before := endpoints;
      endpoints := AddEndpoints(tasks[i], endpoints);
      forall t ensures t in endpoints <==> IsEndpoint(tasks, i + 1, t) {
        assert IsEndpoint(tasks, i, t) <==> t in before;
      }
    }
  }

  /** Number of unordered pairs of `n` points. */
  function Pairs(n: nat): nat {
    if n == 0 then 0 else Pairs(n - 1) + n - 1
  }

  lemma {:induction false} PairsFormula(n: nat)
    ensures n * (n - 1) / 2 == Pairs(n)
    ensures n * (n - 1) == 2 * Pairs(n)
  {
    if n > 0 { PairsFormula(n - 1); }
  }

  lemma {:induction false} PairsGrow(m: nat, n: nat)
    requires m <= n
    ensures Pairs(m) <= Pairs(n)
  {
    if m < n { PairsGrow(m, n - 1); }
  }

  /** All intervals between two different points, each once. */
  ghost predicate AllIntervals(points: set<int>, intervals: seq<Interval>) {
    && (forall k :: 0 <= k < |intervals| ==> intervals[k].0 < intervals[k].1 && intervals[k].0 in points && intervals[k].1 in points)
    && (forall a, b :: a in points && b in points && a < b ==> (a, b) in intervals)
    && |intervals| == Pairs(|points|)
  }

  /** The intervals from one left point to every later point. */
  method IntervalsFrom(points: seq<int>, left: nat) returns (intervals: seq<Interval>)
    requires left < |points|
    ensures |intervals| == |points| - left - 1
    ensures forall k :: 0 <= k < |intervals| ==> intervals[k] == (points[left], points[left + 1 + k])
  {
    intervals := [];
    for right := left + 1 to |points|
      invariant |intervals| == right - left - 1
      invariant forall k :: 0 <= k < |intervals| ==> intervals[k] == (points[left], points[left + 1 + k])
    {
      intervals := intervals + [(points[left], points[right])];
    }
  }

  /** `iv` runs between two points, the left one among the first `left`. */
  ghost predicate PairOf(points: seq<int>, left: nat, iv: Interval) {
    exists p, q :: 0 <= p < q < |points| && p < left && iv == (points[p], points[q])
  }

  method ListIntervals(points: seq<int>) returns (intervals: seq<Interval>)
    ensures |intervals| == Pairs(|points|)
    ensures forall iv :: iv in intervals <==> PairOf(points, |points|, iv)
  {
    intervals := [];
    for left := 0 to |points|
      invariant |intervals| == Pairs(|points|) - Pairs(|points| - left)
      invariant forall iv :: iv in intervals <==> PairOf(points, left, iv)
    {
      var more := IntervalsFrom(points, left);
      ListNext(points, left, intervals, more);
      intervals := intervals + more;
    }
  }

  lemma ListNext(points: seq<int>, left: nat, intervals: seq<Interval>, more: seq<Interval>)
    requires left < |points| && forall iv :: iv in intervals <==> PairOf(points, left, iv)
    requires |more| == |points| - left - 1 && forall k :: 0 <= k < |more| ==> more[k] == (points[left], points[left + 1 + k])
    ensures forall iv :: iv in intervals + more <==> PairOf(points, left + 1, iv)
  {
    forall iv ensures iv in intervals + more <==> PairOf(points, left + 1, iv) {
      if PairOf(points, left + 1, iv) && !PairOf(points, left, iv) {
        var p, q :| 0 <= p < q < |points| && p < left + 1 && iv == (points[p], points[q]);
        assert p == left;
        assert more[q - left - 1] == iv;
      }
      if iv in more {
        var k :| 0 <= k < |more| && more[k] == iv;
        assert iv == (points[left], points[left + 1 + k]);
      }
    }
  }

  lemma PairsAreAllIntervals(endpoints: set<int>, points: seq<int>, intervals: seq<Interval>)
    requires StrictlySorted(points) && |points| == |endpoints| && forall t :: t in points <==> t in endpoints
    requires |intervals| == Pairs(|points|) && forall iv :: iv in intervals <==> PairOf(points, |points|, iv)
    ensures AllIntervals(endpoints, intervals)
  {
    forall k | 0 <= k < |intervals|
      ensures intervals[k].0 < intervals[k].1 && intervals[k].0 in endpoints && intervals[k].1 in endpoints
    {
      assert PairOf(points, |points|, intervals[k]);
      var p, q :| 0 <= p < q < |points| && intervals[k] == (points[p], points[q]);
      assert points[p] in points && points[q] in points;
    }
    forall a, b | a in endpoints && b in endpoints && a < b ensures (a, b) in intervals {
      var p :| 0 <= p < |points| && points[p] == a;
      var q :| 0 <= q < |points| && points[q] == b;
      assert p < q;
      assert PairOf(points, |points|, (a, b));
    }
  }

  // ---- The fixed-point loop ----

  /** No start of a feasible schedule was removed so far. */
  ghost predicate EnergyState(tasks: Tasks, current: Tasks, capacity: int) {
    && WellFormed(tasks) && SameShape(tasks, current) && HaveStarts(current) && AllSorted(Starts(current))
    && forall s :: FeasibleSchedule(tasks, s, capacity) ==> InDomains(Starts(current), s)
  }

  ghost predicate Forward(intervals: seq<Interval>) {
    forall k :: 0 <= k < |intervals| ==> intervals[k].0 <= intervals[k].1
  }

  ghost function EnergySupports(tasks: Tasks, capacity: int, intervals: seq<Interval>): Supports {
    (d: Domains, v: nat, x: int) => |d| == |tasks| && HaveStarts(WithStarts(tasks, d))
      && EnergyFits(WithStarts(tasks, d), Some((v, x)), capacity, intervals)
  }

  lemma ScheduleFitsEnergy(tasks: Tasks, current: Tasks, s: seq<int>, capacity: int, fixed: Option<(nat, int)>, intervals: seq<Interval>)
    requires EnergyState(tasks, current, capacity) && FeasibleSchedule(tasks, s, capacity) && Forward(intervals)
    requires fixed.Some? && fixed.value.0 < |tasks| ==> s[fixed.value.0] == fixed.value.1
    ensures EnergyFits(current, fixed, capacity, intervals)
  {
    assert InDomains(Starts(current), s);
    forall t { SameLoad(tasks, current, s, |tasks|, t); }
    forall i | 0 <= i < |s| ensures s[i] in current[i].startDomain && current[i].duration > 0 && current[i].demand > 0 {
      assert s[i] in Starts(current)[i];
    }
    forall k | 0 <= k < |intervals| ensures EnergyWithin(current, fixed, capacity, intervals[k]) {
      ScheduleHasEnergy(current, s, capacity, fixed, intervals[k]);
    }
  }

  lemma {:induction false} SameLoad(tasks: Tasks, current: Tasks, s: seq<int>, n: nat, t: int)
    requires SameShape(tasks, current) && |s| == |tasks| && n <= |tasks|
    ensures Load(current, s, n, t) == Load(tasks, s, n, t)
  {
    if n > 0 { SameLoad(tasks, current, s, n - 1, t); }
  }

  method FilterStarts(ghost tasks: Tasks, current: Tasks, i: nat, capacity: int, intervals: seq<Interval>) returns (supported: seq<int>)
    requires EnergyState(tasks, current, capacity) && i < |current|
    ensures supported == FilteredBy(EnergySupports(tasks, capacity, intervals), Starts(current), i)
  {
    var candidates := current[i].startDomain;
    ghost var keep := SupportedIn(EnergySupports(tasks, capacity, intervals), Starts(current), i);
    ShapeAndStarts(tasks, current);
    supported := [];
    for k := 0 to |candidates|
      invariant supported == Retain(candidates[..k], keep)
    {
      RetainNext(candidates, k, keep);
      var ok := CheckEnergy(current, Some((i, candidates[k])), capacity, intervals);
      if ok {
        supported := supported + [candidates[k]];
      }
    }
    RetainAll(candidates, keep);
  }

  /** Filtering one task keeps every feasible schedule, so an empty result proves there is none. */
  lemma {:induction false} EnergyStep(tasks: Tasks, current: Tasks, i: nat, capacity: int, intervals: seq<Interval>, kept: seq<int>)
    requires EnergyState(tasks, current, capacity) && i < |current| && Forward(intervals)
    requires kept == FilteredBy(EnergySupports(tasks, capacity, intervals), Starts(current), i)
    ensures kept == [] ==> forall s :: !FeasibleSchedule(tasks, s, capacity)
    ensures kept != [] ==> EnergyState(tasks, current[i := current[i].(startDomain := kept)], capacity)
  {
    var keep := SupportedIn(EnergySupports(tasks, capacity, intervals), Starts(current), i);
    var next := current[i := current[i].(startDomain := kept)];
    ShapeAndStarts(tasks, current);
    RetainMembers(Starts(current)[i], keep);
    RetainSorted(Starts(current)[i], keep);
    forall s | FeasibleSchedule(tasks, s, capacity) ensures s[i] in kept && InDomains(Starts(next), s) {
      assert InDomains(Starts(current), s) && s[i] in Starts(current)[i];
      ScheduleFitsEnergy(tasks, current, s, capacity, Some((i, s[i])), intervals);
    }
  }

  /** Every remaining start passes the energy test over the listed intervals. */
  ghost predicate AllCandidatesFit(current: Tasks, capacity: int, intervals: seq<Interval>)
    requires HaveStarts(current)
  {
    forall v: nat, x :: v < |current| && x in current[v].startDomain ==> EnergyFits(current, Some((v, x)), capacity, intervals)
  }

  /** One pass over all tasks, each updated before the next one is filtered. */
  method EnergyPass(ghost tasks: Tasks, start: Tasks, capacity: int, intervals: seq<Interval>) returns (feasible: bool, current: Tasks)
    requires EnergyState(tasks, start, capacity) && Forward(intervals)
    ensures !feasible ==> forall s :: !FeasibleSchedule(tasks, s, capacity)
    ensures feasible ==> EnergyState(tasks, current, capacity) && Smaller(Starts(current), Starts(start))
    ensures feasible && current == start ==> AllCandidatesFit(current, capacity, intervals)
    ensures feasible && current != start ==> TotalSize(Starts(current)) < TotalSize(Starts(start))
    ensures feasible ==> Starts(current) == FilteredUpTo(EnergySupports(tasks, capacity, intervals), Starts(start), |start|)
  {
    ghost var supports := EnergySupports(tasks, capacity, intervals);
    current := start;
    for i := 0 to |start|
      invariant EnergyState(tasks, current, capacity)
      invariant PassProgress(supports, Starts(start), Starts(current), i)
      invariant Starts(current) == FilteredUpTo(supports, Starts(start), i)
    {
      var supported := FilterStarts(tasks, current, i, capacity, intervals);
      EnergyStep(tasks, current, i, capacity, intervals, supported);
      PassStep(supports, Starts(start), Starts(current), i);
      if supported == [] {
        return false, current;
      }
      ReplaceStarts(tasks, current, i, supported);
      current := current[i := current[i].(startDomain := supported)];
    }
    feasible := true;
    PassOutcome(tasks, start, current);
    if current == start {
      ShapeAndStarts(tasks, current);
      forall v: nat, x | v < |current| && x in current[v].startDomain
        ensures EnergyFits(current, Some((v, x)), capacity, intervals)
      {
        assert x in Starts(start)[v] && supports(Starts(start), v, x);
      }
    }
  }

  // ---- Smaller domains have fewer intervals ----

  /** The start and end points of the first `n` tasks. */
  ghost function EndpointSet(tasks: Tasks, n: nat): (e: set<int>)
    requires n <= |tasks|
    ensures forall t :: t in e <==> IsEndpoint(tasks, n, t)
  {
    if n == 0 then {}
    else
      var d := tasks[n - 1].startDomain;
      var e := EndpointSet(tasks, n - 1) + (set x | x in d) + (set x | x in d :: x + tasks[n - 1].duration);
      assert forall t :: t in e <==> t in EndpointSet(tasks, n - 1) || EndpointOf(tasks[n - 1], t);
      e
  }

  /** How many intervals the candidate family has. */
  ghost function NeededIntervals(tasks: Tasks): nat {
    Pairs(|EndpointSet(tasks, |tasks|)|)
  }

  lemma FewerIntervals(tasks: Tasks, start: Tasks, current: Tasks)
    requires SameShape(tasks, start) && SameShape(tasks, current)
    requires forall i, x :: 0 <= i < |tasks| && x in current[i].startDomain ==> x in start[i].startDomain
    ensures NeededIntervals(current) <= NeededIntervals(start)
  {
    var e, d := EndpointSet(current, |current|), EndpointSet(start, |start|);
    forall t | t in e ensures t in d {
      var i :| 0 <= i < |current| && EndpointOf(current[i], t);
      assert EndpointOf(start[i], t);
    }
    SubsetCardinality(e, d);
    PairsGrow(|e|, |d|);
  }

  /** All intervals between end points of the tasks; Err with their number if there are too many. */
  method CandidateIntervals(tasks: Tasks, maximum: nat) returns (r: Result<seq<Interval>, nat>)
    ensures NeededIntervals(tasks) > maximum ==> r == Err(NeededIntervals(tasks))
    ensures NeededIntervals(tasks) <= maximum ==> r.Ok? && AllIntervals(EndpointSet(tasks, |tasks|), r.value)
  {
    var endpoints := Endpoints(tasks);
    forall t ensures t in endpoints <==> t in EndpointSet(tasks, |tasks|) {
      assert t in endpoints <==> IsEndpoint(tasks, |tasks|, t);
    }
    assert endpoints == EndpointSet(tasks, |tasks|);
    var points := SortedElements(endpoints);
    var count := |points|;
    var needed := count * (count - 1) / 2;
    PairsFormula(count);
    if needed > maximum {
      return Err(needed);
    }
    var intervals := ListIntervals(points);
    PairsAreAllIntervals(endpoints, points, intervals);
    return Ok(intervals);
  }

  ghost predicate BetweenEndpoints(tasks: Tasks, interval: Interval) {
    && interval.0 < interval.1
    && interval.0 in EndpointSet(tasks, |tasks|) && interval.1 in EndpointSet(tasks, |tasks|)
  }

  /** No interval between end points is overloaded, whichever remaining start is fixed. */
  ghost predicate EnergyConsistent(current: Tasks, capacity: int)
    requires HaveStarts(current)
  {
    && (forall iv :: BetweenEndpoints(current, iv) ==> EnergyWithin(current, None, capacity, iv))
    && forall iv, v: nat, x :: BetweenEndpoints(current, iv) && v < |current| && x in current[v].startDomain ==>
         EnergyWithin(current, Some((v, x)), capacity, iv)
  }

  /** `slack` is the least unused energy over the intervals between end points. */
  ghost predicate LeastSlack(current: Tasks, capacity: int, slack: int)
    requires HaveStarts(current)
  {
    && (forall iv :: BetweenEndpoints(current, iv) ==> slack <= Slack(current, capacity, iv))
    && exists iv :: BetweenEndpoints(current, iv) && slack == Slack(current, capacity, iv)
  }

  lemma {:induction false} IntervalListIsComplete(current: Tasks, intervals: seq<Interval>)
    requires AllIntervals(EndpointSet(current, |current|), intervals)
    ensures Forward(intervals) && |intervals| == NeededIntervals(current)
    ensures forall iv :: BetweenEndpoints(current, iv) <==> iv in intervals
  {
    forall iv ensures BetweenEndpoints(current, iv) <==> iv in intervals {
      if BetweenEndpoints(current, iv) { assert iv == (iv.0, iv.1); }
    }
  }

  lemma {:induction false} ConsistentOverList(current: Tasks, capacity: int, intervals: seq<Interval>)
    requires HaveStarts(current) && AllIntervals(EndpointSet(current, |current|), intervals)
    requires EnergyFits(current, None, capacity, intervals) && AllCandidatesFit(current, capacity, intervals)
    ensures EnergyConsistent(current, capacity)
  {
    IntervalListIsComplete(current, intervals);
    forall iv | BetweenEndpoints(current, iv) ensures EnergyWithin(current, None, capacity, iv) {
      var k :| 0 <= k < |intervals| && intervals[k] == iv;
    }
    forall iv, v: nat, x | BetweenEndpoints(current, iv) && v < |current| && x in current[v].startDomain
      ensures EnergyWithin(current, Some((v, x)), capacity, iv)
    {
      var k :| 0 <= k < |intervals| && intervals[k] == iv;
      assert EnergyFits(current, Some((v, x)), capacity, intervals);
    }
  }

  lemma {:induction false} SlackOverList(current: Tasks, capacity: int, intervals: seq<Interval>, slack: int)
    requires HaveStarts(current) && WellFormed(current) && current != []
    requires AllIntervals(EndpointSet(current, |current|), intervals) && IsMinimumSlack(current, capacity, intervals, slack)
    requires EnergyConsistent(current, capacity)
    ensures LeastSlack(current, capacity, slack) && slack >= 0
  {
    IntervalListIsComplete(current, intervals);
    var x, y := current[0].startDomain[0], current[0].startDomain[0] + current[0].duration;
    assert EndpointOf(current[0], x) && EndpointOf(current[0], y);
    assert BetweenEndpoints(current, (x, y));
    forall iv | BetweenEndpoints(current, iv) ensures slack <= Slack(current, capacity, iv) {
      var k :| 0 <= k < |intervals| && intervals[k] == iv;
    }
    var k :| 0 <= k < |intervals| && slack == Slack(current, capacity, intervals[k]);
    assert BetweenEndpoints(current, intervals[k]) && EnergyWithin(current, None, capacity, intervals[k]);
  }

  /** The test of one pass: every interval between end points of the domains `e` at its start. */
  ghost function EndpointSupports(tasks: Tasks, capacity: int, e: Domains): Supports
    requires |e| == |tasks|
  {
    (d: Domains, v: nat, x: int) => |d| == |tasks| && HaveStarts(WithStarts(tasks, d))
      && forall iv :: BetweenEndpoints(WithStarts(tasks, e), iv) ==> EnergyWithin(WithStarts(tasks, d), Some((v, x)), capacity, iv)
  }

  /** One pass with the intervals fixed at its start. */
  ghost function EnergyPassOf(tasks: Tasks, capacity: int): OnePass {
    d => if |d| == |tasks| then FilteredUpTo(EndpointSupports(tasks, capacity, d), d, |d|) else d
  }

  lemma {:induction false} ListedPassIsPass(tasks: Tasks, current: Tasks, capacity: int, intervals: seq<Interval>)
    requires SameShape(tasks, current) && AllIntervals(EndpointSet(current, |current|), intervals)
    ensures FilteredUpTo(EnergySupports(tasks, capacity, intervals), Starts(current), |current|) == EnergyPassOf(tasks, capacity)(Starts(current))
  {
    var (a, b) := (EnergySupports(tasks, capacity, intervals), EndpointSupports(tasks, capacity, Starts(current)));
    ShapeAndStarts(tasks, current);
    IntervalListIsComplete(current, intervals);
    forall d: Domains, v: nat, x: int ensures a(d, v, x) <==> b(d, v, x) {
      if |d| == |tasks| && HaveStarts(WithStarts(tasks, d)) {
        forall iv ensures iv in intervals <==> BetweenEndpoints(current, iv) {
        }
        assert forall k :: 0 <= k < |intervals| ==> intervals[k] in intervals;
      }
    }
    SameFiltering(a, b, Starts(current), |current|);
  }

  /** The intervals of the first `p` passes together. */
  ghost function Examined(tasks: Tasks, capacity: int, n: Domains, p: nat): nat
    requires |n| == |tasks|
  {
    if p == 0 then 0
    else
      var d := AfterPasses(EnergyPassOf(tasks, capacity), n, p - 1);
      Examined(tasks, capacity, n, p - 1) + if |d| == |tasks| then NeededIntervals(WithStarts(tasks, d)) else 0
  }

  datatype EnergyRun = EnergyRun(current: Tasks, passes: nat, examined: nat)

  /** Lists the intervals, checks the resource as a whole, and filters every task once. */
  method EnergyRound(ghost tasks: Tasks, current: Tasks, capacity: int, maximum: nat)
    returns (r: Result<Tasks, EnergeticPropagationError>, examined: nat)
    requires EnergyState(tasks, current, capacity)
    ensures NeededIntervals(current) > maximum ==> r == Err(IntervalBudgetExceeded(NeededIntervals(current), maximum))
    ensures NeededIntervals(current) <= maximum && r.Err? ==> r == Err(Infeasible) && forall s :: !FeasibleSchedule(tasks, s, capacity)
    ensures r.Ok? ==> NeededIntervals(current) == examined <= maximum
    ensures r.Ok? ==> EnergyState(tasks, r.value, capacity) && Smaller(Starts(r.value), Starts(current))
    ensures r.Ok? && r.value == current ==> EnergyConsistent(current, capacity)
    ensures r.Ok? && r.value != current ==> TotalSize(Starts(r.value)) < TotalSize(Starts(current))
    ensures r.Ok? ==> Starts(r.value) == EnergyPassOf(tasks, capacity)(Starts(current))
  {
    var listed := CandidateIntervals(current, maximum);
    if listed.Err? {
      return Err(IntervalBudgetExceeded(listed.error, maximum)), 0;
    }
    var intervals := listed.value;
    IntervalListIsComplete(current, intervals);
    OverloadExcludesSchedules(tasks, current, capacity, intervals);
    var possible := CheckEnergy(current, None, capacity, intervals);
    if !possible {
      return Err(Infeasible), |intervals|;
    }
    var feasible, next := EnergyPass(tasks, current, capacity, intervals);
    if !feasible {
      return Err(Infeasible), |intervals|;
    }
    ListedPassIsPass(tasks, current, capacity, intervals);
    if next == current {
      ConsistentOverList(current, capacity, intervals);
    }
    return Ok(next), |intervals|;
  }

  /** What is true of a run that has made some passes from `start`. */
  ghost predicate RunState(tasks: Tasks, start: Tasks, capacity: int, maximum: nat, run: EnergyRun) {
    && EnergyState(tasks, run.current, capacity) && Smaller(Starts(run.current), Starts(start))
    && |start| == |tasks| && run.examined == Examined(tasks, capacity, Starts(start), run.passes) <= run.passes * maximum
    && Starts(run.current) == AfterPasses(EnergyPassOf(tasks, capacity), Starts(start), run.passes)
    && (run.passes > 0 ==> NeededIntervals(start) <= maximum)
  }

  lemma {:induction false} RunStep(tasks: Tasks, start: Tasks, capacity: int, maximum: nat, run: EnergyRun, next: Tasks, examined: nat)
    requires SameShape(tasks, start) && RunState(tasks, start, capacity, maximum, run)
    requires EnergyState(tasks, next, capacity) && Smaller(Starts(next), Starts(run.current))
    requires NeededIntervals(start) <= maximum && examined == NeededIntervals(run.current) <= maximum
    requires Starts(next) == EnergyPassOf(tasks, capacity)(Starts(run.current))
    ensures RunState(tasks, start, capacity, maximum, EnergyRun(next, run.passes + 1, run.examined + examined))
  {
    SmallerTransitive(Starts(next), Starts(run.current), Starts(start));
    ShapeAndStarts(tasks, run.current);
    BudgetStep(run.passes + 1, maximum);
  }

  /** Repeats passes until one removes no start; the interval budget can only fail before the first one. */
  method RunPasses(ghost tasks: Tasks, start: Tasks, capacity: int, maximum: nat) returns (r: Result<EnergyRun, EnergeticPropagationError>)
    requires EnergyState(tasks, start, capacity)
    ensures NeededIntervals(start) > maximum ==> r == Err(IntervalBudgetExceeded(NeededIntervals(start), maximum))
    ensures NeededIntervals(start) <= maximum && r.Err? ==> r == Err(Infeasible) && forall s :: !FeasibleSchedule(tasks, s, capacity)
    ensures r.Ok? ==> RunState(tasks, start, capacity, maximum, r.value) && EnergyConsistent(r.value.current, capacity)
    ensures r.Ok? ==> r.value.passes <= TotalSize(Starts(start)) - TotalSize(Starts(r.value.current)) + 1
    ensures r.Ok? ==> NeededIntervals(r.value.current) <= maximum
    ensures r.Ok? ==> SettlesAfter(EnergyPassOf(tasks, capacity), Starts(start), r.value.passes, Starts(r.value.current))
  {
    var run := EnergyRun(start, 0, 0);
    while true
      invariant RunState(tasks, start, capacity, maximum, run)
      invariant run.passes == 0 ==> run.current == start
      invariant AllChanged(EnergyPassOf(tasks, capacity), Starts(start), run.passes)
      invariant run.passes <= TotalSize(Starts(start)) - TotalSize(Starts(run.current))
      decreases TotalSize(Starts(run.current))
    {
      SmallerNeedsFewer(tasks, start, run.current);
      var next, examined := EnergyRound(tasks, run.current, capacity, maximum);
      if next.Err? {
        return Err(next.error);
      }
      RunStep(tasks, start, capacity, maximum, run, next.value, examined);
      var before := run.current;
      run := EnergyRun(next.value, run.passes + 1, run.examined + examined);
      if run.current == before {
        return Ok(run);
      }
    }
  }

  lemma BudgetStep(passes: nat, maximum: nat)
    requires passes > 0
    ensures passes * maximum == (passes - 1) * maximum + maximum
  {
  }

  lemma SmallerNeedsFewer(tasks: Tasks, start: Tasks, current: Tasks)
    requires SameShape(tasks, start) && SameShape(tasks, current) && Smaller(Starts(current), Starts(start))
    ensures NeededIntervals(current) <= NeededIntervals(start)
  {
    forall i, x | 0 <= i < |tasks| && x in current[i].startDomain ensures x in start[i].startDomain {
      assert Sublist(Starts(current)[i], Starts(start)[i]);
    }
    FewerIntervals(tasks, start, current);
  }

  lemma {:induction false} OverloadExcludesSchedules(tasks: Tasks, current: Tasks, capacity: int, intervals: seq<Interval>)
    requires EnergyState(tasks, current, capacity) && Forward(intervals)
    ensures !EnergyFits(current, None, capacity, intervals) ==> forall s :: !FeasibleSchedule(tasks, s, capacity)
  {
    forall s | FeasibleSchedule(tasks, s, capacity) ensures EnergyFits(current, None, capacity, intervals) {
      ScheduleFitsEnergy(tasks, current, s, capacity, None, intervals);
    }
  }

  function TaskError(task: CumulativeTask, index: nat): (e: EnergeticPropagationError)
    ensures (task.duration <= 0 || task.demand <= 0) ==> e == InvalidTask(index)
    ensures task.duration > 0 && task.demand > 0 ==> e == EmptyDomain(index)
  {
    if task.duration <= 0 || task.demand <= 0 then InvalidTask(index) else EmptyDomain(index)
  }

  /** Feasible schedules lose no start, no tested interval is overloaded, and the slack is the least and not negative. */
  ghost predicate EnergyReport(tasks: Tasks, capacity: int, maximum: nat, report: EnergeticPropagationReport) {
    && SameShape(tasks, report.tasks) && HaveStarts(report.tasks) && AllSorted(Starts(report.tasks))
    && Within(Starts(report.tasks), Starts(tasks))
    && (forall s :: FeasibleSchedule(tasks, s, capacity) ==> InDomains(Starts(report.tasks), s))
    && EnergyConsistent(report.tasks, capacity)
    && LeastSlack(report.tasks, capacity, report.minimumEnergySlack) && report.minimumEnergySlack >= 0
    && report.removedStarts == DistinctValues(Starts(tasks)) - TotalSize(Starts(report.tasks))
    && report.passes <= report.removedStarts + 1 && report.examinedIntervals <= report.passes * maximum
    && SettlesAfter(EnergyPassOf(tasks, capacity), Normalized(Starts(tasks)), report.passes, Starts(report.tasks))
    && report.examinedIntervals == Examined(tasks, capacity, Normalized(Starts(tasks)), report.passes)
  }

  ghost predicate EnergyOutcome(tasks: Tasks, capacity: int, maximum: nat, r: Result<EnergeticPropagationReport, EnergeticPropagationError>) {
    if NeededIntervals(tasks) > maximum then r == Err(IntervalBudgetExceeded(NeededIntervals(tasks), maximum))
    else if r.Ok? then EnergyReport(tasks, capacity, maximum, r.value)
    else r == Err(Infeasible) && forall s :: !FeasibleSchedule(tasks, s, capacity)
  }

  lemma NormalizedEnergyState(tasks: Tasks, n: Tasks, capacity: int)
    requires NoBadTask(tasks) && NormalizedFrom(tasks, n)
    ensures EnergyState(tasks, n, capacity)
  {
    forall v | 0 <= v < |tasks| ensures !BadTask(tasks[v]) && n[v].startDomain != [] {
      assert !BadTask(tasks[v]);
      SortDedupEmpty(tasks[v].startDomain);
    }
  }

  lemma NormalizedIntervals(tasks: Tasks, n: Tasks)
    requires NormalizedFrom(tasks, n)
    ensures NeededIntervals(n) == NeededIntervals(tasks)
  {
    assert SameShape(tasks, tasks);
    assert forall i, x :: 0 <= i < |tasks| ==> (x in n[i].startDomain <==> x in tasks[i].startDomain);
    FewerIntervals(tasks, n, tasks);
    FewerIntervals(tasks, tasks, n);
  }

  lemma SmallerIsWithin(tasks: Tasks, n: Tasks, d: Domains)
    requires NormalizedFrom(tasks, n) && Smaller(d, Starts(n))
    ensures Within(d, Starts(tasks))
  {
    forall v, x | 0 <= v < |tasks| && x in d[v] ensures x in Starts(tasks)[v] {
      assert Sublist(d[v], Starts(n)[v]) && x in n[v].startDomain;
    }
  }

  lemma ReportIsSound(tasks: Tasks, n: Tasks, capacity: int, maximum: nat, run: EnergyRun, report: EnergeticPropagationReport)
    requires NormalizedFrom(tasks, n) && RunState(tasks, n, capacity, maximum, run) && EnergyConsistent(run.current, capacity)
    requires run.passes <= TotalSize(Starts(n)) - TotalSize(Starts(run.current)) + 1
    requires SettlesAfter(EnergyPassOf(tasks, capacity), Starts(n), run.passes, Starts(run.current))
    requires LeastSlack(run.current, capacity, report.minimumEnergySlack) && report.minimumEnergySlack >= 0
    requires report.tasks == run.current && report.passes == run.passes && report.examinedIntervals == run.examined
    requires report.removedStarts == TotalSize(Starts(n)) - TotalSize(Starts(run.current))
    ensures EnergyReport(tasks, capacity, maximum, report)
  {
    SmallerIsWithin(tasks, n, Starts(run.current));
    NormalizedSize(tasks, n);
  }

  method PropagateCumulativeEnergy(tasks: Tasks, capacity: int, maximumIntervals: nat)
    returns (r: Result<EnergeticPropagationReport, EnergeticPropagationError>)
    ensures tasks == [] ==> r == Err(EmptyTasks)
    ensures tasks != [] && capacity <= 0 ==> r == Err(InvalidCapacity)
    ensures tasks != [] && capacity > 0 && maximumIntervals == 0 ==> r == Err(InvalidIntervalBudget)
    ensures capacity > 0 && maximumIntervals > 0 ==> forall v: nat :: FirstBad(tasks, v) ==> r == Err(TaskError(tasks[v], v))
    ensures tasks != [] && capacity > 0 && maximumIntervals > 0 && NoBadTask(tasks) ==> EnergyOutcome(tasks, capacity, maximumIntervals, r)
  {
    if tasks == [] {
      return Err(EmptyTasks);
    }
    if capacity <= 0 {
      return Err(InvalidCapacity);
    }
    if maximumIntervals == 0 {
      return Err(InvalidIntervalBudget);
    }
    AtMostOneFirstBad(tasks);
    var normalized := NormalizeTasks(tasks);
    if normalized.Err? {
      return Err(TaskError(tasks[normalized.error], normalized.error));
    }
    r := PropagateNormalized(tasks, normalized.value, capacity, maximumIntervals);
  }

  method PropagateNormalized(ghost tasks: Tasks, n: Tasks, capacity: int, maximum: nat)
    returns (r: Result<EnergeticPropagationReport, EnergeticPropagationError>)
    requires tasks != [] && NoBadTask(tasks) && NormalizedFrom(tasks, n)
    ensures EnergyOutcome(tasks, capacity, maximum, r)
  {
    NormalizedEnergyState(tasks, n, capacity);
    NormalizedIntervals(tasks, n);
    var outcome := RunPasses(tasks, n, capacity, maximum);
    if outcome.Err? {
      return Err(outcome.error);
    }
    var report := Summarize(tasks, n, capacity, maximum, outcome.value);
    return Ok(report);
  }

  method ConvergedSlack(current: Tasks, capacity: int, maximum: nat) returns (slack: int)
    requires current != [] && HaveStarts(current) && WellFormed(current)
    requires EnergyConsistent(current, capacity) && NeededIntervals(current) <= maximum
    ensures LeastSlack(current, capacity, slack) && slack >= 0
  {
    var listed := CandidateIntervals(current, maximum);
    slack := MinimumSlack(current, capacity, listed.value);
    SlackOverList(current, capacity, listed.value, slack);
  }

  lemma ShapeKeepsWellFormed(tasks: Tasks, current: Tasks)
    requires SameShape(tasks, current) && WellFormed(tasks)
    ensures WellFormed(current)
  {
    assert forall i :: 0 <= i < |tasks| ==> current[i] == tasks[i].(startDomain := current[i].startDomain);
  }

  method Summarize(ghost tasks: Tasks, n: Tasks, capacity: int, maximum: nat, run: EnergyRun) returns (report: EnergeticPropagationReport)
    requires tasks != [] && NormalizedFrom(tasks, n) && RunState(tasks, n, capacity, maximum, run)
    requires EnergyConsistent(run.current, capacity) && NeededIntervals(run.current) <= maximum
    requires run.passes <= TotalSize(Starts(n)) - TotalSize(Starts(run.current)) + 1
    requires SettlesAfter(EnergyPassOf(tasks, capacity), Starts(n), run.passes, Starts(run.current))
    ensures EnergyReport(tasks, capacity, maximum, report)
  {
    ShapeKeepsWellFormed(tasks, run.current);
    TotalSizeShrinks(Starts(n), Starts(run.current));
    var slack := ConvergedSlack(run.current, capacity, maximum);
    var removed := CountStarts(n) - CountStarts(run.current);
    report := EnergeticPropagationReport(run.current, removed, run.passes, run.examined, slack);
    ReportIsSound(tasks, n, capacity, maximum, run, report);
  }

  // ---- When one start per task is left ----

  /** With one start per task the energy counted is the energy of that schedule. */
  lemma {:induction false} SingletonEnergy(tasks: Tasks, w: Tasks, s: seq<int>, n: nat, interval: Interval)
    requires |s| == |tasks| && n <= |tasks| && w == WithStarts(tasks, Singletons(s)) && HaveStarts(w)
    ensures RequiredEnergy(w, n, None, interval) == ScheduleEnergy(tasks, s, n, interval)
  {
    if n > 0 { SingletonEnergy(tasks, w, s, n - 1, interval); }
  }

  /** If every task running at `t` also runs at `u`, the load at `u` is no smaller. */
  lemma {:induction false} LoadCarriesOver(tasks: Tasks, s: seq<int>, n: nat, t: int, u: int)
    requires WellFormed(tasks) && n <= |tasks| == |s|
    requires forall i :: 0 <= i < n && RunsAt(tasks[i], s[i], t) ==> RunsAt(tasks[i], s[i], u)
    ensures 0 <= Load(tasks, s, n, t) <= Load(tasks, s, n, u)
  {
    if n > 0 { LoadCarriesOver(tasks, s, n - 1, t, u); }
  }

  lemma {:induction false} LoadedMeansRunning(tasks: Tasks, s: seq<int>, n: nat, t: int) returns (i: nat)
    requires n <= |tasks| == |s| && Load(tasks, s, n, t) > 0
    ensures i < n && RunsAt(tasks[i], s[i], t)
  {
    i := n - 1;
    if !RunsAt(tasks[i], s[i], t) { i := LoadedMeansRunning(tasks, s, n - 1, t); }
  }

  /** The latest start up to `t`. */
  lemma {:induction false} LatestStart(s: seq<int>, n: nat, t: int, i: nat) returns (j: nat)
    requires i < n <= |s| && s[i] <= t
    ensures j < n && s[j] <= t && forall k :: 0 <= k < n && s[k] <= t ==> s[k] <= s[j]
  {
    j := i;
    for k := 0 to n
      invariant j < n && s[j] <= t && forall l :: 0 <= l < k && s[l] <= t ==> s[l] <= s[j]
    {
      if s[k] <= t && s[k] > s[j] { j := k; }
    }
  }

  /** The first end after `a`. */
  lemma {:induction false} FirstEnd(tasks: Tasks, s: seq<int>, n: nat, a: int, i: nat) returns (j: nat)
    requires i < n <= |tasks| == |s| && s[i] + tasks[i].duration > a
    ensures j < n && s[j] + tasks[j].duration > a
    ensures forall k :: 0 <= k < n && s[k] + tasks[k].duration > a ==> s[j] + tasks[j].duration <= s[k] + tasks[k].duration
  {
    j := i;
    for k := 0 to n
      invariant j < n && s[j] + tasks[j].duration > a
      invariant forall l :: 0 <= l < k && s[l] + tasks[l].duration > a ==> s[j] + tasks[j].duration <= s[l] + tasks[l].duration
    {
      if a < s[k] + tasks[k].duration < s[j] + tasks[j].duration { j := k; }
    }
  }

  lemma {:induction false} OverloadedThroughout(tasks: Tasks, s: seq<int>, capacity: int, a: int, b: int)
    requires |tasks| == |s| && a < b && forall u :: a <= u < b ==> Load(tasks, s, |tasks|, u) > capacity
    ensures SummedLoad(tasks, s, |tasks|, a, b) > AvailableEnergy(capacity, (a, b))
    decreases b - a
  {
    assert Load(tasks, s, |tasks|, b - 1) > capacity;
    if a < b - 1 {
      OverloadedThroughout(tasks, s, capacity, a, b - 1);
      assert (b - a) * capacity == (b - 1 - a) * capacity + capacity;
    } else {
      assert SummedLoad(tasks, s, |tasks|, a, b - 1) == 0;
    }
  }

  /** An overload lasts from a start to the next end, and so overloads an interval between end points. */
  lemma {:induction false} OverloadedInterval(tasks: Tasks, s: seq<int>, capacity: int, t: int) returns (i: nat, j: nat)
    requires WellFormed(tasks) && |s| == |tasks| && capacity >= 0 && Load(tasks, s, |tasks|, t) > capacity
    ensures i < |tasks| && j < |tasks| && s[i] < s[j] + tasks[j].duration
    ensures SummedLoad(tasks, s, |tasks|, s[i], s[j] + tasks[j].duration) > AvailableEnergy(capacity, (s[i], s[j] + tasks[j].duration))
  {
    var n := |tasks|;
    var running := LoadedMeansRunning(tasks, s, n, t);
    i := LatestStart(s, n, t, running);
    var a := s[i];
    LoadCarriesOver(tasks, s, n, t, a);
    j := FirstEnd(tasks, s, n, a, running);
    var b := s[j] + tasks[j].duration;
    forall u | a <= u < b ensures Load(tasks, s, n, u) > capacity {
      LoadCarriesOver(tasks, s, n, a, u);
    }
    OverloadedThroughout(tasks, s, capacity, a, b);
  }

  /** On single starts energy consistency is exact: it holds of the feasible schedules and no others. */
  lemma {:induction false} SingletonEnergyIffFits(tasks: Tasks, w: Tasks, s: seq<int>, capacity: int)
    requires WellFormed(tasks) && capacity > 0 && |s| == |tasks| && w == WithStarts(tasks, Singletons(s)) && HaveStarts(w)
    ensures EnergyConsistent(w, capacity) <==> Fits(tasks, s, capacity)
  {
    if EnergyConsistent(w, capacity) {
      forall t ensures Load(tasks, s, |tasks|, t) <= capacity {
        if Load(tasks, s, |tasks|, t) > capacity { NotConsistent(tasks, w, s, capacity, t); }
      }
    }
    if Fits(tasks, s, capacity) { FittingIsConsistent(tasks, w, s, capacity); }
  }

  lemma {:induction false} NotConsistent(tasks: Tasks, w: Tasks, s: seq<int>, capacity: int, t: int)
    requires WellFormed(tasks) && capacity > 0 && |s| == |tasks| && w == WithStarts(tasks, Singletons(s)) && HaveStarts(w)
    requires Load(tasks, s, |tasks|, t) > capacity
    ensures !EnergyConsistent(w, capacity)
  {
    var i, j := OverloadedInterval(tasks, s, capacity, t);
    var iv := (s[i], s[j] + tasks[j].duration);
    SingletonEnergy(tasks, w, s, |tasks|, iv);
    EnergyIsSummedLoad(tasks, s, |tasks|, iv.0, iv.1);
    assert s[i] in w[i].startDomain && s[j] in w[j].startDomain;
    assert EndpointOf(w[i], iv.0) && EndpointOf(w[j], iv.1);
    assert BetweenEndpoints(w, iv) && !EnergyWithin(w, None, capacity, iv);
  }

  lemma {:induction false} FittingIsConsistent(tasks: Tasks, w: Tasks, s: seq<int>, capacity: int)
    requires WellFormed(tasks) && |s| == |tasks| && w == WithStarts(tasks, Singletons(s)) && HaveStarts(w)
    requires Fits(tasks, s, capacity)
    ensures EnergyConsistent(w, capacity)
  {
    assert SameShape(tasks, w);
    forall t { SameLoad(tasks, w, s, |tasks|, t); }
    assert FeasibleSchedule(w, s, capacity) && WellFormed(w);
    forall iv | BetweenEndpoints(w, iv) ensures EnergyWithin(w, None, capacity, iv) {
      ScheduleHasEnergy(w, s, capacity, None, iv);
    }
    forall iv, v: nat, x | BetweenEndpoints(w, iv) && v < |w| && x in w[v].startDomain ensures EnergyWithin(w, Some((v, x)), capacity, iv) {
      ScheduleHasEnergy(w, s, capacity, Some((v, x)), iv);
    }
  }

  /** If propagation leaves one start per task, those starts are a feasible schedule, and the only one. */
  lemma {:induction false} SingletonResultIsFeasible(tasks: Tasks, capacity: int, maximum: nat, report: EnergeticPropagationReport, s: seq<int>)
    requires WellFormed(tasks) && capacity > 0 && |s| == |tasks|
    requires EnergyReport(tasks, capacity, maximum, report) && Starts(report.tasks) == Singletons(s)
    ensures FeasibleSchedule(tasks, s, capacity)
    ensures forall z :: FeasibleSchedule(tasks, z, capacity) ==> z == s
  {
    LeftStartsAreFeasible(tasks, report.tasks, capacity, s);
    forall z | FeasibleSchedule(tasks, z, capacity) ensures z == s {
      OnlyChoice(s, z);
    }
  }

  lemma {:induction false} LeftStartsAreFeasible(tasks: Tasks, w: Tasks, capacity: int, s: seq<int>)
    requires WellFormed(tasks) && capacity > 0 && |s| == |tasks| && SameShape(tasks, w) && HaveStarts(w)
    requires Starts(w) == Singletons(s) && Within(Starts(w), Starts(tasks)) && EnergyConsistent(w, capacity)
    ensures FeasibleSchedule(tasks, s, capacity)
  {
    ShapeAndStarts(tasks, w);
    SingletonEnergyIffFits(tasks, w, s, capacity);
    forall i | 0 <= i < |s| ensures s[i] in Starts(tasks)[i] {
      WithinMember(Starts(w), Starts(tasks), i, s[i]);
    }
  }

  lemma {:induction false} OnlyChoice(s: seq<int>, z: seq<int>)
    requires InDomains(Singletons(s), z)
    ensures z == s
  {
    assert forall i :: 0 <= i < |s| ==> z[i] in Singletons(s)[i];
  }
}
