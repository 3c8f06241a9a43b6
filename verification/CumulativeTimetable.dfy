/** Time-table propagation for a cumulative resource. */
module CumulativeTimetable {
  import opened Wrappers
  import opened Finite
  import opened Sorting
  import opened Filtering
  import opened Propagation
  import opened GlobalErrors
  import opened CumulativeTasks

  datatype CumulativePropagationReport =
    CumulativePropagationReport(tasks: Tasks, removedStarts: nat, passes: nat, mandatoryPeakLoad: int)

  // ---- Mandatory parts ----

  /** The task runs at `t` whichever start of its domain is chosen. */
  ghost predicate MustRun(task: CumulativeTask, t: int) {
    forall x :: x in task.startDomain ==> RunsAt(task, x, t)
  }

  /** Load that the first `n` tasks, without `skip`, put on instant `t` in every schedule. */
  ghost function MandatoryLoad(tasks: Tasks, n: nat, skip: Option<nat>, t: int): int
    requires n <= |tasks|
  {
    if n == 0 then 0
    else MandatoryLoad(tasks, n - 1, skip, t) + if skip != Some(n - 1) && MustRun(tasks[n - 1], t) then tasks[n - 1].demand else 0
  }

  /** Starting task `i` at `x` never overloads the resource together with the other mandatory parts. */
  ghost predicate CandidateFits(tasks: Tasks, i: nat, x: int, capacity: int)
    requires i < |tasks|
  {
    forall t :: RunsAt(tasks[i], x, t) ==> MandatoryLoad(tasks, |tasks|, Some(i), t) + tasks[i].demand <= capacity
  }

  ghost function TimetableSupports(tasks: Tasks, capacity: int): Supports {
    (d: Domains, v: nat, x: int) => |d| == |tasks| && v < |d| && CandidateFits(WithStarts(tasks, d), v, x, capacity)
  }

  lemma {:induction false} SmallerDomainsMoreMandatory(tasks: Tasks, e: Domains, d: Domains, n: nat, skip: Option<nat>, t: int)
    requires WellFormed(tasks) && |tasks| == |e| && Within(e, d) && n <= |tasks|
    ensures 0 <= MandatoryLoad(WithStarts(tasks, d), n, skip, t) <= MandatoryLoad(WithStarts(tasks, e), n, skip, t)
  {
    if n > 0 {
      SmallerDomainsMoreMandatory(tasks, e, d, n - 1, skip, t);
      assert MustRun(WithStarts(tasks, d)[n - 1], t) ==> MustRun(WithStarts(tasks, e)[n - 1], t);
      assert tasks[n - 1].demand > 0;
    }
  }

  lemma TimetableIsMonotone(tasks: Tasks, capacity: int)
    requires WellFormed(tasks)
    ensures Monotone(TimetableSupports(tasks, capacity))
  {
    var supports := TimetableSupports(tasks, capacity);
    forall e: Domains, d: Domains, v: nat, x: int | Within(e, d) && NoneEmpty(e) && v < |e| && supports(e, v, x)
      ensures supports(d, v, x)
    {
      forall t | RunsAt(tasks[v], x, t)
        ensures MandatoryLoad(WithStarts(tasks, d), |tasks|, Some(v), t) + tasks[v].demand <= capacity
      {
        SmallerDomainsMoreMandatory(tasks, e, d, |tasks|, Some(v), t);
        assert RunsAt(WithStarts(tasks, e)[v], x, t);
      }
    }
  }

  lemma {:induction false} SkippingOne(tasks: Tasks, n: nat, i: nat, t: int)
    requires n <= |tasks|
    ensures MandatoryLoad(tasks, n, None, t)
         == MandatoryLoad(tasks, n, Some(i), t) + if i < n && MustRun(tasks[i], t) then tasks[i].demand else 0
  {
    if n > 0 {
      SkippingOne(tasks, n - 1, i, t);
    }
  }

  lemma {:induction false} LoadNeedsTask(tasks: Tasks, n: nat, t: int)
    requires n <= |tasks| && MandatoryLoad(tasks, n, None, t) > 0
    ensures exists i: nat :: i < n && MustRun(tasks[i], t)
  {
    if !MustRun(tasks[n - 1], t) {
      LoadNeedsTask(tasks, n - 1, t);
    }
  }

  /** When every start is supported the mandatory load respects the capacity. */
  lemma ConsistentMeansNoOverload(tasks: Tasks, capacity: int, e: Domains, t: int)
    requires capacity > 0 && |e| == |tasks| && Consistent(TimetableSupports(tasks, capacity), e)
    ensures MandatoryLoad(WithStarts(tasks, e), |tasks|, None, t) <= capacity
  {
    var w := WithStarts(tasks, e);
    if MandatoryLoad(w, |w|, None, t) > 0 {
      LoadNeedsTask(w, |w|, t);
      var i: nat :| i < |w| && MustRun(w[i], t);
      SkippingOne(w, |w|, i, t);
      var x := e[i][0];
      assert x in e[i] && TimetableSupports(tasks, capacity)(e, i, x);
      assert RunsAt(w[i], x, t);
    }
  }

  // ---- Schedules and the time table ----

  /** With one start per task the mandatory load is the load of that schedule. */
  lemma {:induction false} SingletonLoad(tasks: Tasks, s: seq<int>, n: nat, t: int)
    requires |s| == |tasks| && n <= |tasks|
    ensures MandatoryLoad(WithStarts(tasks, Singletons(s)), n, None, t) == Load(tasks, s, n, t)
  {
    if n > 0 {
      SingletonLoad(tasks, s, n - 1, t);
      var w := WithStarts(tasks, Singletons(s))[n - 1];
      assert s[n - 1] in w.startDomain;
      assert MustRun(w, t) <==> RunsAt(tasks[n - 1], s[n - 1], t);
    }
  }

  /** On single starts the test is exact: it accepts the feasible schedules and no others. */
  lemma SingletonsConsistentIffFits(tasks: Tasks, capacity: int, s: seq<int>)
    requires capacity > 0 && |s| == |tasks|
    ensures Consistent(TimetableSupports(tasks, capacity), Singletons(s)) <==> Fits(tasks, s, capacity)
  {
    var e, supports := Singletons(s), TimetableSupports(tasks, capacity);
    var w := WithStarts(tasks, e);
    if Consistent(supports, e) {
      forall t ensures Load(tasks, s, |tasks|, t) <= capacity {
        ConsistentMeansNoOverload(tasks, capacity, e, t);
        SingletonLoad(tasks, s, |tasks|, t);
      }
    }
    if Fits(tasks, s, capacity) {
      forall v: nat, x | v < |e| && x in e[v] ensures supports(e, v, x) {
        forall t | RunsAt(w[v], x, t) ensures MandatoryLoad(w, |w|, Some(v), t) + w[v].demand <= capacity {
          SingletonLoad(tasks, s, |tasks|, t);
          SkippingOne(w, |w|, v, t);
          assert MustRun(w[v], t);
        }
      }
    }
  }

  lemma ScheduleIsConsistentFamily(tasks: Tasks, capacity: int, s: seq<int>)
    requires capacity > 0 && FeasibleSchedule(tasks, s, capacity)
    ensures Within(Singletons(s), Starts(tasks)) && Consistent(TimetableSupports(tasks, capacity), Singletons(s))
    ensures HasConsistent(TimetableSupports(tasks, capacity), Starts(tasks))
  {
    SingletonsConsistentIffFits(tasks, capacity, s);
  }

  /** Soundness: no start of any feasible schedule is ever removed. */
  lemma TimetableKeepsSchedules(tasks: Tasks, capacity: int, r: Domains, s: seq<int>)
    requires capacity > 0 && FeasibleSchedule(tasks, s, capacity)
    requires GreatestConsistent(TimetableSupports(tasks, capacity), Starts(tasks), r)
    ensures |r| == |s| && forall i :: 0 <= i < |s| ==> s[i] in r[i]
  {
    ScheduleIsConsistentFamily(tasks, capacity, s);
    assert Within(Singletons(s), r);
    forall i | 0 <= i < |s| ensures s[i] in r[i] {
      WithinMember(Singletons(s), r, i, s[i]);
    }
  }

  /** When one start per task is left, those starts are a feasible schedule. */
  lemma SingletonResultIsFeasible(tasks: Tasks, capacity: int, r: Domains, s: seq<int>)
    requires capacity > 0 && |s| == |tasks| && r == Singletons(s)
    requires GreatestConsistent(TimetableSupports(tasks, capacity), Starts(tasks), r)
    ensures FeasibleSchedule(tasks, s, capacity)
  {
    SingletonsConsistentIffFits(tasks, capacity, s);
    forall i | 0 <= i < |s| ensures s[i] in tasks[i].startDomain {
      WithinMember(r, Starts(tasks), i, s[i]);
    }
  }

  // ---- Profiles ----

  function LoadAt(profile: map<int, int>, t: int): int {
    if t in profile then profile[t] else 0
  }

  lemma MustRunBounds(task: CumulativeTask, t: int)
    requires task.startDomain != [] && StrictlySorted(task.startDomain)
    ensures MustRun(task, t) <==> task.startDomain[|task.startDomain| - 1] <= t < task.startDomain[0] + task.duration
  {
    var d := task.startDomain;
    if MustRun(task, t) {
      assert d[0] in d && d[|d| - 1] in d;
    }
    forall x | x in d ensures d[0] <= x <= d[|d| - 1] {
      var i :| 0 <= i < |d| && d[i] == x;
    }
  }

  method AddMandatoryPart(profile: map<int, int>, task: CumulativeTask) returns (r: map<int, int>)
    requires task.startDomain != [] && StrictlySorted(task.startDomain)
    ensures forall t :: LoadAt(r, t) == LoadAt(profile, t) + if MustRun(task, t) then task.demand else 0
  {
    r := profile;
    var earliestStart := task.startDomain[0];
    var latestStart := task.startDomain[|task.startDomain| - 1];
    var earliestEnd := earliestStart + task.duration;
    forall t { MustRunBounds(task, t); }
    if latestStart < earliestEnd {
      for instant := latestStart to earliestEnd
        invariant forall t :: LoadAt(r, t) == LoadAt(profile, t) + if latestStart <= t < instant then task.demand else 0
      {
        r := r[instant := LoadAt(r, instant) + task.demand];
      }
    }
  }

  /** The mandatory load at every instant, without task `skip`. */
  method MandatoryProfile(tasks: Tasks, skip: Option<nat>) returns (profile: map<int, int>)
    requires NoneEmpty(Starts(tasks)) && AllSorted(Starts(tasks))
    ensures forall t :: LoadAt(profile, t) == MandatoryLoad(tasks, |tasks|, skip, t)
  {
    profile := map[];
    for index := 0 to |tasks|
      invariant forall t :: LoadAt(profile, t) == MandatoryLoad(tasks, index, skip, t)
    {
      assert Starts(tasks)[index] == tasks[index].startDomain;
      if skip != Some(index) {
        profile := AddMandatoryPart(profile, tasks[index]);
      }
    }
  }

  /** The largest load of a profile, 0 for the empty profile. */
  method PeakLoad(profile: map<int, int>) returns (peak: int)
    ensures profile == map[] ==> peak == 0
    ensures profile != map[] ==> exists t :: t in profile && profile[t] == peak
    ensures forall t :: t in profile ==> profile[t] <= peak
  {
    if profile == map[] {
      return 0;
    }
    var t := Choose(profile.Keys);
    peak := profile[t];
    var rest := profile.Keys - {t};
    while rest != {}
      invariant rest <= profile.Keys
      invariant exists t :: t in profile && profile[t] == peak
      invariant forall t :: t in profile && t !in rest ==> profile[t] <= peak
      decreases |rest|
    {
      var u := Choose(rest);
      rest := rest - {u};
      if profile[u] > peak {
        peak := profile[u];
      }
    }
  }

  method CandidateSupported(tasks: Tasks, taskIndex: nat, candidateStart: int, capacity: int) returns (ok: bool)
    requires taskIndex < |tasks| && NoneEmpty(Starts(tasks)) && AllSorted(Starts(tasks)) && WellFormed(tasks)
    ensures ok <==> CandidateFits(tasks, taskIndex, candidateStart, capacity)
  {
    var task := tasks[taskIndex];
    var candidateEnd := candidateStart + task.duration;
    var otherProfile := MandatoryProfile(tasks, Some(taskIndex));
    for instant := candidateStart to candidateEnd
      invariant forall t :: candidateStart <= t < instant ==> MandatoryLoad(tasks, |tasks|, Some(taskIndex), t) + task.demand <= capacity
    {
      if LoadAt(otherProfile, instant) + task.demand > capacity {
        assert RunsAt(task, candidateStart, instant);
        return false;
      }
    }
    return true;
  }

  // ---- The fixed-point loop ----

  ghost predicate TimetableState(tasks: Tasks, n: Domains, current: Tasks, capacity: int) {
    && WellFormed(tasks) && SameShape(tasks, current)
    && Reached(TimetableSupports(tasks, capacity), n, Starts(current))
  }

  method FilterStarts(ghost tasks: Tasks, ghost n: Domains, current: Tasks, i: nat, capacity: int) returns (supported: seq<int>)
    requires TimetableState(tasks, n, current, capacity) && i < |current|
    ensures supported == FilteredBy(TimetableSupports(tasks, capacity), Starts(current), i)
  {
    var candidates := current[i].startDomain;
    ghost var keep := SupportedIn(TimetableSupports(tasks, capacity), Starts(current), i);
    ShapeAndStarts(tasks, current);
    supported := [];
    for k := 0 to |candidates|
      invariant supported == Retain(candidates[..k], keep)
    {
      RetainNext(candidates, k, keep);
      var ok := CandidateSupported(current, i, candidates[k], capacity);
      if ok {
        supported := supported + [candidates[k]];
      }
    }
    RetainAll(candidates, keep);
  }

  /** One pass over all tasks, each updated before the next one is filtered. */
  method TimetablePass(ghost tasks: Tasks, ghost n: Domains, start: Tasks, capacity: int) returns (feasible: bool, current: Tasks)
    requires TimetableState(tasks, n, start, capacity)
    ensures !feasible ==> !HasConsistent(TimetableSupports(tasks, capacity), n)
    ensures feasible ==> TimetableState(tasks, n, current, capacity) && Smaller(Starts(current), Starts(start))
    ensures feasible && current == start ==> GreatestConsistent(TimetableSupports(tasks, capacity), n, Starts(current))
    ensures feasible && current == start ==> HasConsistent(TimetableSupports(tasks, capacity), n)
    ensures feasible && current != start ==> TotalSize(Starts(current)) < TotalSize(Starts(start))
    ensures feasible ==> Starts(current) == PassOf(TimetableSupports(tasks, capacity))(Starts(start))
  {
    ghost var supports := TimetableSupports(tasks, capacity);
    TimetableIsMonotone(tasks, capacity);
    current := start;
    for i := 0 to |start|
      invariant TimetableState(tasks, n, current, capacity)
      invariant PassState(supports, n, Starts(start), Starts(current), i)
    {
      PassStateStep(supports, n, Starts(start), Starts(current), i);
      var supported := FilterStarts(tasks, n, current, i, capacity);
      if supported == [] {
        return false, current;
      }
      ReplaceStarts(tasks, current, i, supported);
      current := current[i := current[i].(startDomain := supported)];
    }
    feasible := true;
    PassOutcome(tasks, start, current);
    if current == start {
      UnchangedPassIsGreatest(supports, n, Starts(current));
    }
  }

  /** An overloaded instant of the mandatory profile excludes every consistent family. */
  lemma OverloadIsInfeasible(tasks: Tasks, n: Domains, current: Tasks, capacity: int, t: int)
    requires capacity > 0 && TimetableState(tasks, n, current, capacity)
    requires MandatoryLoad(current, |current|, None, t) > capacity
    ensures !HasConsistent(TimetableSupports(tasks, capacity), n)
  {
    ShapeAndStarts(tasks, current);
    forall e | Within(e, n) && Consistent(TimetableSupports(tasks, capacity), e) ensures false {
      ConsistentMeansNoOverload(tasks, capacity, e, t);
      SmallerDomainsMoreMandatory(tasks, e, Starts(current), |tasks|, None, t);
    }
  }

  /** The largest mandatory load of the tasks. */
  ghost predicate IsPeak(tasks: Tasks, peak: int) {
    && (forall t :: MandatoryLoad(tasks, |tasks|, None, t) <= peak)
    && exists t :: MandatoryLoad(tasks, |tasks|, None, t) == peak
  }

  lemma {:induction false} LoadIsNonNegative(tasks: Tasks, n: nat, skip: Option<nat>, t: int)
    requires WellFormed(tasks) && n <= |tasks|
    ensures MandatoryLoad(tasks, n, skip, t) >= 0
  {
    if n > 0 {
      LoadIsNonNegative(tasks, n - 1, skip, t);
      assert tasks[n - 1].demand > 0;
    }
  }

  method MandatoryPeak(tasks: Tasks) returns (peak: int)
    requires NoneEmpty(Starts(tasks)) && AllSorted(Starts(tasks)) && WellFormed(tasks)
    ensures IsPeak(tasks, peak)
  {
    var profile := MandatoryProfile(tasks, None);
    peak := PeakLoad(profile);
    ghost var t := if profile == map[] then 0 else var u :| u in profile && profile[u] == peak; u;
    assert MandatoryLoad(tasks, |tasks|, None, t) == LoadAt(profile, t) == peak;
    LoadIsNonNegative(tasks, |tasks|, None, t);
  }

  /** Repeats passes until one removes no start. */
  method RunPasses(ghost tasks: Tasks, start: Tasks, capacity: int) returns (feasible: bool, current: Tasks, passes: nat)
    requires capacity > 0 && TimetableState(tasks, Starts(start), start, capacity)
    ensures feasible <==> HasConsistent(TimetableSupports(tasks, capacity), Starts(start))
    ensures feasible ==> SameShape(tasks, current) && Smaller(Starts(current), Starts(start))
    ensures feasible ==> AllSorted(Starts(current)) && NoneEmpty(Starts(current))
    ensures feasible ==> GreatestConsistent(TimetableSupports(tasks, capacity), Starts(start), Starts(current))
    ensures feasible ==> passes <= TotalSize(Starts(start)) - TotalSize(Starts(current)) + 1
    ensures feasible ==> SettlesAfter(PassOf(TimetableSupports(tasks, capacity)), Starts(start), passes, Starts(current))
  {
    ghost var n, pass := Starts(start), PassOf(TimetableSupports(tasks, capacity));
    current, passes := start, 0;
    while true
      invariant TimetableState(tasks, n, current, capacity)
      invariant passes <= TotalSize(n) - TotalSize(Starts(current))
      invariant Starts(current) == AfterPasses(pass, n, passes) && AllChanged(pass, n, passes)
      decreases TotalSize(Starts(current))
    {
      passes := passes + 1;
      var peak := MandatoryPeak(current);
      if peak > capacity {
        ghost var t :| MandatoryLoad(current, |current|, None, t) == peak;
        OverloadIsInfeasible(tasks, n, current, capacity, t);
        return false, current, passes;
      }
      var before := current;
      feasible, current := TimetablePass(tasks, n, current, capacity);
      if !feasible || current == before {
        return;
      }
    }
  }

  /** The first bad task decides which error is returned. */
  function TaskError(task: CumulativeTask, index: nat): (e: GlobalPropagationError)
    ensures (task.duration <= 0 || task.demand <= 0) ==> e == InvalidTask
    ensures task.duration > 0 && task.demand > 0 ==> e == EmptyDomain(index)
  {
    if task.duration <= 0 || task.demand <= 0 then InvalidTask else EmptyDomain(index)
  }

  /** What the propagator reports for tasks it accepts. */
  ghost predicate TimetableReport(tasks: Tasks, capacity: int, report: CumulativePropagationReport) {
    && SameShape(tasks, report.tasks) && AllSorted(Starts(report.tasks))
    && GreatestConsistent(TimetableSupports(tasks, capacity), Starts(tasks), Starts(report.tasks))
    && report.removedStarts == DistinctValues(Starts(tasks)) - TotalSize(Starts(report.tasks))
    && report.passes <= report.removedStarts + 1
    && SettlesAfter(PassOf(TimetableSupports(tasks, capacity)), Normalized(Starts(tasks)), report.passes, Starts(report.tasks))
    && IsPeak(report.tasks, report.mandatoryPeakLoad) && report.mandatoryPeakLoad <= capacity
  }

  /** Infeasible exactly when no family of sub-domains passes the test; otherwise the largest one is reported. */
  ghost predicate TimetableOutcome(tasks: Tasks, capacity: int, r: Result<CumulativePropagationReport, GlobalPropagationError>) {
    if HasConsistent(TimetableSupports(tasks, capacity), Starts(tasks))
    then r.Ok? && TimetableReport(tasks, capacity, r.value)
    else r == Err(Infeasible)
  }

  method PropagateCumulativeTimetable(tasks: Tasks, capacity: int) returns (r: Result<CumulativePropagationReport, GlobalPropagationError>)
    ensures capacity <= 0 ==> r == Err(InvalidCapacity)
    ensures capacity > 0 && tasks == [] ==> r == Err(EmptyVariables)
    ensures capacity > 0 ==> forall v: nat :: FirstBad(tasks, v) ==> r == Err(TaskError(tasks[v], v))
    ensures capacity > 0 && tasks != [] && NoBadTask(tasks) ==> TimetableOutcome(tasks, capacity, r)
  {
    if capacity <= 0 {
      return Err(InvalidCapacity);
    }
    AtMostOneFirstBad(tasks);
    if tasks == [] {
      return Err(EmptyVariables);
    }
    var normalized := NormalizeTasks(tasks);
    if normalized.Err? {
      return Err(TaskError(tasks[normalized.error], normalized.error));
    }
    r := PropagateNormalized(tasks, normalized.value, capacity);
  }

  method PropagateNormalized(ghost tasks: Tasks, n: Tasks, capacity: int) returns (r: Result<CumulativePropagationReport, GlobalPropagationError>)
    requires capacity > 0 && tasks != [] && NoBadTask(tasks) && NormalizedFrom(tasks, n)
    ensures TimetableOutcome(tasks, capacity, r)
  {
    ghost var supports := TimetableSupports(tasks, capacity);
    NormalizedIsReached(tasks, n, supports);
    var feasible, current, passes := RunPasses(tasks, n, capacity);
    if !feasible {
      return Err(Infeasible);
    }
    var peak := MandatoryPeak(current);
    ConsistentPeak(tasks, capacity, current, peak);
    TotalSizeShrinks(Starts(n), Starts(current));
    var removed := CountStarts(n) - CountStarts(current);
    var report := CumulativePropagationReport(current, removed, passes, peak);
    ReportIsExact(tasks, n, capacity, report);
    return Ok(report);
  }

  lemma ReportIsExact(tasks: Tasks, n: Tasks, capacity: int, report: CumulativePropagationReport)
    requires NoBadTask(tasks) && NormalizedFrom(tasks, n) && SameShape(tasks, report.tasks) && AllSorted(Starts(report.tasks))
    requires GreatestConsistent(TimetableSupports(tasks, capacity), Starts(n), Starts(report.tasks))
    requires SettlesAfter(PassOf(TimetableSupports(tasks, capacity)), Starts(n), report.passes, Starts(report.tasks))
    requires report.removedStarts == TotalSize(Starts(n)) - TotalSize(Starts(report.tasks))
    requires report.passes <= report.removedStarts + 1
    requires IsPeak(report.tasks, report.mandatoryPeakLoad) && report.mandatoryPeakLoad <= capacity
    ensures TimetableReport(tasks, capacity, report)
  {
    NormalizedIsReached(tasks, n, TimetableSupports(tasks, capacity));
    NormalizedSize(tasks, n);
  }

  lemma ConsistentPeak(tasks: Tasks, capacity: int, current: Tasks, peak: int)
    requires capacity > 0 && SameShape(tasks, current) && IsPeak(current, peak)
    requires Consistent(TimetableSupports(tasks, capacity), Starts(current))
    ensures peak <= capacity
  {
    ShapeAndStarts(tasks, current);
    var t :| MandatoryLoad(current, |current|, None, t) == peak;
    ConsistentMeansNoOverload(tasks, capacity, Starts(current), t);
  }
}
