/** Tasks on one shared resource, their schedules and the load a schedule puts on the resource. */
module CumulativeTasks {
  import opened Wrappers
  import opened Sorting
  import opened Filtering
  import opened Propagation

  datatype CumulativeTask = CumulativeTask(startDomain: seq<int>, duration: int, demand: int)

  type Tasks = seq<CumulativeTask>

  ghost function Starts(tasks: Tasks): (d: Domains)
    ensures |d| == |tasks| && forall i :: 0 <= i < |d| ==> d[i] == tasks[i].startDomain
  {
    seq(|tasks|, i requires 0 <= i < |tasks| => tasks[i].startDomain)
  }

  /** The same tasks with other start domains. */
  ghost function WithStarts(tasks: Tasks, d: Domains): (r: Tasks)
    requires |d| == |tasks|
    ensures |r| == |tasks| && forall i :: 0 <= i < |r| ==> r[i] == tasks[i].(startDomain := d[i])
  {
    seq(|tasks|, i requires 0 <= i < |tasks| => tasks[i].(startDomain := d[i]))
  }

  /** Only the start domains differ. */
  ghost predicate SameShape(tasks: Tasks, current: Tasks) {
    && |current| == |tasks|
    && forall i :: 0 <= i < |tasks| ==> current[i] == tasks[i].(startDomain := current[i].startDomain)
  }

  lemma ShapeAndStarts(tasks: Tasks, current: Tasks)
    requires SameShape(tasks, current)
    ensures WithStarts(tasks, Starts(current)) == current
  {
  }

  lemma ReplaceStarts(tasks: Tasks, current: Tasks, i: nat, kept: seq<int>)
    requires SameShape(tasks, current) && i < |current|
    ensures SameShape(tasks, current[i := current[i].(startDomain := kept)])
    ensures Starts(current[i := current[i].(startDomain := kept)]) == Starts(current)[i := kept]
  {
  }

  lemma PassOutcome(tasks: Tasks, start: Tasks, current: Tasks)
    requires SameShape(tasks, start) && SameShape(tasks, current) && Smaller(Starts(current), Starts(start))
    ensures current == start <==> Starts(current) == Starts(start)
    ensures current != start ==> TotalSize(Starts(current)) < TotalSize(Starts(start))
  {
    ShapeAndStarts(tasks, start);
    ShapeAndStarts(tasks, current);
    TotalSizeShrinks(Starts(start), Starts(current));
  }

  ghost predicate WellFormed(tasks: Tasks) {
    forall i :: 0 <= i < |tasks| ==> tasks[i].duration > 0 && tasks[i].demand > 0
  }

  // ---- Schedules ----

  predicate RunsAt(task: CumulativeTask, start: int, t: int) {
    start <= t < start + task.duration
  }

  /** Demand of the first `n` tasks running at instant `t`. */
  ghost function Load(tasks: Tasks, s: seq<int>, n: nat, t: int): int
    requires n <= |tasks| == |s|
  {
    if n == 0 then 0
    else Load(tasks, s, n - 1, t) + if RunsAt(tasks[n - 1], s[n - 1], t) then tasks[n - 1].demand else 0
  }

  ghost predicate Fits(tasks: Tasks, s: seq<int>, capacity: int)
    requires |tasks| == |s|
  {
    forall t :: Load(tasks, s, |tasks|, t) <= capacity
  }

  /** Every start comes from its domain and the load never exceeds the capacity. */
  ghost predicate FeasibleSchedule(tasks: Tasks, s: seq<int>, capacity: int) {
    && |s| == |tasks| && Fits(tasks, s, capacity)
    && InDomains(Starts(tasks), s)
  }

  // ---- Normalisation ----

  predicate BadTask(task: CumulativeTask) {
    task.duration <= 0 || task.demand <= 0 || task.startDomain == []
  }

  /** Task `v` is the first one that is rejected. */
  ghost predicate FirstBad(tasks: Tasks, v: nat) {
    v < |tasks| && BadTask(tasks[v]) && NoneBadBelow(tasks, v)
  }

  ghost predicate NoneBadBelow(tasks: Tasks, v: nat)
    requires v <= |tasks|
  {
    forall w :: 0 <= w < v ==> !BadTask(tasks[w])
  }

  ghost predicate NoBadTask(tasks: Tasks) {
    NoneBadBelow(tasks, |tasks|)
  }

  ghost predicate NormalizedFrom(tasks: Tasks, n: Tasks) {
    SameShape(tasks, n) && forall i :: 0 <= i < |tasks| ==> n[i].startDomain == SortDedup(tasks[i].startDomain)
  }

  lemma NormalizeNext(tasks: Tasks, n: Tasks, v: nat)
    requires v < |tasks| && NormalizedFrom(tasks[..v], n)
    ensures NormalizedFrom(tasks[..v + 1], n + [tasks[v].(startDomain := SortDedup(tasks[v].startDomain))])
    ensures SortDedup(tasks[v].startDomain) == [] <==> tasks[v].startDomain == []
  {
    SortDedupEmpty(tasks[v].startDomain);
    var m := n + [tasks[v].(startDomain := SortDedup(tasks[v].startDomain))];
    forall i | 0 <= i < |m|
      ensures m[i].startDomain == SortDedup(tasks[..v + 1][i].startDomain)
      ensures m[i] == tasks[..v + 1][i].(startDomain := m[i].startDomain)
    {
      if i < v { assert n[i] == tasks[..v][i].(startDomain := n[i].startDomain); }
    }
  }

  /** Sorts and de-duplicates every start domain; fails with the index of the first bad task. */
  method NormalizeTasks(tasks: Tasks) returns (r: Result<Tasks, nat>)
    ensures r.Ok? ==> NormalizedFrom(tasks, r.value) && NoBadTask(tasks)
    ensures r.Err? ==> FirstBad(tasks, r.error)
  {
    var n: Tasks := [];
    for v := 0 to |tasks|
      invariant NormalizedFrom(tasks[..v], n)
      invariant NoneBadBelow(tasks, v)
    {
      var task := tasks[v];
      if task.duration <= 0 || task.demand <= 0 {
        return Err(v);
      }
      NormalizeNext(tasks, n, v);
      var starts := SortDedup(task.startDomain);
      if starts == [] {
        return Err(v);
      }
      n := n + [task.(startDomain := starts)];
    }
    assert tasks[..|tasks|] == tasks;
    return Ok(n);
  }

  lemma NormalizedIsReached(tasks: Tasks, n: Tasks, supports: Supports)
    requires NoBadTask(tasks) && NormalizedFrom(tasks, n)
    ensures Reached(supports, Starts(n), Starts(n)) && WellFormed(tasks)
    ensures HasConsistent(supports, Starts(n)) <==> HasConsistent(supports, Starts(tasks))
    ensures forall r :: GreatestConsistent(supports, Starts(n), r) <==> GreatestConsistent(supports, Starts(tasks), r)
  {
    NormalizingKeepsGreatest(supports, Starts(tasks), Starts(n));
    forall v | 0 <= v < |tasks| ensures !BadTask(tasks[v]) && n[v].startDomain != [] {
      assert !BadTask(tasks[v]);
      SortDedupEmpty(tasks[v].startDomain);
    }
  }

  lemma NormalizedSize(tasks: Tasks, n: Tasks)
    requires NormalizedFrom(tasks, n)
    ensures Starts(n) == Normalized(Starts(tasks)) && TotalSize(Starts(n)) == DistinctValues(Starts(tasks))
  {
    assert Starts(n) == Normalized(Starts(tasks));
  }

  /** The number of starts left over all tasks. */
  function CountStarts(tasks: Tasks): (count: nat)
    ensures count == TotalSize(Starts(tasks))
  {
    if tasks == [] then 0
    else
      assert Starts(tasks)[..|tasks| - 1] == Starts(tasks[..|tasks| - 1]);
      CountStarts(tasks[..|tasks| - 1]) + |tasks[|tasks| - 1].startDomain|
  }

  lemma AtMostOneFirstBad(tasks: Tasks)
    ensures forall v, w :: FirstBad(tasks, v) && FirstBad(tasks, w) ==> v == w
    ensures NoBadTask(tasks) <==> forall v :: !FirstBad(tasks, v)
  {
    forall v: nat | v < |tasks| && BadTask(tasks[v]) ensures exists w :: FirstBad(tasks, w) {
      FirstBadExists(tasks, v);
    }
  }

  lemma {:induction false} FirstBadExists(tasks: Tasks, v: nat)
    requires v < |tasks| && BadTask(tasks[v])
    ensures exists w :: FirstBad(tasks, w)
  {
    if w :| 0 <= w < v && BadTask(tasks[w]) {
      FirstBadExists(tasks, w);
    } else {
      assert FirstBad(tasks, v);
    }
  }
}
