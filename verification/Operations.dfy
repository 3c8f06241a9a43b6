/** Depth-first searches that visit candidates in lexicographic order and keep the first best one. */
module LexicographicSearch {
  import opened Wrappers
  import opened Incumbents

  /** Everything seen comes lexicographically before everything below the prefix. */
  ghost predicate ComesFirst(seen: iset<seq<int>>, n: nat, prefix: seq<int>) {
    OfLength(seen, n) && forall a, b :: a in seen && |b| == n && prefix <= b ==> LexLess(a, b)
  }

  lemma {:induction false} LexByPrefix(p: seq<int>, x: int, y: int, a: seq<int>, b: seq<int>)
    requires |a| == |b| && p + [x] <= a && p + [y] <= b && x < y
    ensures LexLess(a, b)
  {
    if p != [] {
      assert a[0] == p[0] == b[0];
      assert p[1..] + [x] <= a[1..] && p[1..] + [y] <= b[1..];
      LexByPrefix(p[1..], x, y, a[1..], b[1..]);
    } else {
      assert a[0] == x && b[0] == y;
    }
  }

  /** A smaller step from the same prefix explores candidates that come first. */
  lemma {:induction false} EarlierStepsComeFirst(seen: iset<seq<int>>, more: iset<seq<int>>, n: nat, p: seq<int>, y: int)
    requires ComesFirst(seen, n, p) && OfLength(more, n)
    requires forall a :: a in more ==> exists x :: x < y && p + [x] <= a
    ensures ComesFirst(seen + more, n, p + [y])
  {
    forall a, b | a in seen + more && |b| == n && p + [y] <= b ensures LexLess(a, b) {
      if a in more {
        var x :| x < y && p + [x] <= a;
        LexByPrefix(p, x, y, a, b);
      } else {
        assert p <= p + [y] <= b;
      }
    }
  }

  ghost predicate Continues(a: seq<int>, prefix: seq<int>, bound: int) {
    exists x :: x < bound && prefix + [x] <= a
  }

  /** The candidates that start with the prefix. */
  ghost function Under(all: iset<seq<int>>, prefix: seq<int>): (s: iset<seq<int>>)
    ensures forall n :: OfLength(all, n) ==> OfLength(s, n)
  {
    iset a | a in all && prefix <= a
  }

  /** The candidates that start with the prefix and continue with a step below `bound`. */
  ghost function UnderBelow(all: iset<seq<int>>, prefix: seq<int>, bound: int): (s: iset<seq<int>>)
    ensures forall n :: OfLength(all, n) ==> OfLength(s, n)
  {
    iset a | a in all && Continues(a, prefix, bound)
  }

  lemma {:induction false} UnderSplits(all: iset<seq<int>>, prefix: seq<int>, x: int)
    ensures UnderBelow(all, prefix, x + 1) == UnderBelow(all, prefix, x) + Under(all, prefix + [x])
  {
    forall a ensures Continues(a, prefix, x + 1) <==> Continues(a, prefix, x) || prefix + [x] <= a {
      if prefix + [x] <= a { assert x < x + 1; }
    }
    forall a ensures a in UnderBelow(all, prefix, x + 1) <==> a in UnderBelow(all, prefix, x) + Under(all, prefix + [x]) {
      assert Continues(a, prefix, x + 1) <==> Continues(a, prefix, x) || prefix + [x] <= a;
    }
  }

  /** Everything seen and everything under smaller steps comes before the candidates under the next step. */
  lemma {:induction false} StepComesFirst(all: iset<seq<int>>, n: nat, seen: iset<seq<int>>, p: seq<int>, y: int)
    requires ComesFirst(seen, n, p) && OfLength(all, n)
    ensures ComesFirst(seen + UnderBelow(all, p, y), n, p + [y])
  {
    forall a | a in UnderBelow(all, p, y) ensures exists x :: x < y && p + [x] <= a {
      assert Continues(a, p, y);
    }
    EarlierStepsComeFirst(seen, UnderBelow(all, p, y), n, p, y);
  }

  /** A candidate that comes after everything seen replaces the incumbent only if it is strictly better. */
  lemma {:induction false} IncumbentMeetsLater(seen: iset<seq<int>>, n: nat, f: Objective, best: Option<seq<int>>, a: seq<int>)
    requires Incumbent(seen, n, f, best) && |a| == n && forall b :: b in seen ==> LexLess(b, a)
    ensures Incumbent(seen + iset{a}, n, f, if best == None || f(a) > f(best.value) then Some(a) else best)
  {
  }

  /** Later candidates that are not strictly better leave the incumbent in place. */
  lemma {:induction false} IncumbentOutlasts(seen: iset<seq<int>>, more: iset<seq<int>>, n: nat, f: Objective, best: Option<seq<int>>)
    requires Incumbent(seen, n, f, best) && OfLength(more, n) && best.Some?
    requires forall a :: a in more ==> f(a) <= f(best.value) && LexLess(best.value, a)
    ensures Incumbent(seen + more, n, f, best)
  {
  }
}

/** Assignment of tasks to workers with limited capacities at least cost. */
module WorkforceAssignment {
  import opened Wrappers
  import opened Incumbents
  import opened LexicographicSearch

  const MAX_WORKFORCE_TASKS: nat := 16

  datatype WorkforceTask = WorkforceTask(workerCostMinor: seq<Option<int>>)

  datatype WorkforceProblem = WorkforceProblem(tasks: seq<WorkforceTask>, workerTaskCapacities: seq<nat>)

  datatype WorkforceSolution = WorkforceSolution(workerByTask: seq<int>, totalCostMinor: int)

  datatype OperationsError =
    | EmptyProblem
    | TooManyTasks(actual: nat, maximum: nat)
    | WorkerWidthMismatch
    | NegativeField
    | NoFeasibleAssignment

  predicate NonNegativeCosts(task: WorkforceTask) {
    forall w :: 0 <= w < |task.workerCostMinor| && task.workerCostMinor[w].Some? ==> task.workerCostMinor[w].value >= 0
  }

  ghost predicate WellFormed(problem: WorkforceProblem) {
    && (forall t :: 0 <= t < |problem.tasks| ==> |problem.tasks[t].workerCostMinor| == |problem.workerTaskCapacities|)
    && forall t, w :: 0 <= t < |problem.tasks| && 0 <= w < |problem.tasks[t].workerCostMinor| && problem.tasks[t].workerCostMinor[w].Some? ==>
         problem.tasks[t].workerCostMinor[w].value >= 0
  }

  /** Worker `w` can do task `t`. */
  predicate Eligible(problem: WorkforceProblem, t: nat, w: int)
    requires t < |problem.tasks|
  {
    0 <= w < |problem.tasks[t].workerCostMinor| && problem.tasks[t].workerCostMinor[w].Some?
  }

  /** How many of the assigned tasks worker `w` has. */
  ghost function Count(a: seq<int>, w: int): nat {
    if a == [] then 0 else Count(a[..|a| - 1], w) + if a[|a| - 1] == w then 1 else 0
  }

  ghost predicate WithinCapacities(problem: WorkforceProblem, a: seq<int>) {
    forall w :: 0 <= w < |problem.workerTaskCapacities| ==> Count(a, w) <= problem.workerTaskCapacities[w]
  }

  /** Eligible workers for the first tasks, no worker over capacity. */
  ghost predicate FeasiblePrefix(problem: WorkforceProblem, a: seq<int>) {
    && |a| <= |problem.tasks| && WithinCapacities(problem, a)
    && forall t :: 0 <= t < |a| ==> 0 <= a[t] < |problem.tasks[t].workerCostMinor| && problem.tasks[t].workerCostMinor[a[t]].Some?
  }

  ghost predicate Feasible(problem: WorkforceProblem, a: seq<int>) {
    FeasiblePrefix(problem, a) && |a| == |problem.tasks|
  }

  ghost function CostOf(problem: WorkforceProblem, a: seq<int>): int
    requires |a| <= |problem.tasks|
  {
    if a == [] then 0 else CostOf(problem, a[..|a| - 1]) + StepCost(problem, |a| - 1, a[|a| - 1])
  }

  function StepCost(problem: WorkforceProblem, t: nat, w: int): int
    requires t < |problem.tasks|
  {
    if Eligible(problem, t, w) then problem.tasks[t].workerCostMinor[w].value else 0
  }

  /** Less cost is better. */
  ghost function Saving(problem: WorkforceProblem): Objective {
    a => if |a| == |problem.tasks| then -CostOf(problem, a) else 0
  }

  ghost function FeasibleSet(problem: WorkforceProblem): (s: iset<seq<int>>)
    ensures OfLength(s, |problem.tasks|)
  {
    iset a | Feasible(problem, a)
  }

  lemma {:induction false} AllWorkersTried(problem: WorkforceProblem, prefix: seq<int>)
    requires WellFormed(problem) && |prefix| < |problem.tasks|
    ensures UnderBelow(FeasibleSet(problem), prefix, |problem.workerTaskCapacities|) == Under(FeasibleSet(problem), prefix)
    ensures UnderBelow(FeasibleSet(problem), prefix, 0) == iset{}
  {
    forall a | a in Under(FeasibleSet(problem), prefix) ensures Continues(a, prefix, |problem.workerTaskCapacities|) {
      var w := a[|prefix|];
      assert Eligible(problem, |prefix|, w) && prefix + [w] <= a;
    }
    forall a | Continues(a, prefix, 0) ensures !Feasible(problem, a) {
      var x :| x < 0 && prefix + [x] <= a;
      assert a[|prefix|] == x;
      if |a| == |problem.tasks| { assert !Eligible(problem, |prefix|, x); }
    }
    forall a | Continues(a, prefix, |problem.workerTaskCapacities|) ensures prefix <= a {
      var x :| x < |problem.workerTaskCapacities| && prefix + [x] <= a;
    }
  }

  lemma {:induction false} CountAppend(a: seq<int>, x: int, w: int)
    ensures Count(a + [x], w) == Count(a, w) + if x == w then 1 else 0
  {
    assert (a + [x])[..|a|] == a;
  }

  lemma {:induction false} CountGrows(prefix: seq<int>, a: seq<int>, w: int)
    requires prefix <= a
    ensures Count(prefix, w) <= Count(a, w)
    decreases |a|
  {
    if |prefix| < |a| {
      assert prefix <= a[..|a| - 1];
      CountGrows(prefix, a[..|a| - 1], w);
    } else {
      assert prefix == a;
    }
  }

  lemma {:induction false} CostGrows(problem: WorkforceProblem, prefix: seq<int>, a: seq<int>)
    requires WellFormed(problem) && |a| <= |problem.tasks| && prefix <= a
    ensures CostOf(problem, prefix) <= CostOf(problem, a)
    decreases |a|
  {
    if |prefix| < |a| {
      assert prefix <= a[..|a| - 1];
      CostGrows(problem, prefix, a[..|a| - 1]);
      assert NonNegativeCosts(problem.tasks[|a| - 1]);
    } else {
      assert prefix == a;
    }
  }

  /** A worker without capacity or eligibility leads nowhere. */
  lemma {:induction false} NothingUnder(problem: WorkforceProblem, prefix: seq<int>, w: int)
    requires FeasiblePrefix(problem, prefix) && |prefix| < |problem.tasks| && 0 <= w < |problem.workerTaskCapacities|
    requires Count(prefix, w) == problem.workerTaskCapacities[w] || !Eligible(problem, |prefix|, w)
    ensures Under(FeasibleSet(problem), prefix + [w]) == iset{}
  {
    forall a | prefix + [w] <= a && |a| == |problem.tasks| ensures !Feasible(problem, a) {
      assert a[|prefix|] == w;
      CountAppend(prefix, w, w);
      CountGrows(prefix + [w], a, w);
    }
  }

  lemma {:induction false} StepIsFeasible(problem: WorkforceProblem, prefix: seq<int>, w: int)
    requires FeasiblePrefix(problem, prefix) && |prefix| < |problem.tasks| && Eligible(problem, |prefix|, w)
    requires 0 <= w < |problem.workerTaskCapacities| && Count(prefix, w) < problem.workerTaskCapacities[w]
    ensures FeasiblePrefix(problem, prefix + [w])
    ensures CostOf(problem, prefix + [w]) == CostOf(problem, prefix) + problem.tasks[|prefix|].workerCostMinor[w].value
  {
    forall v | 0 <= v < |problem.workerTaskCapacities| ensures Count(prefix + [w], v) <= problem.workerTaskCapacities[v] {
      CountAppend(prefix, w, v);
    }
    assert (prefix + [w])[..|prefix|] == prefix;
  }

  lemma {:induction false} FullPrefix(problem: WorkforceProblem, prefix: seq<int>)
    requires Feasible(problem, prefix)
    ensures Under(FeasibleSet(problem), prefix) == iset{prefix}
  {
    forall a | a in Under(FeasibleSet(problem), prefix) ensures a == prefix {
    }
  }

  class WorkforceSearch {
    const problem: WorkforceProblem
    const capacities: array<int>
    const current: array<int>
    var best: Option<WorkforceSolution>
    /** The feasible assignments accounted for so far. */
    ghost var seen: iset<seq<int>>

    constructor (problem: WorkforceProblem)
      requires WellFormed(problem)
      ensures this.problem == problem && fresh(capacities) && fresh(current) && Valid()
      ensures seen == iset{} && Remaining([])
    {
      this.problem := problem;
      capacities := new int[|problem.workerTaskCapacities|](w requires 0 <= w < |problem.workerTaskCapacities| => problem.workerTaskCapacities[w]);
      current := new int[|problem.tasks|](_ => 0);
      best, seen := None, iset{};
    }

    ghost function BestAssignment(): Option<seq<int>>
      reads this
    {
      if best == None then None else Some(best.value.workerByTask)
    }

    ghost predicate Valid()
      reads this
    {
      && WellFormed(problem) && current.Length == |problem.tasks| && capacities.Length == |problem.workerTaskCapacities|
      && capacities != current
      && Incumbent(seen, |problem.tasks|, Saving(problem), BestAssignment())
      && (best.Some? ==> |best.value.workerByTask| == |problem.tasks| && best.value.totalCostMinor == CostOf(problem, best.value.workerByTask))
    }

    /** The capacities left after the prefix. */
    ghost predicate Remaining(prefix: seq<int>)
      requires capacities.Length == |problem.workerTaskCapacities|
      reads capacities
    {
      forall w :: 0 <= w < capacities.Length ==> capacities[w] == problem.workerTaskCapacities[w] - Count(prefix, w)
    }

    /** The search stands at this prefix, after everything that comes lexicographically before it. */
    ghost predicate At(prefix: seq<int>)
      requires Valid()
      reads this, capacities, current
    {
      && FeasiblePrefix(problem, prefix) && current[..|prefix|] == prefix
      && Remaining(prefix) && ComesFirst(seen, |problem.tasks|, prefix)
    }

    /** Accounts for every assignment that starts with the prefix; the capacities are restored. */
    method Dfs(taskIndex: nat, currentCost: int, ghost prefix: seq<int>)
      requires Valid() && At(prefix) && taskIndex == |prefix| && currentCost == CostOf(problem, prefix)
      modifies this, capacities, current
      ensures Valid() && seen == old(seen) + Under(FeasibleSet(problem), prefix)
      ensures capacities[..] == old(capacities[..]) && current[..taskIndex] == prefix
      decreases |problem.tasks| - taskIndex
    {
      if best.Some? && currentCost >= best.value.totalCostMinor {
        Skip(prefix);
        return;
      }
      if taskIndex == |problem.tasks| {
        Record(currentCost, prefix);
        return;
      }
      TryWorkers(taskIndex, currentCost, prefix);
    }

    /** A complete assignment cheaper than the incumbent becomes the incumbent. */
    method Record(currentCost: int, ghost prefix: seq<int>)
      requires Valid() && At(prefix) && |prefix| == |problem.tasks| && currentCost == CostOf(problem, prefix)
      requires best.Some? ==> currentCost < best.value.totalCostMinor
      modifies this
      ensures Valid() && seen == old(seen) + Under(FeasibleSet(problem), prefix)
    {
      FullPrefix(problem, prefix);
      assert current[..] == prefix;
      IncumbentMeetsLater(seen, |problem.tasks|, Saving(problem), BestAssignment(), prefix);
      best := Some(WorkforceSolution(current[..], currentCost));
      seen := seen + iset{prefix};
    }

    /** Tries every worker for the next task, in order. */
    method TryWorkers(taskIndex: nat, currentCost: int, ghost prefix: seq<int>)
      requires Valid() && At(prefix) && taskIndex == |prefix| < |problem.tasks| && currentCost == CostOf(problem, prefix)
      modifies this, capacities, current
      ensures Valid() && seen == old(seen) + Under(FeasibleSet(problem), prefix)
      ensures capacities[..] == old(capacities[..]) && current[..taskIndex] == prefix
      decreases |problem.tasks| - taskIndex, 1
    {
      ghost var start, before := seen, capacities[..];
      AllWorkersTried(problem, prefix);
      for worker := 0 to capacities.Length
        invariant Valid() && seen == start + UnderBelow(FeasibleSet(problem), prefix, worker)
        invariant capacities[..] == before && current[..taskIndex] == prefix && Remaining(prefix)
      {
        ConsiderWorker(taskIndex, currentCost, prefix, worker, start);
      }
    }

    /** Skips a worker who is used up or not eligible, and searches below any other. */
    method ConsiderWorker(taskIndex: nat, currentCost: int, ghost prefix: seq<int>, worker: nat, ghost start: iset<seq<int>>)
      requires Valid() && FeasiblePrefix(problem, prefix) && current[..|prefix|] == prefix && Remaining(prefix)
      requires taskIndex == |prefix| < |problem.tasks| && currentCost == CostOf(problem, prefix) && worker < capacities.Length
      requires ComesFirst(start, |problem.tasks|, prefix) && seen == start + UnderBelow(FeasibleSet(problem), prefix, worker)
      modifies this, capacities, current
      ensures Valid() && seen == start + UnderBelow(FeasibleSet(problem), prefix, worker + 1)
      ensures capacities[..] == old(capacities[..]) && current[..taskIndex] == prefix && Remaining(prefix)
      decreases |problem.tasks| - taskIndex, 0, 1
    {
      UnderSplits(FeasibleSet(problem), prefix, worker);
      if capacities[worker] == 0 || !Eligible(problem, taskIndex, worker) {
        NothingUnder(problem, prefix, worker);
      } else {
        StepComesFirst(FeasibleSet(problem), |problem.tasks|, start, prefix, worker);
        TryWorker(taskIndex, currentCost, prefix, worker);
      }
    }

    /** Searches below one worker for the next task and gives the capacity back. */
    method TryWorker(taskIndex: nat, currentCost: int, ghost prefix: seq<int>, worker: nat)
      requires Valid() && FeasiblePrefix(problem, prefix) && current[..|prefix|] == prefix && Remaining(prefix)
      requires taskIndex == |prefix| < |problem.tasks| && currentCost == CostOf(problem, prefix)
      requires worker < capacities.Length && capacities[worker] != 0 && Eligible(problem, taskIndex, worker)
      requires ComesFirst(seen, |problem.tasks|, prefix + [worker])
      modifies this, capacities, current
      ensures Valid() && seen == old(seen) + Under(FeasibleSet(problem), prefix + [worker])
      ensures capacities[..] == old(capacities[..]) && current[..taskIndex] == prefix && Remaining(prefix)
      decreases |problem.tasks| - taskIndex, 0, 0
    {
      ghost var before := capacities[..];
      StepIsFeasible(problem, prefix, worker);
      forall w { CountAppend(prefix, worker, w); }
      var cost := problem.tasks[taskIndex].workerCostMinor[worker].value;
      capacities[worker] := capacities[worker] - 1;
      current[taskIndex] := worker;
      assert current[..taskIndex + 1] == prefix + [worker];
      Dfs(taskIndex + 1, currentCost + cost, prefix + [worker]);
      capacities[worker] := capacities[worker] + 1;
      assert capacities[..] == before;
      assert current[..taskIndex] == (prefix + [worker])[..taskIndex];
    }

    /** A prefix that already costs as much as the incumbent cannot lead to a better assignment. */
    ghost method Skip(prefix: seq<int>)
      requires Valid() && At(prefix) && best.Some? && CostOf(problem, prefix) >= best.value.totalCostMinor
      modifies this`seen
      ensures Valid() && seen == old(seen) + Under(FeasibleSet(problem), prefix)
    {
      forall a | a in Under(FeasibleSet(problem), prefix)
        ensures Saving(problem)(a) <= Saving(problem)(best.value.workerByTask) && LexLess(best.value.workerByTask, a)
      {
        CostGrows(problem, prefix, a);
      }
      IncumbentOutlasts(seen, Under(FeasibleSet(problem), prefix), |problem.tasks|, Saving(problem), BestAssignment());
      seen := seen + Under(FeasibleSet(problem), prefix);
    }
  }

  /** The lexicographically first of the cheapest assignments, or proof that none exists. */
  ghost predicate SolveOutcome(problem: WorkforceProblem, r: Result<WorkforceSolution, OperationsError>) {
    match r
    case Ok(solution) =>
      && IsBest(FeasibleSet(problem), |problem.tasks|, Saving(problem), solution.workerByTask)
      && |solution.workerByTask| == |problem.tasks| && solution.totalCostMinor == CostOf(problem, solution.workerByTask)
    case Err(e) => e == NoFeasibleAssignment && FeasibleSet(problem) == iset{}
  }

  ghost predicate ValidProblem(problem: WorkforceProblem) {
    0 < |problem.tasks| <= MAX_WORKFORCE_TASKS && problem.workerTaskCapacities != [] && WellFormed(problem)
  }

  /** The checks in order: size, task limit, widths, signs. */
  ghost predicate ValidationOutcome(problem: WorkforceProblem, e: Option<OperationsError>) {
    if problem.tasks == [] || problem.workerTaskCapacities == [] then e == Some(EmptyProblem)
    else if |problem.tasks| > MAX_WORKFORCE_TASKS then e == Some(TooManyTasks(|problem.tasks|, MAX_WORKFORCE_TASKS))
    else if exists t :: 0 <= t < |problem.tasks| && |problem.tasks[t].workerCostMinor| != |problem.workerTaskCapacities| then
      e == Some(WorkerWidthMismatch)
    else if !WellFormed(problem) then e == Some(NegativeField)
    else e == None
  }

  method Validate(problem: WorkforceProblem) returns (e: Option<OperationsError>)
    ensures (e == None <==> ValidProblem(problem)) && ValidationOutcome(problem, e)
  {
    if problem.tasks == [] || problem.workerTaskCapacities == [] {
      return Some(EmptyProblem);
    }
    if |problem.tasks| > MAX_WORKFORCE_TASKS {
      return Some(TooManyTasks(|problem.tasks|, MAX_WORKFORCE_TASKS));
    }
    for t := 0 to |problem.tasks|
      invariant forall u :: 0 <= u < t ==> |problem.tasks[u].workerCostMinor| == |problem.workerTaskCapacities|
    {
      if |problem.tasks[t].workerCostMinor| != |problem.workerTaskCapacities| {
        return Some(WorkerWidthMismatch);
      }
    }
    for t := 0 to |problem.tasks|
      invariant forall u :: 0 <= u < t ==> NonNegativeCosts(problem.tasks[u])
    {
      if !NonNegativeCosts(problem.tasks[t]) {
        return Some(NegativeField);
      }
    }
    return None;
  }

  method SolveWorkforceAssignmentExact(problem: WorkforceProblem) returns (r: Result<WorkforceSolution, OperationsError>)
    ensures if ValidProblem(problem) then SolveOutcome(problem, r) else r.Err? && ValidationOutcome(problem, Some(r.error))
  {
    var e := Validate(problem);
    if e.Some? {
      return Err(e.value);
    }
    var search := new WorkforceSearch(problem);
    search.Dfs(0, 0, []);
    assert search.seen == FeasibleSet(problem);
    if search.best == None {
      return Err(NoFeasibleAssignment);
    }
    return Ok(search.best.value);
  }
}
