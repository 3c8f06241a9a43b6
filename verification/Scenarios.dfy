/** Expected payoffs over scenarios, their downside tail, and the worst case over probability intervals. */
module Scenarios {
  import opened Wrappers
  import opened Finite
  import opened LinearAlgebra
  import opened LinearBounds
  import opened MassAllocation

  const PROBABILITY_SCALE_PPM: nat := 1000000

  datatype OptimizationError =
    | EmptyProblem
    | ProbabilityMassMismatch(actualPpm: nat)
    | InvalidTailPpm(tailPpm: nat)
    | InvalidProbabilityInterval
    | AmbiguityMassInfeasible

  // ---- Worst case over probability intervals ----

  datatype ProbabilityIntervalScenario = ProbabilityIntervalScenario(lowerProbabilityPpm: nat, upperProbabilityPpm: nat, payoffMinor: int)

  ghost function Lowers(s: seq<ProbabilityIntervalScenario>): (r: seq<int>)
    ensures |r| == |s| && forall i :: 0 <= i < |r| ==> r[i] == s[i].lowerProbabilityPpm
  {
    seq(|s|, i requires 0 <= i < |s| => s[i].lowerProbabilityPpm)
  }

  ghost function Uppers(s: seq<ProbabilityIntervalScenario>): (r: seq<int>)
    ensures |r| == |s| && forall i :: 0 <= i < |r| ==> r[i] == s[i].upperProbabilityPpm
  {
    seq(|s|, i requires 0 <= i < |s| => s[i].upperProbabilityPpm)
  }

  function IntervalPayoffs(s: seq<ProbabilityIntervalScenario>): (r: seq<int>)
    ensures |r| == |s| && forall i :: 0 <= i < |r| ==> r[i] == s[i].payoffMinor
  {
    seq(|s|, i requires 0 <= i < |s| => s[i].payoffMinor)
  }

  predicate ValidInterval(s: ProbabilityIntervalScenario) {
    s.lowerProbabilityPpm <= s.upperProbabilityPpm <= PROBABILITY_SCALE_PPM
  }

  ghost predicate ValidIntervals(s: seq<ProbabilityIntervalScenario>) {
    forall i :: 0 <= i < |s| ==> s[i].lowerProbabilityPpm <= s[i].upperProbabilityPpm <= PROBABILITY_SCALE_PPM
  }

  /** Some probability vector lies within the intervals. */
  ghost predicate MassFits(s: seq<ProbabilityIntervalScenario>) {
    Total(Lowers(s), |s|) <= PROBABILITY_SCALE_PPM <= Total(Uppers(s), |s|)
  }

  method SumBounds(s: seq<ProbabilityIntervalScenario>) returns (lowerSum: int, upperSum: int)
    ensures lowerSum == Total(Lowers(s), |s|) && upperSum == Total(Uppers(s), |s|)
  {
    lowerSum, upperSum := 0, 0;
    for i := 0 to |s|
      invariant lowerSum == Total(Lowers(s), i) && upperSum == Total(Uppers(s), i)
    {
      lowerSum := lowerSum + s[i].lowerProbabilityPpm;
      upperSum := upperSum + s[i].upperProbabilityPpm;
    }
  }

  ghost function LeastOf(s: seq<int>, n: nat): (m: int)
    requires n <= |s|
    ensures forall i :: 0 <= i < n ==> m <= s[i]
  {
    if n == 0 then 0 else Min(LeastOf(s, n - 1), s[n - 1])
  }

  /** Gives one scenario as much of the remaining mass as its interval can take. */
  method GiveShare(s: ProbabilityIntervalScenario, probabilities: array<int>, index: nat, remaining: int) returns (share: int)
    requires index < probabilities.Length
    modifies probabilities
    ensures share == Min(remaining, s.upperProbabilityPpm - old(probabilities[index]))
    ensures probabilities[..] == old(probabilities[..])[index := old(probabilities[index]) + share]
  {
    var capacity := s.upperProbabilityPpm - probabilities[index];
    share := Min(remaining, capacity);
    probabilities[index] := probabilities[index] + share;
  }

  /** Fills the cheapest payoffs first, in place. */
  method FillCheapest(s: seq<ProbabilityIntervalScenario>, probabilities: array<int>, mass: int) returns (remaining: int)
    requires ValidIntervals(s) && probabilities[..] == Lowers(s) && Total(Lowers(s), |s|) + mass == PROBABILITY_SCALE_PPM && mass >= 0
    modifies probabilities
    ensures remaining == 0 ==> Worst(IntervalPayoffs(s), Lowers(s), Uppers(s), PROBABILITY_SCALE_PPM, probabilities[..])
    ensures Total(Uppers(s), |s|) >= PROBABILITY_SCALE_PPM ==> remaining == 0
  {
    remaining := mass;
    var payoff := IntervalPayoffs(s);
    var order := PayoffOrder(payoff);
    ghost var lower, upper := Lowers(s), Uppers(s);
    ghost var t := LeastOf(payoff, |payoff|);
    ghost var k := 0;
    assert forall i :: 0 <= i < |s| ==> ValidInterval(s[i]);
    FillingStarts(payoff, lower, upper, PROBABILITY_SCALE_PPM, t);
    for step := 0 to |order|
      invariant k == step
      invariant Filling(payoff, lower, upper, PROBABILITY_SCALE_PPM, k, probabilities[..], remaining, t)
    {
      if remaining == 0 { break; }
      remaining := FillNext(s, probabilities, payoff, order, step, remaining, t);
      t, k := payoff[order[step]], step + 1;
    }
    if remaining == 0 {
      FilledIsWorst(payoff, lower, upper, PROBABILITY_SCALE_PPM, k, probabilities[..], t);
    } else if Total(upper, |upper|) >= PROBABILITY_SCALE_PPM {
      FillingEnds(payoff, lower, upper, PROBABILITY_SCALE_PPM, probabilities[..], remaining, t);
    }
  }

  /** Serves the next scenario of the order. */
  method FillNext(s: seq<ProbabilityIntervalScenario>, probabilities: array<int>, payoff: seq<int>, order: seq<nat>, step: nat,
                  remaining: int, ghost t: int)
      returns (left: int)
    requires payoff == IntervalPayoffs(s) && order == PayoffOrder(payoff) && step < |s| == probabilities.Length && remaining > 0
    requires Filling(payoff, Lowers(s), Uppers(s), PROBABILITY_SCALE_PPM, step, probabilities[..], remaining, t)
    modifies probabilities
    ensures Filling(payoff, Lowers(s), Uppers(s), PROBABILITY_SCALE_PPM, step + 1, probabilities[..], left, payoff[order[step]])
  {
    var index := order[step];
    ghost var p := probabilities[..];
    var share := GiveShare(s[index], probabilities, index, remaining);
    FillingStep(payoff, Lowers(s), Uppers(s), PROBABILITY_SCALE_PPM, step, p, remaining, t, share, probabilities[..]);
    left := remaining - share;
  }

  method WeightedSum(payoff: seq<int>, p: seq<int>) returns (sum: int)
    requires |payoff| == |p|
    ensures sum == Sum(payoff, p, |p|)
  {
    sum := 0;
    for i := 0 to |p|
      invariant sum == Sum(payoff, p, i)
    {
      sum := sum + payoff[i] * p[i];
    }
  }

  /** The truncated expectation of a probability vector inside the intervals whose expectation none undercuts. */
  ghost predicate IsWorstCase(s: seq<ProbabilityIntervalScenario>, value: int) {
    exists p :: |p| == |s| && Worst(IntervalPayoffs(s), Lowers(s), Uppers(s), PROBABILITY_SCALE_PPM, p)
      && value == Trunc(Sum(IntervalPayoffs(s), p, |s|), PROBABILITY_SCALE_PPM)
  }

  method WorstCaseExpectedValue(s: seq<ProbabilityIntervalScenario>) returns (r: Result<int, OptimizationError>)
    ensures s == [] ==> r == Err(EmptyProblem)
    ensures s != [] && !ValidIntervals(s) ==> r == Err(InvalidProbabilityInterval)
    ensures s != [] && ValidIntervals(s) && !MassFits(s) ==> r == Err(AmbiguityMassInfeasible)
    ensures s != [] && ValidIntervals(s) && MassFits(s) ==> r.Ok? && IsWorstCase(s, r.value)
  {
    if s == [] {
      return Err(EmptyProblem);
    }
    for i := 0 to |s|
      invariant forall j :: 0 <= j < i ==> ValidInterval(s[j])
    {
      if !ValidInterval(s[i]) {
        return Err(InvalidProbabilityInterval);
      }
    }
    var lowerSum, upperSum := SumBounds(s);
    if lowerSum > PROBABILITY_SCALE_PPM || upperSum < PROBABILITY_SCALE_PPM {
      return Err(AmbiguityMassInfeasible);
    }
    var probabilities := new int[|s|](i requires 0 <= i < |s| => s[i].lowerProbabilityPpm);
    assert probabilities[..] == Lowers(s);
    var remaining := FillCheapest(s, probabilities, PROBABILITY_SCALE_PPM - lowerSum);
    if remaining != 0 {
      assert false;
      return Err(AmbiguityMassInfeasible);
    }
    var p := probabilities[..];
    var sum := WeightedSum(IntervalPayoffs(s), p);
    return Ok(Trunc(sum, PROBABILITY_SCALE_PPM));
  }

  /** No probability vector inside the intervals has a smaller truncated expectation. */
  lemma {:induction false} WorstCaseIsLowerBound(s: seq<ProbabilityIntervalScenario>, value: int, q: seq<int>)
    requires IsWorstCase(s, value) && |q| == |s|
    requires Admissible(Lowers(s), Uppers(s), PROBABILITY_SCALE_PPM, Reals(q))
    ensures value <= Trunc(Sum(IntervalPayoffs(s), q, |s|), PROBABILITY_SCALE_PPM)
  {
    var payoff := IntervalPayoffs(s);
    var p :| |p| == |s| && Worst(payoff, Lowers(s), Uppers(s), PROBABILITY_SCALE_PPM, p)
             && value == Trunc(Sum(payoff, p, |s|), PROBABILITY_SCALE_PPM);
    RealSum(payoff, p, |s|);
    RealSum(payoff, q, |s|);
    TruncMonotone(Sum(payoff, p, |s|), PROBABILITY_SCALE_PPM, Sum(payoff, q, |s|), PROBABILITY_SCALE_PPM);
  }

  // ---- Scenario summaries ----

  datatype ScenarioOutcome = ScenarioOutcome(probabilityPpm: nat, payoffMinor: int, constraintSatisfied: bool)

  datatype ScenarioDecisionSummary =
    ScenarioDecisionSummary(expectedPayoffWeighted: int, expectedPayoffTrunc: int, violationProbabilityPpm: nat, downsideTailMeanTrunc: int)

  function Payoffs(s: seq<ScenarioOutcome>): (r: seq<int>)
    ensures |r| == |s| && forall i :: 0 <= i < |r| ==> r[i] == s[i].payoffMinor
  {
    seq(|s|, i requires 0 <= i < |s| => s[i].payoffMinor)
  }

  function Probabilities(s: seq<ScenarioOutcome>): (r: seq<int>)
    ensures |r| == |s| && forall i :: 0 <= i < |r| ==> r[i] == s[i].probabilityPpm
  {
    seq(|s|, i requires 0 <= i < |s| => s[i].probabilityPpm)
  }

  function Zeros(n: nat): (r: seq<int>)
    ensures |r| == n && forall i :: 0 <= i < n ==> r[i] == 0
  {
    seq(n, _ => 0)
  }

  /** Total probability of the first `n` outcomes that violate the constraint. */
  ghost function ViolationMass(s: seq<ScenarioOutcome>, n: nat): nat
    requires n <= |s|
  {
    if n == 0 then 0 else ViolationMass(s, n - 1) + if s[n - 1].constraintSatisfied then 0 else s[n - 1].probabilityPpm
  }

  lemma {:induction false} ZerosSum(payoff: seq<int>, n: nat, k: nat)
    requires k <= n == |payoff|
    ensures Sum(payoff, Zeros(n), k) == 0 && Total(Zeros(n), k) == 0
  {
    if k > 0 { ZerosSum(payoff, n, k - 1); }
  }

  lemma {:induction false} SumUpdated(payoff: seq<int>, p: seq<int>, i: nat, x: int, n: nat)
    requires n <= |p| == |payoff| && i < |p|
    ensures Sum(payoff, p[i := x], n) == Sum(payoff, p, n) + if i < n then payoff[i] * (x - p[i]) else 0
  {
    if n > 0 {
      SumUpdated(payoff, p, i, x, n - 1);
      if n - 1 == i { DistributeInt(payoff[i], x, p[i]); }
    }
  }

  lemma DistributeInt(a: int, x: int, y: int)
    ensures a * (x - y) == a * x - a * y
  {
  }

  /** Consumes the worst outcomes until the tail mass is used up; the consumed shares are a least-payoff sub-allocation. */
  method TailSum(s: seq<ScenarioOutcome>, tailPpm: nat) returns (weightedTail: int, ghost consumed: seq<int>)
    requires s != [] && tailPpm <= PROBABILITY_SCALE_PPM && Total(Probabilities(s), |s|) == PROBABILITY_SCALE_PPM
    ensures |consumed| == |s| && weightedTail == Sum(Payoffs(s), consumed, |s|)
    ensures Worst(Payoffs(s), Zeros(|s|), Probabilities(s), tailPpm, consumed)
  {
    weightedTail := 0;
    var remaining: int := tailPpm;
    var payoff := Payoffs(s);
    var order := PayoffOrder(payoff);
    ghost var lower, upper := Zeros(|s|), Probabilities(s);
    ghost var t, k := LeastOf(payoff, |payoff|), 0;
    consumed := lower;
    ZerosSum(payoff, |s|, |s|);
    FillingStarts(payoff, lower, upper, tailPpm, t);
    for step := 0 to |order|
      invariant k == step && |consumed| == |s|
      invariant Filling(payoff, lower, upper, tailPpm, k, consumed, remaining, t)
      invariant weightedTail == Sum(payoff, consumed, |s|)
    {
      if remaining == 0 { break; }
      var outcome := s[order[step]];
      var share := Min(remaining, outcome.probabilityPpm);
      ghost var before := consumed;
      assert before[order[step]] == 0;
      SumUpdated(payoff, before, order[step], share, |s|);
      consumed := before[order[step] := share];
      FillingStep(payoff, lower, upper, tailPpm, step, before, remaining, t, share, consumed);
      weightedTail := weightedTail + outcome.payoffMinor * share;
      remaining := remaining - share;
      t, k := payoff[order[step]], step + 1;
    }
    if remaining != 0 {
      FillingEnds(payoff, lower, upper, tailPpm, consumed, remaining, t);
    }
    FilledIsWorst(payoff, lower, upper, tailPpm, k, consumed, t);
  }

  lemma {:induction false} ScaledPayoff(payoff: Vector, p: Vector, f: real, n: nat)
    requires n <= |payoff| == |p|
    ensures SumTo(Products(payoff, Scaled(f, p)), n) == f * SumTo(Products(payoff, p), n)
  {
    if n > 0 {
      ScaledPayoff(payoff, p, f, n - 1);
      Regroup(payoff[n - 1], f, p[n - 1]);
      Distribute(f, SumTo(Products(payoff, p), n - 1), payoff[n - 1] * p[n - 1]);
    }
  }

  lemma Regroup(a: real, f: real, p: real)
    ensures a * (f * p) == f * (a * p)
  {
  }

  lemma ShareWithinLimits(f: real, p: real) returns (share: real)
    requires 0.0 <= f <= 1.0 && p >= 0.0
    ensures share == f * p && 0.0 <= share <= p
  {
    share := f * p;
    ProductSign(f, p);
    ProductSign(1.0 - f, p);
    assert (1.0 - f) * p == p - f * p;
  }

  lemma {:induction false} ScaledWithinLimits(f: real, p: Vector)
    requires 0.0 <= f <= 1.0 && NonNegative(p)
    ensures forall i :: 0 <= i < |p| ==> 0.0 <= Scaled(f, p)[i] <= p[i]
  {
    var scaled := Scaled(f, p);
    forall i | 0 <= i < |p| ensures 0.0 <= scaled[i] <= p[i] {
      var share := ShareWithinLimits(f, p[i]);
      assert scaled[i] == share;
    }
  }

  /** Taking the same fraction of every outcome is a sub-allocation of the tail mass. */
  lemma {:induction false} ProportionalTail(s: seq<ScenarioOutcome>, tailPpm: nat, f: real)
    requires tailPpm <= PROBABILITY_SCALE_PPM && Total(Probabilities(s), |s|) == PROBABILITY_SCALE_PPM
    requires f * 1000000.0 == tailPpm as real
    ensures Admissible(Zeros(|s|), Probabilities(s), tailPpm, Scaled(f, Reals(Probabilities(s))))
  {
    var p := Reals(Probabilities(s));
    TotalAsReal(Probabilities(s), |s|);
    SumScaled(f, p, |s|);
    ScaledWithinLimits(f, p);
  }

  /** The tail payoff per unit of mass is at most the expected payoff per unit of mass. */
  lemma {:induction false} TailBelowExpectation(s: seq<ScenarioOutcome>, tailPpm: nat, consumed: seq<int>)
    requires tailPpm <= PROBABILITY_SCALE_PPM && Total(Probabilities(s), |s|) == PROBABILITY_SCALE_PPM && |consumed| == |s|
    requires Worst(Payoffs(s), Zeros(|s|), Probabilities(s), tailPpm, consumed)
    ensures Sum(Payoffs(s), consumed, |s|) * PROBABILITY_SCALE_PPM <= Sum(Payoffs(s), Probabilities(s), |s|) * tailPpm
  {
    var f := TailFraction(tailPpm);
    var tail, expected := Sum(Payoffs(s), consumed, |s|), Sum(Payoffs(s), Probabilities(s), |s|);
    WorstIsBelowProportional(s, tailPpm, consumed, f);
    ClearFraction(tail, expected, tailPpm, f);
  }

  ghost function TailFraction(tailPpm: nat): (f: real)
    ensures f * 1000000.0 == tailPpm as real
  {
    tailPpm as real / 1000000.0
  }

  lemma {:induction false} WorstIsBelowProportional(s: seq<ScenarioOutcome>, tailPpm: nat, consumed: seq<int>, f: real)
    requires tailPpm <= PROBABILITY_SCALE_PPM && Total(Probabilities(s), |s|) == PROBABILITY_SCALE_PPM && |consumed| == |s|
    requires Worst(Payoffs(s), Zeros(|s|), Probabilities(s), tailPpm, consumed) && f * 1000000.0 == tailPpm as real
    ensures Sum(Payoffs(s), consumed, |s|) as real <= f * Sum(Payoffs(s), Probabilities(s), |s|) as real
  {
    var payoff, p := Payoffs(s), Probabilities(s);
    ProportionalTail(s, tailPpm, f);
    assert Dot(Reals(payoff), Reals(consumed)) <= Dot(Reals(payoff), Scaled(f, Reals(p)));
    ScaledPayoff(Reals(payoff), Reals(p), f, |s|);
    RealSum(payoff, consumed, |s|);
    RealSum(payoff, p, |s|);
  }

  lemma {:induction false} ClearFraction(tail: int, expected: int, tailPpm: nat, f: real)
    requires tail as real <= f * expected as real && f * 1000000.0 == tailPpm as real
    ensures tail * PROBABILITY_SCALE_PPM <= expected * tailPpm
  {
    CastProduct(expected, tailPpm);
    assert (f * expected as real) * 1000000.0 == (f * 1000000.0) * expected as real;
  }

  ghost predicate SummaryHolds(s: seq<ScenarioOutcome>, tailPpm: nat, r: ScenarioDecisionSummary)
    requires tailPpm > 0
  {
    && r.expectedPayoffWeighted == Sum(Payoffs(s), Probabilities(s), |s|)
    && r.expectedPayoffTrunc == Trunc(r.expectedPayoffWeighted, PROBABILITY_SCALE_PPM)
    && r.violationProbabilityPpm == ViolationMass(s, |s|)
    && (exists c :: |c| == |s| && Worst(Payoffs(s), Zeros(|s|), Probabilities(s), tailPpm, c)
          && r.downsideTailMeanTrunc == Trunc(Sum(Payoffs(s), c, |s|), tailPpm))
    && r.downsideTailMeanTrunc <= r.expectedPayoffTrunc
  }

  method SummarizeScenarios(s: seq<ScenarioOutcome>, downsideTailPpm: nat) returns (r: Result<ScenarioDecisionSummary, OptimizationError>)
    ensures s == [] ==> r == Err(EmptyProblem)
    ensures s != [] && !(0 < downsideTailPpm <= PROBABILITY_SCALE_PPM) ==> r == Err(InvalidTailPpm(downsideTailPpm))
    ensures s != [] && 0 < downsideTailPpm <= PROBABILITY_SCALE_PPM && Total(Probabilities(s), |s|) != PROBABILITY_SCALE_PPM ==>
              r.Err? && r.error.ProbabilityMassMismatch? && r.error.actualPpm == Total(Probabilities(s), |s|)
    ensures s != [] && 0 < downsideTailPpm <= PROBABILITY_SCALE_PPM && Total(Probabilities(s), |s|) == PROBABILITY_SCALE_PPM ==>
              r.Ok? && SummaryHolds(s, downsideTailPpm, r.value)
  {
    if s == [] {
      return Err(EmptyProblem);
    }
    if downsideTailPpm == 0 || downsideTailPpm > PROBABILITY_SCALE_PPM {
      return Err(InvalidTailPpm(downsideTailPpm));
    }
    var actual: nat, violation: nat := 0, 0;
    for i := 0 to |s|
      invariant actual == Total(Probabilities(s), i) && violation == ViolationMass(s, i)
    {
      actual := actual + s[i].probabilityPpm;
      violation := violation + if s[i].constraintSatisfied then 0 else s[i].probabilityPpm;
    }
    if actual != PROBABILITY_SCALE_PPM {
      return Err(ProbabilityMassMismatch(actual));
    }
    var expected := WeightedSum(Payoffs(s), Probabilities(s));
    var weightedTail, consumed := TailSum(s, downsideTailPpm);
    TailBelowExpectation(s, downsideTailPpm, consumed);
    TruncMonotone(weightedTail, downsideTailPpm, expected, PROBABILITY_SCALE_PPM);
    return Ok(ScenarioDecisionSummary(expected, Trunc(expected, PROBABILITY_SCALE_PPM), violation, Trunc(weightedTail, downsideTailPpm)));
  }
}
