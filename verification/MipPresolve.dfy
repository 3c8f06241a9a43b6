/** Interval presolve of mixed-integer programs, in exact arithmetic and with the row tolerance as given. */
module MipPresolve {
  import opened Wrappers
  import opened Constraints
  import opened LinearAlgebra
  import opened GeneralPrograms
  import Sorting

  const MAX_EXACT_INTEGER: real := 9007199254740992.0

  datatype MixedVariableKind = Continuous | Integer

  datatype MixedVariable = MixedVariable(lower: real, upper: real, objectiveCoefficient: real, kind: MixedVariableKind)

  type Box = seq<MixedVariable>

  datatype MixedIntegerProblem =
    MixedIntegerProblem(variables: Box, constraints: seq<GeneralLinearConstraint>, lpTolerance: real, integralityTolerance: real,
                        maximumNodes: nat, maximumLpIterationsPerNode: nat)

  datatype MixedIntegerPresolveConfig = MixedIntegerPresolveConfig(maximumPasses: nat, tolerance: real)

  datatype MixedIntegerPresolveReport =
    MixedIntegerPresolveReport(problem: MixedIntegerProblem, passes: nat, tightenedBounds: nat,
                               fixedVariables: seq<nat>, redundantConstraints: seq<nat>)

  datatype MixedIntegerPresolveError =
    | EmptyProblem
    | ConstraintWidthMismatch
    | InvalidBounds(variable: nat)
    | InvalidTolerance
    | InvalidPassBudget
    | Infeasible

  // ---- The points a problem admits ----

  predicate Integral(x: real) {
    x == x.Floor as real
  }

  predicate InRange(v: MixedVariable, x: real) {
    v.lower <= x <= v.upper && (v.kind == Integer ==> Integral(x))
  }

  ghost predicate InBox(box: Box, x: Vector) {
    |x| == |box| && forall j :: 0 <= j < |x| ==> InRange(box[j], x[j])
  }

  /** Between the bounds, whole or not. */
  ghost predicate WithinBounds(box: Box, x: Vector) {
    |x| == |box| && forall j :: 0 <= j < |x| ==> box[j].lower <= x[j] <= box[j].upper
  }

  /** The relation holds up to the row tolerance. */
  predicate HoldsWithin(relation: ConstraintRelation, lhs: real, rhs: real, tolerance: real) {
    match relation
    case LessOrEqual => lhs <= rhs + tolerance
    case GreaterOrEqual => lhs >= rhs - tolerance
    case Equal => rhs - tolerance <= lhs <= rhs + tolerance
  }

  ghost predicate RowHolds(c: GeneralLinearConstraint, x: Vector, tolerance: real)
    requires |c.coefficients| == |x|
  {
    HoldsWithin(c.relation, Dot(c.coefficients, x), c.rhs, tolerance)
  }

  ghost predicate RowsHold(rows: seq<GeneralLinearConstraint>, x: Vector, tolerance: real)
    requires Widths(rows, |x|)
  {
    forall k :: 0 <= k < |rows| ==> RowHolds(rows[k], x, tolerance)
  }

  /** In the box, integral where required, and every row within tolerance. */
  ghost predicate Point(rows: seq<GeneralLinearConstraint>, box: Box, x: Vector, tolerance: real)
    requires Widths(rows, |box|)
  {
    InBox(box, x) && RowsHold(rows, x, tolerance)
  }

  ghost predicate SamePoints(rows: seq<GeneralLinearConstraint>, original: Box, box: Box, tolerance: real)
    requires Widths(rows, |original|)
  {
    |box| == |original| && forall x :: Point(rows, original, x, tolerance) <==> Point(rows, box, x, tolerance)
  }

  ghost predicate NoPoint(rows: seq<GeneralLinearConstraint>, box: Box, tolerance: real)
    requires Widths(rows, |box|)
  {
    forall x :: !Point(rows, box, x, tolerance)
  }

  /** Bounds move inward only; kinds and objective stay. */
  ghost predicate Narrower(original: Box, box: Box) {
    && |box| == |original|
    && forall j :: 0 <= j < |box| ==> NarrowedTo(original[j], box[j])
  }

  predicate NarrowedTo(before: MixedVariable, after: MixedVariable) {
    && before.lower <= after.lower && after.upper <= before.upper
    && after.kind == before.kind && after.objectiveCoefficient == before.objectiveCoefficient
  }

  /** Integer variables have integral bounds. */
  ghost predicate IntegralBounds(box: Box) {
    forall j :: 0 <= j < |box| && box[j].kind == Integer ==> Integral(box[j].lower) && Integral(box[j].upper)
  }

  // ---- Row intervals ----

  function LowTerm(a: real, v: MixedVariable): real {
    if a >= 0.0 then a * v.lower else a * v.upper
  }

  function HighTerm(a: real, v: MixedVariable): real {
    if a >= 0.0 then a * v.upper else a * v.lower
  }

  ghost function LowTerms(a: Vector, box: Box): (r: Vector)
    requires |a| == |box|
    ensures |r| == |a| && forall j :: 0 <= j < |r| ==> r[j] == LowTerm(a[j], box[j])
  {
    seq(|a|, j requires 0 <= j < |a| => LowTerm(a[j], box[j]))
  }

  ghost function HighTerms(a: Vector, box: Box): (r: Vector)
    requires |a| == |box|
    ensures |r| == |a| && forall j :: 0 <= j < |r| ==> r[j] == HighTerm(a[j], box[j])
  {
    seq(|a|, j requires 0 <= j < |a| => HighTerm(a[j], box[j]))
  }

  lemma {:induction false} ScaleUp(a: real, x: real, y: real)
    requires a >= 0.0 && x <= y
    ensures a * x <= a * y
  {
    ProductSign(a, y - x);
    Distribute(a, x, y - x);
  }

  lemma {:induction false} ScaleDown(a: real, x: real, y: real)
    requires a < 0.0 && x <= y
    ensures a * y <= a * x
  {
    ScaleUp(-a, x, y);
    NegatedProduct(a, x);
    NegatedProduct(a, y);
  }

  lemma {:induction false} TermBounds(a: real, v: MixedVariable, x: real)
    requires v.lower <= x <= v.upper
    ensures LowTerm(a, v) <= a * x <= HighTerm(a, v)
  {
    var low, high := v.lower, v.upper;
    if a >= 0.0 {
      ScaleUp(a, low, x);
      ScaleUp(a, x, high);
    } else {
      ScaleDown(a, low, x);
      ScaleDown(a, x, high);
    }
  }

  lemma {:induction false} SumMonotone(s: Vector, t: Vector, n: nat)
    requires n <= |s| && n <= |t| && forall j :: 0 <= j < n ==> s[j] <= t[j]
    ensures SumTo(s, n) <= SumTo(t, n)
  {
    if n > 0 { SumMonotone(s, t, n - 1); }
  }

  lemma {:induction false} TermsBound(a: Vector, box: Box, x: Vector)
    requires |a| == |box| && WithinBounds(box, x)
    ensures forall j :: 0 <= j < |a| ==> LowTerms(a, box)[j] <= Products(a, x)[j] <= HighTerms(a, box)[j]
  {
    forall j | 0 <= j < |a| ensures LowTerms(a, box)[j] <= Products(a, x)[j] <= HighTerms(a, box)[j] {
      assert box[j].lower <= x[j] <= box[j].upper;
      TermBounds(a[j], box[j], x[j]);
    }
  }

  /** Every point of the box has its row value between the ends of the row interval. */
  lemma {:induction false} IntervalBounds(a: Vector, box: Box, x: Vector)
    requires |a| == |box| && WithinBounds(box, x)
    ensures SumTo(LowTerms(a, box), |a|) <= Dot(a, x) <= SumTo(HighTerms(a, box), |a|)
  {
    TermsBound(a, box, x);
    SumMonotone(LowTerms(a, box), Products(a, x), |a|);
    SumMonotone(Products(a, x), HighTerms(a, box), |a|);
  }

  method RowInterval(c: GeneralLinearConstraint, variables: array<MixedVariable>) returns (minimum: real, maximum: real)
    requires |c.coefficients| == variables.Length
    ensures minimum == SumTo(LowTerms(c.coefficients, variables[..]), |c.coefficients|)
    ensures maximum == SumTo(HighTerms(c.coefficients, variables[..]), |c.coefficients|)
  {
    minimum, maximum := 0.0, 0.0;
    for j := 0 to |c.coefficients|
      invariant minimum == SumTo(LowTerms(c.coefficients, variables[..]), j)
      invariant maximum == SumTo(HighTerms(c.coefficients, variables[..]), j)
    {
      minimum := minimum + LowTerm(c.coefficients[j], variables[j]);
      maximum := maximum + HighTerm(c.coefficients[j], variables[j]);
    }
  }

  predicate RowInfeasible(relation: ConstraintRelation, minimum: real, maximum: real, rhs: real, tolerance: real) {
    match relation
    case LessOrEqual => minimum > rhs + tolerance
    case GreaterOrEqual => maximum < rhs - tolerance
    case Equal => minimum > rhs + tolerance || maximum < rhs - tolerance
  }

  function AbsReal(x: real): real {
    if x < 0.0 then -x else x
  }

  predicate RowRedundant(relation: ConstraintRelation, minimum: real, maximum: real, rhs: real, tolerance: real) {
    match relation
    case LessOrEqual => maximum <= rhs + tolerance
    case GreaterOrEqual => minimum >= rhs - tolerance
    case Equal => AbsReal(minimum - rhs) <= tolerance && AbsReal(maximum - rhs) <= tolerance
  }

  /** An infeasible row excludes every point of the box; a redundant row holds in all of it. */
  lemma {:induction false} RowVerdicts(c: GeneralLinearConstraint, box: Box, x: Vector, tolerance: real)
    requires |c.coefficients| == |box| && WithinBounds(box, x)
    ensures var low, high := SumTo(LowTerms(c.coefficients, box), |box|), SumTo(HighTerms(c.coefficients, box), |box|);
            && (RowInfeasible(c.relation, low, high, c.rhs, tolerance) ==> !RowHolds(c, x, tolerance))
            && (RowRedundant(c.relation, low, high, c.rhs, tolerance) ==> RowHolds(c, x, tolerance))
  {
    IntervalBounds(c.coefficients, box, x);
  }

  /** Every variable at the end that makes the row smallest. */
  ghost function LowCorner(a: Vector, box: Box): (x: Vector)
    requires |a| == |box|
    ensures |x| == |a| && forall j :: 0 <= j < |x| ==> x[j] == if a[j] >= 0.0 then box[j].lower else box[j].upper
  {
    seq(|a|, j requires 0 <= j < |a| => if a[j] >= 0.0 then box[j].lower else box[j].upper)
  }

  /** Every variable at the end that makes the row largest. */
  ghost function HighCorner(a: Vector, box: Box): (x: Vector)
    requires |a| == |box|
    ensures |x| == |a| && forall j :: 0 <= j < |x| ==> x[j] == if a[j] >= 0.0 then box[j].upper else box[j].lower
  {
    seq(|a|, j requires 0 <= j < |a| => if a[j] >= 0.0 then box[j].upper else box[j].lower)
  }

  // ---- Tightening one bound ----

  function Ceil(x: real): real {
    -((-x).Floor as real)
  }

  /** The least contribution of the variables other than `target`. */
  ghost function MinimumOther(a: Vector, box: Box, target: nat): real
    requires |a| == |box| && target < |a|
  {
    SumTo(LowTerms(a, box)[target := 0.0], |a|)
  }

  /** The bound that a row `a x <= b` implies for a variable with a non-zero coefficient. */
  function Implied(b: real, tolerance: real, minimumOther: real, coefficient: real): real
    requires coefficient != 0.0
  {
    (b + tolerance - minimumOther) / coefficient
  }

  function Rounded(kind: MixedVariableKind, coefficient: real, implied: real): real {
    if kind == Continuous then implied else if coefficient > 0.0 then implied.Floor as real else Ceil(implied)
  }

  /** The variable after one tightening step. */
  function Tightened(v: MixedVariable, coefficient: real, candidate: real): MixedVariable {
    if coefficient > 0.0 then (if candidate < v.upper then v.(upper := candidate) else v)
    else if candidate > v.lower then v.(lower := candidate) else v
  }

  lemma {:induction false} QuotientBound(a: real, x: real, r: real)
    requires a != 0.0 && a * x <= r
    ensures a > 0.0 ==> x <= r / a
    ensures a < 0.0 ==> x >= r / a
  {
    var q := r / a;
    assert a * q == r;
    if a > 0.0 && x > q {
      StrictScale(a, q, x);
    }
    if a < 0.0 && x < q {
      StrictScale(-a, x, q);
      NegatedProduct(a, x);
      NegatedProduct(a, q);
    }
  }

  lemma {:induction false} StrictScale(a: real, x: real, y: real)
    requires a > 0.0 && x < y
    ensures a * x < a * y
  {
    Distribute(a, x, y - x);
    assert a * (y - x) > 0.0;
  }


  lemma {:induction false} FloorIsLargest(n: int, y: real)
    requires n as real <= y
    ensures n <= y.Floor
  {
  }

  lemma {:induction false} IntegralBelow(x: real, y: real)
    requires Integral(x) && x <= y
    ensures x <= y.Floor as real
  {
    FloorIsLargest(x.Floor, y);
  }

  lemma {:induction false} NegatedIntegral(x: real)
    requires Integral(x)
    ensures Integral(-x)
  {
    assert (-(x.Floor)) as real == -x;
  }

  lemma {:induction false} RoundedIsIntegral(coefficient: real, implied: real)
    ensures Integral(Rounded(Integer, coefficient, implied))
  {
    var f := (-implied).Floor;
    assert (-(f as real)).Floor == -f;
  }

  lemma {:induction false} FavourableIsLower(a: Vector, box: Box, x: Vector, t: nat)
    requires t < |a| == |box| && WithinBounds(box, x)
    ensures Dot(a, LowCorner(a, box)[t := x[t]]) <= Dot(a, x)
  {
    TermsBound(a, box, x);
    var (p, q) := (Products(a, LowCorner(a, box)[t := x[t]]), Products(a, x));
    forall j | 0 <= j < |a| ensures p[j] <= q[j] {
      assert j != t ==> p[j] == LowTerms(a, box)[j];
    }
    SumMonotone(p, q, |a|);
  }

  /** A point of the box that satisfies the row lies within the tightened range of `target`. */
  lemma {:induction false} TighteningIsSound(a: Vector, b: real, box: Box, target: nat, x: Vector, tolerance: real)
    requires |a| == |box| && target < |a| && InBox(box, x) && Dot(a, x) <= b + tolerance
    ensures InRange(TightenedAt(a, b, box, target, tolerance), x[target])
  {
    assert InRange(box[target], x[target]) && WithinBounds(box, x) by {
      assert forall j :: 0 <= j < |x| ==> InRange(box[j], x[j]);
    }
    FavourableIsLower(a, box, x, target);
    TightenedIsTightest(a, b, box, target, tolerance, x[target]);
  }


  /** What every step keeps: the same points, bounds moved inward only, integral bounds of integer variables. */
  ghost predicate Presolved(rows: seq<GeneralLinearConstraint>, original: Box, box: Box, tolerance: real)
    requires Widths(rows, |original|)
  {
    SamePoints(rows, original, box, tolerance) && Narrower(original, box) && IntegralBounds(box)
  }

  /** Every point satisfies the row `a x <= b` within tolerance. */
  ghost predicate RowImplied(rows: seq<GeneralLinearConstraint>, original: Box, a: Vector, b: real, tolerance: real)
    requires Widths(rows, |original|) && |a| == |original|
  {
    forall x :: Point(rows, original, x, tolerance) ==> Dot(a, x) <= b + tolerance
  }

  lemma {:induction false} NarrowingPointIsPoint(rows: seq<GeneralLinearConstraint>, box: Box, target: nat, v: MixedVariable, x: Vector, tolerance: real)
    requires Widths(rows, |box|) && target < |box| && NarrowedTo(box[target], v)
    requires Point(rows, box[target := v], x, tolerance)
    ensures Point(rows, box, x, tolerance)
  {
    forall j | 0 <= j < |x| ensures InRange(box[j], x[j]) {
      assert InRange(box[target := v][j], x[j]);
    }
  }

  lemma {:induction false} TightenStep(rows: seq<GeneralLinearConstraint>, original: Box, box: Box, a: Vector, b: real, target: nat,
                                       tolerance: real, v: MixedVariable)
    requires Widths(rows, |original|) && |a| == |original| && target < |a| && a[target] != 0.0
    requires Presolved(rows, original, box, tolerance) && RowImplied(rows, original, a, b, tolerance)
    requires v == TightenedAt(a, b, box, target, tolerance)
    ensures Presolved(rows, original, box[target := v], tolerance)
  {
    var next := box[target := v];
    forall x ensures Point(rows, original, x, tolerance) <==> Point(rows, next, x, tolerance) {
      if Point(rows, original, x, tolerance) {
        assert Point(rows, box, x, tolerance);
        TighteningIsSound(a, b, box, target, x, tolerance);
        assert InBox(next, x);
      }
      if Point(rows, next, x, tolerance) {
        NarrowingPointIsPoint(rows, box, target, v, x, tolerance);
      }
    }
    assert NarrowedTo(original[target], box[target]);
    if v.kind == Integer {
      RoundedIsIntegral(a[target], Implied(b, tolerance, MinimumOther(a, box, target), a[target]));
    }
  }

  method ComputeMinimumOther(a: Vector, variables: array<MixedVariable>, target: nat) returns (minimumOther: real)
    requires |a| == variables.Length && target < |a|
    ensures minimumOther == MinimumOther(a, variables[..], target)
  {
    minimumOther := 0.0;
    ghost var terms := LowTerms(a, variables[..])[target := 0.0];
    for index := 0 to |a|
      invariant minimumOther == SumTo(terms, index)
    {
      if index == target { continue; }
      assert terms[index] == LowTerm(a[index], variables[index]);
      minimumOther := minimumOther + LowTerm(a[index], variables[index]);
    }
  }

  // ---- Sweeps over the rows ----

  /** The box and the number of bounds moved so far. */
  datatype Sweep = Sweep(box: Box, moved: nat)

  /** The variable `target` after its tightening from `a x <= b`. */
  ghost function TightenedAt(a: Vector, b: real, box: Box, target: nat, tolerance: real): (v: MixedVariable)
    requires |a| == |box| && target < |a|
    ensures NarrowedTo(box[target], v)
  {
    if a[target] == 0.0 then box[target]
    else Tightened(box[target], a[target],
           Rounded(box[target].kind, a[target], Implied(b, tolerance, MinimumOther(a, box, target), a[target])))
  }

  ghost function TargetStep(a: Vector, b: real, s: Sweep, target: nat, tolerance: real): (r: Sweep)
    requires |a| == |s.box| && target < |a|
    ensures |r.box| == |s.box|
  {
    var v := TightenedAt(a, b, s.box, target, tolerance);
    Sweep(s.box[target := v], if v == s.box[target] then s.moved else s.moved + 1)
  }

  /** One row `a x <= b`, the first `n` targets in order, each from the bounds reached so far. */
  ghost function SweptTargets(a: Vector, b: real, s: Sweep, tolerance: real, n: nat): (r: Sweep)
    requires n <= |a| == |s.box|
    ensures |r.box| == |s.box|
  {
    if n == 0 then s else TargetStep(a, b, SweptTargets(a, b, s, tolerance, n - 1), n - 1, tolerance)
  }

  ghost function SweptConstraint(c: GeneralLinearConstraint, s: Sweep, tolerance: real): (r: Sweep)
    requires |c.coefficients| == |s.box|
    ensures |r.box| == |s.box|
  {
    var n := |s.box|;
    match c.relation
    case LessOrEqual => SweptTargets(c.coefficients, c.rhs, s, tolerance, n)
    case GreaterOrEqual => SweptTargets(Negated(c.coefficients), -c.rhs, s, tolerance, n)
    case Equal => SweptTargets(Negated(c.coefficients), -c.rhs, SweptTargets(c.coefficients, c.rhs, s, tolerance, n), tolerance, n)
  }

  ghost function SweptRows(rows: seq<GeneralLinearConstraint>, s: Sweep, tolerance: real, k: nat): (r: Sweep)
    requires Widths(rows, |s.box|) && k <= |rows|
    ensures |r.box| == |s.box|
  {
    if k == 0 then s else SweptConstraint(rows[k - 1], SweptRows(rows, s, tolerance, k - 1), tolerance)
  }

  ghost function SweptPasses(rows: seq<GeneralLinearConstraint>, s: Sweep, tolerance: real, p: nat): (r: Sweep)
    requires Widths(rows, |s.box|)
    ensures |r.box| == |s.box|
  {
    if p == 0 then s else SweptRows(rows, SweptPasses(rows, s, tolerance, p - 1), tolerance, |rows|)
  }

  /** Bounds move inward only, and they move exactly when something is counted. */
  ghost predicate Advances(s: Sweep, r: Sweep) {
    Narrower(s.box, r.box) && s.moved <= r.moved && (s.moved == r.moved <==> s.box == r.box)
  }

  lemma {:induction false} AdvancesCompose(s: Sweep, r: Sweep, t: Sweep)
    requires Advances(s, r) && Advances(r, t)
    ensures Advances(s, t) && (s.box == t.box ==> r.box == s.box)
  {
    forall j | 0 <= j < |s.box| ensures NarrowedTo(s.box[j], t.box[j]) && (s.box[j] == t.box[j] ==> r.box[j] == s.box[j]) {
      assert NarrowedTo(s.box[j], r.box[j]) && NarrowedTo(r.box[j], t.box[j]);
    }
  }

  lemma {:induction false} TargetStepAdvances(a: Vector, b: real, s: Sweep, target: nat, tolerance: real)
    requires |a| == |s.box| && target < |a|
    ensures Advances(s, TargetStep(a, b, s, target, tolerance))
  {
    var v := TightenedAt(a, b, s.box, target, tolerance);
    if v == s.box[target] { assert s.box[target := v] == s.box; }
  }

  /** The row `a x <= b` moves no bound of the box. */
  ghost predicate RowSettled(a: Vector, b: real, box: Box, tolerance: real, n: nat)
    requires n <= |a| == |box|
  {
    forall target: nat :: target < n ==> TightenedAt(a, b, box, target, tolerance) == box[target]
  }

  /** With variable `t` at `y` and the others where they make the row smallest, the row `a x <= b` is within tolerance. */
  ghost predicate Admits(a: Vector, b: real, box: Box, t: nat, y: real, tolerance: real)
    requires t < |a| == |box|
  {
    Dot(a, LowCorner(a, box)[t := y]) <= b + tolerance
  }

  lemma {:induction false} CornerWith(a: Vector, box: Box, t: nat, y: real)
    requires t < |a| == |box|
    ensures Dot(a, LowCorner(a, box)[t := y]) == MinimumOther(a, box, t) + a[t] * y
  {
    var p := Products(a, LowCorner(a, box)[t := y]);
    SumExtract(p, |a|, t);
    SumAgrees(p[t := 0.0], LowTerms(a, box)[t := 0.0], |a|);
  }

  /** A value is admitted exactly on the near side of the implied bound. */
  lemma {:induction false} AdmittedBelowImplied(a: Vector, b: real, box: Box, t: nat, y: real, tolerance: real)
    requires t < |a| == |box| && a[t] != 0.0
    ensures var implied := Implied(b, tolerance, MinimumOther(a, box, t), a[t]);
            Admits(a, b, box, t, y, tolerance) <==> if a[t] > 0.0 then y <= implied else y >= implied
  {
    CornerWith(a, box, t, y);
    DividesExactly(a[t], y, b + tolerance - MinimumOther(a, box, t));
  }

  lemma {:induction false} DividesExactly(a: real, y: real, r: real)
    requires a != 0.0
    ensures a * y <= r <==> if a > 0.0 then y <= r / a else y >= r / a
  {
    var q := r / a;
    assert a * q == r;
    if a * y <= r { QuotientBound(a, y, r); }
    if a > 0.0 && y <= q { ScaleUp(a, y, q); }
    if a < 0.0 && y >= q { ScaleDown(a, q, y); }
  }

  lemma {:induction false} RoundedIsTightest(kind: MixedVariableKind, coefficient: real, implied: real, z: real)
    requires kind == Integer ==> Integral(z)
    ensures var candidate := Rounded(kind, coefficient, implied);
            && (coefficient > 0.0 ==> candidate <= implied && (z <= implied ==> z <= candidate))
            && (coefficient < 0.0 ==> candidate >= implied && (z >= implied ==> z >= candidate))
  {
    if kind == Integer && coefficient > 0.0 && z <= implied { IntegralBelow(z, implied); }
    if kind == Integer && coefficient < 0.0 && z >= implied {
      NegatedIntegral(z);
      IntegralBelow(-z, -implied);
    }
  }

  /** One step moves a bound exactly as far as the row allows: the new bound is admitted, and nothing beyond it that the
      variable could take is. The other bound and everything else stay. */
  lemma {:induction false} TightenedIsTightest(a: Vector, b: real, box: Box, t: nat, tolerance: real, z: real)
    requires t < |a| == |box| && (box[t].kind == Integer ==> Integral(z))
    ensures var (before, v) := (box[t], TightenedAt(a, b, box, t, tolerance));
            && v.kind == before.kind && v.objectiveCoefficient == before.objectiveCoefficient
            && (a[t] == 0.0 ==> v == before)
            && (a[t] > 0.0 ==> v.lower == before.lower && v.upper <= before.upper && Admits(a, b, box, t, v.upper, tolerance)
                               && (v.upper < z <= before.upper ==> !Admits(a, b, box, t, z, tolerance)))
            && (a[t] < 0.0 ==> v.upper == before.upper && v.lower >= before.lower && Admits(a, b, box, t, v.lower, tolerance)
                               && (before.lower <= z < v.lower ==> !Admits(a, b, box, t, z, tolerance)))
  {
    if a[t] != 0.0 {
      var (implied, v) := (Implied(b, tolerance, MinimumOther(a, box, t), a[t]), TightenedAt(a, b, box, t, tolerance));
      RoundedIsTightest(box[t].kind, a[t], implied, z);
      AdmittedBelowImplied(a, b, box, t, z, tolerance);
      AdmittedBelowImplied(a, b, box, t, if a[t] > 0.0 then v.upper else v.lower, tolerance);
    }
  }

  /** The bound of variable `t` that the row `a x <= b` can move. */
  ghost function FarEnd(a: Vector, box: Box, t: nat): real
    requires t < |a| == |box|
  {
    if a[t] > 0.0 then box[t].upper else box[t].lower
  }

  /** A row moves no bound exactly when it admits, for every variable in it, the bound it could move. */
  lemma {:induction false} SettledMeaning(a: Vector, b: real, box: Box, tolerance: real)
    requires |a| == |box| && IntegralBounds(box)
    ensures RowSettled(a, b, box, tolerance, |box|) <==>
              forall t: nat :: t < |box| && a[t] != 0.0 ==> Admits(a, b, box, t, FarEnd(a, box, t), tolerance)
  {
    forall t: nat | t < |box|
      ensures TightenedAt(a, b, box, t, tolerance) == box[t] <==> a[t] != 0.0 ==> Admits(a, b, box, t, FarEnd(a, box, t), tolerance)
    {
      TightenedIsTightest(a, b, box, t, tolerance, FarEnd(a, box, t));
    }
  }

  ghost predicate ConstraintSettled(c: GeneralLinearConstraint, box: Box, tolerance: real)
    requires |c.coefficients| == |box|
  {
    && (c.relation != GreaterOrEqual ==> RowSettled(c.coefficients, c.rhs, box, tolerance, |box|))
    && (c.relation != LessOrEqual ==> RowSettled(Negated(c.coefficients), -c.rhs, box, tolerance, |box|))
  }

  /** No row moves a bound of the box. */
  ghost predicate Settled(rows: seq<GeneralLinearConstraint>, box: Box, tolerance: real, k: nat)
    requires Widths(rows, |box|) && k <= |rows|
  {
    forall i :: 0 <= i < k ==> ConstraintSettled(rows[i], box, tolerance)
  }

  lemma {:induction false} NextTargetAdvances(a: Vector, b: real, s: Sweep, r: Sweep, target: nat, tolerance: real)
    requires target < |a| == |s.box| && Advances(s, r) && (r.box == s.box ==> RowSettled(a, b, s.box, tolerance, target))
    ensures var t := TargetStep(a, b, r, target, tolerance);
            Advances(s, t) && (t.box == s.box ==> RowSettled(a, b, s.box, tolerance, target + 1))
  {
    TargetStepAdvances(a, b, r, target, tolerance);
    AdvancesCompose(s, r, TargetStep(a, b, r, target, tolerance));
  }

  lemma {:induction false} TargetsAdvance(a: Vector, b: real, s: Sweep, tolerance: real, n: nat)
    requires n <= |a| == |s.box|
    ensures Advances(s, SweptTargets(a, b, s, tolerance, n))
    ensures SweptTargets(a, b, s, tolerance, n).box == s.box ==> RowSettled(a, b, s.box, tolerance, n)
  {
    if n > 0 {
      TargetsAdvance(a, b, s, tolerance, n - 1);
      NextTargetAdvances(a, b, s, SweptTargets(a, b, s, tolerance, n - 1), n - 1, tolerance);
    }
  }

  lemma {:induction false} BothDirectionsAdvance(a: Vector, b: real, s: Sweep, r: Sweep, t: Sweep, tolerance: real)
    requires |a| == |s.box| && r == SweptTargets(a, b, s, tolerance, |a|) && t == SweptTargets(Negated(a), -b, r, tolerance, |a|)
    ensures Advances(s, t)
    ensures t.box == s.box ==> RowSettled(a, b, s.box, tolerance, |a|) && RowSettled(Negated(a), -b, s.box, tolerance, |a|)
  {
    TargetsAdvance(a, b, s, tolerance, |a|);
    TargetsAdvance(Negated(a), -b, r, tolerance, |a|);
    AdvancesCompose(s, r, t);
  }

  lemma {:induction false} ConstraintAdvances(c: GeneralLinearConstraint, s: Sweep, tolerance: real)
    requires |c.coefficients| == |s.box|
    ensures Advances(s, SweptConstraint(c, s, tolerance))
    ensures SweptConstraint(c, s, tolerance).box == s.box ==> ConstraintSettled(c, s.box, tolerance)
  {
    match c.relation {
      case LessOrEqual => TargetsAdvance(c.coefficients, c.rhs, s, tolerance, |s.box|);
      case GreaterOrEqual => TargetsAdvance(Negated(c.coefficients), -c.rhs, s, tolerance, |s.box|);
      case Equal =>
        BothDirectionsAdvance(c.coefficients, c.rhs, s, SweptTargets(c.coefficients, c.rhs, s, tolerance, |s.box|),
                              SweptConstraint(c, s, tolerance), tolerance);
    }
  }

  lemma {:induction false} NextRowAdvances(rows: seq<GeneralLinearConstraint>, s: Sweep, r: Sweep, t: Sweep, tolerance: real, k: nat)
    requires Widths(rows, |s.box|) && k < |rows| && Advances(s, r) && (r.box == s.box ==> Settled(rows, s.box, tolerance, k))
    requires t == SweptConstraint(rows[k], r, tolerance)
    ensures Advances(s, t) && (t.box == s.box ==> Settled(rows, s.box, tolerance, k + 1))
  {
    ConstraintAdvances(rows[k], r, tolerance);
    AdvancesCompose(s, r, t);
  }

  /** A sweep that changes nothing finds every row settled. */
  lemma {:induction false} RowsAdvance(rows: seq<GeneralLinearConstraint>, s: Sweep, tolerance: real, k: nat)
    requires Widths(rows, |s.box|) && k <= |rows|
    ensures Advances(s, SweptRows(rows, s, tolerance, k))
    ensures SweptRows(rows, s, tolerance, k).box == s.box ==> Settled(rows, s.box, tolerance, k)
  {
    if k > 0 {
      var r := SweptRows(rows, s, tolerance, k - 1);
      RowsAdvance(rows, s, tolerance, k - 1);
      NextRowAdvances(rows, s, r, SweptConstraint(rows[k - 1], r, tolerance), tolerance, k - 1);
    }
  }

  lemma {:induction false} PassesAdvance(rows: seq<GeneralLinearConstraint>, s: Sweep, tolerance: real, p: nat)
    requires Widths(rows, |s.box|)
    ensures Advances(s, SweptPasses(rows, s, tolerance, p))
  {
    if p > 0 {
      var r := SweptPasses(rows, s, tolerance, p - 1);
      PassesAdvance(rows, s, tolerance, p - 1);
      RowsAdvance(rows, r, tolerance, |rows|);
      AdvancesCompose(s, r, SweptRows(rows, r, tolerance, |rows|));
    }
  }

  /** Tightens every variable from one row `a x <= b`, in order, each from the bounds reached so far. */
  method TightenLessOrEqual(ghost rows: seq<GeneralLinearConstraint>, ghost original: Box, a: Vector, b: real,
                            variables: array<MixedVariable>, tolerance: real, counted: nat) returns (tightened: nat)
    requires Widths(rows, |original|) && |a| == |original| == variables.Length
    requires Presolved(rows, original, variables[..], tolerance) && RowImplied(rows, original, a, b, tolerance)
    modifies variables
    ensures Presolved(rows, original, variables[..], tolerance)
    ensures Sweep(variables[..], tightened) == SweptTargets(a, b, Sweep(old(variables[..]), counted), tolerance, |a|)
  {
    tightened := counted;
    ghost var start := Sweep(variables[..], counted);
    for target := 0 to |a|
      invariant Presolved(rows, original, variables[..], tolerance)
      invariant Sweep(variables[..], tightened) == SweptTargets(a, b, start, tolerance, target)
    {
      var moved := TightenTarget(rows, original, a, b, variables, tolerance, target);
      if moved { tightened := tightened + 1; }
    }
  }

  /** Tightens one variable from one row. */
  method TightenTarget(ghost rows: seq<GeneralLinearConstraint>, ghost original: Box, a: Vector, b: real,
                       variables: array<MixedVariable>, tolerance: real, target: nat) returns (moved: bool)
    requires Widths(rows, |original|) && |a| == |original| == variables.Length && target < |a|
    requires Presolved(rows, original, variables[..], tolerance) && RowImplied(rows, original, a, b, tolerance)
    modifies variables
    ensures Presolved(rows, original, variables[..], tolerance)
    ensures var v := TightenedAt(a, b, old(variables[..]), target, tolerance);
            variables[..] == old(variables[..])[target := v] && (moved <==> v != old(variables[target]))
  {
    ghost var box := variables[..];
    var coefficient := a[target];
    if coefficient == 0.0 {
      assert box[target := box[target]] == box;
      return false;
    }
    var minimumOther := ComputeMinimumOther(a, variables, target);
    var implied := Implied(b, tolerance, minimumOther, coefficient);
    var v := Tightened(variables[target], coefficient, Rounded(variables[target].kind, coefficient, implied));
    TightenStep(rows, original, box, a, b, target, tolerance, v);
    moved := v != variables[target];
    variables[target] := v;
    assert variables[..] == box[target := v];
  }

  lemma {:induction false} ConstraintImpliesRows(rows: seq<GeneralLinearConstraint>, original: Box, k: nat, tolerance: real)
    requires Widths(rows, |original|) && k < |rows|
    ensures rows[k].relation != GreaterOrEqual ==> RowImplied(rows, original, rows[k].coefficients, rows[k].rhs, tolerance)
    ensures rows[k].relation != LessOrEqual ==> RowImplied(rows, original, Negated(rows[k].coefficients), -rows[k].rhs, tolerance)
  {
    forall x | Point(rows, original, x, tolerance)
      ensures RowHolds(rows[k], x, tolerance) && Dot(Negated(rows[k].coefficients), x) == -Dot(rows[k].coefficients, x)
    {
      NegatedDot(rows[k].coefficients, x);
    }
  }

  method TightenFromConstraint(rows: seq<GeneralLinearConstraint>, ghost original: Box, k: nat,
                               variables: array<MixedVariable>, tolerance: real, counted: nat) returns (tightened: nat)
    requires Widths(rows, |original|) && k < |rows| && variables.Length == |original|
    requires Presolved(rows, original, variables[..], tolerance)
    modifies variables
    ensures Presolved(rows, original, variables[..], tolerance)
    ensures Sweep(variables[..], tightened) == SweptConstraint(rows[k], Sweep(old(variables[..]), counted), tolerance)
  {
    var c := rows[k];
    ConstraintImpliesRows(rows, original, k, tolerance);
    match c.relation {
      case LessOrEqual =>
        tightened := TightenLessOrEqual(rows, original, c.coefficients, c.rhs, variables, tolerance, counted);
      case GreaterOrEqual =>
        tightened := TightenLessOrEqual(rows, original, Negated(c.coefficients), -c.rhs, variables, tolerance, counted);
      case Equal =>
        tightened := TightenLessOrEqual(rows, original, c.coefficients, c.rhs, variables, tolerance, counted);
        tightened := TightenLessOrEqual(rows, original, Negated(c.coefficients), -c.rhs, variables, tolerance, tightened);
    }
  }

  lemma {:induction false} InfeasibleRowExcludesPoints(rows: seq<GeneralLinearConstraint>, original: Box, box: Box, k: nat, tolerance: real)
    requires Widths(rows, |original|) && k < |rows| && Presolved(rows, original, box, tolerance)
    requires var a := rows[k].coefficients;
             RowInfeasible(rows[k].relation, SumTo(LowTerms(a, box), |a|), SumTo(HighTerms(a, box), |a|), rows[k].rhs, tolerance)
    ensures NoPoint(rows, original, tolerance)
  {
    forall x | InBox(box, x) ensures !RowHolds(rows[k], x, tolerance) {
      RowVerdicts(rows[k], box, x, tolerance);
    }
    forall x ensures !Point(rows, original, x, tolerance) {
      assert InBox(box, x) ==> !RowHolds(rows[k], x, tolerance);
    }
  }

  /** Checks and tightens row by row, each row seeing the bounds the earlier rows produced. */
  /** Row `k` is infeasible when its turn comes. */
  ghost predicate FailsAtRow(rows: seq<GeneralLinearConstraint>, s: Sweep, tolerance: real, k: nat)
    requires Widths(rows, |s.box|) && k < |rows|
  {
    ReportedInfeasible(rows[k], SweptRows(rows, s, tolerance, k).box, tolerance)
  }

  ghost predicate RowsFail(rows: seq<GeneralLinearConstraint>, s: Sweep, tolerance: real)
    requires Widths(rows, |s.box|)
  {
    exists k: nat :: k < |rows| && FailsAtRow(rows, s, tolerance, k)
  }

  /** Checks a row and tightens from it. */
  method SweepRow(rows: seq<GeneralLinearConstraint>, ghost original: Box, k: nat, variables: array<MixedVariable>, tolerance: real,
                  counted: nat, ghost start: Sweep) returns (feasible: bool, tightened: nat)
    requires Widths(rows, |original|) && k < |rows| && variables.Length == |original| == |start.box|
    requires Presolved(rows, original, variables[..], tolerance)
    requires Sweep(variables[..], counted) == SweptRows(rows, start, tolerance, k)
    modifies variables
    ensures feasible <==> !FailsAtRow(rows, start, tolerance, k)
    ensures !feasible ==> NoPoint(rows, original, tolerance)
    ensures feasible ==> Presolved(rows, original, variables[..], tolerance)
    ensures feasible ==> Sweep(variables[..], tightened) == SweptRows(rows, start, tolerance, k + 1)
  {
    var minimum, maximum := RowInterval(rows[k], variables);
    if RowInfeasible(rows[k].relation, minimum, maximum, rows[k].rhs, tolerance) {
      InfeasibleRowExcludesPoints(rows, original, variables[..], k, tolerance);
      return false, counted;
    }
    feasible := true;
    tightened := TightenFromConstraint(rows, original, k, variables, tolerance, counted);
  }

  method SweepRows(rows: seq<GeneralLinearConstraint>, ghost original: Box, variables: array<MixedVariable>, tolerance: real, counted: nat)
    returns (feasible: bool, tightened: nat)
    requires Widths(rows, |original|) && variables.Length == |original| && Presolved(rows, original, variables[..], tolerance)
    modifies variables
    ensures feasible <==> !RowsFail(rows, Sweep(old(variables[..]), counted), tolerance)
    ensures !feasible ==> NoPoint(rows, original, tolerance)
    ensures feasible ==> Presolved(rows, original, variables[..], tolerance)
    ensures feasible ==> Sweep(variables[..], tightened) == SweptRows(rows, Sweep(old(variables[..]), counted), tolerance, |rows|)
  {
    tightened := counted;
    ghost var start := Sweep(variables[..], counted);
    for k := 0 to |rows|
      invariant Presolved(rows, original, variables[..], tolerance)
      invariant Sweep(variables[..], tightened) == SweptRows(rows, start, tolerance, k)
      invariant forall i: nat :: i < k ==> !FailsAtRow(rows, start, tolerance, i)
    {
      feasible, tightened := SweepRow(rows, original, k, variables, tolerance, tightened, start);
      if !feasible {
        return;
      }
    }
    feasible := true;
  }

  /** Integer bounds stay within the exactly representable range. */
  predicate OutOfExactRange(v: MixedVariable) {
    v.kind == Integer && (!Integral(v.lower) || !Integral(v.upper)
      || AbsReal(v.lower) > MAX_EXACT_INTEGER || AbsReal(v.upper) > MAX_EXACT_INTEGER)
  }

  ghost predicate AllValid(box: Box) {
    forall j :: 0 <= j < |box| ==> ValidVariable(box[j])
  }

  /** Bounds that started in the exactly representable range leave it only by crossing each other, by a whole unit. */
  lemma {:induction false} LeavingRangeMeansCrossed(before: MixedVariable, v: MixedVariable)
    requires ValidVariable(before) && NarrowedTo(before, v) && OutOfExactRange(v)
    requires Integral(v.lower) && Integral(v.upper)
    ensures v.lower >= v.upper + 1.0
  {
    assert MAX_EXACT_INTEGER == 9007199254740992 as real;
    if v.lower > MAX_EXACT_INTEGER {
      assert v.lower.Floor > 9007199254740992;
    } else {
      assert v.upper < -MAX_EXACT_INTEGER;
      assert v.upper.Floor < -9007199254740992;
    }
  }

  lemma {:induction false} CrossedMeansNoPoint(rows: seq<GeneralLinearConstraint>, original: Box, box: Box, tolerance: real, j: nat)
    requires Widths(rows, |original|) && Presolved(rows, original, box, tolerance) && j < |box| && box[j].lower > box[j].upper
    ensures NoPoint(rows, original, tolerance)
  {
    forall x ensures !Point(rows, original, x, tolerance) {
      assert |x| == |box| ==> !InRange(box[j], x[j]);
    }
  }

  /** Every complaint means that there is no point; a range complaint needs a tolerance of at least one. */
  ghost predicate Refuted(rows: seq<GeneralLinearConstraint>, original: Box, tolerance: real, e: MixedIntegerPresolveError)
    requires Widths(rows, |original|)
  {
    NoPoint(rows, original, tolerance) && (e == Infeasible || (e.InvalidBounds? && e.variable < |original| && tolerance >= 1.0))
  }

  /** Bounds cross by no more than the tolerance, and integer bounds are in the exact range. */
  ghost predicate SoundBounds(box: Box, tolerance: real) {
    forall j :: 0 <= j < |box| ==> box[j].lower <= box[j].upper + tolerance && !OutOfExactRange(box[j])
  }

  ghost predicate FirstUnsound(box: Box, tolerance: real, j: nat) {
    && j < |box| && (box[j].lower > box[j].upper + tolerance || OutOfExactRange(box[j]))
    && SoundBounds(box[..j], tolerance)
  }

  /** The complaint about the first unsound bounds, if any. */
  ghost predicate BoundsError(box: Box, tolerance: real, e: Option<MixedIntegerPresolveError>) {
    if e == None then SoundBounds(box, tolerance)
    else exists j: nat :: FirstUnsound(box, tolerance, j) &&
           e == Some(if box[j].lower > box[j].upper + tolerance then Infeasible else InvalidBounds(j))
  }

  method CheckBounds(ghost rows: seq<GeneralLinearConstraint>, ghost original: Box, variables: array<MixedVariable>, tolerance: real)
    returns (e: Option<MixedIntegerPresolveError>)
    requires Widths(rows, |original|) && tolerance > 0.0 && AllValid(original) && Presolved(rows, original, variables[..], tolerance)
    ensures e.Some? ==> Refuted(rows, original, tolerance, e.value)
    ensures BoundsError(variables[..], tolerance, e)
  {
    for j := 0 to variables.Length
      invariant forall i :: 0 <= i < j ==> variables[i].lower <= variables[i].upper + tolerance && !OutOfExactRange(variables[i])
    {
      ghost var box := variables[..];
      if variables[j].lower > variables[j].upper + tolerance {
        CrossedMeansNoPoint(rows, original, box, tolerance, j);
        assert FirstUnsound(box, tolerance, j);
        return Some(Infeasible);
      }
      if OutOfExactRange(variables[j]) {
        assert NarrowedTo(original[j], box[j]) && Integral(box[j].lower) && Integral(box[j].upper);
        LeavingRangeMeansCrossed(original[j], box[j]);
        CrossedMeansNoPoint(rows, original, box, tolerance, j);
        assert FirstUnsound(box, tolerance, j);
        return Some(InvalidBounds(j));
      }
    }
    return None;
  }

  /** Pass number `p` finds no infeasible row and leaves sound bounds. */
  ghost predicate PassSucceeds(rows: seq<GeneralLinearConstraint>, s: Sweep, tolerance: real, p: nat)
    requires Widths(rows, |s.box|)
  {
    && !RowsFail(rows, SweptPasses(rows, s, tolerance, p), tolerance)
    && SoundBounds(SweptPasses(rows, s, tolerance, p + 1).box, tolerance)
  }

  ghost predicate Unmoved(rows: seq<GeneralLinearConstraint>, s: Sweep, tolerance: real, p: nat)
    requires Widths(rows, |s.box|)
  {
    SweptPasses(rows, s, tolerance, p + 1).box == SweptPasses(rows, s, tolerance, p).box
  }

  /** The first `p` passes succeeded, and each moved a bound. */
  ghost predicate GoesOn(rows: seq<GeneralLinearConstraint>, s: Sweep, tolerance: real, p: nat)
    requires Widths(rows, |s.box|)
  {
    forall q: nat :: q < p ==> PassSucceeds(rows, s, tolerance, q) && !Unmoved(rows, s, tolerance, q)
  }

  /** All passes succeeded; the last one was the first to move no bound, or the last one allowed. */
  ghost predicate StoppedAt(rows: seq<GeneralLinearConstraint>, s: Sweep, config: MixedIntegerPresolveConfig, passes: nat)
    requires Widths(rows, |s.box|)
  {
    && 0 < passes <= config.maximumPasses && GoesOn(rows, s, config.tolerance, passes - 1)
    && PassSucceeds(rows, s, config.tolerance, passes - 1)
    && (passes < config.maximumPasses ==> Unmoved(rows, s, config.tolerance, passes - 1))
  }

  /** A pass fails at an infeasible row, or else at the first unsound bounds it leaves. */
  ghost predicate FailsIn(rows: seq<GeneralLinearConstraint>, s: Sweep, config: MixedIntegerPresolveConfig, p: nat, e: MixedIntegerPresolveError)
    requires Widths(rows, |s.box|)
  {
    && p < config.maximumPasses && GoesOn(rows, s, config.tolerance, p)
    && if RowsFail(rows, SweptPasses(rows, s, config.tolerance, p), config.tolerance) then e == Infeasible
       else BoundsError(SweptPasses(rows, s, config.tolerance, p + 1).box, config.tolerance, Some(e))
  }

  ghost predicate FailsSomewhere(rows: seq<GeneralLinearConstraint>, s: Sweep, config: MixedIntegerPresolveConfig, e: MixedIntegerPresolveError)
    requires Widths(rows, |s.box|)
  {
    exists p: nat :: FailsIn(rows, s, config, p, e)
  }

  /** The box and count after `p` passes, with the points of the original. */
  ghost predicate After(rows: seq<GeneralLinearConstraint>, original: Box, box: Box, moved: nat, tolerance: real, p: nat)
    requires Widths(rows, |original|)
  {
    Presolved(rows, original, box, tolerance) && Sweep(box, moved) == SweptPasses(rows, Sweep(original, 0), tolerance, p)
  }

  /** One pass: every row in turn, then the bounds. */
  method RunPass(rows: seq<GeneralLinearConstraint>, ghost original: Box, variables: array<MixedVariable>, config: MixedIntegerPresolveConfig,
                 counted: nat, ghost p: nat) returns (e: Option<MixedIntegerPresolveError>, tightened: nat)
    requires Widths(rows, |original|) && config.tolerance > 0.0 && AllValid(original) && p < config.maximumPasses
    requires After(rows, original, variables[..], counted, config.tolerance, p) && GoesOn(rows, Sweep(original, 0), config.tolerance, p)
    modifies variables
    ensures e.Some? ==> Refuted(rows, original, config.tolerance, e.value) && FailsSomewhere(rows, Sweep(original, 0), config, e.value)
    ensures e == None ==> After(rows, original, variables[..], tightened, config.tolerance, p + 1)
    ensures e == None ==>
              if variables[..] == old(variables[..]) then StoppedAt(rows, Sweep(original, 0), config, p + 1)
              else GoesOn(rows, Sweep(original, 0), config.tolerance, p + 1)
  {
    var feasible;
    feasible, tightened := SweepRows(rows, original, variables, config.tolerance, counted);
    if !feasible {
      assert FailsIn(rows, Sweep(original, 0), config, p, Infeasible);
      return Some(Infeasible), tightened;
    }
    e := CheckBounds(rows, original, variables, config.tolerance);
    if e.Some? {
      assert FailsIn(rows, Sweep(original, 0), config, p, e.value);
      return;
    }
    assert PassSucceeds(rows, Sweep(original, 0), config.tolerance, p);
    AfterPass(rows, Sweep(original, 0), config, p, old(variables[..]), variables[..]);
  }

  lemma {:induction false} AfterPass(rows: seq<GeneralLinearConstraint>, s: Sweep, config: MixedIntegerPresolveConfig, p: nat, before: Box, after: Box)
    requires Widths(rows, |s.box|) && p < config.maximumPasses && GoesOn(rows, s, config.tolerance, p)
    requires PassSucceeds(rows, s, config.tolerance, p)
    requires before == SweptPasses(rows, s, config.tolerance, p).box && after == SweptPasses(rows, s, config.tolerance, p + 1).box
    ensures if after == before then StoppedAt(rows, s, config, p + 1) else GoesOn(rows, s, config.tolerance, p + 1)
  {
  }

  lemma {:induction false} LastPassAllowed(rows: seq<GeneralLinearConstraint>, s: Sweep, config: MixedIntegerPresolveConfig)
    requires Widths(rows, |s.box|) && config.maximumPasses > 0 && GoesOn(rows, s, config.tolerance, config.maximumPasses)
    ensures StoppedAt(rows, s, config, config.maximumPasses)
  {
    var last: nat := config.maximumPasses - 1;
    assert PassSucceeds(rows, s, config.tolerance, last);
  }

  /** Passes over all rows until no bound moves or the pass budget is used up. */
  method RunPasses(rows: seq<GeneralLinearConstraint>, original: Box, variables: array<MixedVariable>, config: MixedIntegerPresolveConfig)
    returns (e: Option<MixedIntegerPresolveError>, passes: nat, tightened: nat)
    requires Widths(rows, |original|) && variables[..] == original && config.tolerance > 0.0 && AllValid(original)
    requires Presolved(rows, original, original, config.tolerance) && config.maximumPasses > 0
    modifies variables
    ensures e.Some? ==> Refuted(rows, original, config.tolerance, e.value)
    ensures e.Some? ==> FailsSomewhere(rows, Sweep(original, 0), config, e.value)
    ensures e == None ==> After(rows, original, variables[..], tightened, config.tolerance, passes)
    ensures e == None ==> StoppedAt(rows, Sweep(original, 0), config, passes)
  {
    passes, tightened := 0, 0;
    ghost var start, tolerance := Sweep(original, 0), config.tolerance;
    while passes < config.maximumPasses
      invariant After(rows, original, variables[..], tightened, tolerance, passes) && passes <= config.maximumPasses
      invariant GoesOn(rows, start, tolerance, passes)
      decreases config.maximumPasses - passes
    {
      var before := variables[..];
      e, tightened := RunPass(rows, original, variables, config, tightened, passes);
      passes := passes + 1;
      if e.Some? || variables[..] == before {
        return;
      }
    }
    LastPassAllowed(rows, start, config);
    e := None;
  }

  /** Passes that stopped early leave a box of which no row moves a bound. */
  lemma {:induction false} StoppedEarlyIsSettled(rows: seq<GeneralLinearConstraint>, s: Sweep, config: MixedIntegerPresolveConfig, passes: nat)
    requires Widths(rows, |s.box|) && StoppedAt(rows, s, config, passes) && passes < config.maximumPasses
    ensures Settled(rows, SweptPasses(rows, s, config.tolerance, passes).box, config.tolerance, |rows|)
  {
    SettledPass(rows, SweptPasses(rows, s, config.tolerance, passes - 1), SweptPasses(rows, s, config.tolerance, passes), config.tolerance);
  }

  lemma {:induction false} SettledPass(rows: seq<GeneralLinearConstraint>, s: Sweep, r: Sweep, tolerance: real)
    requires Widths(rows, |s.box|) && r == SweptRows(rows, s, tolerance, |rows|) && r.box == s.box
    ensures Settled(rows, r.box, tolerance, |rows|)
  {
    RowsAdvance(rows, s, tolerance, |rows|);
  }

  // ---- What the report says ----

  ghost predicate NonEmptyBox(box: Box) {
    forall j :: 0 <= j < |box| ==> box[j].lower <= box[j].upper
  }

  ghost predicate HoldsThroughout(c: GeneralLinearConstraint, box: Box, tolerance: real)
    requires |c.coefficients| == |box|
  {
    forall x :: InBox(box, x) ==> RowHolds(c, x, tolerance)
  }

  ghost predicate ReportedInfeasible(c: GeneralLinearConstraint, box: Box, tolerance: real)
    requires |c.coefficients| == |box|
  {
    RowInfeasible(c.relation, SumTo(LowTerms(c.coefficients, box), |box|), SumTo(HighTerms(c.coefficients, box), |box|), c.rhs, tolerance)
  }

  ghost predicate ReportedRedundant(c: GeneralLinearConstraint, box: Box, tolerance: real)
    requires |c.coefficients| == |box|
  {
    RowRedundant(c.relation, SumTo(LowTerms(c.coefficients, box), |box|), SumTo(HighTerms(c.coefficients, box), |box|), c.rhs, tolerance)
  }

  /** The two corners of the box at which a row takes its least and greatest value. */
  lemma {:induction false} CornersAttain(a: Vector, box: Box)
    requires |a| == |box| && NonEmptyBox(box)
    ensures WithinBounds(box, LowCorner(a, box)) && WithinBounds(box, HighCorner(a, box))
    ensures IntegralBounds(box) ==> InBox(box, LowCorner(a, box)) && InBox(box, HighCorner(a, box))
    ensures Dot(a, LowCorner(a, box)) == SumTo(LowTerms(a, box), |a|) && Dot(a, HighCorner(a, box)) == SumTo(HighTerms(a, box), |a|)
  {
    SumAgrees(Products(a, LowCorner(a, box)), LowTerms(a, box), |a|);
    SumAgrees(Products(a, HighCorner(a, box)), HighTerms(a, box), |a|);
  }

  /** Some point between the bounds, whole or not, satisfies the row within tolerance. */
  ghost predicate MetWithin(c: GeneralLinearConstraint, box: Box, tolerance: real)
    requires |c.coefficients| == |box|
  {
    exists x :: WithinBounds(box, x) && RowHolds(c, x, tolerance)
  }

  /** In a non-empty box a row is infeasible exactly when no point between the bounds satisfies it. */
  lemma {:induction false} InfeasibilityIsExact(c: GeneralLinearConstraint, box: Box, tolerance: real)
    requires |c.coefficients| == |box| && NonEmptyBox(box) && tolerance >= 0.0
    ensures ReportedInfeasible(c, box, tolerance) <==> !MetWithin(c, box, tolerance)
  {
    var a := c.coefficients;
    forall x | WithinBounds(box, x) && ReportedInfeasible(c, box, tolerance) ensures !RowHolds(c, x, tolerance) {
      RowVerdicts(c, box, x, tolerance);
    }
    if !ReportedInfeasible(c, box, tolerance) {
      var (x, y) := (LowCorner(a, box), HighCorner(a, box));
      CornersAttain(a, box);
      match c.relation {
        case LessOrEqual => assert RowHolds(c, x, tolerance);
        case GreaterOrEqual => assert RowHolds(c, y, tolerance);
        case Equal =>
          BoundsBox(box, x);
          BoundsBox(box, y);
          var z := MeetsBetween(a, x, y, c.rhs - tolerance, c.rhs + tolerance, Lowers(box), Uppers(box));
          BoundsBox(box, z);
          assert RowHolds(c, z, tolerance);
      }
    }
  }

  ghost function Lowers(box: Box): (r: Vector)
    ensures |r| == |box| && forall j :: 0 <= j < |r| ==> r[j] == box[j].lower
  {
    seq(|box|, j requires 0 <= j < |box| => box[j].lower)
  }

  ghost function Uppers(box: Box): (r: Vector)
    ensures |r| == |box| && forall j :: 0 <= j < |r| ==> r[j] == box[j].upper
  {
    seq(|box|, j requires 0 <= j < |box| => box[j].upper)
  }

  lemma {:induction false} BoundsBox(box: Box, x: Vector)
    ensures WithinBounds(box, x) <==> Boxed(Lowers(box), x, Uppers(box))
  {
    if Boxed(Lowers(box), x, Uppers(box)) {
      forall j | 0 <= j < |x| ensures box[j].lower <= x[j] <= box[j].upper {
        assert Lowers(box)[j] <= x[j] <= Uppers(box)[j];
      }
    }
  }

  // ---- What an unmoved box means ----

  /** The box with variable `t` fixed to `y`. */
  ghost function Pinned(box: Box, t: nat, y: real): (r: Box)
    requires t < |box|
    ensures |r| == |box|
  {
    box[t := box[t].(lower := y, upper := y)]
  }

  /** Each bound of variable `t` belongs to a point between the bounds that satisfies the row within tolerance. */
  ghost predicate BothEndsMet(c: GeneralLinearConstraint, box: Box, t: nat, tolerance: real)
    requires t < |c.coefficients| == |box|
  {
    MetWithin(c, Pinned(box, t, box[t].lower), tolerance) && MetWithin(c, Pinned(box, t, box[t].upper), tolerance)
  }

  lemma {:induction false} PinnedLow(a: Vector, box: Box, t: nat, y: real)
    requires t < |a| == |box|
    ensures SumTo(LowTerms(a, Pinned(box, t, y)), |a|) == Dot(a, LowCorner(a, box)[t := y])
  {
    SumAgrees(LowTerms(a, Pinned(box, t, y)), Products(a, LowCorner(a, box)[t := y]), |a|);
  }

  lemma {:induction false} NegatedTerms(a: Vector, box: Box)
    requires |a| == |box|
    ensures forall j :: 0 <= j < |a| ==> LowTerms(Negated(a), box)[j] == -HighTerms(a, box)[j]
  {
    forall j | 0 <= j < |a| ensures LowTerms(Negated(a), box)[j] == -HighTerms(a, box)[j] {
      NegatedProduct(a[j], box[j].lower);
      NegatedProduct(a[j], box[j].upper);
    }
  }

  lemma {:induction false} PinnedHigh(a: Vector, box: Box, t: nat, y: real)
    requires t < |a| == |box|
    ensures SumTo(HighTerms(a, Pinned(box, t, y)), |a|) == -Dot(Negated(a), LowCorner(Negated(a), box)[t := y])
  {
    PinnedLow(Negated(a), box, t, y);
    NegatedTerms(a, Pinned(box, t, y));
    SumNegated(LowTerms(Negated(a), Pinned(box, t, y)), HighTerms(a, Pinned(box, t, y)), |a|);
  }


  /** An end of a variable is met exactly when the directions of the row admit it. */
  lemma {:induction false} EndIsMet(c: GeneralLinearConstraint, box: Box, t: nat, y: real, tolerance: real)
    requires t < |c.coefficients| == |box| && NonEmptyBox(box) && tolerance >= 0.0
    ensures MetWithin(c, Pinned(box, t, y), tolerance) <==>
              && (c.relation != GreaterOrEqual ==> Admits(c.coefficients, c.rhs, box, t, y, tolerance))
              && (c.relation != LessOrEqual ==> Admits(Negated(c.coefficients), -c.rhs, box, t, y, tolerance))
  {
    PinnedLow(c.coefficients, box, t, y);
    PinnedHigh(c.coefficients, box, t, y);
    InfeasibilityIsExact(c, Pinned(box, t, y), tolerance);
  }

  /** The bound that a row can move is the less favourable one. */
  lemma {:induction false} NearEndIsAdmitted(a: Vector, b: real, box: Box, t: nat, tolerance: real)
    requires t < |a| == |box| && a[t] != 0.0 && box[t].lower <= box[t].upper
    ensures Admits(a, b, box, t, FarEnd(a, box, t), tolerance) <==>
              Admits(a, b, box, t, box[t].lower, tolerance) && Admits(a, b, box, t, box[t].upper, tolerance)
  {
    AdmittedBelowImplied(a, b, box, t, box[t].lower, tolerance);
    AdmittedBelowImplied(a, b, box, t, box[t].upper, tolerance);
  }

  /** A row moves no bound of a non-empty box exactly when each end of each of its variables belongs to a point between the
      bounds that satisfies the row within tolerance. */
  lemma {:induction false} SettledIsBoundsConsistent(c: GeneralLinearConstraint, box: Box, tolerance: real)
    requires |c.coefficients| == |box| && NonEmptyBox(box) && IntegralBounds(box) && tolerance >= 0.0
    ensures ConstraintSettled(c, box, tolerance) <==>
              forall t: nat :: t < |box| && c.coefficients[t] != 0.0 ==> BothEndsMet(c, box, t, tolerance)
  {
    var a := c.coefficients;
    SettledMeaning(a, c.rhs, box, tolerance);
    SettledMeaning(Negated(a), -c.rhs, box, tolerance);
    forall t: nat | t < |box| && a[t] != 0.0
      ensures BothEndsMet(c, box, t, tolerance) <==>
                && (c.relation != GreaterOrEqual ==> Admits(a, c.rhs, box, t, FarEnd(a, box, t), tolerance))
                && (c.relation != LessOrEqual ==> Admits(Negated(a), -c.rhs, box, t, FarEnd(Negated(a), box, t), tolerance))
    {
      EndIsMet(c, box, t, box[t].lower, tolerance);
      EndIsMet(c, box, t, box[t].upper, tolerance);
      NearEndIsAdmitted(a, c.rhs, box, t, tolerance);
      NearEndIsAdmitted(Negated(a), -c.rhs, box, t, tolerance);
    }
  }

  /** A reported row holds in the whole final box, and in a non-empty box every such row is reported. */
  lemma {:induction false} RedundancyIsExact(c: GeneralLinearConstraint, box: Box, tolerance: real)
    requires |c.coefficients| == |box| && IntegralBounds(box)
    ensures ReportedRedundant(c, box, tolerance) ==> HoldsThroughout(c, box, tolerance)
    ensures NonEmptyBox(box) && HoldsThroughout(c, box, tolerance) ==> ReportedRedundant(c, box, tolerance)
  {
    forall x | InBox(box, x) && ReportedRedundant(c, box, tolerance) ensures RowHolds(c, x, tolerance) {
      assert forall j :: 0 <= j < |x| ==> InRange(box[j], x[j]);
      RowVerdicts(c, box, x, tolerance);
    }
    if NonEmptyBox(box) && HoldsThroughout(c, box, tolerance) {
      CornersAttain(c.coefficients, box);
      assert RowHolds(c, LowCorner(c.coefficients, box), tolerance) && RowHolds(c, HighCorner(c.coefficients, box), tolerance);
    }
  }

  predicate IsFixed(v: MixedVariable, tolerance: real) {
    if v.kind == Integer then v.lower == v.upper else AbsReal(v.upper - v.lower) <= tolerance
  }

  /** A variable is reported fixed exactly when any two values it can take agree: exactly for integers, within tolerance otherwise. */
  lemma {:induction false} FixedIsExact(v: MixedVariable, tolerance: real)
    requires v.lower <= v.upper && (v.kind == Integer ==> Integral(v.lower) && Integral(v.upper))
    ensures IsFixed(v, tolerance) <==>
              forall x, y :: InRange(v, x) && InRange(v, y) ==> if v.kind == Integer then x == y else AbsReal(x - y) <= tolerance
  {
    assert InRange(v, v.lower) && InRange(v, v.upper);
  }

  method RedundantRows(rows: seq<GeneralLinearConstraint>, ghost original: Box, variables: array<MixedVariable>, tolerance: real)
    returns (feasible: bool, redundant: seq<nat>)
    requires Widths(rows, |original|) && variables.Length == |original| && Presolved(rows, original, variables[..], tolerance)
    ensures !feasible ==> NoPoint(rows, original, tolerance)
    ensures feasible <==> !SomeInfeasible(rows, variables[..], tolerance)
    ensures feasible ==> forall k: nat :: k in redundant <==> k < |rows| && ReportedRedundant(rows[k], variables[..], tolerance)
    ensures Sorting.StrictlySorted(redundant)
  {
    redundant := [];
    for k := 0 to |rows|
      invariant Sorting.StrictlySorted(redundant) && forall i :: 0 <= i < |redundant| ==> redundant[i] < k
      invariant forall i: nat :: i in redundant <==> i < k && ReportedRedundant(rows[i], variables[..], tolerance)
      invariant forall i :: 0 <= i < k ==> !ReportedInfeasible(rows[i], variables[..], tolerance)
    {
      var minimum, maximum := RowInterval(rows[k], variables);
      if RowInfeasible(rows[k].relation, minimum, maximum, rows[k].rhs, tolerance) {
        InfeasibleRowExcludesPoints(rows, original, variables[..], k, tolerance);
        assert ReportedInfeasible(rows[k], variables[..], tolerance);
        return false, redundant;
      }
      if RowRedundant(rows[k].relation, minimum, maximum, rows[k].rhs, tolerance) {
        redundant := redundant + [k];
      }
    }
    feasible := true;
  }

  method FixedVariables(variables: array<MixedVariable>, tolerance: real) returns (fixed: seq<nat>)
    ensures forall j: nat :: j in fixed <==> j < variables.Length && IsFixed(variables[j], tolerance)
    ensures Sorting.StrictlySorted(fixed)
  {
    fixed := [];
    for j := 0 to variables.Length
      invariant Sorting.StrictlySorted(fixed) && forall i :: 0 <= i < |fixed| ==> fixed[i] < j
      invariant forall i: nat :: i in fixed <==> i < j && IsFixed(variables[i], tolerance)
    {
      if IsFixed(variables[j], tolerance) {
        fixed := fixed + [j];
      }
    }
  }

  predicate ValidVariable(v: MixedVariable) {
    v.lower <= v.upper && !OutOfExactRange(v)
  }

  ghost predicate ValidInput(problem: MixedIntegerProblem, config: MixedIntegerPresolveConfig) {
    && problem.variables != [] && config.maximumPasses > 0 && config.tolerance > 0.0
    && AllValid(problem.variables)
    && Widths(problem.constraints, |problem.variables|)
  }

  ghost predicate FirstInvalid(box: Box, j: nat) {
    && j < |box| && !ValidVariable(box[j])
    && forall i :: 0 <= i < j ==> ValidVariable(box[i])
  }

  ghost predicate IsWhole(x: real, n: int) {
    x == n as real
  }

  /** A valid variable has ordered bounds, and whole ones of size at most 2^53 if it is an integer. */
  lemma {:induction false} ValidVariableMeaning(v: MixedVariable)
    ensures ValidVariable(v) <==>
              && v.lower <= v.upper
              && (v.kind == Integer ==> exists l, u :: IsWhole(v.lower, l) && IsWhole(v.upper, u) && -9007199254740992 <= l && u <= 9007199254740992)
  {
    if ValidVariable(v) && v.kind == Integer {
      assert IsWhole(v.lower, v.lower.Floor) && IsWhole(v.upper, v.upper.Floor);
    }
  }

  /** The checks in order: size, pass budget, tolerance, variables, widths. */
  ghost predicate ValidationOutcome(problem: MixedIntegerProblem, config: MixedIntegerPresolveConfig, e: Option<MixedIntegerPresolveError>) {
    if problem.variables == [] then e == Some(EmptyProblem)
    else if config.maximumPasses == 0 then e == Some(InvalidPassBudget)
    else if config.tolerance <= 0.0 then e == Some(InvalidTolerance)
    else if !AllValid(problem.variables) then exists j: nat :: FirstInvalid(problem.variables, j) && e == Some(InvalidBounds(j))
    else if !Widths(problem.constraints, |problem.variables|) then e == Some(ConstraintWidthMismatch)
    else e == None
  }

  method Validate(problem: MixedIntegerProblem, config: MixedIntegerPresolveConfig) returns (e: Option<MixedIntegerPresolveError>)
    ensures (e == None <==> ValidInput(problem, config)) && ValidationOutcome(problem, config, e)
  {
    if problem.variables == [] {
      return Some(EmptyProblem);
    }
    if config.maximumPasses == 0 {
      return Some(InvalidPassBudget);
    }
    if config.tolerance <= 0.0 {
      return Some(InvalidTolerance);
    }
    for j := 0 to |problem.variables|
      invariant forall i :: 0 <= i < j ==> ValidVariable(problem.variables[i])
    {
      if !ValidVariable(problem.variables[j]) {
        assert FirstInvalid(problem.variables, j);
        return Some(InvalidBounds(j));
      }
    }
    for k := 0 to |problem.constraints|
      invariant forall i :: 0 <= i < k ==> |problem.constraints[i].coefficients| == |problem.variables|
    {
      if |problem.constraints[k].coefficients| != |problem.variables| {
        return Some(ConstraintWidthMismatch);
      }
    }
    return None;
  }

  /** Only bounds changed and exactly the same points remain. The box is the one the reported number of passes produces,
      with every moved bound counted, and no row moves a bound of it if the passes stopped early. The report lists,
      in order, what the final box implies. */
  ghost predicate ReportHolds(problem: MixedIntegerProblem, config: MixedIntegerPresolveConfig, report: MixedIntegerPresolveReport)
    requires ValidInput(problem, config)
  {
    var (rows, box, start) := (problem.constraints, report.problem.variables, Sweep(problem.variables, 0));
    && report.problem == problem.(variables := box)
    && Presolved(rows, problem.variables, box, config.tolerance)
    && Sweep(box, report.tightenedBounds) == SweptPasses(rows, start, config.tolerance, report.passes)
    && StoppedAt(rows, start, config, report.passes)
    && !SomeInfeasible(rows, box, config.tolerance)
    && (forall k: nat :: k in report.redundantConstraints <==> k < |rows| && ReportedRedundant(rows[k], box, config.tolerance))
    && (forall j: nat :: j in report.fixedVariables <==> j < |box| && IsFixed(box[j], config.tolerance))
    && Sorting.StrictlySorted(report.redundantConstraints) && Sorting.StrictlySorted(report.fixedVariables)
  }

  /** The report without the sweep: every row of a non-empty final box can be met, and if the passes stopped early, both ends
      of every variable of a row belong to points that meet it. */
  lemma {:induction false} ReportMeaning(problem: MixedIntegerProblem, config: MixedIntegerPresolveConfig, report: MixedIntegerPresolveReport)
    requires ValidInput(problem, config) && ReportHolds(problem, config, report)
    ensures var (rows, box) := (problem.constraints, report.problem.variables);
            && (report.tightenedBounds == 0 <==> box == problem.variables)
            && (NonEmptyBox(box) ==> forall k :: 0 <= k < |rows| ==> MetWithin(rows[k], box, config.tolerance))
            && (NonEmptyBox(box) && report.passes < config.maximumPasses ==>
                  forall k, t: nat :: 0 <= k < |rows| && t < |box| && rows[k].coefficients[t] != 0.0 ==>
                    BothEndsMet(rows[k], box, t, config.tolerance))
  {
    var (rows, box) := (problem.constraints, report.problem.variables);
    PassesAdvance(rows, Sweep(problem.variables, 0), config.tolerance, report.passes);
    if NonEmptyBox(box) {
      forall k | 0 <= k < |rows| ensures MetWithin(rows[k], box, config.tolerance) {
        InfeasibilityIsExact(rows[k], box, config.tolerance);
      }
      if report.passes < config.maximumPasses {
        StoppedEarlyIsSettled(rows, Sweep(problem.variables, 0), config, report.passes);
        forall k, t: nat | 0 <= k < |rows| && t < |box| && rows[k].coefficients[t] != 0.0
          ensures BothEndsMet(rows[k], box, t, config.tolerance)
        {
          assert ConstraintSettled(rows[k], box, config.tolerance);
          SettledIsBoundsConsistent(rows[k], box, config.tolerance);
        }
      }
    }
  }


  /** The complaint comes from the first pass that fails, or after the last pass from a row of its box that is infeasible. */
  ghost predicate Complains(problem: MixedIntegerProblem, config: MixedIntegerPresolveConfig, e: MixedIntegerPresolveError)
    requires ValidInput(problem, config)
  {
    var (rows, start) := (problem.constraints, Sweep(problem.variables, 0));
    || FailsSomewhere(rows, start, config, e)
    || (e == Infeasible && exists p: nat :: StoppedAt(rows, start, config, p) && SomeInfeasible(rows, SweptPasses(rows, start, config.tolerance, p).box, config.tolerance))
  }

  ghost predicate SomeInfeasible(rows: seq<GeneralLinearConstraint>, box: Box, tolerance: real)
    requires Widths(rows, |box|)
  {
    exists k :: 0 <= k < |rows| && ReportedInfeasible(rows[k], box, tolerance)
  }

  ghost predicate PresolveOutcome(problem: MixedIntegerProblem, config: MixedIntegerPresolveConfig,
                                  r: Result<MixedIntegerPresolveReport, MixedIntegerPresolveError>)
    requires ValidInput(problem, config)
  {
    match r
    case Ok(report) => ReportHolds(problem, config, report)
    case Err(e) => Refuted(problem.constraints, problem.variables, config.tolerance, e) && Complains(problem, config, e)
  }

  method PresolveMixedIntegerBounds(problem: MixedIntegerProblem, config: MixedIntegerPresolveConfig)
    returns (r: Result<MixedIntegerPresolveReport, MixedIntegerPresolveError>)
    ensures if ValidInput(problem, config) then PresolveOutcome(problem, config, r) else r.Err? && ValidationOutcome(problem, config, Some(r.error))
  {
    var e := Validate(problem, config);
    if e.Some? {
      return Err(e.value);
    }
    var rows, n := problem.constraints, |problem.variables|;
    assert forall j :: 0 <= j < n ==> ValidVariable(problem.variables[j]);
    var variables := new MixedVariable[n](j requires 0 <= j < n => problem.variables[j]);
    assert variables[..] == problem.variables;
    var passes, tightened: nat;
    e, passes, tightened := RunPasses(rows, problem.variables, variables, config);
    if e.Some? {
      return Err(e.value);
    }
    var feasible, redundant := RedundantRows(rows, problem.variables, variables, config.tolerance);
    if !feasible {
      return Err(Infeasible);
    }
    var fixed := FixedVariables(variables, config.tolerance);
    return Ok(MixedIntegerPresolveReport(problem.(variables := variables[..]), passes, tightened, fixed, redundant));
  }
}
