/** Pivot steps and what they keep, for both simplex phases, in exact arithmetic. */
module Simplex {
  import opened Wrappers
  import opened LinearAlgebra
  import opened Tableaux

  datatype GeneralLinearError =
    | EmptyObjective
    | ConstraintWidthMismatch
    | InvalidIterationLimit
    | Infeasible
    | Unbounded
    | IterationLimitExceeded(iterations: nat)
    | NumericalBreakdown

  // ---- Basic points and rays ----

  /** `x` takes the value `level[i]` on the basic column of row `i`, `rise` on the column `e`, zero elsewhere. */
  ghost predicate BasicPoint(basis: seq<nat>, m: nat, w: nat, level: Vector, e: nat, rise: real, x: Vector)
    requires BasisShape(basis, m, w) && |level| == m
  {
    && |x| == w
    && (forall i :: 0 <= i < m ==> x[basis[i]] == level[i])
    && (forall j :: 0 <= j < w && j !in basis ==> x[j] == if j == e then rise else 0.0)
  }

  lemma {:induction false} BasicPointExists(basis: seq<nat>, m: nat, w: nat, level: Vector, e: nat, rise: real) returns (x: Vector)
    requires BasisShape(basis, m, w) && |level| == m
    requires forall i, k :: 0 <= i < k < m ==> basis[i] != basis[k]
    ensures BasicPoint(basis, m, w, level, e, rise, x)
    decreases m
  {
    if m == 0 {
      x := seq(w, j => if j == e then rise else 0.0);
    } else {
      var y := BasicPointExists(basis[..m - 1], m - 1, w, level[..m - 1], e, rise);
      x := y[basis[m - 1] := level[m - 1]];
      assert basis == basis[..m - 1] + [basis[m - 1]];
    }
  }

  lemma BasisIsInjective(t: Rows, basis: seq<nat>, m: nat, w: nat)
    requires Shape(t, m, w) && BasisShape(basis, m, w) && UnitColumns(t, basis, m, w, m)
    ensures forall i, k :: 0 <= i < k < m ==> basis[i] != basis[k]
  {
    forall i, k | 0 <= i < k < m ensures basis[i] != basis[k] {
      assert UnitAt(t, basis, i, i) && UnitAt(t, basis, i, k);
    }
  }

  lemma OtherProductsVanish(t: Rows, basis: seq<nat>, m: nat, w: nat, level: Vector, e: nat, rise: real, x: Vector, k: nat, j: nat)
    requires Shape(t, m, w) && BasisShape(basis, m, w) && UnitColumns(t, basis, m, w, m + 1) && |level| == m
    requires BasicPoint(basis, m, w, level, e, rise, x) && k <= m
    requires j < w && j != e && (k == m || j != basis[k])
    ensures t[k][j] * x[j] == 0.0
  {
    if i :| 0 <= i < m && basis[i] == j {
      assert UnitAt(t, basis, k, i);
    }
  }

  /** The residual of row `k` at a basic point. */
  lemma BasicResidual(t: Rows, basis: seq<nat>, m: nat, w: nat, level: Vector, e: nat, rise: real, x: Vector, k: nat)
    requires Shape(t, m, w) && BasisShape(basis, m, w) && UnitColumns(t, basis, m, w, m + 1) && |level| == m
    requires e < w && e !in basis && BasicPoint(basis, m, w, level, e, rise, x) && k <= m
    ensures Residual(t[k], x) == (if k < m then level[k] else 0.0) + t[k][e] * rise - t[k][w]
  {
    var h := Homogeneous(x);
    forall j | 0 <= j < w + 1 && j != e && j != w && (k == m || j != basis[k]) ensures t[k][j] * h[j] == 0.0 {
      OtherProductsVanish(t, basis, m, w, level, e, rise, x, k, j);
    }
    if k < m {
      assert UnitAt(t, basis, k, k);
      DotSparse(t[k], h, basis[k], e, w);
    } else {
      DotPair(t[k], h, e, w);
    }
  }

  ghost function RhsColumn(t: Rows, m: nat, w: nat): (level: Vector)
    requires Shape(t, m, w)
    ensures |level| == m && forall i :: 0 <= i < m ==> level[i] == t[i][w]
  {
    seq(m, i requires 0 <= i < m => t[i][w])
  }

  /** The point the tableau stands for: basic variables at their right-hand sides, the rest at zero. */
  ghost predicate CurrentPoint(t: Rows, basis: seq<nat>, m: nat, w: nat, x: Vector)
    requires Shape(t, m, w) && BasisShape(basis, m, w)
  {
    && |x| == w
    && (forall i :: 0 <= i < m ==> x[basis[i]] == t[i][w])
    && (forall j :: 0 <= j < w && j !in basis ==> x[j] == 0.0)
  }

  lemma CurrentPointExists(t: Rows, basis: seq<nat>, m: nat, w: nat) returns (x: Vector)
    requires Canonical(t, basis, m, w)
    ensures CurrentPoint(t, basis, m, w, x)
  {
    BasisIsInjective(t, basis, m, w);
    x := BasicPointExists(basis, m, w, RhsColumn(t, m, w), 0, 0.0);
  }

  /** Row residuals at the current point vanish; the objective row leaves its right-hand side. */
  lemma CurrentResidual(t: Rows, basis: seq<nat>, m: nat, w: nat, x: Vector, k: nat)
    requires Canonical(t, basis, m, w) && CurrentPoint(t, basis, m, w, x) && k <= m
    ensures Residual(t[k], x) == if k < m then 0.0 else -t[m][w]
  {
    var h := Homogeneous(x);
    forall j | 0 <= j < w && (k == m || j != basis[k]) ensures t[k][j] * h[j] == 0.0 {
      if i :| 0 <= i < m && basis[i] == j {
        assert UnitAt(t, basis, k, i);
      }
    }
    if k < m {
      assert UnitAt(t, basis, k, k);
      DotPair(t[k], h, basis[k], w);
    } else {
      SumExtract(Products(t[k], h), w + 1, w);
      SumZero(Products(t[k], h)[w := 0.0], w + 1);
    }
  }

  lemma CurrentPointIsFeasible(t: Rows, basis: seq<nat>, m: nat, w: nat, costs: Vector, x: Vector)
    requires Canonical(t, basis, m, w) && Represents(t, m, w, costs) && CurrentPoint(t, basis, m, w, x)
    ensures FeasibleFor(t, m, w, x) && Dot(costs, x) == t[m][w]
  {
    forall k | 0 <= k <= m ensures Residual(t[k], x) == if k < m then 0.0 else -t[m][w] {
      CurrentResidual(t, basis, m, w, x, k);
    }
    forall j | 0 <= j < w ensures x[j] >= 0.0 {
      if i :| 0 <= i < m && basis[i] == j {
        assert x[j] == t[i][w];
      }
    }
  }

  ghost predicate ReducedCostsNonNegative(t: Rows, m: nat, w: nat)
    requires Shape(t, m, w)
  {
    forall j :: 0 <= j < w ==> t[m][j] >= 0.0
  }

  /** With no negative entry in the objective row no feasible point costs more than its right-hand side. */
  lemma NoBetterPoint(t: Rows, m: nat, w: nat, costs: Vector, x: Vector)
    requires Shape(t, m, w) && Represents(t, m, w, costs) && ReducedCostsNonNegative(t, m, w)
    requires FeasibleFor(t, m, w, x)
    ensures Dot(costs, x) <= t[m][w]
  {
    var s := Products(t[m], Homogeneous(x));
    var without := s[w := 0.0];
    SumExtract(s, w + 1, w);
    forall j | 0 <= j < w + 1 ensures without[j] >= 0.0 {
      if j < w { ProductSign(t[m][j], x[j]); }
    }
    SumSign(without, w + 1);
  }

  ghost predicate UnboundedCost(t: Rows, m: nat, w: nat, costs: Vector)
    requires Shape(t, m, w) && |costs| == w
  {
    forall bound: real :: CostExceeds(t, m, w, costs, bound)
  }

  ghost predicate CostExceeds(t: Rows, m: nat, w: nat, costs: Vector, bound: real)
    requires Shape(t, m, w) && |costs| == w
  {
    exists x :: FeasibleFor(t, m, w, x) && Dot(costs, x) > bound
  }

  /** A negative reduced cost over a non-positive column is a feasible ray of growing cost. */
  lemma RayIsUnbounded(t: Rows, basis: seq<nat>, m: nat, w: nat, costs: Vector, e: nat)
    requires Canonical(t, basis, m, w) && Represents(t, m, w, costs) && e < w && t[m][e] < 0.0
    requires forall i :: 0 <= i < m ==> t[i][e] <= 0.0
    ensures UnboundedCost(t, m, w, costs)
  {
    forall bound: real ensures CostExceeds(t, m, w, costs, bound) {
      var rise := RiseBeyond(t[m][e], t[m][w], bound);
      var x := PointOnRay(t, basis, m, w, costs, e, rise);
      assert FeasibleFor(t, m, w, x) && Dot(costs, x) > bound;
    }
  }

  lemma RiseBeyond(reduced: real, rhs: real, bound: real) returns (rise: real)
    requires reduced < 0.0
    ensures rise >= 0.0 && rhs - reduced * rise > bound
  {
    var gap := if bound - rhs > 0.0 then bound - rhs + 1.0 else 1.0;
    rise := gap / -reduced;
    assert reduced * rise == -gap;
  }

  lemma PointOnRay(t: Rows, basis: seq<nat>, m: nat, w: nat, costs: Vector, e: nat, rise: real) returns (x: Vector)
    requires Canonical(t, basis, m, w) && Represents(t, m, w, costs) && e < w && t[m][e] < 0.0
    requires rise >= 0.0 && forall i :: 0 <= i < m ==> t[i][e] <= 0.0
    ensures FeasibleFor(t, m, w, x) && Dot(costs, x) == t[m][w] - t[m][e] * rise
  {
    forall i | 0 <= i < m ensures basis[i] != e {
      assert UnitAt(t, basis, m, i);
    }
    BasisIsInjective(t, basis, m, w);
    var level := seq(m, i requires 0 <= i < m => t[i][w] - t[i][e] * rise);
    x := BasicPointExists(basis, m, w, level, e, rise);
    forall k | 0 <= k <= m ensures Residual(t[k], x) == if k < m then 0.0 else t[m][e] * rise - t[m][w] {
      BasicResidual(t, basis, m, w, level, e, rise, x, k);
    }
    forall i | 0 <= i < m ensures level[i] >= 0.0 {
      ProductSign(-t[i][e], rise);
    }
    BasicPointSign(basis, m, w, level, e, rise, x);
  }

  lemma BasicPointSign(basis: seq<nat>, m: nat, w: nat, level: Vector, e: nat, rise: real, x: Vector)
    requires BasisShape(basis, m, w) && |level| == m && BasicPoint(basis, m, w, level, e, rise, x)
    requires rise >= 0.0 && NonNegative(level)
    ensures NonNegative(x)
  {
    forall j | 0 <= j < w ensures x[j] >= 0.0 {
      if i :| 0 <= i < m && basis[i] == j {
        assert x[j] == level[i];
      }
    }
  }

  // ---- Operations on the tableau ----

  method DivideRow(tableau: array<Vector>, row: nat, p: real)
    requires row < tableau.Length && p != 0.0
    modifies tableau
    ensures tableau[..] == old(tableau[..])[row := Divided(old(tableau[row]), p)]
  {
    ghost var before := tableau[row];
    for j := 0 to |tableau[row]|
      invariant |tableau[row]| == |before|
      invariant forall k :: 0 <= k < |before| ==> tableau[row][k] == if k < j then before[k] / p else before[k]
      invariant forall i :: 0 <= i < tableau.Length && i != row ==> tableau[i] == old(tableau[i])
    {
      tableau[row] := tableau[row][j := tableau[row][j] / p];
    }
    assert tableau[row] == Divided(before, p);
  }

  method ReduceRow(tableau: array<Vector>, row: nat, column: nat, pivot: Vector)
    requires row < tableau.Length && |tableau[row]| == |pivot| && column < |pivot|
    modifies tableau
    ensures tableau[..] == old(tableau[..])[row := Reduced(old(tableau[row]), old(tableau[row])[column], pivot)]
  {
    ghost var before := tableau[row];
    var factor := tableau[row][column];
    if factor == 0.0 {
      tableau[row] := tableau[row][column := 0.0];
      assert tableau[row] == Reduced(before, factor, pivot);
      return;
    }
    for j := 0 to |tableau[row]|
      invariant |tableau[row]| == |before|
      invariant forall k :: 0 <= k < |before| ==> tableau[row][k] == if k < j then Eliminated(before[k], factor, pivot[k]) else before[k]
      invariant forall i :: 0 <= i < tableau.Length && i != row ==> tableau[i] == old(tableau[i])
    {
      tableau[row] := tableau[row][j := Eliminated(tableau[row][j], factor, pivot[j])];
    }
    assert tableau[row] == Reduced(before, factor, pivot);
  }

  /** Pivots in place; a zero pivot entry is refused and leaves the tableau alone. */
  method Pivot(tableau: array<Vector>, ghost m: nat, ghost w: nat, pivotRow: nat, pivotColumn: nat)
      returns (r: Result<(), GeneralLinearError>)
    requires Shape(tableau[..], m, w) && pivotRow < m && pivotColumn < w
    modifies tableau
    ensures if old(tableau[pivotRow])[pivotColumn] == 0.0
            then r == Err(NumericalBreakdown) && tableau[..] == old(tableau[..])
            else r == Ok(()) && tableau[..] == Pivoted(old(tableau[..]), m, w, pivotRow, pivotColumn)
  {
    ghost var t := tableau[..];
    var pivotValue := tableau[pivotRow][pivotColumn];
    if pivotValue == 0.0 { return Err(NumericalBreakdown); }
    DivideRow(tableau, pivotRow, pivotValue);
    var snapshot := tableau[pivotRow];
    for row := 0 to tableau.Length
      invariant tableau.Length == m + 1
      invariant forall i :: 0 <= i <= m ==>
        tableau[i] == if i < row || i == pivotRow then PivotedRow(t, m, w, pivotRow, pivotColumn, i) else t[i]
    {
      if row != pivotRow {
        ReduceRow(tableau, row, pivotColumn, snapshot);
      }
    }
    assert tableau[..] == Pivoted(t, m, w, pivotRow, pivotColumn);
    return Ok(());
  }

  /** Row `r` blocks no later than row `i`, and on a tie has the smaller basic column. */
  ghost predicate BlocksBefore(t: Rows, basis: seq<nat>, m: nat, w: nat, e: nat, r: nat, i: nat)
    requires Shape(t, m, w) && |basis| == m && e < w && r < m && i < m && t[r][e] > 0.0
  {
    t[i][e] > 0.0 ==>
      Ratio(t, w, e, r) < Ratio(t, w, e, i) || (Ratio(t, w, e, r) == Ratio(t, w, e, i) && basis[r] <= basis[i])
  }

  ghost predicate BestAmong(t: Rows, basis: seq<nat>, m: nat, w: nat, e: nat, rows: nat, best: Option<nat>)
    requires Shape(t, m, w) && |basis| == m && e < w && rows <= m
  {
    match best
    case None => forall i :: 0 <= i < rows ==> t[i][e] <= 0.0
    case Some(r) => r < rows && t[r][e] > 0.0 && forall i :: 0 <= i < rows ==> BlocksBefore(t, basis, m, w, e, r, i)
  }

  lemma BetterRow(t: Rows, basis: seq<nat>, m: nat, w: nat, e: nat, row: nat, chosen: nat)
    requires Shape(t, m, w) && |basis| == m && e < w && row < m && t[row][e] > 0.0
    requires BestAmong(t, basis, m, w, e, row, Some(chosen))
    ensures if Ratio(t, w, e, row) < Ratio(t, w, e, chosen)
               || (Ratio(t, w, e, row) == Ratio(t, w, e, chosen) && basis[row] < basis[chosen])
            then BestAmong(t, basis, m, w, e, row + 1, Some(row))
            else BestAmong(t, basis, m, w, e, row + 1, Some(chosen))
  {
    var q, p := Ratio(t, w, e, row), Ratio(t, w, e, chosen);
    var winner := if q < p || (q == p && basis[row] < basis[chosen]) then row else chosen;
    forall i | 0 <= i < row + 1 ensures BlocksBefore(t, basis, m, w, e, winner, i) {
      assert i < row ==> BlocksBefore(t, basis, m, w, e, chosen, i);
    }
  }

  /** The row of least ratio over the positive entries of the entering column; ties go to the smallest basic column. */
  method ChooseLeavingRow(tableau: array<Vector>, basis: array<nat>, ghost m: nat, ghost w: nat, entering: nat, rows: nat, rhsColumn: nat)
      returns (best: Option<nat>)
    requires Canonical(tableau[..], basis[..], m, w) && entering < w && rows == m && rhsColumn == w
    ensures BestAmong(tableau[..], basis[..], m, w, entering, m, best)
  {
    best := None;
    for row := 0 to rows
      invariant BestAmong(tableau[..], basis[..], m, w, entering, row, best)
    {
      if tableau[row][entering] <= 0.0 { continue; }
      var ratio := Ratio(tableau[..], rhsColumn, entering, row);
      assert ratio >= 0.0;
      if ratio < 0.0 { continue; }
      match best
      case None => best := Some(row);
      case Some(chosen) =>
        BetterRow(tableau[..], basis[..], m, w, entering, row, chosen);
        var bestRatio := Ratio(tableau[..], rhsColumn, entering, chosen);
        if ratio < bestRatio || (ratio == bestRatio && basis[row] < basis[chosen]) {
          best := Some(row);
        }
    }
  }

  /** What one phase starts from and keeps: equivalent rows, the same cost function, a feasible basis. */
  ghost predicate PhaseState(start: Rows, t: Rows, basis: seq<nat>, m: nat, w: nat, costs: Vector) {
    && Shape(start, m, w) && Canonical(t, basis, m, w)
    && SameSolutions(start, t, m, w) && Represents(t, m, w, costs)
  }

  lemma PivotKeepsPhase(start: Rows, t: Rows, basis: seq<nat>, m: nat, w: nat, costs: Vector, r: nat, e: nat)
    requires PhaseState(start, t, basis, m, w, costs) && r < m && e < w && t[r][e] != 0.0
    requires t[r][w] == 0.0 || BestAmong(t, basis, m, w, e, m, Some(r))
    ensures PhaseState(start, Pivoted(t, m, w, r, e), basis[r := e], m, w, costs)
  {
    PivotKeepsMeaning(t, m, w, r, e, costs);
    PivotKeepsUnitColumns(t, basis, m, w, r, e);
    forall i | t[r][w] != 0.0 && 0 <= i < m && t[i][e] > 0.0 ensures Ratio(t, w, e, r) <= Ratio(t, w, e, i) {
      assert BlocksBefore(t, basis, m, w, e, r, i);
    }
    PivotKeepsRhs(t, m, w, r, e);
  }
}
