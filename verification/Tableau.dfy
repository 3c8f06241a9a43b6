/** The simplex tableau: `m` constraint rows and one objective row, each ending in its right-hand side. */
module Tableaux {
  import opened LinearAlgebra

  type Rows = seq<Vector>

  ghost predicate Shape(t: Rows, m: nat, w: nat) {
    |t| == m + 1 && forall i :: 0 <= i < |t| ==> |t[i]| == w + 1
  }

  /** The point with -1 in the place of the right-hand side. */
  ghost function Homogeneous(x: Vector): (h: Vector)
    ensures |h| == |x| + 1 && h[|x|] == -1.0 && forall j :: 0 <= j < |x| ==> h[j] == x[j]
  {
    x + [-1.0]
  }

  /** Left-hand side minus right-hand side of a row at `x`. */
  ghost function Residual(row: Vector, x: Vector): real
    requires |row| == |x| + 1
  {
    Dot(row, Homogeneous(x))
  }

  /** `x` satisfies every constraint row. */
  ghost predicate Solves(t: Rows, m: nat, w: nat, x: Vector)
    requires Shape(t, m, w)
  {
    |x| == w && forall i :: 0 <= i < m ==> Residual(t[i], x) == 0.0
  }

  ghost predicate FeasibleFor(t: Rows, m: nat, w: nat, x: Vector)
    requires Shape(t, m, w)
  {
    Solves(t, m, w, x) && NonNegative(x)
  }

  ghost predicate SameSolutions(t: Rows, u: Rows, m: nat, w: nat)
    requires Shape(t, m, w) && Shape(u, m, w)
  {
    forall x :: Solves(t, m, w, x) <==> Solves(u, m, w, x)
  }

  /** On the solution set the objective row is the negated cost. */
  ghost predicate Represents(t: Rows, m: nat, w: nat, costs: Vector)
    requires Shape(t, m, w)
  {
    |costs| == w && forall x :: Solves(t, m, w, x) ==> Dot(costs, x) == -Residual(t[m], x)
  }

  ghost predicate BasisShape(basis: seq<nat>, m: nat, w: nat) {
    |basis| == m && forall i :: 0 <= i < m ==> basis[i] < w
  }

  ghost predicate UnitAt(t: Rows, basis: seq<nat>, k: nat, i: nat)
    requires k < |t| && i < |basis| && basis[i] < |t[k]|
  {
    t[k][basis[i]] == if k == i then 1.0 else 0.0
  }

  /** Every basic column is a unit column within the first `rows` rows. */
  ghost predicate UnitColumns(t: Rows, basis: seq<nat>, m: nat, w: nat, rows: nat)
    requires Shape(t, m, w) && BasisShape(basis, m, w) && rows <= m + 1
  {
    forall k, i :: 0 <= k < rows && 0 <= i < m ==> UnitAt(t, basis, k, i)
  }

  ghost predicate RhsNonNegative(t: Rows, m: nat, w: nat)
    requires Shape(t, m, w)
  {
    forall i :: 0 <= i < m ==> t[i][w] >= 0.0
  }

  /** A simplex tableau: unit basic columns (in the objective row too) and a feasible basic point. */
  ghost predicate Canonical(t: Rows, basis: seq<nat>, m: nat, w: nat) {
    && Shape(t, m, w) && BasisShape(basis, m, w)
    && UnitColumns(t, basis, m, w, m + 1) && RhsNonNegative(t, m, w)
  }

  // ---- Pivoting ----

  function Divided(row: Vector, p: real): (r: Vector)
    requires p != 0.0
    ensures |r| == |row| && forall j :: 0 <= j < |row| ==> r[j] == row[j] / p
  {
    seq(|row|, j requires 0 <= j < |row| => row[j] / p)
  }

  function Eliminated(entry: real, factor: real, pivotEntry: real): real {
    entry - factor * pivotEntry
  }

  function Reduced(row: Vector, factor: real, pivot: Vector): (r: Vector)
    requires |pivot| == |row|
    ensures |r| == |row| && forall j :: 0 <= j < |row| ==> r[j] == Eliminated(row[j], factor, pivot[j])
  {
    seq(|row|, j requires 0 <= j < |row| => Eliminated(row[j], factor, pivot[j]))
  }

  /** Row `i` of the tableau after pivoting on row `r` and column `c`. */
  ghost function PivotedRow(t: Rows, m: nat, w: nat, r: nat, c: nat, i: nat): (row: Vector)
    requires Shape(t, m, w) && r < m && c < w && t[r][c] != 0.0 && i <= m
    ensures |row| == w + 1
  {
    if i == r then Divided(t[r], t[r][c]) else Reduced(t[i], t[i][c], Divided(t[r], t[r][c]))
  }

  ghost function Pivoted(t: Rows, m: nat, w: nat, r: nat, c: nat): (u: Rows)
    requires Shape(t, m, w) && r < m && c < w && t[r][c] != 0.0
    ensures Shape(u, m, w)
    ensures forall i :: 0 <= i <= m ==> u[i] == PivotedRow(t, m, w, r, c, i)
  {
    seq(m + 1, i requires 0 <= i < m + 1 => PivotedRow(t, m, w, r, c, i))
  }

  lemma DividedHolds(row: Vector, p: real, x: Vector)
    requires |row| == |x| + 1 && p != 0.0
    ensures Residual(row, x) == 0.0 <==> Residual(Divided(row, p), x) == 0.0
  {
    var d, h := Divided(row, p), Homogeneous(x);
    var zero := seq(|row|, _ => 0.0);
    forall j | 0 <= j < |row| ensures row[j] == zero[j] - (-p) * d[j] {
      Undivide(row[j], p);
    }
    DotReduced(zero, d, -p, row, h, Dot(d, h));
    SumZero(Products(zero, h), |row|);
    ZeroProduct(p, Dot(d, h));
  }

  lemma Undivide(a: real, p: real)
    requires p != 0.0
    ensures a == 0.0 - (-p) * (a / p)
  {
  }

  lemma ZeroProduct(p: real, d: real)
    requires p != 0.0
    ensures 0.0 - (-p) * d == 0.0 <==> d == 0.0
  {
  }

  /** Subtracting a multiple of a row that holds does not change a residual. */
  lemma ReducedResidual(row: Vector, factor: real, pivot: Vector, x: Vector)
    requires |row| == |x| + 1 && |pivot| == |x| + 1 && Residual(pivot, x) == 0.0
    ensures Residual(Reduced(row, factor, pivot), x) == Residual(row, x)
  {
    DotReduced(row, pivot, factor, Reduced(row, factor, pivot), Homogeneous(x), 0.0);
  }

  /** Pivoting is a change of equations, not of solutions. */
  lemma PivotKeepsSolutions(t: Rows, m: nat, w: nat, r: nat, c: nat, x: Vector)
    requires Shape(t, m, w) && r < m && c < w && t[r][c] != 0.0 && |x| == w
    ensures Solves(t, m, w, x) <==> Solves(Pivoted(t, m, w, r, c), m, w, x)
    ensures Solves(t, m, w, x) ==> Residual(Pivoted(t, m, w, r, c)[m], x) == Residual(t[m], x)
  {
    var u := Pivoted(t, m, w, r, c);
    DividedHolds(t[r], t[r][c], x);
    if Residual(u[r], x) == 0.0 {
      forall i | 0 <= i <= m && i != r ensures Residual(u[i], x) == Residual(t[i], x) {
        ReducedResidual(t[i], t[i][c], u[r], x);
      }
    }
  }

  lemma PivotKeepsMeaning(t: Rows, m: nat, w: nat, r: nat, c: nat, costs: Vector)
    requires Shape(t, m, w) && r < m && c < w && t[r][c] != 0.0
    ensures SameSolutions(t, Pivoted(t, m, w, r, c), m, w)
    ensures Represents(t, m, w, costs) ==> Represents(Pivoted(t, m, w, r, c), m, w, costs)
  {
    forall x: Vector | |x| == w
      ensures Solves(t, m, w, x) <==> Solves(Pivoted(t, m, w, r, c), m, w, x)
      ensures Solves(t, m, w, x) ==> Residual(Pivoted(t, m, w, r, c)[m], x) == Residual(t[m], x)
    {
      PivotKeepsSolutions(t, m, w, r, c, x);
    }
  }

  lemma PivotedEntry(t: Rows, m: nat, w: nat, r: nat, c: nat, i: nat, j: nat)
    requires Shape(t, m, w) && r < m && c < w && t[r][c] != 0.0 && i <= m && j <= w
    ensures Pivoted(t, m, w, r, c)[i][j] ==
              if i == r then t[r][j] / t[r][c] else t[i][j] - t[i][c] * (t[r][j] / t[r][c])
  {
  }

  /** The entering column becomes a unit column and the other basic columns stay unit columns. */
  lemma PivotKeepsUnitColumns(t: Rows, basis: seq<nat>, m: nat, w: nat, r: nat, c: nat)
    requires Shape(t, m, w) && BasisShape(basis, m, w) && UnitColumns(t, basis, m, w, m + 1)
    requires r < m && c < w && t[r][c] != 0.0
    ensures BasisShape(basis[r := c], m, w)
    ensures UnitColumns(Pivoted(t, m, w, r, c), basis[r := c], m, w, m + 1)
  {
    var u, after := Pivoted(t, m, w, r, c), basis[r := c];
    forall k, i | 0 <= k < m + 1 && 0 <= i < m ensures UnitAt(u, after, k, i) {
      assert UnitAt(t, basis, k, i) && UnitAt(t, basis, r, i);
      PivotedEntry(t, m, w, r, c, k, after[i]);
    }
  }

  /** The step at which row `i` blocks the entering column. */
  function Ratio(t: Rows, w: nat, e: nat, i: nat): real
    requires i < |t| && e < |t[i]| && w < |t[i]| && t[i][e] > 0.0
  {
    t[i][w] / t[i][e]
  }

  /** The ratio test keeps the right-hand side non-negative. */
  lemma PivotKeepsRhs(t: Rows, m: nat, w: nat, r: nat, c: nat)
    requires Shape(t, m, w) && RhsNonNegative(t, m, w) && r < m && c < w && t[r][c] != 0.0
    requires t[r][w] == 0.0 || (t[r][c] > 0.0 && forall i :: 0 <= i < m && t[i][c] > 0.0 ==> Ratio(t, w, c, r) <= Ratio(t, w, c, i))
    ensures RhsNonNegative(Pivoted(t, m, w, r, c), m, w)
  {
    var u := Pivoted(t, m, w, r, c);
    forall i | 0 <= i < m ensures u[i][w] >= 0.0 {
      PivotedEntry(t, m, w, r, c, i, w);
      if i != r && t[r][w] != 0.0 {
        RatioStep(t[i][w], t[i][c], t[r][w] / t[r][c]);
      }
    }
  }

  lemma RatioStep(rhs: real, entry: real, ratio: real)
    requires rhs >= 0.0 && ratio >= 0.0 && (entry > 0.0 ==> ratio <= rhs / entry)
    ensures rhs - entry * ratio >= 0.0
  {
    if entry > 0.0 {
      assert entry * ratio <= entry * (rhs / entry);
    }
  }
}
