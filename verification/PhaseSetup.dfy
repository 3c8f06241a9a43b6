/** Steps around the pivot loop: the first tableau, the objective row, the removal of artificial columns. */
module PhaseSetup {
  import opened LinearAlgebra
  import opened Tableaux
  import opened GeneralPrograms

  // ---- The first tableau ----

  /** The rows built so far carry their constraints; the later ones are still zero. */
  ghost predicate BuiltRows(n: seq<GeneralLinearConstraint>, d: nat, t: Rows, basis: seq<nat>, rows: nat)
    requires Widths(n, d)
  {
    && Shape(t, |n|, Start(n, d, |n|)) && |basis| == |n| && rows <= |n|
    && (forall i :: 0 <= i < rows ==> t[i] == InitialRow(n, d, i))
    && (forall i :: 0 <= i < rows ==> basis[i] == BasicColumn(n, d, i))
    && (forall i, j :: rows <= i < |n| && 0 <= j < |t[i]| ==> t[i][j] == 0.0)
  }

  /** Writes row `row`: coefficients, slack or surplus and artificial entries, right-hand side. */
  method FillRow(n: seq<GeneralLinearConstraint>, d: nat, tableau: array<Vector>, basis: array<nat>, artificial: array<bool>,
                 row: nat, nextColumn: nat)
      returns (after: nat)
    requires Widths(n, d) && row < |n| && nextColumn == Start(n, d, row)
    requires BuiltRows(n, d, tableau[..], basis[..], row) && ArtificialFlags(n, d, row, artificial[..])
    modifies tableau, basis, artificial
    ensures BuiltRows(n, d, tableau[..], basis[..], row + 1) && ArtificialFlags(n, d, row + 1, artificial[..])
    ensures after == Start(n, d, row + 1)
  {
    var constraint := n[row];
    ghost var w := Start(n, d, |n|);
    StartsIncrease(n, d, 0, row);
    StartsIncrease(n, d, row + 1, |n|);
    StartsIncrease(n, d, row, row + 1);
    var rhsColumn := |tableau[row]| - 1;
    var values := constraint.coefficients + tableau[row][d..];
    after := nextColumn;
    match constraint.relation {
      case LessOrEqual =>
        values := values[after := 1.0];
        basis[row] := after;
        after := after + 1;
      case GreaterOrEqual =>
        values := values[after := -1.0];
        after := after + 1;
        values := values[after := 1.0];
        artificial[after] := true;
        basis[row] := after;
        after := after + 1;
      case Equal =>
        values := values[after := 1.0];
        artificial[after] := true;
        basis[row] := after;
        after := after + 1;
    }
    values := values[rhsColumn := constraint.rhs];
    assert values == InitialRow(n, d, row);
    tableau[row] := values;
    assert basis[..] == old(basis[..])[row := BasicColumn(n, d, row)];
    assert tableau[..] == old(tableau[..])[row := InitialRow(n, d, row)];
    FlagsAfterRow(n, d, row, old(artificial[..]), artificial[..]);
    BuiltAfterRow(n, d, old(tableau[..]), old(basis[..]), row);
  }

  lemma BuiltAfterRow(n: seq<GeneralLinearConstraint>, d: nat, t: Rows, basis: seq<nat>, row: nat)
    requires Widths(n, d) && row < |n| && BuiltRows(n, d, t, basis, row)
    ensures BuiltRows(n, d, t[row := InitialRow(n, d, row)], basis[row := BasicColumn(n, d, row)], row + 1)
  {
  }

  lemma FlagsAfterRow(n: seq<GeneralLinearConstraint>, d: nat, row: nat, before: seq<bool>, flags: seq<bool>)
    requires row < |n| && ArtificialFlags(n, d, row, before) && BasicColumn(n, d, row) < |before|
    requires flags == if n[row].relation.LessOrEqual? then before else before[BasicColumn(n, d, row) := true]
    ensures ArtificialFlags(n, d, row + 1, flags)
  {
    forall j | 0 <= j < |flags| ensures flags[j] <==> ArtificialBelow(n, d, row + 1, j) {
      assert before[j] <==> ArtificialBelow(n, d, row, j);
      if ArtificialBelow(n, d, row, j) {
        var i :| 0 <= i < row && !n[i].relation.LessOrEqual? && BasicColumn(n, d, i) == j;
        assert i < row + 1;
      }
    }
  }

  function AuxiliaryCount(n: seq<GeneralLinearConstraint>, rows: nat): (count: nat)
    requires rows <= |n|
  {
    if rows == 0 then 0 else AuxiliaryCount(n, rows - 1) + AuxiliaryWidth(n[rows - 1].relation)
  }

  lemma {:induction false} CountGivesWidth(n: seq<GeneralLinearConstraint>, d: nat, rows: nat)
    requires rows <= |n|
    ensures Start(n, d, rows) == d + AuxiliaryCount(n, rows)
  {
    if rows > 0 { CountGivesWidth(n, d, rows - 1); }
  }

  method BuildTableau(n: seq<GeneralLinearConstraint>, d: nat)
      returns (tableau: array<Vector>, basis: array<nat>, artificial: array<bool>, totalWidth: nat)
    requires Widths(n, d)
    ensures fresh(tableau) && fresh(basis) && fresh(artificial)
    ensures totalWidth == Start(n, d, |n|) && BuiltRows(n, d, tableau[..], basis[..], |n|)
    ensures ArtificialFlags(n, d, |n|, artificial[..])
  {
    totalWidth := d + AuxiliaryCount(n, |n|);
    CountGivesWidth(n, d, |n|);
    var width := totalWidth;
    tableau := new Vector[|n| + 1](_ => seq(width + 1, _ => 0.0));
    basis := new nat[|n|](_ => 0);
    artificial := new bool[width](_ => false);
    var nextColumn := d;
    for row := 0 to |n|
      invariant nextColumn == Start(n, d, row)
      invariant BuiltRows(n, d, tableau[..], basis[..], row) && ArtificialFlags(n, d, row, artificial[..])
    {
      nextColumn := FillRow(n, d, tableau, basis, artificial, row, nextColumn);
    }
  }

  /** The slack and artificial columns are unit columns and the basic point is feasible. */
  lemma {:induction false} FirstBasis(n: seq<GeneralLinearConstraint>, d: nat, t: Rows, basis: seq<nat>)
    requires Widths(n, d) && BuiltRows(n, d, t, basis, |n|)
    requires forall i :: 0 <= i < |n| ==> n[i].rhs >= 0.0
    ensures BasisShape(basis, |n|, Start(n, d, |n|)) && RhsNonNegative(t, |n|, Start(n, d, |n|))
    ensures UnitColumns(t, basis, |n|, Start(n, d, |n|), |n|)
  {
    var w := Start(n, d, |n|);
    forall i | 0 <= i < |n| ensures basis[i] < w && t[i][w] >= 0.0 {
      StartsIncrease(n, d, i + 1, |n|);
      StartsIncrease(n, d, 0, |n|);
    }
    forall k, i | 0 <= k < |n| && 0 <= i < |n| ensures UnitAt(t, basis, k, i) {
      StartsIncrease(n, d, 0, i);
      if k < i { StartsIncrease(n, d, k, i); }
      if i < k { StartsIncrease(n, d, i, k); }
    }
  }

  // ---- The objective row ----

  /** After clearing the basic columns of the first `rows` rows from the objective row. */
  ghost predicate ObjectiveCleared(t: Rows, basis: seq<nat>, m: nat, w: nat, costs: Vector, rows: nat)
    requires Shape(t, m, w) && BasisShape(basis, m, w) && |costs| == w
  {
    && Represents(t, m, w, costs)
    && forall i :: 0 <= i < m ==> t[m][basis[i]] == if i < rows then 0.0 else -costs[basis[i]]
  }

  ghost function RawObjective(costs: Vector): (row: Vector)
    ensures |row| == |costs| + 1 && row[|costs|] == 0.0 && forall j :: 0 <= j < |costs| ==> row[j] == -costs[j]
  {
    Negated(costs) + [0.0]
  }

  lemma RawObjectiveRepresents(costs: Vector, x: Vector)
    requires |x| == |costs|
    ensures Dot(costs, x) == -Residual(RawObjective(costs), x)
  {
    var w := |costs|;
    var s, t := Products(RawObjective(costs), Homogeneous(x)), Products(costs, x);
    forall j | 0 <= j < w ensures s[j] == -t[j] {
      NegatedProduct(costs[j], x[j]);
    }
    SumNegated(s, t, w);
  }

  lemma ClearStep(t: Rows, basis: seq<nat>, m: nat, w: nat, costs: Vector, row: nat, u: Rows)
    requires Shape(t, m, w) && BasisShape(basis, m, w) && UnitColumns(t, basis, m, w, m) && |costs| == w && row < m
    requires ObjectiveCleared(t, basis, m, w, costs, row)
    requires u == t[m := Reduced(t[m], -costs[basis[row]], t[row])]
    ensures Shape(u, m, w) && ObjectiveCleared(u, basis, m, w, costs, row + 1)
  {
    forall x | Solves(u, m, w, x) ensures Dot(costs, x) == -Residual(u[m], x) {
      assert forall i :: 0 <= i < m ==> t[i] == u[i];
      ReducedResidual(t[m], -costs[basis[row]], t[row], x);
    }
    forall i | 0 <= i < m ensures u[m][basis[i]] == if i < row + 1 then 0.0 else -costs[basis[i]] {
      assert UnitAt(t, basis, row, i);
    }
  }

  lemma AddedMultiple(entry: real, cost: real, source: real)
    ensures entry + cost * source == Eliminated(entry, -cost, source)
  {
  }

  /** Adds `cost` times a constraint row to the objective row. */
  method AddToObjective(tableau: array<Vector>, rows: nat, row: nat, cost: real)
    requires row < rows < tableau.Length && |tableau[rows]| == |tableau[row]|
    modifies tableau
    ensures tableau[..] == old(tableau[..])[rows := Reduced(old(tableau[rows]), -cost, old(tableau[row]))]
  {
    var snapshot := tableau[row];
    ghost var before := tableau[rows];
    for j := 0 to |snapshot|
      invariant |tableau[rows]| == |snapshot|
      invariant forall k :: 0 <= k < |snapshot| ==>
        tableau[rows][k] == if k < j then Eliminated(before[k], -cost, snapshot[k]) else before[k]
      invariant forall i :: 0 <= i < tableau.Length && i != rows ==> tableau[i] == old(tableau[i])
    {
      AddedMultiple(before[j], cost, snapshot[j]);
      tableau[rows] := tableau[rows][j := tableau[rows][j] + cost * snapshot[j]];
    }
    assert tableau[rows] == Reduced(before, -cost, snapshot);
  }

  lemma ObjectiveStart(t: Rows, basis: seq<nat>, m: nat, w: nat, costs: Vector)
    requires Shape(t, m, w) && BasisShape(basis, m, w) && |costs| == w && t[m] == RawObjective(costs)
    ensures ObjectiveCleared(t, basis, m, w, costs, 0)
  {
    forall x | Solves(t, m, w, x) ensures Dot(costs, x) == -Residual(t[m], x) {
      RawObjectiveRepresents(costs, x);
    }
  }

  lemma ObjectiveDone(t: Rows, basis: seq<nat>, m: nat, w: nat, costs: Vector)
    requires Shape(t, m, w) && BasisShape(basis, m, w) && UnitColumns(t, basis, m, w, m) && |costs| == w
    requires RhsNonNegative(t, m, w) && ObjectiveCleared(t, basis, m, w, costs, m)
    ensures Canonical(t, basis, m, w) && Represents(t, m, w, costs)
  {
    forall k, i | 0 <= k < m + 1 && 0 <= i < m ensures UnitAt(t, basis, k, i) {
      assert k < m ==> UnitAt(t, basis, k, i);
    }
  }

  /** Installs `costs` in the objective row, expressed without basic columns. */
  method InitializeObjectiveRow(tableau: array<Vector>, basis: array<nat>, costs: Vector, rows: nat, rhsColumn: nat)
    requires Shape(tableau[..], rows, rhsColumn) && |costs| == rhsColumn && basis.Length == rows
    requires BasisShape(basis[..], rows, rhsColumn) && UnitColumns(tableau[..], basis[..], rows, rhsColumn, rows)
    requires RhsNonNegative(tableau[..], rows, rhsColumn)
    modifies tableau
    ensures tableau[..rows] == old(tableau[..rows])
    ensures Canonical(tableau[..], basis[..], rows, rhsColumn) && Represents(tableau[..], rows, rhsColumn, costs)
  {
    ghost var t0 := tableau[..];
    tableau[rows] := seq(rhsColumn + 1, j requires 0 <= j < rhsColumn + 1 => if j < rhsColumn then -costs[j] else 0.0);
    assert tableau[rows] == RawObjective(costs);
    ObjectiveStart(tableau[..], basis[..], rows, rhsColumn, costs);
    for row := 0 to rows
      invariant tableau.Length == rows + 1 && tableau[..rows] == t0[..rows]
      invariant Shape(tableau[..], rows, rhsColumn)
      invariant ObjectiveCleared(tableau[..], basis[..], rows, rhsColumn, costs, row)
    {
      FirstRowsUnchanged(t0, tableau[..], basis[..], rows, rhsColumn);
      ClearBasicCost(tableau, basis, costs, rows, rhsColumn, row);
    }
    FirstRowsUnchanged(t0, tableau[..], basis[..], rows, rhsColumn);
    ObjectiveDone(tableau[..], basis[..], rows, rhsColumn, costs);
  }

  /** Removes the cost of one basic column from the objective row. */
  method ClearBasicCost(tableau: array<Vector>, basis: array<nat>, costs: Vector, rows: nat, ghost rhsColumn: nat, row: nat)
    requires Shape(tableau[..], rows, rhsColumn) && |costs| == rhsColumn && basis.Length == rows && row < rows
    requires BasisShape(basis[..], rows, rhsColumn) && UnitColumns(tableau[..], basis[..], rows, rhsColumn, rows)
    requires ObjectiveCleared(tableau[..], basis[..], rows, rhsColumn, costs, row)
    modifies tableau
    ensures tableau[..rows] == old(tableau[..rows]) && Shape(tableau[..], rows, rhsColumn)
    ensures ObjectiveCleared(tableau[..], basis[..], rows, rhsColumn, costs, row + 1)
  {
    ghost var t := tableau[..];
    var basicCost := costs[basis[row]];
    ClearStep(t, basis[..], rows, rhsColumn, costs, row, t[rows := Reduced(t[rows], -basicCost, t[row])]);
    if basicCost == 0.0 {
      assert Reduced(t[rows], -basicCost, t[row]) == t[rows];
      return;
    }
    AddToObjective(tableau, rows, row, basicCost);
  }

  lemma FirstRowsUnchanged(t: Rows, u: Rows, basis: seq<nat>, m: nat, w: nat)
    requires Shape(t, m, w) && Shape(u, m, w) && t[..m] == u[..m] && BasisShape(basis, m, w)
    ensures forall i :: 0 <= i < m ==> t[i] == u[i]
    ensures SameSolutions(t, u, m, w)
    ensures UnitColumns(t, basis, m, w, m) ==> UnitColumns(u, basis, m, w, m)
    ensures RhsNonNegative(t, m, w) ==> RhsNonNegative(u, m, w)
  {
    forall i | 0 <= i < m ensures t[i] == u[i] {
      assert t[..m][i] == u[..m][i];
    }
    forall k, i | UnitColumns(t, basis, m, w, m) && 0 <= k < m && 0 <= i < m ensures UnitAt(u, basis, k, i) {
      assert UnitAt(t, basis, k, i);
    }
  }
}
