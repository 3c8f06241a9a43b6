/** From phase one to phase two: artificial variables leave the basis, their columns and redundant rows go. */
module PhaseTransition {
  import opened Wrappers
  import opened Finite
  import opened LinearAlgebra
  import opened Tableaux
  import opened Simplex
  import opened GeneralPrograms

  // ---- Phase-one costs ----

  ghost predicate PhaseOneCosts(flags: seq<bool>, costs: Vector) {
    |costs| == |flags| && forall j :: 0 <= j < |flags| ==> costs[j] == if flags[j] then -1.0 else 0.0
  }

  /** The phase-one cost of a non-negative point is at most zero, and zero exactly without artificial values. */
  lemma PhaseOneCostSign(flags: seq<bool>, costs: Vector, y: Vector)
    requires PhaseOneCosts(flags, costs) && |y| == |flags| && NonNegative(y)
    ensures Dot(costs, y) <= 0.0
    ensures Dot(costs, y) == 0.0 <==> ZeroOn(flags, y)
  {
    var s := Products(costs, y);
    assert forall j :: 0 <= j < |y| ==> s[j] == if flags[j] then -y[j] else 0.0;
    SumNonPositive(s, |y|);
    if ZeroOn(flags, y) {
      SumZero(s, |y|);
    } else {
      var j :| 0 <= j < |y| && flags[j] && y[j] != 0.0;
      assert s[j] != 0.0;
    }
  }

  // ---- Driving artificial variables out of the basis ----

  ghost predicate ArtificialBasicsZero(t: Rows, basis: seq<nat>, flags: seq<bool>, m: nat, w: nat)
    requires Shape(t, m, w) && BasisShape(basis, m, w) && |flags| == w
  {
    forall i :: 0 <= i < m && flags[basis[i]] ==> t[i][w] == 0.0
  }

  /** The row mentions artificial columns only. */
  ghost predicate OnlyArtificial(row: Vector, flags: seq<bool>, w: nat)
    requires |row| == w + 1 && |flags| == w
  {
    forall j :: 0 <= j < w && !flags[j] ==> row[j] == 0.0
  }

  ghost predicate Settled(t: Rows, basis: seq<nat>, flags: seq<bool>, redundant: seq<bool>, m: nat, w: nat, rows: nat)
    requires Shape(t, m, w) && BasisShape(basis, m, w) && |flags| == w && rows <= m
  {
    && |redundant| == m
    && (forall i :: 0 <= i < rows ==>
          (redundant[i] <==> flags[basis[i]]) && (redundant[i] ==> OnlyArtificial(t[i], flags, w)))
    && (forall i :: rows <= i < m ==> !redundant[i])
  }

  lemma DriveOutStep(t: Rows, basis: seq<nat>, flags: seq<bool>, redundant: seq<bool>, m: nat, w: nat, row: nat, e: nat)
    requires Shape(t, m, w) && BasisShape(basis, m, w) && |flags| == w && row < m && e < w
    requires ArtificialBasicsZero(t, basis, flags, m, w) && Settled(t, basis, flags, redundant, m, w, row)
    requires t[row][w] == 0.0 && t[row][e] != 0.0 && !flags[e]
    ensures var (u, after) := (Pivoted(t, m, w, row, e), basis[row := e]);
            BasisShape(after, m, w) && ArtificialBasicsZero(u, after, flags, m, w)
            && Settled(u, after, flags, redundant, m, w, row + 1)
  {
    var u := Pivoted(t, m, w, row, e);
    forall i | 0 <= i < m ensures u[i][w] == t[i][w] {
      PivotedEntry(t, m, w, row, e, i, w);
    }
    forall i | 0 <= i < row && redundant[i] ensures OnlyArtificial(u[i], flags, w) {
      assert OnlyArtificial(t[i], flags, w);
      forall j | 0 <= j < w && !flags[j] ensures u[i][j] == 0.0 {
        PivotedEntry(t, m, w, row, e, i, j);
      }
    }
  }

  method FindReplacement(tableau: array<Vector>, artificial: array<bool>, row: nat, width: nat) returns (entering: Option<nat>)
    requires row < tableau.Length && |tableau[row]| == width + 1 && artificial.Length == width
    ensures entering == None ==> OnlyArtificial(tableau[row], artificial[..], width)
    ensures entering.Some? ==> entering.value < width && !artificial[entering.value] && tableau[row][entering.value] != 0.0
    ensures entering.Some? ==> forall j :: 0 <= j < entering.value && !artificial[j] ==> tableau[row][j] == 0.0
  {
    for column := 0 to width
      invariant forall j :: 0 <= j < column && !artificial[j] ==> tableau[row][j] == 0.0
    {
      if !artificial[column] && tableau[row][column] != 0.0 { return Some(column); }
    }
    return None;
  }

  /** Replaces every artificial basic variable, or reports its row as redundant. */
  method RemoveArtificialBasics(tableau: array<Vector>, basis: array<nat>, artificial: array<bool>, rows: nat, width: nat,
                                rhsColumn: nat, ghost start: Rows, ghost costs: Vector)
      returns (r: Result<array<bool>, GeneralLinearError>)
    requires basis.Length == rows && artificial.Length == width && rhsColumn == width
    requires PhaseState(start, tableau[..], basis[..], rows, width, costs)
    requires ArtificialBasicsZero(tableau[..], basis[..], artificial[..], rows, width)
    modifies tableau, basis
    ensures r.Ok? && fresh(r.value)
    ensures PhaseState(start, tableau[..], basis[..], rows, width, costs)
    ensures ArtificialBasicsZero(tableau[..], basis[..], artificial[..], rows, width)
    ensures Settled(tableau[..], basis[..], artificial[..], r.value[..], rows, width, rows)
  {
    var redundant := new bool[rows](_ => false);
    for row := 0 to rows
      invariant PhaseState(start, tableau[..], basis[..], rows, width, costs)
      invariant ArtificialBasicsZero(tableau[..], basis[..], artificial[..], rows, width)
      invariant Settled(tableau[..], basis[..], artificial[..], redundant[..], rows, width, row)
    {
      if artificial[basis[row]] {
        if tableau[row][rhsColumn] != 0.0 { return Err(Infeasible); }
        var candidate := FindReplacement(tableau, artificial, row, width);
        if candidate.Some? {
          DriveOut(tableau, basis, artificial, redundant, rows, width, start, costs, row, candidate.value);
        } else {
          redundant[row] := true;
        }
      }
    }
    return Ok(redundant);
  }

  method DriveOut(tableau: array<Vector>, basis: array<nat>, ghost artificial: array<bool>, ghost redundant: array<bool>,
                  ghost rows: nat, ghost width: nat, ghost start: Rows, ghost costs: Vector, row: nat, entering: nat)
    requires basis.Length == rows && artificial.Length == width && row < rows && entering < width
    requires PhaseState(start, tableau[..], basis[..], rows, width, costs)
    requires ArtificialBasicsZero(tableau[..], basis[..], artificial[..], rows, width)
    requires Settled(tableau[..], basis[..], artificial[..], redundant[..], rows, width, row)
    requires tableau[row][width] == 0.0 && tableau[row][entering] != 0.0 && !artificial[entering]
    modifies tableau, basis
    ensures PhaseState(start, tableau[..], basis[..], rows, width, costs)
    ensures ArtificialBasicsZero(tableau[..], basis[..], artificial[..], rows, width)
    ensures Settled(tableau[..], basis[..], artificial[..], redundant[..], rows, width, row + 1)
  {
    ghost var before := basis[..];
    PivotKeepsPhase(start, tableau[..], before, rows, width, costs, row, entering);
    DriveOutStep(tableau[..], before, artificial[..], redundant[..], rows, width, row, entering);
    var pivoted := Pivot(tableau, rows, width, row, entering);
    basis[row] := entering;
    assert basis[..] == before[row := entering];
  }

  // ---- Keeping the unflagged indices ----

  /** The indices below `n` that are not flagged. */
  function Kept(flags: seq<bool>, n: nat): seq<nat>
    requires n <= |flags|
  {
    if n == 0 then [] else Kept(flags, n - 1) + (if flags[n - 1] then [] else [n - 1])
  }

  ghost function Dropped(flags: seq<bool>, n: nat): (d: set<nat>)
    requires n <= |flags|
    ensures forall j: nat :: j in d <==> j < n && flags[j]
    ensures |Kept(flags, n)| + |d| == n
  {
    if n == 0 then {} else Dropped(flags, n - 1) + if flags[n - 1] then {n - 1} else {}
  }

  /** Every dropped row takes an artificial column with it. */
  lemma {:induction false} DroppedRowsAndColumns(t: Rows, basis: seq<nat>, flags: seq<bool>, redundant: seq<bool>, m: nat, w: nat)
    requires Canonical(t, basis, m, w) && |flags| == w && Settled(t, basis, flags, redundant, m, w, m)
    ensures m - |Kept(redundant, m)| <= w - |Kept(flags, w)|
    ensures |Kept(redundant, m)| <= m && |Kept(flags, w)| <= w
  {
    BasisIsInjective(t, basis, m, w);
    ImageSize(Dropped(redundant, m), basis, Dropped(flags, w));
  }

  lemma {:induction false} KeptMembers(flags: seq<bool>, n: nat)
    requires n <= |flags|
    ensures forall k :: 0 <= k < |Kept(flags, n)| ==> Kept(flags, n)[k] < n && !flags[Kept(flags, n)[k]]
    ensures forall k, l :: 0 <= k < l < |Kept(flags, n)| ==> Kept(flags, n)[k] < Kept(flags, n)[l]
  {
    if n > 0 { KeptMembers(flags, n - 1); }
  }

  /** An unflagged index sits at the position that counts the unflagged ones before it. */
  lemma {:induction false} KeptPosition(flags: seq<bool>, n: nat, j: nat)
    requires j < n <= |flags| && !flags[j]
    ensures |Kept(flags, j)| < |Kept(flags, n)| && Kept(flags, n)[|Kept(flags, j)|] == j
    decreases n
  {
    if j < n - 1 { KeptPosition(flags, n - 1, j); }
  }

  /** Leading unflagged indices keep their positions. */
  lemma {:induction false} KeptLeading(flags: seq<bool>, d: nat, n: nat)
    requires d <= n <= |flags| && forall j :: 0 <= j < d ==> !flags[j]
    ensures d <= |Kept(flags, n)| <= n && (forall j :: 0 <= j < d ==> Kept(flags, n)[j] == j)
    ensures forall k :: d <= k < |Kept(flags, n)| ==> Kept(flags, n)[k] >= d
    decreases n
  {
    if n > 0 {
      if d < n { KeptLeading(flags, d, n - 1); } else { KeptLeading(flags, d - 1, n - 1); }
    }
  }

  ghost function Gathered(y: Vector, flags: seq<bool>): (z: Vector)
    requires |y| == |flags|
    ensures |z| == |Kept(flags, |flags|)|
    ensures forall k :: 0 <= k < |z| ==> Kept(flags, |flags|)[k] < |y| && z[k] == y[Kept(flags, |flags|)[k]]
  {
    KeptMembers(flags, |flags|);
    seq(|Kept(flags, |flags|)|, k requires 0 <= k < |Kept(flags, |flags|)| => y[Kept(flags, |flags|)[k]])
  }

  ghost function Scattered(z: Vector, flags: seq<bool>): (y: Vector)
    requires |z| == |Kept(flags, |flags|)|
    ensures |y| == |flags| && ZeroOn(flags, y)
  {
    seq(|flags|, j requires 0 <= j < |flags| =>
      if flags[j] then 0.0 else (KeptPosition(flags, |flags|, j); z[|Kept(flags, j)|]))
  }

  lemma {:induction false} KeptInverse(flags: seq<bool>, n: nat, k: nat)
    requires n <= |flags| && k < |Kept(flags, n)|
    ensures Kept(flags, n)[k] < n && |Kept(flags, Kept(flags, n)[k])| == k
    decreases n
  {
    if k < |Kept(flags, n - 1)| { KeptInverse(flags, n - 1, k); }
  }

  lemma ScatterGather(flags: seq<bool>, y: Vector, z: Vector)
    requires |y| == |flags| && |z| == |Kept(flags, |flags|)|
    ensures Gathered(Scattered(z, flags), flags) == z
    ensures ZeroOn(flags, y) ==> Scattered(Gathered(y, flags), flags) == y
  {
    forall k | 0 <= k < |z| ensures Gathered(Scattered(z, flags), flags)[k] == z[k] {
      KeptInverse(flags, |flags|, k);
      KeptMembers(flags, |flags|);
    }
    forall j | 0 <= j < |y| && ZeroOn(flags, y) ensures Scattered(Gathered(y, flags), flags)[j] == y[j] {
      if !flags[j] { KeptPosition(flags, |flags|, j); }
    }
  }

  /** Terms that vanish on flagged indices sum to the same over the kept ones. */
  lemma {:induction false} SumOverKept(s: Vector, g: Vector, flags: seq<bool>, n: nat)
    requires n <= |flags| <= |s| && |Kept(flags, n)| <= |g|
    requires forall j :: 0 <= j < n && flags[j] ==> s[j] == 0.0
    requires forall k :: 0 <= k < |Kept(flags, n)| ==> Kept(flags, n)[k] < |s| && g[k] == s[Kept(flags, n)[k]]
    ensures SumTo(s, n) == SumTo(g, |Kept(flags, n)|)
  {
    if n > 0 {
      var kept := Kept(flags, n - 1);
      forall k | 0 <= k < |kept| ensures kept[k] < |s| && g[k] == s[kept[k]] {
        assert Kept(flags, n)[k] == kept[k];
      }
      SumOverKept(s, g, flags, n - 1);
    }
  }

  ghost function GatheredRow(row: Vector, flags: seq<bool>): (g: Vector)
    requires |row| == |flags| + 1
    ensures |g| == |Kept(flags, |flags|)| + 1
  {
    Gathered(row[..|flags|], flags) + [row[|flags|]]
  }

  /** Dropping columns on which the point vanishes does not change a residual. */
  lemma GatheredResidual(row: Vector, flags: seq<bool>, y: Vector)
    requires |row| == |flags| + 1 && ZeroOn(flags, y)
    ensures Residual(GatheredRow(row, flags), Gathered(y, flags)) == Residual(row, y)
  {
    var w, kept := |flags|, Kept(flags, |flags|);
    var s := Products(row, Homogeneous(y));
    var g := Products(GatheredRow(row, flags), Homogeneous(Gathered(y, flags)));
    KeptMembers(flags, w);
    forall j | 0 <= j < w && flags[j] ensures s[j] == 0.0 {
      assert Homogeneous(y)[j] == 0.0;
    }
    forall k | 0 <= k < |kept| ensures g[k] == s[kept[k]] {
      assert GatheredRow(row, flags)[k] == row[kept[k]];
    }
    SumOverKept(s, g, flags, w);
    assert g[|kept|] == s[w];
  }

  // ---- The second tableau ----

  /** `u` holds the unredundant rows of `t` without their artificial columns. */
  ghost predicate Compressed(t: Rows, basis: seq<nat>, flags: seq<bool>, redundant: seq<bool>, m: nat, w: nat, u: Rows, after: seq<nat>)
    requires Shape(t, m, w) && BasisShape(basis, m, w) && |flags| == w && |redundant| == m
  {
    KeptMembers(redundant, m);
    var (rows, columns) := (Kept(redundant, m), Kept(flags, w));
    && Shape(u, |rows|, |columns|) && |after| == |rows|
    && (forall r :: 0 <= r < |rows| ==> u[r] == GatheredRow(t[rows[r]], flags))
    && (forall r :: 0 <= r < |rows| ==> after[r] < |columns| && columns[after[r]] == basis[rows[r]])
  }

  /** The kept rows still have a feasible unit basis. */
  lemma CompressedBasis(t: Rows, basis: seq<nat>, flags: seq<bool>, redundant: seq<bool>, m: nat, w: nat, u: Rows, after: seq<nat>)
    requires Canonical(t, basis, m, w) && |flags| == w && |redundant| == m
    requires Compressed(t, basis, flags, redundant, m, w, u, after)
    ensures var (m2, w2) := (|Kept(redundant, m)|, |Kept(flags, w)|);
            BasisShape(after, m2, w2) && UnitColumns(u, after, m2, w2, m2) && RhsNonNegative(u, m2, w2)
  {
    var rows, columns := Kept(redundant, m), Kept(flags, w);
    KeptMembers(redundant, m);
    KeptMembers(flags, w);
    forall k, i | 0 <= k < |rows| && 0 <= i < |rows| ensures UnitAt(u, after, k, i) {
      assert u[k][after[i]] == t[rows[k]][columns[after[i]]];
      assert UnitAt(t, basis, rows[k], rows[i]);
    }
  }

  /** Redundant rows hold at every point without artificial values. */
  lemma RedundantRowHolds(row: Vector, flags: seq<bool>, y: Vector)
    requires |row| == |flags| + 1 && ZeroOn(flags, y) && OnlyArtificial(row, flags, |flags|) && row[|flags|] == 0.0
    ensures Residual(row, y) == 0.0
  {
    var s := Products(row, Homogeneous(y));
    forall j | 0 <= j < |flags| + 1 ensures s[j] == 0.0 {
      if j < |flags| { assert flags[j] || row[j] == 0.0; }
    }
    SumZero(s, |flags| + 1);
  }

  /** The smaller system has the same solutions, up to the dropped zero coordinates. */
  lemma CompressedSolutions(t: Rows, basis: seq<nat>, flags: seq<bool>, redundant: seq<bool>, m: nat, w: nat,
                            u: Rows, after: seq<nat>, y: Vector)
    requires Shape(t, m, w) && BasisShape(basis, m, w) && |flags| == w && |redundant| == m
    requires Compressed(t, basis, flags, redundant, m, w, u, after) && ZeroOn(flags, y)
    requires Settled(t, basis, flags, redundant, m, w, m) && ArtificialBasicsZero(t, basis, flags, m, w)
    ensures FeasibleFor(t, m, w, y) <==> FeasibleFor(u, |Kept(redundant, m)|, |Kept(flags, w)|, Gathered(y, flags))
  {
    var rows := Kept(redundant, m);
    var z := Gathered(y, flags);
    KeptMembers(redundant, m);
    forall r | 0 <= r < |rows| ensures Residual(u[r], z) == Residual(t[rows[r]], y) {
      GatheredResidual(t[rows[r]], flags, y);
    }
    forall i | 0 <= i < m ensures if redundant[i] then Residual(t[i], y) == 0.0 else |Kept(redundant, i)| < |rows| && rows[|Kept(redundant, i)|] == i {
      if redundant[i] {
        RedundantRowHolds(t[i], flags, y);
      } else {
        KeptPosition(redundant, m, i);
      }
    }
    forall j | 0 <= j < w && NonNegative(z) ensures y[j] >= 0.0 {
      if !flags[j] {
        KeptPosition(flags, w, j);
        assert z[|Kept(flags, j)|] == y[j];
      }
    }
    KeptMembers(flags, w);
  }

  /** The inverse of `kept`: where a column went. */
  method InvertColumns(kept: seq<nat>, width: nat) returns (oldToNew: array<Option<nat>>)
    requires forall k :: 0 <= k < |kept| ==> kept[k] < width
    requires forall k, l :: 0 <= k < l < |kept| ==> kept[k] < kept[l]
    ensures fresh(oldToNew) && oldToNew.Length == width
    ensures forall k :: 0 <= k < |kept| ==> oldToNew[kept[k]] == Some(k)
    ensures forall j :: 0 <= j < width && oldToNew[j].Some? ==> oldToNew[j].value < |kept| && kept[oldToNew[j].value] == j
  {
    oldToNew := new Option<nat>[width](_ => None);
    for k := 0 to |kept|
      invariant forall l :: 0 <= l < k ==> oldToNew[kept[l]] == Some(l)
      invariant forall j :: 0 <= j < width && oldToNew[j].Some? ==> oldToNew[j].value < k && kept[oldToNew[j].value] == j
    {
      oldToNew[kept[k]] := Some(k);
    }
  }

  method CopyRow(source: Vector, kept: seq<nat>, width: nat, ghost flags: seq<bool>) returns (row: Vector)
    requires |source| == width + 1 && |flags| == width && kept == Kept(flags, width)
    requires forall k :: 0 <= k < |kept| ==> kept[k] < width
    ensures row == GatheredRow(source, flags)
  {
    row := seq(|kept| + 1, _ => 0.0);
    for k := 0 to |kept|
      invariant |row| == |kept| + 1 && forall l :: 0 <= l < k ==> row[l] == source[kept[l]]
    {
      row := row[k := source[kept[k]]];
    }
    row := row[|kept| := source[width]];
  }

  /** `after` is the position of column `before` among the kept columns. */
  ghost predicate Renamed(kept: seq<nat>, before: nat, after: nat) {
    after < |kept| && kept[after] == before
  }

  /** Every column that is not artificial was given a new position. */
  lemma MappedColumn(flags: seq<bool>, width: nat, column: nat, oldToNew: seq<Option<nat>>)
    requires |flags| == width && column < width && !flags[column] && |oldToNew| == width
    requires forall k :: 0 <= k < |Kept(flags, width)| ==> Kept(flags, width)[k] < width && oldToNew[Kept(flags, width)[k]] == Some(k)
    ensures oldToNew[column].Some? && Renamed(Kept(flags, width), column, oldToNew[column].value)
  {
    KeptPosition(flags, width, column);
  }

  /** Copies the kept rows and columns and renames the basis. */
  method Compress(tableau: array<Vector>, basis: array<nat>, artificial: array<bool>, redundant: array<bool>,
                  rows: nat, width: nat, keptColumns: seq<nat>, oldToNew: array<Option<nat>>)
      returns (r: Result<(array<Vector>, array<nat>), GeneralLinearError>)
    requires Shape(tableau[..], rows, width) && basis.Length == rows && BasisShape(basis[..], rows, width)
    requires artificial.Length == width && redundant.Length == rows && keptColumns == Kept(artificial[..], width)
    requires Settled(tableau[..], basis[..], artificial[..], redundant[..], rows, width, rows)
    requires oldToNew.Length == width && forall k :: 0 <= k < |keptColumns| ==> keptColumns[k] < width && oldToNew[keptColumns[k]] == Some(k)
    ensures r.Ok? && fresh(r.value.0) && fresh(r.value.1)
    ensures Compressed(tableau[..], basis[..], artificial[..], redundant[..], rows, width, r.value.0[..], r.value.1[..])
  {
    ghost var flags := artificial[..];
    var keptRows := Kept(redundant[..], rows);
    KeptMembers(redundant[..], rows);
    var phaseTwoWidth := |keptColumns|;
    var phaseTwo := new Vector[|keptRows| + 1](_ => seq(phaseTwoWidth + 1, _ => 0.0));
    var phaseTwoBasis := new nat[|keptRows|](_ => 0);
    for newRow := 0 to |keptRows|
      invariant Shape(phaseTwo[..], |keptRows|, |keptColumns|)
      invariant forall k :: 0 <= k < newRow ==> phaseTwo[k] == GatheredRow(tableau[keptRows[k]], flags)
      invariant forall k :: 0 <= k < newRow ==> Renamed(keptColumns, basis[keptRows[k]], phaseTwoBasis[k])
    {
      var oldRow := keptRows[newRow];
      phaseTwo[newRow] := CopyRow(tableau[oldRow], keptColumns, width, flags);
      MappedColumn(flags, width, basis[oldRow], oldToNew[..]);
      var mapped := oldToNew[basis[oldRow]];
      if mapped == None { return Err(NumericalBreakdown); }
      phaseTwoBasis[newRow] := mapped.value;
    }
    return Ok((phaseTwo, phaseTwoBasis));
  }
}
