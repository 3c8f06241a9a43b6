/** Bland's rule: entering column and tie-break by smallest index. In exact arithmetic no basis comes back. */
module BlandRule {
  import opened Wrappers
  import opened Finite
  import opened LinearAlgebra
  import opened Tableaux
  import opened Simplex

  /** One iteration of the pivot loop: the tableau it sees and what it chooses. */
  datatype Iteration = Iteration(t: Rows, basis: seq<nat>, entering: nat, leaving: nat)

  /** The smallest column with a negative reduced cost enters; the least ratio leaves, ties by the smallest basic column. */
  ghost predicate Chosen(start: Rows, m: nat, w: nat, costs: Vector, s: Iteration) {
    && PhaseState(start, s.t, s.basis, m, w, costs)
    && s.entering < w && s.t[m][s.entering] < 0.0 && (forall j :: 0 <= j < s.entering ==> s.t[m][j] >= 0.0)
    && s.leaving < m && BestAmong(s.t, s.basis, m, w, s.entering, m, Some(s.leaving))
  }

  /** The tableau and basis an iteration produces. */
  ghost predicate Produces(m: nat, w: nat, s: Iteration, t: Rows, basis: seq<nat>)
    requires Shape(s.t, m, w) && s.leaving < m && |s.basis| == m && s.entering < w && s.t[s.leaving][s.entering] != 0.0
  {
    t == Pivoted(s.t, m, w, s.leaving, s.entering) && basis == s.basis[s.leaving := s.entering]
  }

  ghost predicate IsRun(start: Rows, m: nat, w: nat, costs: Vector, run: seq<Iteration>) {
    && (forall k :: 0 <= k < |run| ==> Chosen(start, m, w, costs, run[k]))
    && forall k :: 0 <= k < |run| - 1 ==> Produces(m, w, run[k], run[k + 1].t, run[k + 1].basis)
  }

  // ---- One step ----

  /** A solution that vanishes off the basis is the current point. */
  lemma {:induction false} OffBasisZeroIsCurrent(t: Rows, basis: seq<nat>, m: nat, w: nat, x: Vector)
    requires Canonical(t, basis, m, w) && Solves(t, m, w, x) && forall j :: 0 <= j < w && j !in basis ==> x[j] == 0.0
    ensures CurrentPoint(t, basis, m, w, x)
  {
    var h := Homogeneous(x);
    forall k | 0 <= k < m ensures x[basis[k]] == t[k][w] {
      forall j | 0 <= j < w && j != basis[k] ensures t[k][j] * h[j] == 0.0 {
        if i :| 0 <= i < m && basis[i] == j {
          assert UnitAt(t, basis, k, i);
        }
      }
      assert UnitAt(t, basis, k, k);
      DotPair(t[k], h, basis[k], w);
    }
  }

  /** The value of a basis does not depend on how it was reached. */
  lemma {:induction false} SameBasisSameCorner(start: Rows, m: nat, w: nat, costs: Vector, t: Rows, b: seq<nat>, u: Rows, c: seq<nat>)
    requires PhaseState(start, t, b, m, w, costs) && PhaseState(start, u, c, m, w, costs) && Members(b) == Members(c)
    ensures t[m][w] == u[m][w]
  {
    var x := CurrentPointExists(t, b, m, w);
    CurrentPointIsFeasible(t, b, m, w, costs, x);
    assert Solves(start, m, w, x) && Solves(u, m, w, x);
    forall j: nat | j < w && j !in c ensures x[j] == 0.0 {
      assert j !in Members(c) && j !in b;
    }
    OffBasisZeroIsCurrent(u, c, m, w, x);
    CurrentPointIsFeasible(u, c, m, w, costs, x);
  }

  /** A pivot never lowers the objective value, and keeps it only in a row that is already at zero. */
  lemma {:induction false} CornerRises(start: Rows, m: nat, w: nat, costs: Vector, s: Iteration, t: Rows, basis: seq<nat>)
    requires Chosen(start, m, w, costs, s) && Produces(m, w, s, t, basis)
    ensures s.t[m][w] <= t[m][w]
    ensures s.t[m][w] == t[m][w] ==> s.t[s.leaving][w] == 0.0
  {
    PivotedEntry(s.t, m, w, s.leaving, s.entering, m, w);
    RiseOf(s.t[m][s.entering], s.t[s.leaving][w], s.t[s.leaving][s.entering]);
  }

  lemma RiseOf(reduced: real, rhs: real, entry: real)
    requires reduced < 0.0 && rhs >= 0.0 && entry > 0.0
    ensures reduced * (rhs / entry) <= 0.0
    ensures reduced * (rhs / entry) == 0.0 ==> rhs == 0.0
  {
    var q := rhs / entry;
    assert q * entry == rhs;
    ProductSign(-reduced, q);
    if rhs > 0.0 { assert q > 0.0; }
  }

  /** A pivot in a row at zero leaves the current point where it is. */
  lemma {:induction false} PointStays(start: Rows, m: nat, w: nat, costs: Vector, s: Iteration, next: Iteration, x: Vector)
    requires Chosen(start, m, w, costs, s) && Chosen(start, m, w, costs, next) && Produces(m, w, s, next.t, next.basis)
    requires CurrentPoint(s.t, s.basis, m, w, x) && s.t[s.leaving][w] == 0.0
    ensures CurrentPoint(next.t, next.basis, m, w, x)
  {
    CurrentPointIsFeasible(s.t, s.basis, m, w, costs, x);
    assert Solves(start, m, w, x) && Solves(next.t, m, w, x);
    forall i | 0 <= i < m && i != s.leaving ensures s.basis[i] in next.basis {
      assert next.basis[i] == s.basis[i];
    }
    forall j: nat | j < w && j !in next.basis ensures x[j] == 0.0 {
      if i :| 0 <= i < m && s.basis[i] == j {
        assert i == s.leaving;
      }
    }
    OffBasisZeroIsCurrent(next.t, next.basis, m, w, x);
  }

  // ---- Stretches of a run ----

  lemma {:induction false} RunStep(start: Rows, m: nat, w: nat, costs: Vector, run: seq<Iteration>, k: nat) returns (s: Iteration, next: Iteration)
    requires IsRun(start, m, w, costs, run) && 0 < k < |run|
    ensures s == run[k - 1] && next == run[k]
    ensures Chosen(start, m, w, costs, s) && Chosen(start, m, w, costs, next) && Produces(m, w, s, next.t, next.basis)
  {
    s, next := run[k - 1], run[k];
    var before: nat := k - 1;
    assert run[before + 1] == next;
  }

  /** The row of the leaving column is at zero. */
  ghost predicate LeavesAtZero(m: nat, w: nat, s: Iteration) {
    Shape(s.t, m, w) && s.leaving < m && s.t[s.leaving][w] == 0.0
  }

  ghost predicate Sees(m: nat, w: nat, s: Iteration, x: Vector) {
    Shape(s.t, m, w) && BasisShape(s.basis, m, w) && CurrentPoint(s.t, s.basis, m, w, x)
  }

  /** The objective values of a run, which never fall. */
  lemma {:induction false} CornersOf(start: Rows, m: nat, w: nat, costs: Vector, run: seq<Iteration>) returns (c: seq<real>)
    requires IsRun(start, m, w, costs, run)
    ensures |c| == |run| && forall k :: 0 <= k < |run| ==> c[k] == run[k].t[m][w]
    ensures forall k :: 0 <= k < |run| - 1 ==> c[k] <= c[k + 1]
    ensures forall k :: 0 <= k < |run| - 1 && c[k] == c[k + 1] ==> LeavesAtZero(m, w, run[k])
  {
    c := seq(|run|, k requires 0 <= k < |run| => run[k].t[m][w]);
    forall k: nat | k < |run| - 1 ensures c[k] <= c[k + 1] && (c[k] == c[k + 1] ==> LeavesAtZero(m, w, run[k])) {
      CornerStep(start, m, w, costs, run, k);
    }
  }

  lemma {:induction false} CornerStep(start: Rows, m: nat, w: nat, costs: Vector, run: seq<Iteration>, k: nat)
    requires IsRun(start, m, w, costs, run) && k + 1 < |run|
    ensures run[k].t[m][w] <= run[k + 1].t[m][w]
    ensures run[k].t[m][w] == run[k + 1].t[m][w] ==> LeavesAtZero(m, w, run[k])
  {
    var s, next := RunStep(start, m, w, costs, run, k + 1);
    CornerRises(start, m, w, costs, s, next.t, next.basis);
  }

  lemma {:induction false} Between(c: seq<real>, i: nat, j: nat)
    requires i <= j < |c| && forall k :: 0 <= k < |c| - 1 ==> c[k] <= c[k + 1]
    ensures c[i] <= c[j]
    decreases j - i
  {
    if i < j {
      Between(c, i, j - 1);
      var k := j - 1;
      assert c[k] <= c[k + 1];
    }
  }

  /** While the objective value stands still, every pivot is in a row at zero. */
  lemma {:induction false} StandstillAtZero(start: Rows, m: nat, w: nat, costs: Vector, run: seq<Iteration>, i: nat, j: nat)
    requires IsRun(start, m, w, costs, run) && i <= j < |run| && run[i].t[m][w] == run[j].t[m][w]
    ensures forall k :: i <= k < j ==> LeavesAtZero(m, w, run[k])
  {
    var c := CornersOf(start, m, w, costs, run);
    forall k | i <= k < j ensures LeavesAtZero(m, w, run[k]) {
      Between(c, i, k);
      Between(c, k + 1, j);
    }
  }

  lemma {:induction false} PointStep(start: Rows, m: nat, w: nat, costs: Vector, run: seq<Iteration>, k: nat, x: Vector)
    requires IsRun(start, m, w, costs, run) && k + 1 < |run| && LeavesAtZero(m, w, run[k])
    requires Sees(m, w, run[k], x)
    ensures Sees(m, w, run[k + 1], x)
  {
    var s, next := RunStep(start, m, w, costs, run, k + 1);
    PointStays(start, m, w, costs, s, next, x);
  }

  lemma {:induction false} Carried(b: seq<bool>, i: nat, k: nat)
    requires i <= k < |b| && b[i] && forall l :: i <= l < k && b[l] ==> b[l + 1]
    ensures b[k]
    decreases k - i
  {
    if i < k { Carried(b, i + 1, k); }
  }

  /** Pivots in rows at zero keep the current point. */
  lemma {:induction false} PointThroughout(start: Rows, m: nat, w: nat, costs: Vector, run: seq<Iteration>, i: nat, k: nat, x: Vector)
    requires IsRun(start, m, w, costs, run) && i <= k < |run|
    requires forall l :: i <= l < k ==> LeavesAtZero(m, w, run[l])
    requires Sees(m, w, run[i], x)
    ensures Sees(m, w, run[k], x)
  {
    var b := seq(|run|, l requires 0 <= l < |run| => Sees(m, w, run[l], x));
    forall l: nat | i <= l < k && b[l] ensures b[l + 1] {
      PointStep(start, m, w, costs, run, l, x);
    }
    Carried(b, i, k);
  }

  /** What is basic later and never enters was basic before. */
  lemma {:induction false} BasicBefore(start: Rows, m: nat, w: nat, costs: Vector, run: seq<Iteration>, a: nat, b: nat, v: nat)
    requires IsRun(start, m, w, costs, run) && a <= b < |run| && v in run[b].basis
    requires forall k :: a <= k < b ==> run[k].entering != v
    ensures v in run[a].basis
    decreases b - a
  {
    if a < b {
      assert Produces(m, w, run[b - 1], run[b].t, run[b].basis);
      var i :| 0 <= i < m && run[b].basis[i] == v;
      assert run[b - 1].basis[i] == v;
      BasicBefore(start, m, w, costs, run, a, b - 1, v);
    }
  }

  /** What is basic before and not later leaves in between. */
  lemma {:induction false} LeavesBetween(start: Rows, m: nat, w: nat, costs: Vector, run: seq<Iteration>, a: nat, b: nat, v: nat) returns (p: nat)
    requires IsRun(start, m, w, costs, run) && a < b < |run| && v in run[a].basis && v !in run[b].basis
    ensures a <= p < b && run[p].basis[run[p].leaving] == v
    decreases b - a
  {
    var i :| 0 <= i < m && run[a].basis[i] == v;
    assert Produces(m, w, run[a], run[a + 1].t, run[a + 1].basis);
    if i == run[a].leaving {
      p := a;
    } else {
      assert run[a + 1].basis[i] == v;
      p := LeavesBetween(start, m, w, costs, run, a + 1, b, v);
    }
  }

  lemma {:induction false} LargestEntering(run: seq<Iteration>, i: nat, j: nat) returns (q: nat)
    requires i < j <= |run|
    ensures i <= q < j && forall k :: i <= k < j ==> run[k].entering <= run[q].entering
    decreases j - i
  {
    q := i;
    if i + 1 < j {
      var rest := LargestEntering(run, i + 1, j);
      if run[rest].entering > run[i].entering { q := rest; }
    }
  }

  /** An entering column is not basic. */
  lemma {:induction false} EnteringIsNotBasic(start: Rows, m: nat, w: nat, costs: Vector, s: Iteration)
    requires Chosen(start, m, w, costs, s)
    ensures s.entering !in s.basis
  {
    forall i | 0 <= i < m ensures s.basis[i] != s.entering {
      assert UnitAt(s.t, s.basis, m, i);
    }
  }

  // ---- The contradiction ----

  lemma {:induction false} SumDrops(s: Vector, t: Vector, n: nat) returns (j: nat)
    requires n <= |s| && n <= |t| && SumTo(s, n) < SumTo(t, n)
    ensures j < n && s[j] < t[j]
  {
    if s[n - 1] < t[n - 1] { j := n - 1; } else { j := SumDrops(s, t, n - 1); }
  }

  /** A row whose residual is smaller at `y` than at `x` has a term that is. */
  lemma {:induction false} TermDrops(row: Vector, x: Vector, y: Vector) returns (j: nat)
    requires |row| == |x| + 1 == |y| + 1 && Residual(row, y) < Residual(row, x)
    ensures j < |x| && row[j] * y[j] < row[j] * x[j]
  {
    j := SumDrops(Products(row, Homogeneous(y)), Products(row, Homogeneous(x)), |row|);
  }

  /** Raising the entering column by one, ignoring signs. */
  lemma {:induction false} RaisedPoint(start: Rows, m: nat, w: nat, costs: Vector, s: Iteration) returns (y: Vector)
    requires Chosen(start, m, w, costs, s)
    ensures Solves(s.t, m, w, y) && Dot(costs, y) == s.t[m][w] - s.t[m][s.entering]
    ensures y[s.entering] == 1.0 && (forall i :: 0 <= i < m ==> y[s.basis[i]] == s.t[i][w] - s.t[i][s.entering])
    ensures forall j :: 0 <= j < w && j !in s.basis && j != s.entering ==> y[j] == 0.0
  {
    EnteringIsNotBasic(start, m, w, costs, s);
    BasisIsInjective(s.t, s.basis, m, w);
    var level := seq(m, i requires 0 <= i < m => s.t[i][w] - s.t[i][s.entering]);
    y := BasicPointExists(s.basis, m, w, level, s.entering, 1.0);
    forall k | 0 <= k <= m ensures Residual(s.t[k], y) == if k < m then 0.0 else s.t[m][s.entering] - s.t[m][w] {
      BasicResidual(s.t, s.basis, m, w, level, s.entering, 1.0, y, k);
    }
  }

  /** The objective row of a later tableau has a term that the raised point lowers; it belongs to a basic column. */
  lemma {:induction false} LoweredBasic(start: Rows, m: nat, w: nat, costs: Vector, p: Iteration, q: Iteration, x: Vector) returns (i: nat)
    requires Chosen(start, m, w, costs, p) && Chosen(start, m, w, costs, q)
    requires CurrentPoint(p.t, p.basis, m, w, x) && CurrentPoint(q.t, q.basis, m, w, x)
    requires q.t[m][p.entering] >= 0.0
    ensures i < m && q.t[m][p.basis[i]] * p.t[i][p.entering] > 0.0
  {
    var y := RaisedPoint(start, m, w, costs, p);
    assert Solves(start, m, w, y) && Solves(q.t, m, w, y);
    CurrentPointIsFeasible(p.t, p.basis, m, w, costs, x);
    CurrentPointIsFeasible(q.t, q.basis, m, w, costs, x);
    var row := q.t[m];
    var j := TermDrops(row, x, y);
    EnteringIsNotBasic(start, m, w, costs, p);
    forall k: nat | k < w && k !in p.basis ensures row[k] * y[k] >= row[k] * x[k] {
      assert x[k] == 0.0;
    }
    assert j in p.basis;
    i :| 0 <= i < m && p.basis[i] == j;
    LoweredTerm(row[j], p.t[i][w], p.t[i][p.entering]);
  }

  lemma LoweredTerm(a: real, rhs: real, entry: real)
    requires a * (rhs - entry) < a * rhs
    ensures a * entry > 0.0
  {
    assert a * (rhs - entry) == a * rhs - a * entry;
  }

  /** Below the entering column of the second iteration, no basic column of the first that is not basic in the second is lowered. */
  lemma {:induction false} SmallerIsNotLowered(start: Rows, m: nat, w: nat, costs: Vector, p: Iteration, q: Iteration, x: Vector, i: nat)
    requires Chosen(start, m, w, costs, p) && Chosen(start, m, w, costs, q)
    requires CurrentPoint(p.t, p.basis, m, w, x) && CurrentPoint(q.t, q.basis, m, w, x)
    requires p.basis[p.leaving] == q.entering && i < m && p.basis[i] !in q.basis && p.basis[i] < q.entering
    ensures q.t[m][p.basis[i]] * p.t[i][p.entering] <= 0.0
  {
    EnteringIsNotBasic(start, m, w, costs, q);
    assert p.t[i][w] == 0.0 && p.t[p.leaving][w] == 0.0;
    assert BlocksBefore(p.t, p.basis, m, w, p.entering, p.leaving, i);
    assert p.t[i][p.entering] <= 0.0;
    ProductSign(q.t[m][p.basis[i]], -p.t[i][p.entering]);
  }

  /** If a column leaves in one iteration and enters in another with the same current point, then some larger column
      is basic in the first iteration and not in the second. */
  lemma {:induction false} LargerColumnMoves(start: Rows, m: nat, w: nat, costs: Vector, p: Iteration, q: Iteration, x: Vector) returns (v: nat)
    requires Chosen(start, m, w, costs, p) && Chosen(start, m, w, costs, q)
    requires CurrentPoint(p.t, p.basis, m, w, x) && CurrentPoint(q.t, q.basis, m, w, x)
    requires p.basis[p.leaving] == q.entering && p.entering < q.entering
    ensures v in p.basis && v !in q.basis && v > q.entering
  {
    var i := LoweredBasic(start, m, w, costs, p, q, x);
    v := p.basis[i];
    forall k | 0 <= k < m ensures q.basis[k] != v {
      assert UnitAt(q.t, q.basis, m, k);
    }
    SignsDiffer(q.t[m][q.entering], p.t[p.leaving][p.entering]);
    BasisIsInjective(p.t, p.basis, m, w);
    assert v != q.entering;
    if v < q.entering { SmallerIsNotLowered(start, m, w, costs, p, q, x, i); }
  }

  lemma SignsDiffer(a: real, b: real)
    requires a < 0.0 && b > 0.0
    ensures a * b < 0.0
  {
  }

  // ---- No basis comes back ----

  /** What is basic at one point of a cycle and not at another enters within the cycle. */
  lemma {:induction false} FickleEnters(start: Rows, m: nat, w: nat, costs: Vector, run: seq<Iteration>, i: nat, j: nat, p: nat, q: nat, v: nat)
    requires IsRun(start, m, w, costs, run) && i <= p < j < |run| && i <= q < j
    requires Members(run[i].basis) == Members(run[j].basis) && v in run[p].basis && v !in run[q].basis
    ensures exists k :: i <= k < j && run[k].entering == v
  {
    if forall k :: i <= k < j ==> run[k].entering != v {
      BasicBefore(start, m, w, costs, run, i, p, v);
      assert v in Members(run[i].basis) && v in run[j].basis;
      BasicBefore(start, m, w, costs, run, q, j, v);
    }
  }

  /** The step of a cycle at which the largest entering column leaves. */
  lemma {:induction false} LargestLeaves(start: Rows, m: nat, w: nat, costs: Vector, run: seq<Iteration>, i: nat, j: nat, q: nat) returns (p: nat)
    requires IsRun(start, m, w, costs, run) && i <= q < j < |run| && Members(run[i].basis) == Members(run[j].basis)
    ensures i <= p < j && run[p].basis[run[p].leaving] == run[q].entering
  {
    var top := run[q].entering;
    EnteringIsNotBasic(start, m, w, costs, run[q]);
    if top in run[i].basis {
      p := LeavesBetween(start, m, w, costs, run, i, q, top);
    } else {
      assert top !in Members(run[j].basis) && top !in run[j].basis;
      assert Produces(m, w, run[q], run[q + 1].t, run[q + 1].basis);
      assert run[q + 1].basis[run[q].leaving] == top;
      p := LeavesBetween(start, m, w, costs, run, q + 1, j, top);
    }
  }

  /** No basis comes back: Bland's rule excludes cycling. */
  lemma {:induction false} NoBasisRepeats(start: Rows, m: nat, w: nat, costs: Vector, run: seq<Iteration>, i: nat, j: nat)
    requires IsRun(start, m, w, costs, run) && i < j < |run|
    ensures Members(run[i].basis) != Members(run[j].basis)
  {
    if Members(run[i].basis) == Members(run[j].basis) {
      SameBasisSameCorner(start, m, w, costs, run[i].t, run[i].basis, run[j].t, run[j].basis);
      var x := CurrentPointExists(run[i].t, run[i].basis, m, w);
      var q := LargestEntering(run, i, j);
      var p := LargestLeaves(start, m, w, costs, run, i, j, q);
      StandstillAtZero(start, m, w, costs, run, i, j);
      PointThroughout(start, m, w, costs, run, i, p, x);
      PointThroughout(start, m, w, costs, run, i, q, x);
      EnteringIsNotBasic(start, m, w, costs, run[p]);
      forall v: nat | v in run[p].basis && v !in run[q].basis ensures v <= run[q].entering {
        FickleEnters(start, m, w, costs, run, i, j, p, q, v);
      }
      var v := LargerColumnMoves(start, m, w, costs, run[p], run[q], x);
    }
  }

  // ---- How many pivots there can be ----

  lemma {:induction false} BasisIsSubset(start: Rows, m: nat, w: nat, costs: Vector, s: Iteration)
    requires Chosen(start, m, w, costs, s)
    ensures Members(s.basis) <= Below(w) && |Members(s.basis)| == m
  {
    BasisIsInjective(s.t, s.basis, m, w);
    DistinctCardinality(s.basis);
  }

  ghost function BasesOf(run: seq<Iteration>): (b: seq<set<nat>>)
    ensures |b| == |run| && forall k :: 0 <= k < |run| ==> b[k] == Members(run[k].basis)
  {
    seq(|run|, k requires 0 <= k < |run| => Members(run[k].basis))
  }

  /** A run visits at most as many bases as there are choices of `m` columns out of `w`. */
  lemma {:induction false} RunIsShort(start: Rows, m: nat, w: nat, costs: Vector, run: seq<Iteration>)
    requires IsRun(start, m, w, costs, run)
    ensures |run| <= Choices(w, m)
  {
    var bases := BasesOf(run);
    forall i, j | 0 <= i < j < |bases| ensures bases[i] != bases[j] {
      NoBasisRepeats(start, m, w, costs, run, i, j);
    }
    DistinctCardinality(bases);
    forall b | b in Members(bases) ensures HasSize(b, w, m) {
      var k :| 0 <= k < |bases| && bases[k] == b;
      BasisIsSubset(start, m, w, costs, run[k]);
    }
    FamilyBound(Members(bases), w, m);
  }
}
