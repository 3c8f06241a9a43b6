/** General linear programs and their initial two-phase tableau. */
module GeneralPrograms {
  import opened Constraints
  import opened LinearAlgebra
  import opened Tableaux

  datatype GeneralLinearConstraint = GeneralLinearConstraint(coefficients: Vector, relation: ConstraintRelation, rhs: real)

  datatype GeneralLinearProgram = GeneralLinearProgram(objective: Vector, constraints: seq<GeneralLinearConstraint>, maximumIterations: nat)

  ghost predicate Widths(constraints: seq<GeneralLinearConstraint>, d: nat) {
    forall i :: 0 <= i < |constraints| ==> |constraints[i].coefficients| == d
  }

  ghost predicate Satisfies(c: GeneralLinearConstraint, x: Vector) {
    |c.coefficients| == |x| && HoldsReal(c.relation, Dot(c.coefficients, x), c.rhs)
  }

  /** `x` is non-negative and satisfies every constraint. */
  ghost predicate FeasiblePoint(constraints: seq<GeneralLinearConstraint>, d: nat, x: Vector) {
    |x| == d && NonNegative(x) && forall i :: 0 <= i < |constraints| ==> Satisfies(constraints[i], x)
  }

  // ---- Normalisation to non-negative right-hand sides ----

  function FlipRelation(relation: ConstraintRelation): ConstraintRelation {
    match relation
    case LessOrEqual => GreaterOrEqual
    case GreaterOrEqual => LessOrEqual
    case Equal => Equal
  }

  function Negated(v: Vector): (r: Vector)
    ensures |r| == |v| && forall j :: 0 <= j < |v| ==> r[j] == -v[j]
  {
    seq(|v|, j requires 0 <= j < |v| => -v[j])
  }

  function Normalized(c: GeneralLinearConstraint): GeneralLinearConstraint {
    if c.rhs < 0.0 then GeneralLinearConstraint(Negated(c.coefficients), FlipRelation(c.relation), -c.rhs) else c
  }

  function NormalizeConstraints(constraints: seq<GeneralLinearConstraint>): (r: seq<GeneralLinearConstraint>)
    ensures |r| == |constraints|
    ensures forall i :: 0 <= i < |r| ==> r[i] == Normalized(constraints[i])
  {
    seq(|constraints|, i requires 0 <= i < |constraints| => Normalized(constraints[i]))
  }

  lemma NegatedDot(v: Vector, x: Vector)
    requires |v| == |x|
    ensures Dot(Negated(v), x) == -Dot(v, x)
  {
    var s, t := Products(Negated(v), x), Products(v, x);
    forall j | 0 <= j < |v| ensures s[j] == -t[j] {
      NegatedProduct(v[j], x[j]);
    }
    SumNegated(s, t, |v|);
  }

  /** Normalisation makes right-hand sides non-negative and changes no feasible point. */
  lemma NormalizeKeepsFeasibility(constraints: seq<GeneralLinearConstraint>, d: nat, x: Vector)
    requires Widths(constraints, d)
    ensures Widths(NormalizeConstraints(constraints), d)
    ensures forall i :: 0 <= i < |constraints| ==> NormalizeConstraints(constraints)[i].rhs >= 0.0
    ensures FeasiblePoint(constraints, d, x) <==> FeasiblePoint(NormalizeConstraints(constraints), d, x)
  {
    if |x| == d {
      forall i | 0 <= i < |constraints|
        ensures Satisfies(constraints[i], x) <==> Satisfies(NormalizeConstraints(constraints)[i], x)
      {
        NegatedDot(constraints[i].coefficients, x);
      }
    }
  }

  // ---- Columns of the first tableau ----

  function AuxiliaryWidth(relation: ConstraintRelation): nat {
    if relation.GreaterOrEqual? then 2 else 1
  }

  /** The first auxiliary column of constraint `i`. */
  function Start(n: seq<GeneralLinearConstraint>, d: nat, i: nat): nat
    requires i <= |n|
  {
    if i == 0 then d else Start(n, d, i - 1) + AuxiliaryWidth(n[i - 1].relation)
  }

  lemma {:induction false} StartsIncrease(n: seq<GeneralLinearConstraint>, d: nat, i: nat, k: nat)
    requires i <= k <= |n|
    ensures d <= Start(n, d, i) <= Start(n, d, k)
    ensures i < k ==> Start(n, d, i) + AuxiliaryWidth(n[i].relation) <= Start(n, d, k)
    decreases k
  {
    if i < k { StartsIncrease(n, d, i, k - 1); } else if k > 0 { StartsIncrease(n, d, i - 1, k - 1); }
  }

  function BasicColumn(n: seq<GeneralLinearConstraint>, d: nat, i: nat): nat
    requires i < |n|
  {
    if n[i].relation.GreaterOrEqual? then Start(n, d, i) + 1 else Start(n, d, i)
  }

  /** Entry `j` of the initial row `i`. */
  function InitialEntry(n: seq<GeneralLinearConstraint>, d: nat, i: nat, j: nat): real
    requires i < |n| && Widths(n, d)
  {
    if j < d then n[i].coefficients[j]
    else if j == Start(n, d, |n|) then n[i].rhs
    else if j == BasicColumn(n, d, i) then 1.0
    else if j == Start(n, d, i) then -1.0
    else 0.0
  }

  function InitialRow(n: seq<GeneralLinearConstraint>, d: nat, i: nat): (row: Vector)
    requires i < |n| && Widths(n, d)
    ensures |row| == Start(n, d, |n|) + 1
    ensures forall j :: 0 <= j < |row| ==> row[j] == InitialEntry(n, d, i, j)
  {
    seq(Start(n, d, |n|) + 1, j requires 0 <= j < Start(n, d, |n|) + 1 => InitialEntry(n, d, i, j))
  }

  /** Column `j` belongs to an artificial variable of the first `rows` constraints. */
  ghost predicate ArtificialBelow(n: seq<GeneralLinearConstraint>, d: nat, rows: nat, j: nat)
    requires rows <= |n|
  {
    exists i :: 0 <= i < rows && !n[i].relation.LessOrEqual? && BasicColumn(n, d, i) == j
  }

  ghost predicate ArtificialFlags(n: seq<GeneralLinearConstraint>, d: nat, rows: nat, flags: seq<bool>)
    requires rows <= |n|
  {
    |flags| == Start(n, d, |n|) && forall j :: 0 <= j < |flags| ==> (flags[j] <==> ArtificialBelow(n, d, rows, j))
  }

  /** The share of the auxiliary variables in row `i`. */
  ghost function AuxiliaryTerm(n: seq<GeneralLinearConstraint>, d: nat, i: nat, y: Vector): real
    requires i < |n| && |y| == Start(n, d, |n|)
  {
    StartsIncrease(n, d, i + 1, |n|);
    if n[i].relation.GreaterOrEqual? then y[Start(n, d, i) + 1] - y[Start(n, d, i)] else y[Start(n, d, i)]
  }

  /** The products of row `i` behind the decision columns. */
  ghost function TailProduct(n: seq<GeneralLinearConstraint>, d: nat, i: nat, y: Vector, j: nat): real
    requires i < |n| && j <= |y|
  {
    if j == |y| then -n[i].rhs
    else if j == BasicColumn(n, d, i) then y[j]
    else if j == Start(n, d, i) then -y[j]
    else 0.0
  }

  lemma {:induction false} RowProducts(n: seq<GeneralLinearConstraint>, d: nat, i: nat, y: Vector, s: Vector)
    requires Widths(n, d) && i < |n| && |y| == Start(n, d, |n|) && d <= |y|
    requires s == Products(InitialRow(n, d, i), Homogeneous(y))
    ensures forall j :: d <= j <= |y| ==> s[j] == TailProduct(n, d, i, y, j)
    ensures SumTo(s, d) == Dot(n[i].coefficients, y[..d])
  {
    var h := Homogeneous(y);
    forall j | d <= j <= |y| ensures s[j] == TailProduct(n, d, i, y, j) {
      assert s[j] == InitialEntry(n, d, i, j) * h[j];
    }
    var decisions := Products(n[i].coefficients, y[..d]);
    forall j | 0 <= j < d ensures s[j] == decisions[j] {
      assert s[j] == InitialEntry(n, d, i, j) * h[j];
    }
    SumAgrees(s, decisions, d);
  }

  lemma TailSum(n: seq<GeneralLinearConstraint>, d: nat, i: nat, y: Vector, s: Vector)
    requires i < |n| && |y| == Start(n, d, |n|) && d <= |y| && |s| == |y| + 1
    requires forall j :: d <= j <= |y| ==> s[j] == TailProduct(n, d, i, y, j)
    ensures SumTo(s, |s|) == SumTo(s, d) + AuxiliaryTerm(n, d, i, y) - n[i].rhs
  {
    StartsIncrease(n, d, i + 1, |n|);
    StartsIncrease(n, d, 0, i);
    SumSplit(s, |y| + 1, d, |y|, Start(n, d, i), BasicColumn(n, d, i));
  }

  /** A row's residual, read as the constraint with its auxiliary variables. */
  lemma InitialResidual(n: seq<GeneralLinearConstraint>, d: nat, i: nat, y: Vector)
    requires Widths(n, d) && i < |n| && |y| == Start(n, d, |n|) && d <= |y|
    ensures Residual(InitialRow(n, d, i), y) == Dot(n[i].coefficients, y[..d]) + AuxiliaryTerm(n, d, i, y) - n[i].rhs
  {
    var s := Products(InitialRow(n, d, i), Homogeneous(y));
    RowProducts(n, d, i, y, s);
    TailSum(n, d, i, y, s);
  }

  // ---- Extending a point by its slack values ----

  ghost function AuxiliaryValues(c: GeneralLinearConstraint, x: Vector): Vector
    requires |c.coefficients| == |x|
  {
    match c.relation
    case LessOrEqual => [c.rhs - Dot(c.coefficients, x)]
    case GreaterOrEqual => [Dot(c.coefficients, x) - c.rhs, 0.0]
    case Equal => [0.0]
  }

  ghost function Extended(n: seq<GeneralLinearConstraint>, x: Vector, k: nat): (y: Vector)
    requires k <= |n| && Widths(n, |x|)
    ensures |y| == Start(n, |x|, k)
  {
    if k == 0 then x else Extended(n, x, k - 1) + AuxiliaryValues(n[k - 1], x)
  }

  lemma {:induction false} ExtendedPrefix(n: seq<GeneralLinearConstraint>, x: Vector, k: nat, l: nat)
    requires k <= l <= |n| && Widths(n, |x|)
    ensures Extended(n, x, k) <= Extended(n, x, l)
    decreases l
  {
    if k < l { ExtendedPrefix(n, x, k, l - 1); }
  }

  lemma ExtendedValues(n: seq<GeneralLinearConstraint>, x: Vector, i: nat)
    requires i < |n| && Widths(n, |x|)
    ensures var (y, d) := (Extended(n, x, |n|), |x|);
            && Start(n, d, i) + AuxiliaryWidth(n[i].relation) <= |y|
            && y[Start(n, d, i)] == AuxiliaryValues(n[i], x)[0]
            && (n[i].relation.GreaterOrEqual? ==> y[Start(n, d, i) + 1] == 0.0)
  {
    ExtendedPrefix(n, x, i + 1, |n|);
    StartsIncrease(n, |x|, i + 1, |n|);
  }

  /** Each auxiliary column belongs to one constraint. */
  lemma {:induction false} ColumnOwner(n: seq<GeneralLinearConstraint>, d: nat, k: nat, j: nat) returns (i: nat)
    requires k <= |n| && d <= j < Start(n, d, k)
    ensures i < k && Start(n, d, i) <= j < Start(n, d, i) + AuxiliaryWidth(n[i].relation)
  {
    if j < Start(n, d, k - 1) { i := ColumnOwner(n, d, k - 1, j); } else { i := k - 1; }
  }

  ghost predicate ZeroOn(flags: seq<bool>, y: Vector) {
    |flags| == |y| && forall j :: 0 <= j < |y| && flags[j] ==> y[j] == 0.0
  }

  /** The rows of the first tableau. */
  ghost predicate InitialRows(n: seq<GeneralLinearConstraint>, d: nat, t: Rows) {
    && Widths(n, d) && Shape(t, |n|, Start(n, d, |n|))
    && forall i :: 0 <= i < |n| ==> t[i] == InitialRow(n, d, i)
  }

  /** A feasible point extends to a solution of the tableau without artificial values. */
  lemma {:induction false} FeasibleExtends(n: seq<GeneralLinearConstraint>, d: nat, t: Rows, flags: seq<bool>, x: Vector)
    requires InitialRows(n, d, t) && ArtificialFlags(n, d, |n|, flags) && FeasiblePoint(n, d, x)
    ensures var y := Extended(n, x, |n|);
            FeasibleFor(t, |n|, Start(n, d, |n|), y) && ZeroOn(flags, y) && d <= |y| && y[..d] == x
  {
    var y := Extended(n, x, |n|);
    ExtendedPrefix(n, x, 0, |n|);
    StartsIncrease(n, d, 0, |n|);
    assert y[..d] == x;
    forall i | 0 <= i < |n| ensures Residual(t[i], y) == 0.0 {
      InitialResidual(n, d, i, y);
      ExtendedValues(n, x, i);
      assert Satisfies(n[i], x);
    }
    forall j | 0 <= j < |y| ensures y[j] >= 0.0 && (flags[j] ==> y[j] == 0.0) {
      ExtendedEntry(n, d, flags, x, j);
    }
  }

  lemma {:induction false} ExtendedEntry(n: seq<GeneralLinearConstraint>, d: nat, flags: seq<bool>, x: Vector, j: nat)
    requires Widths(n, d) && ArtificialFlags(n, d, |n|, flags) && FeasiblePoint(n, d, x) && j < |flags|
    ensures var y := Extended(n, x, |n|); |y| == |flags| && y[j] >= 0.0 && (flags[j] ==> y[j] == 0.0)
  {
    ExtendedPrefix(n, x, 0, |n|);
    if j < d {
      DecisionsAreNotArtificial(n, d, flags, j);
    } else {
      var i := ColumnOwner(n, d, |n|, j);
      ExtendedValues(n, x, i);
      assert Satisfies(n[i], x);
      if flags[j] { ArtificialOwner(n, d, i, j); }
    }
  }

  lemma DecisionsAreNotArtificial(n: seq<GeneralLinearConstraint>, d: nat, flags: seq<bool>, j: nat)
    requires ArtificialFlags(n, d, |n|, flags) && j < d && j < |flags|
    ensures !flags[j]
  {
    forall i | 0 <= i < |n| ensures BasicColumn(n, d, i) >= d {
      StartsIncrease(n, d, 0, i);
    }
  }

  /** An artificial column of constraint `i` is its basic column. */
  lemma ArtificialOwner(n: seq<GeneralLinearConstraint>, d: nat, i: nat, j: nat)
    requires i < |n| && Start(n, d, i) <= j < Start(n, d, i) + AuxiliaryWidth(n[i].relation)
    requires ArtificialBelow(n, d, |n|, j)
    ensures !n[i].relation.LessOrEqual? && j == BasicColumn(n, d, i)
  {
    var k :| 0 <= k < |n| && !n[k].relation.LessOrEqual? && BasicColumn(n, d, k) == j;
    if k < i { StartsIncrease(n, d, k, i); }
    if i < k { StartsIncrease(n, d, i, k); }
  }

  /** Without artificial values a solution of the tableau restricts to a feasible point. */
  lemma SolutionRestricts(n: seq<GeneralLinearConstraint>, d: nat, t: Rows, flags: seq<bool>, y: Vector)
    requires InitialRows(n, d, t) && ArtificialFlags(n, d, |n|, flags)
    requires FeasibleFor(t, |n|, Start(n, d, |n|), y) && ZeroOn(flags, y)
    ensures d <= |y| && FeasiblePoint(n, d, y[..d])
  {
    StartsIncrease(n, d, 0, |n|);
    forall i | 0 <= i < |n| ensures Satisfies(n[i], y[..d]) {
      assert Residual(t[i], y) == 0.0;
      RowRestricts(n, d, flags, y, i);
    }
  }

  lemma RowRestricts(n: seq<GeneralLinearConstraint>, d: nat, flags: seq<bool>, y: Vector, i: nat)
    requires Widths(n, d) && i < |n| && |y| == Start(n, d, |n|) && d <= |y| && ArtificialFlags(n, d, |n|, flags)
    requires NonNegative(y) && ZeroOn(flags, y) && Residual(InitialRow(n, d, i), y) == 0.0
    ensures Satisfies(n[i], y[..d])
  {
    InitialResidual(n, d, i, y);
    StartsIncrease(n, d, i + 1, |n|);
    if !n[i].relation.LessOrEqual? {
      assert ArtificialBelow(n, d, |n|, BasicColumn(n, d, i));
    }
  }
}
