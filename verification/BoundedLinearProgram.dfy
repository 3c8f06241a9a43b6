/** Linear programs with free, one-sided and boxed variables, solved through the non-negative core. */
module BoundedPrograms {
  import opened Wrappers
  import opened Constraints
  import opened LinearAlgebra
  import opened Simplex
  import opened GeneralPrograms
  import opened TwoPhaseSimplex

  datatype LinearVariable = LinearVariable(lower: Option<real>, upper: Option<real>, objectiveCoefficient: real)

  datatype BoundedLinearProgram = BoundedLinearProgram(
    variables: seq<LinearVariable>, constraints: seq<GeneralLinearConstraint>, maximumIterations: nat)

  datatype BoundedLinearError =
    | EmptyProblem
    | InvalidBounds(variable: nat)
    | WidthMismatch
    | ZeroIterationLimit
    | General(error: GeneralLinearError)

  datatype BoundedLinearSolution = BoundedLinearSolution(
    values: Vector, objectiveValue: real, transformedValues: Vector, iterations: nat)

  datatype VariableTransform =
    | LowerShift(lower: real, column: nat)
    | UpperShift(upper: real, column: nat)
    | FreeSplit(positive: nat, negative: nat)

  // ---- The problem ----

  ghost predicate WithinBounds(v: LinearVariable, x: real) {
    (v.lower.Some? ==> v.lower.value <= x) && (v.upper.Some? ==> x <= v.upper.value)
  }

  ghost predicate AllSatisfied(rows: seq<GeneralLinearConstraint>, y: Vector) {
    forall r :: 0 <= r < |rows| ==> Satisfies(rows[r], y)
  }

  ghost predicate BoundedFeasible(p: BoundedLinearProgram, x: Vector) {
    && |x| == |p.variables|
    && (forall i :: 0 <= i < |x| ==> WithinBounds(p.variables[i], x[i]))
    && AllSatisfied(p.constraints, x)
  }

  function Objective(vars: seq<LinearVariable>): (c: Vector)
    ensures |c| == |vars| && forall i {:trigger c[i]} :: 0 <= i < |vars| ==> c[i] == vars[i].objectiveCoefficient
  {
    seq(|vars|, i requires 0 <= i < |vars| => vars[i].objectiveCoefficient)
  }

  // ---- The substitution, variable by variable ----

  function Columns(v: LinearVariable): nat {
    if v.lower.None? && v.upper.None? then 2 else 1
  }

  /** The first transformed column of variable `i`. */
  function Offset(vars: seq<LinearVariable>, i: nat): nat
    requires i <= |vars|
  {
    if i == 0 then 0 else Offset(vars, i - 1) + Columns(vars[i - 1])
  }

  lemma {:induction false} OffsetsIncrease(vars: seq<LinearVariable>, i: nat, k: nat)
    requires i <= k <= |vars|
    ensures Offset(vars, i) <= Offset(vars, k)
    ensures i < k ==> Offset(vars, i) + Columns(vars[i]) <= Offset(vars, k)
    decreases k
  {
    if i < k { OffsetsIncrease(vars, i, k - 1); }
  }

  function TransformOf(v: LinearVariable, column: nat): VariableTransform {
    if v.lower.Some? then LowerShift(v.lower.value, column)
    else if v.upper.Some? then UpperShift(v.upper.value, column)
    else FreeSplit(column, column + 1)
  }

  function Piece(v: LinearVariable, a: real): (r: Vector)
    ensures |r| == Columns(v)
  {
    if v.lower.Some? then [a] else if v.upper.Some? then [-a] else [a, -a]
  }

  function Shift(v: LinearVariable): real {
    if v.lower.Some? then v.lower.value else if v.upper.Some? then v.upper.value else 0.0
  }

  /** The coefficients `a` in terms of the new columns of the first `i` variables. */
  function Row(vars: seq<LinearVariable>, a: Vector, i: nat): (r: Vector)
    requires i <= |vars| && i <= |a|
    ensures |r| == Offset(vars, i)
  {
    if i == 0 then [] else Row(vars, a, i - 1) + Piece(vars[i - 1], a[i - 1])
  }

  /** What the shift of one variable contributes to a row. */
  function Contribution(v: LinearVariable, a: real): real {
    a * Shift(v)
  }

  /** What the shifts contribute to a row, variable by variable. */
  function Constants(vars: seq<LinearVariable>, a: Vector): (r: Vector)
    requires |a| == |vars|
    ensures |r| == |vars| && forall i {:trigger r[i]} :: 0 <= i < |vars| ==> r[i] == Contribution(vars[i], a[i])
  {
    seq(|vars|, i requires 0 <= i < |vars| => Contribution(vars[i], a[i]))
  }

  function Constant(vars: seq<LinearVariable>, a: Vector): real
    requires |a| == |vars|
  {
    SumTo(Constants(vars, a), |vars|)
  }

  /** The original value behind one or two transformed values. */
  function Restored(v: LinearVariable, y: real, z: real): real {
    if v.lower.Some? then v.lower.value + y else if v.upper.Some? then v.upper.value - y else y - z
  }

  ghost function OriginalAt(vars: seq<LinearVariable>, y: Vector, i: nat): real
    requires |y| == Offset(vars, |vars|) && i < |vars|
  {
    OffsetsIncrease(vars, i + 1, |vars|);
    var c := Offset(vars, i);
    Restored(vars[i], y[c], if Columns(vars[i]) == 2 then y[c + 1] else 0.0)
  }

  /** The original point that a transformed point stands for. */
  ghost function Original(vars: seq<LinearVariable>, y: Vector): (x: Vector)
    requires |y| == Offset(vars, |vars|)
    ensures |x| == |vars| && forall i :: 0 <= i < |vars| ==> x[i] == OriginalAt(vars, y, i)
  {
    seq(|vars|, i requires 0 <= i < |vars| => OriginalAt(vars, y, i))
  }

  lemma {:induction false} RowPrefix(vars: seq<LinearVariable>, a: Vector, i: nat, k: nat)
    requires i <= k <= |vars| && k <= |a|
    ensures Row(vars, a, i) <= Row(vars, a, k)
    decreases k
  {
    if i < k { RowPrefix(vars, a, i, k - 1); }
  }

  /** The entries that variable `i` contributes to a substituted row. */
  lemma RowEntries(vars: seq<LinearVariable>, a: Vector, i: nat)
    requires |a| == |vars| && i < |vars|
    ensures Offset(vars, i) + Columns(vars[i]) <= Offset(vars, |vars|)
    ensures Row(vars, a, |vars|)[Offset(vars, i)] == Piece(vars[i], a[i])[0]
    ensures Columns(vars[i]) == 2 ==> Row(vars, a, |vars|)[Offset(vars, i) + 1] == Piece(vars[i], a[i])[1]
  {
    RowPrefix(vars, a, i + 1, |vars|);
    OffsetsIncrease(vars, i + 1, |vars|);
  }

  /** The products at the columns of variable `i`. */
  ghost function ColumnTerms(vars: seq<LinearVariable>, t: Vector, i: nat): real
    requires i < |vars| && Offset(vars, i) + Columns(vars[i]) <= |t|
  {
    t[Offset(vars, i)] + (if Columns(vars[i]) == 2 then t[Offset(vars, i) + 1] else 0.0)
  }

  /** One variable's product `product`, with value `x`, in new coordinates: entries `p`, `q` at values `y`, `z`. */
  lemma VariableTerm(v: LinearVariable, a: real, x: real, y: real, z: real, p: real, q: real,
                     product: real, constant: real, first: real, second: real)
    requires product == a * x && x == Restored(v, y, z) && constant == a * Shift(v)
    requires first == p * y && p == Piece(v, a)[0]
    requires Columns(v) == 2 ==> second == q * z && q == Piece(v, a)[1]
    ensures product == constant + first + (if Columns(v) == 2 then second else 0.0)
  {
    PieceValue(a, Shift(v), y, z);
  }

  lemma PieceValue(a: real, shift: real, y: real, z: real)
    ensures a * (shift + y) == a * shift + a * y
    ensures a * (shift - y) == a * shift + (-a) * y
    ensures a * (y - z) == a * y + (-a) * z
  {
  }

  ghost predicate TermsAgree(vars: seq<LinearVariable>, constants: Vector, s: Vector, t: Vector, k: nat)
    requires k < |vars| == |constants| == |s|
  {
    Offset(vars, k) + Columns(vars[k]) <= |t| && s[k] == constants[k] + ColumnTerms(vars, t, k)
  }

  /** The product of variable `k` and the two products of its columns (the second is zero if it has one column). */
  lemma {:induction false} TermOf(vars: seq<LinearVariable>, a: Vector, y: Vector, row: Vector, k: nat, x: Vector, constants: Vector, s: Vector, t: Vector)
      returns (product: real, constant: real, first: real, second: real)
    requires |a| == |vars| && |y| == Offset(vars, |vars|) && k < |vars| && row == Row(vars, a, |vars|)
    requires x == Original(vars, y) && constants == Constants(vars, a) && s == Products(a, x) && t == Products(row, y)
    ensures Offset(vars, k) + Columns(vars[k]) <= |t| && s[k] == product && constants[k] == constant
    ensures t[Offset(vars, k)] == first && second == if Columns(vars[k]) == 2 then t[Offset(vars, k) + 1] else 0.0
    ensures product == constant + first + second
  {
    RowEntries(vars, a, k);
    var c := Offset(vars, k);
    var ak, xk, yk, rk := a[k], x[k], y[c], row[c];
    product, constant, first := s[k], constants[k], t[c];
    if Columns(vars[k]) == 1 {
      second := 0.0;
      VariableTerm(vars[k], ak, xk, yk, 0.0, rk, 0.0, product, constant, first, second);
    } else {
      var yn, rn := y[c + 1], row[c + 1];
      second := t[c + 1];
      VariableTerm(vars[k], ak, xk, yk, yn, rk, rn, product, constant, first, second);
    }
  }

  lemma TermAgrees(vars: seq<LinearVariable>, constants: Vector, s: Vector, t: Vector, k: nat,
                   product: real, constant: real, first: real, second: real)
    requires k < |vars| == |constants| == |s| && Offset(vars, k) + Columns(vars[k]) <= |t|
    requires s[k] == product && constants[k] == constant && product == constant + first + second
    requires t[Offset(vars, k)] == first && second == if Columns(vars[k]) == 2 then t[Offset(vars, k) + 1] else 0.0
    ensures TermsAgree(vars, constants, s, t, k)
  {
  }

  /** Summing variable by variable and summing column by column differ by the constants. */
  lemma {:induction false} SumByVariable(vars: seq<LinearVariable>, constants: Vector, s: Vector, t: Vector, i: nat)
    requires |constants| == |vars| == |s| && i <= |vars|
    requires forall k :: 0 <= k < |vars| ==> TermsAgree(vars, constants, s, t, k)
    ensures Offset(vars, i) <= |t| && SumTo(s, i) == SumTo(t, Offset(vars, i)) + SumTo(constants, i)
  {
    if i > 0 {
      SumByVariable(vars, constants, s, t, i - 1);
      assert TermsAgree(vars, constants, s, t, i - 1);
      var c := Offset(vars, i - 1);
      if Columns(vars[i - 1]) == 2 { assert SumTo(t, c + 2) == SumTo(t, c + 1) + t[c + 1]; }
    }
  }

  lemma SubstitutedDot(vars: seq<LinearVariable>, a: Vector, y: Vector)
    requires |a| == |vars| && |y| == Offset(vars, |vars|)
    ensures Dot(a, Original(vars, y)) == Dot(Row(vars, a, |vars|), y) + Constant(vars, a)
  {
    var x, row, constants := Original(vars, y), Row(vars, a, |vars|), Constants(vars, a);
    var s, t := Products(a, x), Products(row, y);
    forall k | 0 <= k < |vars| ensures TermsAgree(vars, constants, s, t, k) {
      var product, constant, first, second := TermOf(vars, a, y, row, k, x, constants, s, t);
      TermAgrees(vars, constants, s, t, k, product, constant, first, second);
    }
    SumByVariable(vars, constants, s, t, |vars|);
  }

  // ---- The transformed constraints ----

  function UnitRow(column: nat, width: nat): (r: Vector)
    ensures |r| == width && forall j :: 0 <= j < width ==> r[j] == if j == column then 1.0 else 0.0
  {
    seq(width, j => if j == column then 1.0 else 0.0)
  }

  lemma UnitDot(column: nat, y: Vector)
    requires column < |y|
    ensures Dot(UnitRow(column, |y|), y) == y[column]
  {
    var s := Products(UnitRow(column, |y|), y);
    SumExtract(s, |y|, column);
    SumZero(s[column := 0.0], |y|);
  }

  /** The row that keeps a doubly bounded variable below its upper bound. */
  function SpanRow(v: LinearVariable, column: nat, width: nat): seq<GeneralLinearConstraint> {
    if v.lower.Some? && v.upper.Some?
    then [GeneralLinearConstraint(UnitRow(column, width), LessOrEqual, v.upper.value - v.lower.value)]
    else []
  }

  /** The span rows of the first `i` variables. */
  function SpanRows(vars: seq<LinearVariable>, i: nat, width: nat): seq<GeneralLinearConstraint>
    requires i <= |vars|
  {
    if i == 0 then [] else SpanRows(vars, i - 1, width) + SpanRow(vars[i - 1], Offset(vars, i - 1), width)
  }

  function TransformedConstraint(vars: seq<LinearVariable>, c: GeneralLinearConstraint): GeneralLinearConstraint
    requires |c.coefficients| == |vars|
  {
    GeneralLinearConstraint(Row(vars, c.coefficients, |vars|), c.relation, c.rhs - Constant(vars, c.coefficients))
  }

  function SubstitutedConstraints(p: BoundedLinearProgram): (r: seq<GeneralLinearConstraint>)
    requires Widths(p.constraints, |p.variables|)
    ensures |r| == |p.constraints|
    ensures forall i :: 0 <= i < |r| ==> r[i] == TransformedConstraint(p.variables, p.constraints[i])
  {
    seq(|p.constraints|, i requires 0 <= i < |p.constraints| => TransformedConstraint(p.variables, p.constraints[i]))
  }

  function TransformedConstraints(p: BoundedLinearProgram): seq<GeneralLinearConstraint>
    requires Widths(p.constraints, |p.variables|)
  {
    SubstitutedConstraints(p) + SpanRows(p.variables, |p.variables|, Offset(p.variables, |p.variables|))
  }

  lemma AllSatisfiedAppend(rows: seq<GeneralLinearConstraint>, row: GeneralLinearConstraint, y: Vector)
    ensures AllSatisfied(rows + [row], y) <==> AllSatisfied(rows, y) && Satisfies(row, y)
  {
    var all := rows + [row];
    assert all[|rows|] == row && forall r :: 0 <= r < |rows| ==> all[r] == rows[r];
  }

  ghost predicate BelowUppers(vars: seq<LinearVariable>, y: Vector, i: nat)
    requires |y| == Offset(vars, |vars|) && i <= |vars|
  {
    forall k {:trigger OriginalAt(vars, y, k)} ::
      0 <= k < i && vars[k].lower.Some? && vars[k].upper.Some? ==> OriginalAt(vars, y, k) <= vars[k].upper.value
  }

  /** The span rows say exactly that the doubly bounded variables stay below their upper bounds. */
  lemma {:induction false} SpanRowsMeaning(vars: seq<LinearVariable>, i: nat, y: Vector)
    requires |y| == Offset(vars, |vars|) && i <= |vars|
    ensures AllSatisfied(SpanRows(vars, i, |y|), y) <==> BelowUppers(vars, y, i)
  {
    if i > 0 {
      SpanRowsMeaning(vars, i - 1, y);
      var v, c := vars[i - 1], Offset(vars, i - 1);
      OffsetsIncrease(vars, i, |vars|);
      if v.lower.Some? && v.upper.Some? {
        var row := GeneralLinearConstraint(UnitRow(c, |y|), LessOrEqual, v.upper.value - v.lower.value);
        UnitDot(c, y);
        AllSatisfiedAppend(SpanRows(vars, i - 1, |y|), row, y);
        assert Satisfies(row, y) <==> OriginalAt(vars, y, i - 1) <= v.upper.value;
      } else {
        assert SpanRows(vars, i, |y|) == SpanRows(vars, i - 1, |y|);
      }
      assert BelowUppers(vars, y, i) <==>
        (BelowUppers(vars, y, i - 1) && (v.lower.Some? && v.upper.Some? ==> OriginalAt(vars, y, i - 1) <= v.upper.value));
    }
  }

  /** Non-negativity of the new columns is the one-sided bounds of the old variables. */
  lemma NonNegativeMeansBounds(vars: seq<LinearVariable>, y: Vector, i: nat)
    requires |y| == Offset(vars, |vars|) && NonNegative(y) && i < |vars|
    ensures vars[i].lower.Some? ==> vars[i].lower.value <= OriginalAt(vars, y, i)
    ensures vars[i].lower.None? && vars[i].upper.Some? ==> OriginalAt(vars, y, i) <= vars[i].upper.value
  {
    OffsetsIncrease(vars, i + 1, |vars|);
  }

  lemma BoundsMeanSpans(vars: seq<LinearVariable>, y: Vector)
    requires |y| == Offset(vars, |vars|) && NonNegative(y)
    ensures AllSatisfied(SpanRows(vars, |vars|, |y|), y) <==>
              forall i :: 0 <= i < |vars| ==> WithinBounds(vars[i], Original(vars, y)[i])
  {
    SpanRowsMeaning(vars, |vars|, y);
    forall i | 0 <= i < |vars| ensures
      WithinBounds(vars[i], Original(vars, y)[i]) <==>
        (vars[i].lower.Some? && vars[i].upper.Some? ==> OriginalAt(vars, y, i) <= vars[i].upper.value)
    {
      NonNegativeMeansBounds(vars, y, i);
    }
  }

  lemma AllSatisfiedConcat(front: seq<GeneralLinearConstraint>, back: seq<GeneralLinearConstraint>, y: Vector)
    ensures AllSatisfied(front + back, y) <==> AllSatisfied(front, y) && AllSatisfied(back, y)
  {
    var all := front + back;
    assert forall r :: 0 <= r < |front| ==> all[r] == front[r];
    assert forall r :: 0 <= r < |back| ==> all[|front| + r] == back[r];
    forall r | AllSatisfied(all, y) && 0 <= r < |back| ensures Satisfies(back[r], y) {
      assert Satisfies(all[|front| + r], y);
    }
  }

  lemma SubstitutedSatisfied(p: BoundedLinearProgram, y: Vector)
    requires Widths(p.constraints, |p.variables|) && |y| == Offset(p.variables, |p.variables|)
    ensures AllSatisfied(SubstitutedConstraints(p), y) <==> AllSatisfied(p.constraints, Original(p.variables, y))
  {
    var x, front := Original(p.variables, y), SubstitutedConstraints(p);
    forall i | 0 <= i < |front| ensures Satisfies(front[i], y) <==> Satisfies(p.constraints[i], x) {
      SubstitutedDot(p.variables, p.constraints[i].coefficients, y);
    }
  }

  lemma TransformedFeasibility(p: BoundedLinearProgram, y: Vector)
    requires Widths(p.constraints, |p.variables|) && |y| == Offset(p.variables, |p.variables|) && NonNegative(y)
    ensures FeasiblePoint(TransformedConstraints(p), |y|, y) <==> BoundedFeasible(p, Original(p.variables, y))
  {
    AllSatisfiedConcat(SubstitutedConstraints(p), SpanRows(p.variables, |p.variables|, |y|), y);
    BoundsMeanSpans(p.variables, y);
    SubstitutedSatisfied(p, y);
  }

  // ---- Every point within the bounds has a preimage ----

  function PreimagePiece(v: LinearVariable, x: real): (r: Vector)
    ensures |r| == Columns(v)
  {
    if v.lower.Some? then [x - v.lower.value]
    else if v.upper.Some? then [v.upper.value - x]
    else if x >= 0.0 then [x, 0.0] else [0.0, -x]
  }

  ghost function Preimage(vars: seq<LinearVariable>, x: Vector, i: nat): (y: Vector)
    requires i <= |vars| && i <= |x|
    ensures |y| == Offset(vars, i)
  {
    if i == 0 then [] else Preimage(vars, x, i - 1) + PreimagePiece(vars[i - 1], x[i - 1])
  }

  lemma {:induction false} PreimagePrefix(vars: seq<LinearVariable>, x: Vector, i: nat, k: nat)
    requires i <= k <= |vars| && k <= |x|
    ensures Preimage(vars, x, i) <= Preimage(vars, x, k)
    decreases k
  {
    if i < k { PreimagePrefix(vars, x, i, k - 1); }
  }

  lemma {:induction false} PreimageNonNegative(vars: seq<LinearVariable>, x: Vector, i: nat)
    requires i <= |vars| && i <= |x| && forall k :: 0 <= k < i ==> WithinBounds(vars[k], x[k])
    ensures NonNegative(Preimage(vars, x, i))
  {
    if i > 0 { PreimageNonNegative(vars, x, i - 1); }
  }

  lemma PreimageReturns(vars: seq<LinearVariable>, x: Vector)
    requires |x| == |vars|
    ensures Original(vars, Preimage(vars, x, |vars|)) == x
  {
    var y := Preimage(vars, x, |vars|);
    forall i | 0 <= i < |vars| ensures Original(vars, y)[i] == x[i] {
      PreimageReturnsAt(vars, x, i);
    }
  }

  lemma PreimageReturnsAt(vars: seq<LinearVariable>, x: Vector, i: nat)
    requires |x| == |vars| && i < |vars|
    ensures OriginalAt(vars, Preimage(vars, x, |vars|), i) == x[i]
  {
    PreimageEntries(vars, x, i);
  }

  lemma PreimageEntries(vars: seq<LinearVariable>, x: Vector, i: nat)
    requires |x| == |vars| && i < |vars|
    ensures var y := Preimage(vars, x, |vars|);
            && Offset(vars, i) + Columns(vars[i]) <= |y|
            && y[Offset(vars, i)] == PreimagePiece(vars[i], x[i])[0]
            && (Columns(vars[i]) == 2 ==> y[Offset(vars, i) + 1] == PreimagePiece(vars[i], x[i])[1])
  {
    PreimagePrefix(vars, x, i + 1, |vars|);
    OffsetsIncrease(vars, i + 1, |vars|);
  }

  /** The transformation preserves meaning: feasible points correspond, objectives differ by a constant. */
  lemma TransformPreservesMeaning(p: BoundedLinearProgram)
    requires Widths(p.constraints, |p.variables|)
    ensures var (w, c) := (Offset(p.variables, |p.variables|), Objective(p.variables));
      && (forall y :: FeasiblePoint(TransformedConstraints(p), w, y) ==>
            BoundedFeasible(p, Original(p.variables, y))
            && Dot(c, Original(p.variables, y)) == Dot(Row(p.variables, c, |c|), y) + Constant(p.variables, c))
      && (forall x :: BoundedFeasible(p, x) ==>
            FeasiblePoint(TransformedConstraints(p), w, Preimage(p.variables, x, |p.variables|))
            && Original(p.variables, Preimage(p.variables, x, |p.variables|)) == x)
  {
    var w, c := Offset(p.variables, |p.variables|), Objective(p.variables);
    forall y | FeasiblePoint(TransformedConstraints(p), w, y)
      ensures BoundedFeasible(p, Original(p.variables, y))
      ensures Dot(c, Original(p.variables, y)) == Dot(Row(p.variables, c, |c|), y) + Constant(p.variables, c)
    {
      TransformedFeasibility(p, y);
      SubstitutedDot(p.variables, c, y);
    }
    forall x | BoundedFeasible(p, x)
      ensures FeasiblePoint(TransformedConstraints(p), w, Preimage(p.variables, x, |p.variables|))
      ensures Original(p.variables, Preimage(p.variables, x, |p.variables|)) == x
    {
      PreimageNonNegative(p.variables, x, |p.variables|);
      PreimageReturns(p.variables, x);
      TransformedFeasibility(p, Preimage(p.variables, x, |p.variables|));
    }
  }

  // ---- The transformation as a program ----

  /** Span rows as first created, before they are widened to the final width. */
  function NarrowSpanRows(vars: seq<LinearVariable>, i: nat): seq<GeneralLinearConstraint>
    requires i <= |vars|
  {
    if i == 0 then [] else NarrowSpanRows(vars, i - 1) + SpanRow(vars[i - 1], Offset(vars, i - 1), Offset(vars, i))
  }

  function Widened(c: GeneralLinearConstraint, width: nat): GeneralLinearConstraint {
    if |c.coefficients| <= width
    then c.(coefficients := c.coefficients + seq(width - |c.coefficients|, _ => 0.0))
    else c.(coefficients := c.coefficients[..width])
  }

  lemma {:induction false} WidenedSpanRows(vars: seq<LinearVariable>, i: nat, width: nat)
    requires i <= |vars| && Offset(vars, i) <= width
    ensures |NarrowSpanRows(vars, i)| == |SpanRows(vars, i, width)|
    ensures forall r :: 0 <= r < |SpanRows(vars, i, width)| ==>
      Widened(NarrowSpanRows(vars, i)[r], width) == SpanRows(vars, i, width)[r]
  {
    if i > 0 {
      WidenedSpanRows(vars, i - 1, width);
      if vars[i - 1].lower.Some? && vars[i - 1].upper.Some? {
        var narrow := UnitRow(Offset(vars, i - 1), Offset(vars, i));
        assert narrow + seq(width - |narrow|, _ => 0.0) == UnitRow(Offset(vars, i - 1), width);
      }
    }
  }

  ghost predicate TransformsUpTo(vars: seq<LinearVariable>, transforms: seq<VariableTransform>, i: nat)
    requires i <= |vars|
  {
    |transforms| == i && forall k {:trigger transforms[k]} :: 0 <= k < i ==> transforms[k] == TransformOf(vars[k], Offset(vars, k))
  }

  /** The substitution for one variable: new columns, constant, and the span row of a box. */
  method TransformVariable(variable: LinearVariable, objective: Vector, constant: real)
      returns (transform: VariableTransform, extended: Vector, total: real, spanRow: seq<GeneralLinearConstraint>)
    ensures transform == TransformOf(variable, |objective|)
    ensures extended == objective + Piece(variable, variable.objectiveCoefficient)
    ensures total == constant + Contribution(variable, variable.objectiveCoefficient)
    ensures spanRow == SpanRow(variable, |objective|, |extended|)
  {
    var coefficient := variable.objectiveCoefficient;
    var column := |objective|;
    spanRow := [];
    if variable.lower.Some? {
      extended := objective + [coefficient];
      total := constant + coefficient * variable.lower.value;
      transform := LowerShift(variable.lower.value, column);
      if variable.upper.Some? {
        spanRow := [GeneralLinearConstraint(UnitRow(column, |extended|), LessOrEqual, variable.upper.value - variable.lower.value)];
      }
    } else if variable.upper.Some? {
      extended := objective + [-coefficient];
      total := constant + coefficient * variable.upper.value;
      transform := UpperShift(variable.upper.value, column);
    } else {
      extended := objective + [coefficient];
      var negative := |extended|;
      extended := extended + [-coefficient];
      total := constant;
      transform := FreeSplit(column, negative);
    }
  }

  lemma ConstantStep(vars: seq<LinearVariable>, a: Vector, i: nat, before: real, coefficient: real, after: real)
    requires i < |vars| == |a| && before == SumTo(Constants(vars, a), i) && a[i] == coefficient
    requires after == before + Contribution(vars[i], coefficient)
    ensures after == SumTo(Constants(vars, a), i + 1)
  {
  }

  ghost predicate TransformedSoFar(vars: seq<LinearVariable>, c: Vector, transforms: seq<VariableTransform>,
                                   objective: Vector, constant: real, upperRows: seq<GeneralLinearConstraint>, i: nat)
    requires i <= |vars| == |c|
  {
    && TransformsUpTo(vars, transforms, i) && objective == Row(vars, c, i)
    && constant == SumTo(Constants(vars, c), i) && upperRows == NarrowSpanRows(vars, i)
  }

  lemma TransformedNext(vars: seq<LinearVariable>, c: Vector, transforms: seq<VariableTransform>, objective: Vector, constant: real,
                        upperRows: seq<GeneralLinearConstraint>, i: nat, transform: VariableTransform, piece: Vector, total: real,
                        spanRow: seq<GeneralLinearConstraint>)
    requires i < |vars| == |c| && TransformedSoFar(vars, c, transforms, objective, constant, upperRows, i)
    requires transform == TransformOf(vars[i], Offset(vars, i)) && piece == Piece(vars[i], c[i])
    requires total == SumTo(Constants(vars, c), i + 1) && spanRow == SpanRow(vars[i], Offset(vars, i), Offset(vars, i + 1))
    ensures TransformedSoFar(vars, c, transforms + [transform], objective + piece, total, upperRows + spanRow, i + 1)
  {
    assert TransformsUpTo(vars, transforms + [transform], i + 1);
    assert objective + piece == Row(vars, c, i + 1);
    assert upperRows + spanRow == NarrowSpanRows(vars, i + 1);
  }

  /** Chooses a substitution for every variable and collects the transformed objective. */
  method TransformVariables(vars: seq<LinearVariable>)
      returns (transforms: seq<VariableTransform>, objective: Vector, constant: real, upperRows: seq<GeneralLinearConstraint>)
    ensures TransformsUpTo(vars, transforms, |vars|)
    ensures objective == Row(vars, Objective(vars), |vars|)
    ensures constant == Constant(vars, Objective(vars))
    ensures upperRows == SpanRows(vars, |vars|, |objective|)
  {
    ghost var c := Objective(vars);
    transforms, objective, constant, upperRows := [], [], 0.0, [];
    for i := 0 to |vars|
      invariant TransformedSoFar(vars, c, transforms, objective, constant, upperRows, i)
    {
      var transform, extended, total, spanRow := TransformVariable(vars[i], objective, constant);
      ConstantStep(vars, c, i, constant, vars[i].objectiveCoefficient, total);
      TransformedNext(vars, c, transforms, objective, constant, upperRows, i, transform, Piece(vars[i], c[i]), total, spanRow);
      transforms, objective, constant, upperRows := transforms + [transform], extended, total, upperRows + spanRow;
    }
    upperRows := WidenRows(vars, upperRows, |objective|);
  }

  method WidenRows(ghost vars: seq<LinearVariable>, rows: seq<GeneralLinearConstraint>, width: nat)
      returns (widened: seq<GeneralLinearConstraint>)
    requires rows == NarrowSpanRows(vars, |vars|) && width == Offset(vars, |vars|)
    ensures widened == SpanRows(vars, |vars|, width)
  {
    widened := rows;
    for r := 0 to |rows|
      invariant |widened| == |rows|
      invariant forall k :: 0 <= k < |rows| ==> widened[k] == if k < r then Widened(rows[k], width) else rows[k]
    {
      widened := widened[r := Widened(widened[r], width)];
    }
    WidenedSpanRows(vars, |vars|, width);
  }

  /** The columns of the first `i` variables are written, the others still zero. */
  ghost predicate WrittenUpTo(vars: seq<LinearVariable>, a: Vector, row: Vector, i: nat)
    requires i <= |vars| == |a|
  {
    && |row| == Offset(vars, |vars|) && Offset(vars, i) <= |row|
    && row[..Offset(vars, i)] == Row(vars, a, i)
    && forall j :: Offset(vars, i) <= j < |row| ==> row[j] == 0.0
  }

  lemma WriteVariable(vars: seq<LinearVariable>, a: Vector, before: Vector, after: Vector, i: nat)
    requires i < |vars| == |a| && WrittenUpTo(vars, a, before, i) && |after| == |before|
    requires Offset(vars, i) + Columns(vars[i]) <= |before|
    requires after == before[..Offset(vars, i)] + Piece(vars[i], a[i]) + before[Offset(vars, i + 1)..]
    ensures WrittenUpTo(vars, a, after, i + 1)
  {
    var c, piece := Offset(vars, i), Piece(vars[i], a[i]);
    assert after[..c + |piece|] == before[..c] + piece;
  }

  lemma NothingWritten(vars: seq<LinearVariable>, a: Vector, zeros: Vector)
    requires |vars| == |a| && |zeros| == Offset(vars, |vars|) && forall j :: 0 <= j < |zeros| ==> zeros[j] == 0.0
    ensures WrittenUpTo(vars, a, zeros, 0)
  {
  }

  lemma WrittenCompletely(vars: seq<LinearVariable>, c: GeneralLinearConstraint, row: Vector, constant: real)
    requires |vars| == |c.coefficients| && WrittenUpTo(vars, c.coefficients, row, |vars|)
    requires constant == SumTo(Constants(vars, c.coefficients), |vars|)
    ensures GeneralLinearConstraint(row, c.relation, c.rhs - constant) == TransformedConstraint(vars, c)
  {
    assert row[..|row|] == row;
  }

  /** Adds one original coefficient to the columns of its variable. */
  method AddCoefficient(ghost v: LinearVariable, transform: VariableTransform, ghost column: nat, coefficients: Vector, original: real, constant: real)
      returns (after: Vector, total: real)
    requires transform == TransformOf(v, column) && column + Columns(v) <= |coefficients|
    requires coefficients[column] == 0.0 && (Columns(v) == 2 ==> coefficients[column + 1] == 0.0)
    ensures total == constant + Contribution(v, original)
    ensures after == coefficients[..column] + Piece(v, original) + coefficients[column + Columns(v)..]
  {
    match transform {
      case LowerShift(lower, at) =>
        after := coefficients[at := coefficients[at] + original];
        total := constant + original * lower;
      case UpperShift(upper, at) =>
        after := coefficients[at := coefficients[at] - original];
        total := constant + original * upper;
      case FreeSplit(positive, negative) =>
        after := coefficients[positive := coefficients[positive] + original];
        after := after[negative := after[negative] - original];
        total := constant;
    }
  }

  method WriteCoefficient(ghost vars: seq<LinearVariable>, ghost a: Vector, transform: VariableTransform, ghost i: nat,
                          original: real, coefficients: Vector, constant: real)
      returns (after: Vector, total: real)
    requires i < |vars| == |a| && transform == TransformOf(vars[i], Offset(vars, i)) && original == a[i]
    requires WrittenUpTo(vars, a, coefficients, i) && constant == SumTo(Constants(vars, a), i)
    ensures WrittenUpTo(vars, a, after, i + 1) && total == SumTo(Constants(vars, a), i + 1)
  {
    OffsetsIncrease(vars, i + 1, |vars|);
    after, total := AddCoefficient(vars[i], transform, Offset(vars, i), coefficients, original, constant);
    WriteVariable(vars, a, coefficients, after, i);
    ConstantStep(vars, a, i, constant, original, total);
  }

  /** Rewrites one constraint in the new columns. */
  method TransformConstraint(vars: seq<LinearVariable>, transforms: seq<VariableTransform>, width: nat, constraint: GeneralLinearConstraint)
      returns (transformed: GeneralLinearConstraint)
    requires |constraint.coefficients| == |vars| && TransformsUpTo(vars, transforms, |vars|) && width == Offset(vars, |vars|)
    ensures transformed == TransformedConstraint(vars, constraint)
  {
    ghost var a := constraint.coefficients;
    var coefficients := seq(width, _ => 0.0);
    var constant := 0.0;
    NothingWritten(vars, a, coefficients);
    for i := 0 to |transforms|
      invariant WrittenUpTo(vars, a, coefficients, i) && constant == SumTo(Constants(vars, a), i)
    {
      coefficients, constant := WriteCoefficient(vars, a, transforms[i], i, constraint.coefficients[i], coefficients, constant);
    }
    WrittenCompletely(vars, constraint, coefficients, constant);
    return GeneralLinearConstraint(coefficients, constraint.relation, constraint.rhs - constant);
  }

  method ReconstructValue(ghost v: LinearVariable, ghost column: nat, transform: VariableTransform, y: Vector) returns (value: real)
    requires transform == TransformOf(v, column) && column + Columns(v) <= |y|
    ensures value == Restored(v, y[column], if Columns(v) == 2 then y[column + 1] else 0.0)
  {
    match transform {
      case LowerShift(lower, at) => value := lower + y[at];
      case UpperShift(upper, at) => value := upper - y[at];
      case FreeSplit(positive, negative) => value := y[positive] - y[negative];
    }
  }

  lemma TakeNext<T>(s: seq<T>, i: nat, x: T)
    requires i < |s| && s[i] == x
    ensures s[..i + 1] == s[..i] + [x]
  {
  }

  /** Maps a solution of the transformed program back. */
  method Reconstruct(ghost vars: seq<LinearVariable>, transforms: seq<VariableTransform>, y: Vector) returns (values: Vector)
    requires TransformsUpTo(vars, transforms, |vars|) && |y| == Offset(vars, |vars|)
    ensures values == Original(vars, y)
  {
    values := [];
    for i := 0 to |transforms|
      invariant values == Original(vars, y)[..i]
    {
      OffsetsIncrease(vars, i + 1, |vars|);
      var value := ReconstructValue(vars[i], Offset(vars, i), transforms[i], y);
      assert value == OriginalAt(vars, y, i);
      TakeNext(Original(vars, y), i, value);
      values := values + [value];
    }
    assert Original(vars, y)[..|vars|] == Original(vars, y);
  }

  // ---- The solver ----

  ghost predicate BoundsValid(v: LinearVariable) {
    v.lower.Some? && v.upper.Some? ==> v.lower.value <= v.upper.value
  }

  ghost predicate BoundedProblemValid(p: BoundedLinearProgram) {
    && p.variables != [] && p.maximumIterations > 0
    && (forall i :: 0 <= i < |p.variables| ==> BoundsValid(p.variables[i]))
    && Widths(p.constraints, |p.variables|)
  }

  ghost predicate BoundedObjectiveExceeds(p: BoundedLinearProgram, bound: real) {
    exists x :: BoundedFeasible(p, x) && Dot(Objective(p.variables), x) > bound
  }

  /** The program over non-negative variables that is handed to the two-phase solver. */
  ghost function Transformed(p: BoundedLinearProgram): GeneralLinearProgram
    requires Widths(p.constraints, |p.variables|)
  {
    GeneralLinearProgram(Row(p.variables, Objective(p.variables), |p.variables|), TransformedConstraints(p), p.maximumIterations)
  }

  /** The correct answer, in the caller's coordinates. */
  ghost predicate BoundedAnswers(p: BoundedLinearProgram, r: Result<BoundedLinearSolution, BoundedLinearError>) {
    match r
    case Ok(s) =>
      && BoundedProblemValid(p) && BoundedFeasible(p, s.values)
      && s.objectiveValue == Dot(Objective(p.variables), s.values)
      && forall x :: BoundedFeasible(p, x) ==> Dot(Objective(p.variables), x) <= s.objectiveValue
    case Err(General(Infeasible)) => BoundedProblemValid(p) && forall x :: !BoundedFeasible(p, x)
    case Err(General(Unbounded)) => BoundedProblemValid(p) && forall bound: real :: BoundedObjectiveExceeds(p, bound)
    case Err(General(IterationLimitExceeded(iterations))) =>
      BoundedProblemValid(p) && iterations == p.maximumIterations < TwoPhaseBases(Transformed(p))
    case Err(General(_)) => false
    case Err(EmptyProblem) => p.variables == []
    case Err(ZeroIterationLimit) => p.variables != [] && p.maximumIterations == 0
    case Err(InvalidBounds(i)) =>
      && p.variables != [] && p.maximumIterations > 0 && i < |p.variables| && !BoundsValid(p.variables[i])
      && forall k :: 0 <= k < i ==> BoundsValid(p.variables[k])
    case Err(WidthMismatch) =>
      && p.variables != [] && p.maximumIterations > 0
      && (forall i :: 0 <= i < |p.variables| ==> BoundsValid(p.variables[i])) && !Widths(p.constraints, |p.variables|)
  }

  method ValidateBounded(p: BoundedLinearProgram) returns (r: Result<(), BoundedLinearError>)
    ensures r.Ok? ==> BoundedProblemValid(p)
    ensures r.Err? ==> BoundedAnswers(p, Err(r.error))
  {
    if p.variables == [] { return Err(EmptyProblem); }
    if p.maximumIterations == 0 { return Err(ZeroIterationLimit); }
    for i := 0 to |p.variables|
      invariant forall k :: 0 <= k < i ==> BoundsValid(p.variables[k])
    {
      var v := p.variables[i];
      if v.lower.Some? && v.upper.Some? && v.lower.value > v.upper.value { return Err(InvalidBounds(i)); }
    }
    for i := 0 to |p.constraints|
      invariant forall k :: 0 <= k < i ==> |p.constraints[k].coefficients| == |p.variables|
    {
      if |p.constraints[i].coefficients| != |p.variables| { return Err(WidthMismatch); }
    }
    return Ok(());
  }

  /** An answer for the transformed program is an answer for the original one. */
  lemma AnswerTransfers(p: BoundedLinearProgram, q: GeneralLinearProgram, r: Result<GeneralLinearSolution, GeneralLinearError>, values: Vector)
    requires BoundedProblemValid(p) && Answers(q, r) && q == Transformed(p)
    requires Widths(q.constraints, |q.objective|) && q.objective != []
    requires r.Ok? ==> |r.value.values| == |q.objective| && values == Original(p.variables, r.value.values)
    ensures r.Ok? ==> BoundedAnswers(p, Ok(BoundedLinearSolution(values, Dot(Objective(p.variables), values), r.value.values, r.value.iterations)))
    ensures r.Err? ==> BoundedAnswers(p, Err(General(r.error)))
  {
    var c := Objective(p.variables);
    TransformPreservesMeaning(p);
    match r
    case Ok(s) =>
      forall x | BoundedFeasible(p, x) ensures Dot(c, x) <= Dot(c, values) {
        var y := Preimage(p.variables, x, |p.variables|);
        assert FeasiblePoint(q.constraints, |q.objective|, y);
      }
    case Err(Infeasible) =>
      forall x ensures !BoundedFeasible(p, x) {
        assert !FeasiblePoint(q.constraints, |q.objective|, if |x| == |p.variables| then Preimage(p.variables, x, |p.variables|) else []);
      }
    case Err(Unbounded) =>
      forall bound: real ensures BoundedObjectiveExceeds(p, bound) {
        assert ObjectiveExceeds(q.constraints, q.objective, bound - Constant(p.variables, c));
        var y :| FeasiblePoint(q.constraints, |q.objective|, y) && Dot(q.objective, y) > bound - Constant(p.variables, c);
        assert BoundedFeasible(p, Original(p.variables, y));
      }
    case Err(_) =>
  }

  lemma TransformedWidths(p: BoundedLinearProgram)
    requires BoundedProblemValid(p)
    ensures Widths(TransformedConstraints(p), Offset(p.variables, |p.variables|)) && Offset(p.variables, |p.variables|) > 0
  {
    SpanWidths(p.variables, |p.variables|, Offset(p.variables, |p.variables|));
    OffsetsIncrease(p.variables, 0, |p.variables|);
  }

  lemma {:induction false} SpanWidths(vars: seq<LinearVariable>, i: nat, width: nat)
    requires i <= |vars|
    ensures Widths(SpanRows(vars, i, width), width)
  {
    if i > 0 { SpanWidths(vars, i - 1, width); }
  }

  method TransformConstraints(p: BoundedLinearProgram, transforms: seq<VariableTransform>, width: nat)
      returns (transformed: seq<GeneralLinearConstraint>)
    requires Widths(p.constraints, |p.variables|) && TransformsUpTo(p.variables, transforms, |p.variables|)
    requires width == Offset(p.variables, |p.variables|)
    ensures transformed == SubstitutedConstraints(p)
  {
    transformed := [];
    for i := 0 to |p.constraints|
      invariant transformed == SubstitutedConstraints(p)[..i]
    {
      var constraint := TransformConstraint(p.variables, transforms, width, p.constraints[i]);
      TakeNext(SubstitutedConstraints(p), i, constraint);
      transformed := transformed + [constraint];
    }
    assert SubstitutedConstraints(p)[..|p.constraints|] == SubstitutedConstraints(p);
  }

  method SolveBoundedLinearProgram(p: BoundedLinearProgram) returns (r: Result<BoundedLinearSolution, BoundedLinearError>)
    ensures BoundedAnswers(p, r)
  {
    var valid := ValidateBounded(p);
    if valid.Err? { return Err(valid.error); }
    var transforms, objective, objectiveConstant, upperRows := TransformVariables(p.variables);
    var transformed := TransformConstraints(p, transforms, |objective|);
    var q := GeneralLinearProgram(objective, transformed + upperRows, p.maximumIterations);
    TransformedWidths(p);
    var inner := SolveGeneralTwoPhaseSimplex(q);
    if inner.Err? {
      AnswerTransfers(p, q, inner, []);
      return Err(General(inner.error));
    }
    var values := Reconstruct(p.variables, transforms, inner.value.values);
    AnswerTransfers(p, q, inner, values);
    var total := Dot(Objective(p.variables), values);
    var objectiveValue := objectiveConstant + total - objectiveConstant;
    return Ok(BoundedLinearSolution(values, objectiveValue, inner.value.values, inner.value.iterations));
  }
}
