/** Interval bounds on linear sums, with which the solvers refute partial assignments. */
module LinearBounds {
  import opened Constraints
  import opened LinearAlgebra

  function TermLow(c: int, low: int, high: int): int {
    if c >= 0 then c * low else c * high
  }

  function TermHigh(c: int, low: int, high: int): int {
    if c >= 0 then c * high else c * low
  }

  lemma TermBounds(c: int, low: int, x: int, high: int)
    requires low <= x <= high
    ensures TermLow(c, low, high) <= c * x <= TermHigh(c, low, high)
  {
    if c >= 0 {
      Scale(c, low, x);
      Scale(c, x, high);
    } else {
      Scale(-c, low, x);
      Scale(-c, x, high);
    }
  }

  lemma Scale(c: int, x: int, y: int)
    requires c >= 0 && x <= y
    ensures c * x <= c * y
  {
  }

  /** The sum of the first `n` terms. */
  ghost function Sum(c: seq<int>, x: seq<int>, n: nat): int
    requires n <= |c| && n <= |x|
  {
    if n == 0 then 0 else Sum(c, x, n - 1) + c[n - 1] * x[n - 1]
  }

  ghost function Least(c: seq<int>, low: seq<int>, high: seq<int>, n: nat): int
    requires n <= |c| && n <= |low| == |high|
  {
    if n == 0 then 0 else Least(c, low, high, n - 1) + TermLow(c[n - 1], low[n - 1], high[n - 1])
  }

  ghost function Greatest(c: seq<int>, low: seq<int>, high: seq<int>, n: nat): int
    requires n <= |c| && n <= |low| == |high|
  {
    if n == 0 then 0 else Greatest(c, low, high, n - 1) + TermHigh(c[n - 1], low[n - 1], high[n - 1])
  }

  ghost predicate Between(low: seq<int>, x: seq<int>, high: seq<int>) {
    |low| == |x| == |high| && forall i :: 0 <= i < |x| ==> low[i] <= x[i] <= high[i]
  }

  lemma {:induction false} SumBetween(c: seq<int>, low: seq<int>, x: seq<int>, high: seq<int>, n: nat)
    requires n <= |c| && n <= |x| && Between(low, x, high)
    ensures Least(c, low, high, n) <= Sum(c, x, n) <= Greatest(c, low, high, n)
    ensures low == x == high ==> Least(c, low, high, n) == Sum(c, x, n) == Greatest(c, low, high, n)
  {
    if n > 0 {
      SumBetween(c, low, x, high, n - 1);
      TermBounds(c[n - 1], low[n - 1], x[n - 1], high[n - 1]);
    }
  }

  /** Wider bounds give a wider interval. */
  lemma {:induction false} WiderBounds(c: seq<int>, low: seq<int>, high: seq<int>, innerLow: seq<int>, innerHigh: seq<int>, n: nat)
    requires n <= |c| && n <= |low| == |high| && n <= |innerLow| == |innerHigh|
    requires forall i :: 0 <= i < n ==> low[i] <= innerLow[i] && innerHigh[i] <= high[i]
    ensures Least(c, low, high, n) <= Least(c, innerLow, innerHigh, n)
    ensures Greatest(c, innerLow, innerHigh, n) <= Greatest(c, low, high, n)
  {
    if n > 0 {
      WiderBounds(c, low, high, innerLow, innerHigh, n - 1);
      WiderTerm(c[n - 1], low[n - 1], high[n - 1], innerLow[n - 1], innerHigh[n - 1]);
    }
  }

  lemma WiderTerm(c: int, low: int, high: int, innerLow: int, innerHigh: int)
    requires low <= innerLow && innerHigh <= high
    ensures TermLow(c, low, high) <= TermLow(c, innerLow, innerHigh)
    ensures TermHigh(c, innerLow, innerHigh) <= TermHigh(c, low, high)
  {
    if c >= 0 {
      Scale(c, low, innerLow);
      Scale(c, innerHigh, high);
    } else {
      Scale(-c, low, innerLow);
      Scale(-c, innerHigh, high);
    }
  }

  /** Some number between the bounds satisfies the relation; the test on a row interval. */
  predicate RelationPossible(relation: ConstraintRelation, minimum: int, maximum: int, rhs: int) {
    match relation
    case LessOrEqual => minimum <= rhs
    case GreaterOrEqual => maximum >= rhs
    case Equal => minimum <= rhs && rhs <= maximum
  }

  /** The bound test never refutes a satisfied row, and is exact once every variable is fixed. */
  lemma {:induction false} BoundTest(c: seq<int>, low: seq<int>, x: seq<int>, high: seq<int>, relation: ConstraintRelation, rhs: int)
    requires |c| == |x| && Between(low, x, high)
    ensures HoldsInt(relation, Sum(c, x, |c|), rhs) ==>
              RelationPossible(relation, Least(c, low, high, |c|), Greatest(c, low, high, |c|), rhs)
    ensures low == x == high && RelationPossible(relation, Least(c, low, high, |c|), Greatest(c, low, high, |c|), rhs) ==>
              HoldsInt(relation, Sum(c, x, |c|), rhs)
  {
    SumBetween(c, low, x, high, |c|);
  }

  // ---- What the test decides ----

  /** Integers as reals. */
  ghost function Reals(s: seq<int>): (r: Vector)
    ensures |r| == |s| && forall i :: 0 <= i < |r| ==> r[i] == s[i] as real
  {
    seq(|s|, i requires 0 <= i < |s| => s[i] as real)
  }

  lemma CastProduct(a: int, b: int)
    ensures (a * b) as real == a as real * b as real
  {
  }

  lemma {:induction false} RealSum(c: seq<int>, x: seq<int>, n: nat)
    requires n <= |c| == |x|
    ensures SumTo(Products(Reals(c), Reals(x)), n) == Sum(c, x, n) as real
  {
    if n > 0 {
      RealSum(c, x, n - 1);
      CastProduct(c[n - 1], x[n - 1]);
    }
  }

  /** Every variable at the end that makes the row smallest. */
  ghost function LowCorner(c: seq<int>, low: seq<int>, high: seq<int>): (x: seq<int>)
    requires |c| == |low| == |high|
    ensures |x| == |c| && forall i :: 0 <= i < |x| ==> x[i] == if c[i] >= 0 then low[i] else high[i]
  {
    seq(|c|, i requires 0 <= i < |c| => if c[i] >= 0 then low[i] else high[i])
  }

  lemma {:induction false} CornerSums(c: seq<int>, low: seq<int>, high: seq<int>, n: nat)
    requires n <= |c| == |low| == |high|
    ensures Sum(c, LowCorner(c, low, high), n) == Least(c, low, high, n)
    ensures Sum(c, LowCorner(c, high, low), n) == Greatest(c, low, high, n)
  {
    if n > 0 { CornerSums(c, low, high, n - 1); }
  }

  lemma RealTerm(c: int, low: int, y: real, high: int) returns (term: real)
    requires low as real <= y <= high as real
    ensures term == c as real * y && TermLow(c, low, high) as real <= term <= TermHigh(c, low, high) as real
  {
    term := c as real * y;
    var (a, l, h) := (c as real, low as real, high as real);
    CastProduct(c, low);
    CastProduct(c, high);
    if c >= 0 {
      ProductSign(a, y - l);
      ProductSign(a, h - y);
      Distribute(a, l, y - l);
      Distribute(a, y, h - y);
    } else {
      ProductSign(-a, y - l);
      ProductSign(-a, h - y);
      NegatedProduct(a, y - l);
      NegatedProduct(a, h - y);
      Distribute(a, l, y - l);
      Distribute(a, y, h - y);
    }
  }

  /** Each term lies between its least and its greatest value. */
  ghost predicate TermsBetween(c: seq<int>, low: seq<int>, p: Vector, high: seq<int>) {
    && |c| == |low| == |p| == |high|
    && forall i {:trigger p[i]} :: 0 <= i < |p| ==> TermLow(c[i], low[i], high[i]) as real <= p[i] <= TermHigh(c[i], low[i], high[i]) as real
  }

  lemma {:induction false} TermsSum(c: seq<int>, low: seq<int>, p: Vector, high: seq<int>, n: nat)
    requires n <= |c| && TermsBetween(c, low, p, high)
    ensures Least(c, low, high, n) as real <= SumTo(p, n) <= Greatest(c, low, high, n) as real
  {
    if n > 0 {
      var last := n - 1;
      TermsSum(c, low, p, high, last);
      assert TermLow(c[last], low[last], high[last]) as real <= p[last];
    }
  }

  lemma {:induction false} RealBetween(c: seq<int>, low: seq<int>, y: Vector, high: seq<int>)
    requires |c| == |y| && Boxed(Reals(low), y, Reals(high))
    ensures Least(c, low, high, |c|) as real <= Dot(Reals(c), y) <= Greatest(c, low, high, |c|) as real
  {
    var p := Products(Reals(c), y);
    forall i | 0 <= i < |p| ensures TermLow(c[i], low[i], high[i]) as real <= p[i] <= TermHigh(c[i], low[i], high[i]) as real {
      assert Reals(low)[i] <= y[i] <= Reals(high)[i];
      var term := RealTerm(c[i], low[i], y[i], high[i]);
      assert p[i] == term;
    }
    TermsSum(c, low, p, high, |c|);
  }

  ghost predicate Meets(c: seq<int>, low: seq<int>, high: seq<int>, relation: ConstraintRelation, rhs: int, y: Vector) {
    |c| == |y| && Boxed(Reals(low), y, Reals(high)) && HoldsReal(relation, Dot(Reals(c), y), rhs as real)
  }

  /** The test passes exactly when the row can be met by numbers, not necessarily whole, between the bounds. */
  lemma {:induction false} TestIsExact(c: seq<int>, low: seq<int>, high: seq<int>, relation: ConstraintRelation, rhs: int)
    requires |c| == |low| == |high| && forall i :: 0 <= i < |c| ==> low[i] <= high[i]
    ensures RelationPossible(relation, Least(c, low, high, |c|), Greatest(c, low, high, |c|), rhs) <==>
              exists y :: Meets(c, low, high, relation, rhs, y)
  {
    var (x, z, a) := (Reals(LowCorner(c, low, high)), Reals(LowCorner(c, high, low)), Reals(c));
    CornerSums(c, low, high, |c|);
    RealSum(c, LowCorner(c, low, high), |c|);
    RealSum(c, LowCorner(c, high, low), |c|);
    assert Boxed(Reals(low), x, Reals(high)) && Boxed(Reals(low), z, Reals(high));
    assert Dot(a, x) == Least(c, low, high, |c|) as real && Dot(a, z) == Greatest(c, low, high, |c|) as real;
    if RelationPossible(relation, Least(c, low, high, |c|), Greatest(c, low, high, |c|), rhs) {
      MeetsSomewhere(c, low, high, relation, rhs, x, z);
    }
    forall y | Meets(c, low, high, relation, rhs, y)
      ensures RelationPossible(relation, Least(c, low, high, |c|), Greatest(c, low, high, |c|), rhs)
    {
      RealBetween(c, low, y, high);
    }
  }

  lemma {:induction false} MeetsSomewhere(c: seq<int>, low: seq<int>, high: seq<int>, relation: ConstraintRelation, rhs: int, x: Vector, z: Vector)
    requires |c| == |low| == |high| == |x| == |z| && Boxed(Reals(low), x, Reals(high)) && Boxed(Reals(low), z, Reals(high))
    requires relation != GreaterOrEqual ==> Dot(Reals(c), x) <= rhs as real
    requires relation != LessOrEqual ==> Dot(Reals(c), z) >= rhs as real
    ensures exists y :: Meets(c, low, high, relation, rhs, y)
  {
    match relation {
      case LessOrEqual => assert Meets(c, low, high, relation, rhs, x);
      case GreaterOrEqual => assert Meets(c, low, high, relation, rhs, z);
      case Equal =>
        var y := MeetsBetween(Reals(c), x, z, rhs as real, rhs as real, Reals(low), Reals(high));
        assert Meets(c, low, high, relation, rhs, y);
    }
  }
}
