/** Families of domains on which the propagators of a finite-domain problem delete nothing, and the largest such family. */
module ConsistentFamilies {
  import opened Sorting
  import opened Filtering
  import opened Propagation
  import opened Constraints
  import opened LinearAlgebra
  import opened LinearBounds
  import opened FiniteDomainProblems

  type ConstraintList = seq<FiniteDomainConstraint>

  // ---- What each propagator asks of the domains ----

  /** If position `j` is fixed, position `i` cannot take its value. */
  ghost predicate FreeOfFixed(d: Domains, variables: seq<nat>, i: nat, j: nat)
    requires ValidIndices(variables, |d|) && i < |variables| && j < |variables|
  {
    |d[variables[j]]| == 1 ==> d[variables[j]][0] !in d[variables[i]]
  }

  function LowEnd(d: Domains, v: nat): int
    requires v < |d| && d[v] != []
  {
    d[v][0]
  }

  function HighEnd(d: Domains, v: nat): int
    requires v < |d| && d[v] != []
  {
    d[v][|d[v]| - 1]
  }

  /** The least value at each listed position, with one position fixed to `x`. */
  ghost function LowEnds(d: Domains, variables: seq<nat>, fixed: nat, x: int): (r: seq<int>)
    requires NoneEmpty(d) && ValidIndices(variables, |d|)
    ensures |r| == |variables|
    ensures forall i :: 0 <= i < |r| ==> r[i] == if i == fixed then x else LowEnd(d, variables[i])
  {
    seq(|variables|, i requires 0 <= i < |variables| => if i == fixed then x else LowEnd(d, variables[i]))
  }

  ghost function HighEnds(d: Domains, variables: seq<nat>, fixed: nat, x: int): (r: seq<int>)
    requires NoneEmpty(d) && ValidIndices(variables, |d|)
    ensures |r| == |variables|
    ensures forall i :: 0 <= i < |r| ==> r[i] == if i == fixed then x else HighEnd(d, variables[i])
  {
    seq(|variables|, i requires 0 <= i < |variables| => if i == fixed then x else HighEnd(d, variables[i]))
  }

  /** The row interval with position `fixed` at `x` and the others between their ends meets the relation. */
  ghost predicate LinearSupported(d: Domains, c: FiniteDomainConstraint, fixed: nat, x: int)
    requires c.Linear? && WellFormed(c, |d|) && NoneEmpty(d)
  {
    BoundsPossible(c, LowEnds(d, c.variables, fixed, x), HighEnds(d, c.variables, fixed, x))
  }

  /** What support means: the row can be met with position `fixed` at `x` and every other position anywhere between the least
      and the greatest value of its domain. */
  lemma {:induction false} SupportMeaning(d: Domains, c: FiniteDomainConstraint, fixed: nat, x: int)
    requires c.Linear? && WellFormed(c, |d|) && NoneEmpty(d) && AllSorted(d) && fixed < |c.variables|
    ensures LinearSupported(d, c, fixed, x) <==>
              exists y: Vector :: |y| == |c.variables| && y[fixed] == x as real && WithinEnds(d, c.variables, fixed, y)
                                && HoldsReal(c.relation, Dot(Reals(c.coefficients), y), c.rhs as real)
  {
    var low, high := LowEnds(d, c.variables, fixed, x), HighEnds(d, c.variables, fixed, x);
    forall i | 0 <= i < |low| ensures low[i] <= high[i] {
      assert StrictlySorted(d[c.variables[i]]);
    }
    TestIsExact(c.coefficients, low, high, c.relation, c.rhs);
    forall y: Vector | |y| == |c.variables|
      ensures Boxed(Reals(low), y, Reals(high)) <==> y[fixed] == x as real && WithinEnds(d, c.variables, fixed, y)
    {
      BoxedEnds(d, c.variables, fixed, x, y);
    }
    if LinearSupported(d, c, fixed, x) {
      var y :| Meets(c.coefficients, low, high, c.relation, c.rhs, y);
      assert y[fixed] == x as real && WithinEnds(d, c.variables, fixed, y);
    }
    forall y: Vector | |y| == |c.variables| && y[fixed] == x as real && WithinEnds(d, c.variables, fixed, y)
                     && HoldsReal(c.relation, Dot(Reals(c.coefficients), y), c.rhs as real)
      ensures LinearSupported(d, c, fixed, x)
    {
      assert Meets(c.coefficients, low, high, c.relation, c.rhs, y);
    }
  }

  /** Every position other than `fixed` lies between two values of its domain. */
  ghost predicate WithinEnds(d: Domains, variables: seq<nat>, fixed: nat, y: Vector)
    requires ValidIndices(variables, |d|)
  {
    |y| == |variables| && forall i: nat :: i < |y| && i != fixed ==> BetweenValues(d[variables[i]], y[i])
  }

  ghost predicate BetweenValues(s: seq<int>, y: real) {
    (exists l :: l in s && l as real <= y) && exists h :: h in s && y <= h as real
  }

  lemma {:induction false} BoxedEnds(d: Domains, variables: seq<nat>, fixed: nat, x: int, y: Vector)
    requires NoneEmpty(d) && AllSorted(d) && ValidIndices(variables, |d|) && fixed < |variables| == |y|
    ensures Boxed(Reals(LowEnds(d, variables, fixed, x)), y, Reals(HighEnds(d, variables, fixed, x))) <==>
              y[fixed] == x as real && WithinEnds(d, variables, fixed, y)
  {
    var low, high := Reals(LowEnds(d, variables, fixed, x)), Reals(HighEnds(d, variables, fixed, x));
    forall i: nat | i < |y| && i != fixed ensures low[i] <= y[i] <= high[i] <==> BetweenValues(d[variables[i]], y[i]) {
      EndsBound(d[variables[i]], y[i]);
    }
    assert low[fixed] == x as real == high[fixed];
  }

  lemma {:induction false} EndsBound(s: seq<int>, y: real)
    requires s != [] && StrictlySorted(s)
    ensures s[0] as real <= y <= s[|s| - 1] as real <==> BetweenValues(s, y)
  {
    assert s[0] in s && s[|s| - 1] in s;
    forall x | x in s ensures (s[0] as real <= x as real) && x as real <= s[|s| - 1] as real {
    }
  }

  ghost function LinearSupport(d: Domains, c: FiniteDomainConstraint, fixed: nat): iset<int>
    requires c.Linear? && WellFormed(c, |d|) && NoneEmpty(d)
  {
    iset x | LinearSupported(d, c, fixed, x)
  }

  /** An interval of the given duration starting at `x` stays clear of the fixed one. */
  predicate IsClear(x: int, fixedStart: int, fixedEnd: int, duration: int) {
    x >= fixedEnd || x + duration <= fixedStart
  }

  ghost function ClearOf(fixedStart: int, fixedEnd: int, duration: int): iset<int> {
    iset x | IsClear(x, fixedStart, fixedEnd, duration)
  }

  /** If position `i` is fixed, every start at position `j` stays clear of it. */
  ghost predicate ClearOfFixed(c: FiniteDomainConstraint, d: Domains, i: nat, j: nat)
    requires c.NoOverlap? && WellFormed(c, |d|) && i < |c.variables| && j < |c.variables|
  {
    |d[c.variables[i]]| == 1 ==>
      forall x :: x in d[c.variables[j]] ==>
        IsClear(x, d[c.variables[i]][0], d[c.variables[i]][0] + c.durations[i], c.durations[j])
  }

  /** The propagator of `c` deletes nothing from `d`. */
  ghost predicate Settles(c: FiniteDomainConstraint, d: Domains)
    requires WellFormed(c, |d|) && NoneEmpty(d)
  {
    match c
    case AllDifferent(variables) =>
      forall i: nat, j: nat :: i < |variables| && j < |variables| && i != j ==> FreeOfFixed(d, variables, i, j)
    case Linear(variables, _, _, _) =>
      forall i: nat, x :: i < |variables| && x in d[variables[i]] ==> LinearSupported(d, c, i, x)
    case NoOverlap(variables, _) =>
      forall i: nat, j: nat :: i < |variables| && j < |variables| && i != j ==> ClearOfFixed(c, d, i, j)
  }

  // ---- Consistent families ----

  ghost predicate ConsistentFamily(cs: ConstraintList, e: Domains)
    requires AllWellFormed(cs, |e|)
  {
    AllSorted(e) && NoneEmpty(e) && forall k :: 0 <= k < |cs| ==> Settles(cs[k], e)
  }

  /** A family of sub-domains of `n` on which no propagator deletes anything. */
  ghost predicate Inside(cs: ConstraintList, n: Domains, e: Domains)
    requires AllWellFormed(cs, |n|)
  {
    Within(e, n) && ConsistentFamily(cs, e)
  }

  ghost predicate NoFamily(cs: ConstraintList, n: Domains)
    requires AllWellFormed(cs, |n|)
  {
    forall e :: !Inside(cs, n, e)
  }

  /** `d` is the largest family of sub-domains of `n` on which no propagator deletes anything. */
  ghost predicate GreatestFamily(cs: ConstraintList, n: Domains, d: Domains)
    requires AllWellFormed(cs, |n|)
  {
    Inside(cs, n, d) && forall e :: Inside(cs, n, e) ==> Within(e, d)
  }

  /** There is only one largest family. */
  lemma {:induction false} GreatestIsUnique(cs: ConstraintList, d: Domains, g: Domains, h: Domains)
    requires AllWellFormed(cs, |d|) && GreatestFamily(cs, d, g) && GreatestFamily(cs, d, h)
    ensures g == h
  {
    forall v | 0 <= v < |d| ensures g[v] == h[v] {
      assert forall x :: x in g[v] <==> x in h[v];
      StrictlySortedUnique(g[v], h[v]);
    }
  }

  /** The smaller domains `d` still hold every consistent family of `n`. */
  ghost predicate Kept(cs: ConstraintList, n: Domains, d: Domains)
    requires AllWellFormed(cs, |n|)
  {
    && Smaller(d, n) && AllSorted(d) && NoneEmpty(d)
    && forall e :: Inside(cs, n, e) ==> Within(e, d)
  }

  /** Every consistent family takes the values of variable `v` from `keep`. */
  ghost predicate AlwaysIn(cs: ConstraintList, n: Domains, v: nat, keep: iset<int>)
    requires AllWellFormed(cs, |n|) && v < |n|
  {
    forall e, x :: Inside(cs, n, e) && x in e[v] ==> x in keep
  }

  /** Deleting values that no consistent family uses keeps every consistent family, or shows that there is none. */
  lemma {:induction false} KeptStep(cs: ConstraintList, n: Domains, d: Domains, v: nat, keep: iset<int>)
    requires AllWellFormed(cs, |n|) && Kept(cs, n, d) && v < |n| && AlwaysIn(cs, n, v, keep)
    ensures Sublist(Retain(d[v], keep), d[v])
    ensures Retain(d[v], keep) == [] ==> NoFamily(cs, n)
    ensures Retain(d[v], keep) != [] ==> Kept(cs, n, d[v := Retain(d[v], keep)])
  {
    var kept := Retain(d[v], keep);
    RetainIsSublist(d[v], keep);
    RetainMembers(d[v], keep);
    RetainSorted(d[v], keep);
    assert Sublist(d[v], n[v]);
    SublistTransitive(kept, d[v], n[v]);
    forall e | Inside(cs, n, e) ensures Within(e, d[v := kept]) && kept != [] {
      assert Within(e, d) && e[v] != [] && e[v][0] in e[v];
    }
  }

  /** A step that ends where the domains started has deleted nothing, and neither has anything before it. */
  lemma {:induction false} UnchangedStep(before: Domains, d: Domains, v: nat, keep: iset<int>)
    requires Smaller(d, before) && v < |d| && d[v := Retain(d[v], keep)] == before
    ensures d == before && forall x :: x in before[v] ==> x in keep
  {
    RetainIsSublist(d[v], keep);
    RetainEverything(d[v], keep);
    forall w | 0 <= w < |before| ensures d[w] == before[w] {
      assert Sublist(d[w], before[w]);
    }
  }

  /** Inside `d`, a fixed variable of `d` is fixed to the same value. */
  lemma {:induction false} FixedInside(d: Domains, e: Domains, v: nat, x: int)
    requires Within(e, d) && AllSorted(e) && NoneEmpty(e) && v < |d| && d[v] == [x]
    ensures e[v] == [x]
  {
    assert StrictlySorted(e[v]) && e[v] != [];
    assert forall y :: y in e[v] ==> y in d[v];
    OneValue(e[v], x);
  }

  lemma {:induction false} OneValue(s: seq<int>, x: int)
    requires StrictlySorted(s) && s != [] && forall y :: y in s ==> y == x
    ensures s == [x]
  {
    assert s[0] in s && s[|s| - 1] in s;
  }

  lemma {:induction false} EndsInside(d: Domains, e: Domains, v: nat)
    requires Within(e, d) && AllSorted(d) && NoneEmpty(d) && NoneEmpty(e) && v < |d|
    ensures LowEnd(d, v) <= LowEnd(e, v) && HighEnd(e, v) <= HighEnd(d, v)
  {
    assert StrictlySorted(d[v]) && e[v] != [];
    assert e[v][0] in e[v] && e[v][|e[v]| - 1] in e[v];
    var i :| 0 <= i < |d[v]| && d[v][i] == e[v][0];
    var j :| 0 <= j < |d[v]| && d[v][j] == e[v][|e[v]| - 1];
  }

  /** Larger domains support no fewer values. */
  lemma {:induction false} SupportGrows(d: Domains, e: Domains, c: FiniteDomainConstraint, fixed: nat, x: int)
    requires c.Linear? && WellFormed(c, |d|) && Within(e, d) && AllSorted(d) && NoneEmpty(d) && NoneEmpty(e)
    requires LinearSupported(e, c, fixed, x)
    ensures LinearSupported(d, c, fixed, x)
  {
    forall v | 0 <= v < |d| ensures LowEnd(d, v) <= LowEnd(e, v) && HighEnd(e, v) <= HighEnd(d, v) {
      EndsInside(d, e, v);
    }
    WiderBounds(c.coefficients, LowEnds(d, c.variables, fixed, x), HighEnds(d, c.variables, fixed, x),
                LowEnds(e, c.variables, fixed, x), HighEnds(e, c.variables, fixed, x), |c.variables|);
  }

  // ---- Solutions are the consistent families with one value per variable ----

  lemma {:induction false} SinglesSettleIffHold(c: FiniteDomainConstraint, a: seq<int>)
    requires WellFormed(c, |a|)
    ensures Settles(c, Singletons(a)) <==> Holds(c, a)
  {
    match c {
      case AllDifferent(_) => SinglesDiffer(c, a);
      case Linear(_, _, _, _) => SinglesBalance(c, a);
      case NoOverlap(_, _) => SinglesStayClear(c, a);
    }
  }

  lemma {:induction false} SinglesDiffer(c: FiniteDomainConstraint, a: seq<int>)
    requires c.AllDifferent? && WellFormed(c, |a|)
    ensures Settles(c, Singletons(a)) <==> Holds(c, a)
  {
    var d, x := Singletons(a), ValuesOf(a, c.variables);
    assert forall i: nat, j: nat :: i < |x| && j < |x| ==> (FreeOfFixed(d, c.variables, i, j) <==> x[i] != x[j]);
    if Settles(c, d) {
      forall i, j | 0 <= i < j < |x| ensures x[i] != x[j] {
        assert FreeOfFixed(d, c.variables, i, j);
      }
    }
  }

  lemma {:induction false} SinglesBalance(c: FiniteDomainConstraint, a: seq<int>)
    requires c.Linear? && WellFormed(c, |a|)
    ensures Settles(c, Singletons(a)) <==> Holds(c, a)
  {
    var d, x := Singletons(a), ValuesOf(a, c.variables);
    BoundTest(c.coefficients, x, x, x, c.relation, c.rhs);
    forall i: nat | i < |x| ensures LinearSupported(d, c, i, x[i]) <==> Holds(c, a) {
      assert LowEnds(d, c.variables, i, x[i]) == x == HighEnds(d, c.variables, i, x[i]);
    }
    assert d[c.variables[0]] == [x[0]] && x[0] in d[c.variables[0]];
  }

  lemma {:induction false} SinglesStayClear(c: FiniteDomainConstraint, a: seq<int>)
    requires c.NoOverlap? && WellFormed(c, |a|)
    ensures Settles(c, Singletons(a)) <==> Holds(c, a)
  {
    var d, x := Singletons(a), ValuesOf(a, c.variables);
    forall i: nat, j: nat | i < |x| && j < |x|
      ensures ClearOfFixed(c, d, i, j) <==> !Overlap(x[i], c.durations[i], x[j], c.durations[j])
    {
      assert d[c.variables[j]] == [x[j]] && x[j] in d[c.variables[j]];
    }
    if Settles(c, d) {
      forall i, j | 0 <= i < j < |x| ensures !Overlap(x[i], c.durations[i], x[j], c.durations[j]) {
        assert ClearOfFixed(c, d, i, j);
      }
    } else {
      var i: nat, j: nat :| i < |x| && j < |x| && i != j && !ClearOfFixed(c, d, i, j);
      assert Overlap(x[i], c.durations[i], x[j], c.durations[j]) && Overlap(x[j], c.durations[j], x[i], c.durations[i]);
    }
  }

  /** Solutions are exactly the consistent families with one value per variable. */
  lemma {:induction false} SolutionsAreSingleFamilies(cs: ConstraintList, n: Domains, a: seq<int>)
    requires AllWellFormed(cs, |n|) && |a| == |n|
    ensures Inside(cs, n, Singletons(a)) <==> Solution(n, cs, a)
  {
    var e := Singletons(a);
    forall k | 0 <= k < |cs| ensures Settles(cs[k], e) <==> Holds(cs[k], a) {
      SinglesSettleIffHold(cs[k], a);
    }
    SinglesWithin(n, a);
  }

  lemma {:induction false} SinglesWithin(d: Domains, a: seq<int>)
    requires |a| == |d|
    ensures Within(Singletons(a), d) <==> InDomains(d, a)
  {
    var e := Singletons(a);
    if Within(e, d) {
      forall v | 0 <= v < |a| ensures a[v] in d[v] {
        assert a[v] in e[v];
        WithinMember(e, d, v, a[v]);
      }
    }
    if InDomains(d, a) {
      forall v, x | 0 <= v < |a| && x in e[v] ensures x in d[v] {
        assert x == a[v];
      }
    }
  }

  lemma {:induction false} NoFamilyNoSolution(cs: ConstraintList, n: Domains)
    requires AllWellFormed(cs, |n|) && NoFamily(cs, n)
    ensures forall a :: !Solution(n, cs, a)
  {
    forall a | |a| == |n| ensures !Solution(n, cs, a) {
      SolutionsAreSingleFamilies(cs, n, a);
    }
  }

  /** If the largest family has one value per variable, those values are a solution. */
  lemma {:induction false} GreatestSingleSolves(cs: ConstraintList, n: Domains, d: Domains)
    requires AllWellFormed(cs, |n|) && GreatestFamily(cs, n, d)
    ensures forall a :: d == Singletons(a) ==> Solution(n, cs, a)
  {
    forall a | d == Singletons(a) ensures Solution(n, cs, a) {
      SolutionsAreSingleFamilies(cs, n, a);
    }
  }

  /** Sorting and de-duplicating the domains does not change the families inside them. */
  lemma {:induction false} NormalizingKeepsFamilies(cs: ConstraintList, n: Domains)
    requires AllWellFormed(cs, |n|)
    ensures forall e :: Inside(cs, Normalized(n), e) <==> Inside(cs, n, e)
  {
    assert forall v, x :: 0 <= v < |n| ==> (x in Normalized(n)[v] <==> x in n[v]);
  }
}
