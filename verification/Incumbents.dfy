/** Incumbents of exact searches: the best value seen, ties broken by the lexicographically smallest assignment. */
module Incumbents {
  import opened Wrappers
  import opened Finite

  type Objective = seq<int> -> int

  /** Lexicographic order on assignments of equal length. */
  predicate LexLess(a: seq<int>, b: seq<int>)
    requires |a| == |b|
  {
    a != [] && (a[0] < b[0] || (a[0] == b[0] && LexLess(a[1..], b[1..])))
  }

  lemma {:induction false} LexTotal(a: seq<int>, b: seq<int>)
    requires |a| == |b|
    ensures a == b || LexLess(a, b) || LexLess(b, a)
    ensures !(LexLess(a, b) && LexLess(b, a))
    ensures LexLess(a, b) ==> a != b
  {
    if a != [] {
      LexTotal(a[1..], b[1..]);
      SplitFirst(a);
      SplitFirst(b);
    }
  }

  lemma {:induction false} LexTransitive(a: seq<int>, b: seq<int>, c: seq<int>)
    requires |a| == |b| == |c| && LexLess(a, b) && LexLess(b, c)
    ensures LexLess(a, c)
  {
    if a[0] == b[0] == c[0] {
      LexTransitive(a[1..], b[1..], c[1..]);
    }
  }

  /** `a` has a larger value than `b`, or the same value and comes first. */
  ghost predicate Better(f: Objective, a: seq<int>, b: seq<int>)
    requires |a| == |b|
  {
    f(a) > f(b) || (f(a) == f(b) && LexLess(a, b))
  }

  /** All candidates have `n` entries. */
  ghost predicate OfLength(candidates: iset<seq<int>>, n: nat) {
    forall a :: a in candidates ==> |a| == n
  }

  /** The lexicographically smallest candidate of maximum value. */
  ghost predicate IsBest(candidates: iset<seq<int>>, n: nat, f: Objective, a: seq<int>)
    requires OfLength(candidates, n)
  {
    a in candidates && forall b :: b in candidates && b != a ==> Better(f, a, b)
  }

  /** The best candidate is unique. */
  lemma BestIsUnique(candidates: iset<seq<int>>, n: nat, f: Objective, a: seq<int>, b: seq<int>)
    requires OfLength(candidates, n) && IsBest(candidates, n, f, a) && IsBest(candidates, n, f, b)
    ensures a == b
  {
    if a != b {
      LexTotal(a, b);
    }
  }

  /** `best` is the best of the candidates seen, or absent if none was seen. */
  ghost predicate Incumbent(seen: iset<seq<int>>, n: nat, f: Objective, best: Option<seq<int>>) {
    && OfLength(seen, n)
    && (best == None ==> forall a :: a !in seen)
    && (best.Some? ==> IsBest(seen, n, f, best.value))
  }

  /** Candidates that cannot be better leave the incumbent in place. */
  lemma {:induction false} IncumbentStays(seen: iset<seq<int>>, more: iset<seq<int>>, n: nat, f: Objective, best: Option<seq<int>>)
    requires Incumbent(seen, n, f, best) && OfLength(more, n)
    requires forall a :: a in more ==> best.Some? && f(a) < f(best.value)
    ensures Incumbent(seen + more, n, f, best)
  {
  }

  /** The rule by which a leaf replaces the incumbent. */
  predicate Replaces(best: Option<seq<int>>, bestObjective: int, a: seq<int>, objective: int) {
    || best == None
    || objective > bestObjective
    || (objective == bestObjective && |a| == |best.value| && LexLess(a, best.value))
  }

  lemma {:induction false} IncumbentMeetsLeaf(seen: iset<seq<int>>, n: nat, f: Objective, best: Option<seq<int>>, a: seq<int>)
    requires Incumbent(seen, n, f, best) && |a| == n
    ensures var next := if best == None || Replaces(best, f(best.value), a, f(a)) then Some(a) else best;
            Incumbent(seen + iset{a}, n, f, next)
  {
    if best.Some? {
      LexTotal(a, best.value);
      forall b | b in seen && b != best.value && LexLess(a, best.value) && LexLess(best.value, b) ensures LexLess(a, b) {
        LexTransitive(a, best.value, b);
      }
    }
  }
}
