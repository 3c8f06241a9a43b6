/** Sums and dot products over the reals. Products enter only through `Products`, so that every
    lemma about sums is linear. */
module LinearAlgebra {

  type Vector = seq<real>

  function SumTo(s: Vector, n: nat): real
    requires n <= |s|
  {
    if n == 0 then 0.0 else SumTo(s, n - 1) + s[n - 1]
  }

  lemma {:induction false} SumAgrees(s: Vector, t: Vector, n: nat)
    requires n <= |s| && n <= |t| && forall j :: 0 <= j < n ==> s[j] == t[j]
    ensures SumTo(s, n) == SumTo(t, n)
  {
    if n > 0 { SumAgrees(s, t, n - 1); }
  }

  lemma {:induction false} SumZero(s: Vector, n: nat)
    requires n <= |s| && forall j :: 0 <= j < n ==> s[j] == 0.0
    ensures SumTo(s, n) == 0.0
  {
    if n > 0 { SumZero(s, n - 1); }
  }

  /** One term taken out of a sum. */
  lemma {:induction false} SumExtract(s: Vector, n: nat, p: nat)
    requires p < n <= |s|
    ensures SumTo(s, n) == s[p] + SumTo(s[p := 0.0], n)
  {
    if p == n - 1 {
      SumAgrees(s, s[p := 0.0], n - 1);
    } else {
      SumExtract(s, n - 1, p);
    }
  }

  lemma {:induction false} SumSign(s: Vector, n: nat)
    requires n <= |s| && forall j :: 0 <= j < n ==> s[j] >= 0.0
    ensures SumTo(s, n) >= 0.0
    ensures SumTo(s, n) == 0.0 ==> forall j :: 0 <= j < n ==> s[j] == 0.0
  {
    if n > 0 { SumSign(s, n - 1); }
  }

  /** Linearity: `u = s - k * t`, where `t` sums to `d`. */
  lemma {:induction false} SumReduced(s: Vector, t: Vector, k: real, u: Vector, n: nat, d: real)
    requires n <= |s| && n <= |t| && n <= |u| && d == SumTo(t, n)
    requires forall j :: 0 <= j < n ==> u[j] == s[j] - k * t[j]
    ensures SumTo(u, n) == SumTo(s, n) - k * d
  {
    if n > 0 {
      var rest, last := SumTo(t, n - 1), t[n - 1];
      SumReduced(s, t, k, u, n - 1, rest);
      Distribute(k, rest, last);
    }
  }

  lemma Distribute(k: real, a: real, b: real)
    ensures k * (a + b) == k * a + k * b
  {
  }

  // ---- Dot products ----

  function Products(a: Vector, x: Vector): (p: Vector)
    requires |a| == |x|
    ensures |p| == |a| && forall j {:trigger p[j]} :: 0 <= j < |a| ==> p[j] == a[j] * x[j]
  {
    seq(|a|, j requires 0 <= j < |a| => a[j] * x[j])
  }

  function Dot(a: Vector, x: Vector): real
    requires |a| == |x|
  {
    SumTo(Products(a, x), |a|)
  }

  /** Linearity of the dot product in its row: `c = a - k * b`, where `b * x` has the value `d`. */
  lemma DotReduced(a: Vector, b: Vector, k: real, c: Vector, x: Vector, d: real)
    requires |a| == |b| == |c| == |x| && d == Dot(b, x)
    requires forall j :: 0 <= j < |a| ==> c[j] == a[j] - k * b[j]
    ensures Dot(c, x) == Dot(a, x) - k * d
  {
    var s, t, u := Products(a, x), Products(b, x), Products(c, x);
    forall j | 0 <= j < |a| ensures u[j] == s[j] - k * t[j] {
      Factor(a[j], k, b[j], x[j]);
    }
    SumReduced(s, t, k, u, |a|, d);
  }

  lemma Factor(a: real, k: real, b: real, x: real)
    ensures (a - k * b) * x == a * x - k * (b * x)
  {
  }

  /** Only the products at `p`, `q` and `r` can differ from zero. */
  lemma DotSparse(a: Vector, x: Vector, p: nat, q: nat, r: nat)
    requires |a| == |x| && p < |a| && q < |a| && r < |a| && p != q && q != r && p != r
    requires forall j :: 0 <= j < |a| && j != p && j != q && j != r ==> a[j] * x[j] == 0.0
    ensures Dot(a, x) == a[p] * x[p] + a[q] * x[q] + a[r] * x[r]
  {
    var s, n := Products(a, x), |a|;
    SumExtract(s, n, p);
    SumExtract(s[p := 0.0], n, q);
    SumExtract(s[p := 0.0][q := 0.0], n, r);
    SumZero(s[p := 0.0][q := 0.0][r := 0.0], n);
  }

  lemma DotPair(a: Vector, x: Vector, p: nat, q: nat)
    requires |a| == |x| && p < |a| && q < |a| && p != q
    requires forall j :: 0 <= j < |a| && j != p && j != q ==> a[j] * x[j] == 0.0
    ensures Dot(a, x) == a[p] * x[p] + a[q] * x[q]
  {
    var s, n := Products(a, x), |a|;
    SumExtract(s, n, p);
    SumExtract(s[p := 0.0], n, q);
    SumZero(s[p := 0.0][q := 0.0], n);
  }

  ghost predicate NonNegative(x: Vector) {
    forall j :: 0 <= j < |x| ==> x[j] >= 0.0
  }

  lemma ProductSign(a: real, b: real)
    requires a >= 0.0 && b >= 0.0
    ensures a * b >= 0.0
  {
  }

  lemma {:induction false} SumNonPositive(s: Vector, n: nat)
    requires n <= |s| && forall j :: 0 <= j < n ==> s[j] <= 0.0
    ensures SumTo(s, n) <= 0.0
    ensures SumTo(s, n) == 0.0 ==> forall j :: 0 <= j < n ==> s[j] == 0.0
  {
    if n > 0 { SumNonPositive(s, n - 1); }
  }

  lemma {:induction false} SumNegated(s: Vector, t: Vector, n: nat)
    requires n <= |s| && n <= |t| && forall j :: 0 <= j < n ==> s[j] == -t[j]
    ensures SumTo(s, n) == -SumTo(t, n)
  {
    if n > 0 { SumNegated(s, t, n - 1); }
  }

  /** Beyond the first `d` terms only those at `p` and `q` (and at `r`, unless it repeats `q`) can differ from zero. */
  lemma SumSplit(s: Vector, n: nat, d: nat, p: nat, q: nat, r: nat)
    requires d <= p < n <= |s| && d <= q < n && d <= r < n && p != q && p != r
    requires forall j :: d <= j < n && j != p && j != q && j != r ==> s[j] == 0.0
    ensures SumTo(s, n) == SumTo(s, d) + s[p] + s[q] + (if q == r then 0.0 else s[r])
  {
    var s1 := s[p := 0.0];
    var s2 := s1[q := 0.0];
    var s3 := s2[r := 0.0];
    SumExtract(s, n, p);
    SumExtract(s1, n, q);
    SumExtract(s2, n, r);
    SumZeroTail(s3, d, n);
    SumAgrees(s3, s, d);
  }

  lemma {:induction false} SumZeroTail(s: Vector, d: nat, n: nat)
    requires d <= n <= |s| && forall j :: d <= j < n ==> s[j] == 0.0
    ensures SumTo(s, n) == SumTo(s, d)
    decreases n
  {
    if n > d { SumZeroTail(s, d, n - 1); }
  }

  // ---- Points between two points ----

  /** The point that lies the fraction `t` of the way from `x` to `y`. */
  ghost function Mix(x: Vector, y: Vector, t: real): (z: Vector)
    requires |x| == |y|
    ensures |z| == |x| && forall j {:trigger z[j]} :: 0 <= j < |z| ==> z[j] == x[j] + t * (y[j] - x[j])
  {
    seq(|x|, j requires 0 <= j < |x| => x[j] + t * (y[j] - x[j]))
  }

  lemma MixedProduct(a: real, x: real, y: real, t: real, p: real, q: real)
    requires p == a * x && q == a * y
    ensures a * (x + t * (y - x)) == p - (-t) * (q - p)
  {
    var d := y - x;
    assert a * d == q - p;
    assert a * (t * d) == t * (a * d);
    Distribute(a, x, t * d);
  }

  lemma {:induction false} DotMix(a: Vector, x: Vector, y: Vector, t: real, dx: real, dy: real)
    requires |a| == |x| == |y| && dx == Dot(a, x) && dy == Dot(a, y)
    ensures Dot(a, Mix(x, y, t)) == dx - (-t) * (dy - dx)
  {
    var s, q, u := Products(a, x), Products(a, y), Products(a, Mix(x, y, t));
    var d := seq(|a|, j requires 0 <= j < |a| => q[j] - s[j]);
    MixedProducts(a, x, y, t, s, q, u, d);
    MixedSums(s, q, u, d, t, |a|, dx, dy);
  }

  lemma {:induction false} MixedSums(s: Vector, q: Vector, u: Vector, d: Vector, t: real, n: nat, dx: real, dy: real)
    requires n <= |s| && n <= |q| && n <= |u| && n <= |d| && dx == SumTo(s, n) && dy == SumTo(q, n)
    requires forall j :: 0 <= j < n ==> d[j] == q[j] - s[j]
    requires forall j :: 0 <= j < n ==> u[j] == s[j] - (-t) * d[j]
    ensures SumTo(u, n) == dx - (-t) * (dy - dx)
  {
    SumDifference(q, s, d, n);
    var rise := dy - dx;
    SumReduced(s, d, -t, u, n, rise);
  }

  lemma {:induction false} SumDifference(q: Vector, s: Vector, d: Vector, n: nat)
    requires n <= |q| && n <= |s| && n <= |d| && forall j :: 0 <= j < n ==> d[j] == q[j] - s[j]
    ensures SumTo(d, n) == SumTo(q, n) - SumTo(s, n)
  {
    if n > 0 { SumDifference(q, s, d, n - 1); }
  }

  lemma {:induction false} MixedProducts(a: Vector, x: Vector, y: Vector, t: real, s: Vector, q: Vector, u: Vector, d: Vector)
    requires |a| == |x| == |y| == |d| && s == Products(a, x) && q == Products(a, y) && u == Products(a, Mix(x, y, t))
    requires forall j :: 0 <= j < |a| ==> d[j] == q[j] - s[j]
    ensures forall j :: 0 <= j < |a| ==> u[j] == s[j] - (-t) * d[j]
  {
    forall j | 0 <= j < |a| ensures u[j] == s[j] - (-t) * d[j] {
      MixedProduct(a[j], x[j], y[j], t, s[j], q[j]);
      assert Mix(x, y, t)[j] == x[j] + t * (y[j] - x[j]);
    }
  }

  lemma MixBetween(x: real, y: real, t: real, low: real, high: real)
    requires 0.0 <= t <= 1.0 && low <= x <= high && low <= y <= high
    ensures low <= x + t * (y - x) <= high
  {
    if y >= x {
      ProductSign(t, y - x);
      ProductSign(1.0 - t, y - x);
      assert (1.0 - t) * (y - x) == (y - x) - t * (y - x);
    } else {
      ProductSign(t, x - y);
      ProductSign(1.0 - t, x - y);
      assert (1.0 - t) * (x - y) == (x - y) - t * (x - y);
      assert t * (y - x) == -(t * (x - y));
    }
  }

  ghost predicate Boxed(low: Vector, x: Vector, high: Vector) {
    |low| == |x| == |high| && forall j :: 0 <= j < |x| ==> low[j] <= x[j] <= high[j]
  }

  /** Between a point whose value is not too large and one whose value is not too small lies a point whose value is neither. */
  lemma {:induction false} MeetsBetween(a: Vector, x: Vector, y: Vector, least: real, most: real, low: Vector, high: Vector) returns (z: Vector)
    requires |a| == |x| == |y| && least <= most && Dot(a, x) <= most && Dot(a, y) >= least
    requires Boxed(low, x, high) && Boxed(low, y, high)
    ensures Boxed(low, z, high) && least <= Dot(a, z) <= most
  {
    var dx, dy := Dot(a, x), Dot(a, y);
    if dx >= least {
      z := x;
    } else if dy <= most {
      z := y;
    } else {
      var t := Portion(least - dx, dy - dx);
      z := Mix(x, y, t);
      DotMix(a, x, y, t, dx, dy);
      NegatedProduct(t, dy - dx);
      forall j | 0 <= j < |z| ensures low[j] <= z[j] <= high[j] {
        MixBetween(x[j], y[j], t, low[j], high[j]);
      }
    }
  }

  lemma NegatedProduct(a: real, b: real)
    ensures (-a) * b == -(a * b)
  {
  }

  lemma Portion(part: real, whole: real) returns (t: real)
    requires 0.0 <= part <= whole && whole > 0.0
    ensures 0.0 <= t <= 1.0 && t * whole == part
  {
    t := part / whole;
  }
}
