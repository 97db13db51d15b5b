/**
 Pearson on sums, average ranks, and Spearman as Pearson on ranks. The
 coefficient itself is `sxy / sqrt(sxx * syy)`; square roots are not taken, so
 results carry the three sums.
 */
module Correlation {
  import opened Results
  import opened Vectors
  import opened Samples
  import opened Ordering

  datatype Correlation = Correlation(sxy: real, sxx: real, syy: real, observations: nat)

  /** `sum over i < n of (x[i] - mx) * (y[i] - my)`. */
  function CrossSum(x: Vector, y: Vector, mx: real, my: real, n: nat): real
    requires n <= |x| && n <= |y|
  {
    if n == 0 then 0.0 else CrossSum(x, y, mx, my, n - 1) + Times(x[n - 1] - mx, y[n - 1] - my)
  }

  function Pearson(x: Vector, y: Vector): Result<Correlation, StatsError> {
    if |x| != |y| then Err(LengthMismatch(|x|, |y|))
    else if |x| < 3 then Err(TooFewObservations(|x|, 3))
    else
      var n, mx, my := |x|, Mean(x), Mean(y);
      var c := Correlation(CrossSum(x, y, mx, my, n), CrossSum(x, x, mx, mx, n), CrossSum(y, y, my, my, n), n);
      if c.sxx == 0.0 then Err(ZeroVariance(0))
      else if c.syy == 0.0 then Err(ZeroVariance(1))
      else Ok(c)
  }

  method ComputePearson(x: Vector, y: Vector) returns (result: Result<Correlation, StatsError>)
    ensures result == Pearson(x, y)
  {
    if |x| != |y| {
      return Err(LengthMismatch(|x|, |y|));
    }
    if |x| < 3 {
      return Err(TooFewObservations(|x|, 3));
    }
    var mx, my := Mean(x), Mean(y);
    var sxy, sxx, syy := 0.0, 0.0, 0.0;
    for i := 0 to |x|
      invariant sxy == CrossSum(x, y, mx, my, i)
      invariant sxx == CrossSum(x, x, mx, mx, i)
      invariant syy == CrossSum(y, y, my, my, i)
    {
      var dx, dy := x[i] - mx, y[i] - my;
      sxy := sxy + Times(dx, dy);
      sxx := sxx + Times(dx, dx);
      syy := syy + Times(dy, dy);
    }
    if sxx == 0.0 {
      return Err(ZeroVariance(0));
    }
    if syy == 0.0 {
      return Err(ZeroVariance(1));
    }
    return Ok(Correlation(sxy, sxx, syy, |x|));
  }

  // ------------------------------------------------------------------
  // The clamp to [-1, 1] never fires
  // ------------------------------------------------------------------

  lemma {:induction false} CauchySchwarz(u: Vector, v: Vector)
    requires |u| == |v|
    ensures Times(Dot(u, v), Dot(u, v)) <= Times(Dot(u, u), Dot(v, v))
    ensures Dot(u, u) >= 0.0 && Dot(v, v) >= 0.0
  {
    if |u| > 0 {
      var k := |u| - 1;
      var u', v', a, b := u[..k], v[..k], u[k], v[k];
      CauchySchwarz(u', v');
      SquareNonNegative(a);
      SquareNonNegative(b);
      CauchyStep(Dot(u', v'), Dot(u', u'), Dot(v', v'), a, b);
    }
  }

  /** One more coordinate: `(p + a b)^2 <= (q + a^2)(r + b^2)` from `p^2 <= q r`. */
  lemma CauchyStep(p: real, q: real, r: real, a: real, b: real)
    requires Times(p, p) <= Times(q, r) && q >= 0.0 && r >= 0.0
    ensures Times(p + Times(a, b), p + Times(a, b)) <= Times(q + Times(a, a), r + Times(b, b))
  {
    CrossTerm(p, q, r, a, b);
    assert Times(p + Times(a, b), p + Times(a, b))
        == Times(p, p) + 2.0 * Times(p, Times(a, b)) + Times(Times(a, b), Times(a, b));
    assert Times(q + Times(a, a), r + Times(b, b))
        == Times(q, r) + Times(q, Times(b, b)) + Times(r, Times(a, a)) + Times(Times(a, a), Times(b, b));
    assert Times(Times(a, b), Times(a, b)) == Times(Times(a, a), Times(b, b));
  }

  /** `2 p a b <= q b^2 + r a^2`, since `(q b - p a)^2 >= 0` and `p^2 <= q r`. */
  lemma CrossTerm(p: real, q: real, r: real, a: real, b: real)
    requires Times(p, p) <= Times(q, r) && q >= 0.0 && r >= 0.0
    ensures 2.0 * Times(p, Times(a, b)) <= Times(q, Times(b, b)) + Times(r, Times(a, a))
  {
    SquareNonNegative(a);
    var gap := Times(q, Times(b, b)) + Times(r, Times(a, a)) - 2.0 * Times(p, Times(a, b));
    if q == 0.0 {
      SquareNonNegative(p);
      assert Times(q, r) == 0.0;
      assert p == 0.0;
      ProductNonNegative(r, Times(a, a));
      assert Times(q, Times(b, b)) == 0.0;
      assert Times(p, Times(a, b)) == 0.0;
    } else {
      var s := Times(q, b) - Times(p, a);
      SquareNonNegative(s);
      ProductNonNegative(Times(q, r) - Times(p, p), Times(a, a));
      assert Times(q, gap) == Times(s, s) + Times(Times(q, r) - Times(p, p), Times(a, a)) by {
        ExpandGap(p, q, r, a, b);
      }
      SignOfFactor(q, gap);
    }
  }

  lemma ExpandGap(p: real, q: real, r: real, a: real, b: real)
    ensures
      var s := Times(q, b) - Times(p, a);
      Times(q, Times(q, Times(b, b)) + Times(r, Times(a, a)) - 2.0 * Times(p, Times(a, b)))
        == Times(s, s) + Times(Times(q, r) - Times(p, p), Times(a, a))
  {
    var x, y, aa := Times(q, b), Times(p, a), Times(a, a);
    assert Times(x - y, x - y) == Times(x, x) - 2.0 * Times(x, y) + Times(y, y);
    assert Times(x, x) == Times(q, Times(q, Times(b, b)));
    assert Times(x, y) == Times(q, Times(p, Times(a, b)));
    assert Times(y, y) == Times(Times(p, p), aa);
    assert Times(Times(q, r) - Times(p, p), aa) == Times(q, Times(r, aa)) - Times(Times(p, p), aa);
    TimesSum(q, Times(q, Times(b, b)), Times(r, aa), Times(p, Times(a, b)));
  }

  lemma TimesSum(q: real, x: real, y: real, z: real)
    ensures Times(q, x + y - 2.0 * z) == Times(q, x) + Times(q, y) - 2.0 * Times(q, z)
  {
  }

  lemma SignOfFactor(q: real, x: real)
    requires q > 0.0 && Times(q, x) >= 0.0
    ensures x >= 0.0
  {
    assert Times(q, -x) == -Times(q, x);
    if x < 0.0 {
      PositiveProduct(q, -x);
    }
  }

  lemma {:induction false} CrossSumIsDot(x: Vector, y: Vector, mx: real, my: real, dx: Vector, dy: Vector)
    requires |x| == |y| == |dx| == |dy|
    requires forall i :: 0 <= i < |x| ==> dx[i] == x[i] - mx && dy[i] == y[i] - my
    ensures CrossSum(x, y, mx, my, |x|) == Dot(dx, dy)
  {
    if |x| > 0 {
      var k := |x| - 1;
      CrossSumIsDot(x[..k], y[..k], mx, my, dx[..k], dy[..k]);
      CrossSumPrefix(x, y, mx, my, k, k);
    }
  }

  lemma {:induction false} CrossSumPrefix(x: Vector, y: Vector, mx: real, my: real, k: nat, n: nat)
    requires |x| == |y| && n <= k <= |x|
    ensures CrossSum(x[..k], y[..k], mx, my, n) == CrossSum(x, y, mx, my, n)
  {
    if n > 0 {
      CrossSumPrefix(x, y, mx, my, k, n - 1);
    }
  }

  function Centred(x: Vector, m: real): (d: Vector)
    ensures |d| == |x| && forall i :: 0 <= i < |x| ==> d[i] == x[i] - m
  {
    seq(|x|, i requires 0 <= i < |x| => x[i] - m)
  }

  lemma CoefficientInRange(x: Vector, y: Vector)
    requires Pearson(x, y).Ok?
    ensures var c := Pearson(x, y).value;
            c.sxx > 0.0 && c.syy > 0.0 && Times(c.sxy, c.sxy) <= Times(c.sxx, c.syy)
  {
    var dx, dy := Centred(x, Mean(x)), Centred(y, Mean(y));
    CrossSumIsDot(x, y, Mean(x), Mean(y), dx, dy);
    CrossSumIsDot(x, x, Mean(x), Mean(x), dx, dx);
    CrossSumIsDot(y, y, Mean(y), Mean(y), dy, dy);
    CauchySchwarz(dx, dy);
  }

  /** With `root` the square root of `sxx * syy`, the quotient that is clamped lies within [-1, 1] already. */
  lemma QuotientInRange(x: Vector, y: Vector, root: real)
    requires Pearson(x, y).Ok?
    requires root >= 0.0 && Times(root, root) == Times(Pearson(x, y).value.sxx, Pearson(x, y).value.syy)
    ensures root > 0.0 && -1.0 <= Pearson(x, y).value.sxy / root <= 1.0
  {
    hide Pearson;
    CoefficientInRange(x, y);
    var c := Pearson(x, y).value;
    PositiveProduct(c.sxx, c.syy);
    SquareNonNegative(root);
    BoundedBySquares(c.sxy, root);
  }

  lemma SquareOrder(a: real, b: real)
    requires 0.0 <= b < a
    ensures Times(b, b) < Times(a, a)
  {
    PositiveProduct(a - b, a + b);
    assert Times(a - b, a + b) == Times(a, a) - Times(b, b);
  }

  lemma AtMostOne(a: real, root: real)
    requires root > 0.0 && a <= root
    ensures a / root <= 1.0
  {
    ProductNonNegative(root - a, 1.0 / root);
    assert Times(root - a, 1.0 / root) == 1.0 - a / root;
  }

  lemma BoundedBySquares(a: real, root: real)
    requires root > 0.0 && Times(a, a) <= Times(root, root)
    ensures -1.0 <= a / root <= 1.0
  {
    hide Times;
    Opposite(a, root);
    if a > root {
      SquareOrder(a, root);
    } else if -a > root {
      SquareOrder(-a, root);
    } else {
      AtMostOne(a, root);
      AtMostOne(-a, root);
    }
  }

  lemma Opposite(a: real, root: real)
    requires root > 0.0
    ensures Times(-a, -a) == Times(a, a) && -a / root == -(a / root)
  {
  }

  // ------------------------------------------------------------------
  // Ranks
  // ------------------------------------------------------------------

  /** The average 1-based position of `v` among `values`. */
  function RankOf(values: Vector, v: real): real {
    CountBelow(values, v) as real + (CountEqual(values, v) + 1) as real / 2.0
  }

  function Ranks(values: Vector): (r: Vector)
    ensures |r| == |values|
  {
    seq(|values|, i requires 0 <= i < |values| => RankOf(values, values[i]))
  }

  method ComputeRanks(values: Vector) returns (ranks: Vector)
    ensures ranks == Ranks(values)
  {
    hide CountBelow, CountEqual;
    var order := SortIndices(values);
    var out := new real[|values|](_ => 0.0);
    var i := 0;
    while i < |order|
      invariant 0 <= i <= |order|
      invariant 0 < i < |order| ==> values[order[i - 1]] < values[order[i]]
      invariant forall p :: 0 <= p < i ==> out[order[p]] == RankOf(values, values[order[p]])
    {
      var j := i;
      while j + 1 < |order| && values[order[j + 1]] == values[order[i]]
        invariant i <= j < |order| && values[order[j]] == values[order[i]]
      {
        j := j + 1;
      }
      RunPositions(order, values, i, j);
      var average := (i + 1 + j + 1) as real / 2.0;
      assert average == RankOf(values, values[order[i]]);
      for slot := i to j + 1
        invariant forall p :: 0 <= p < slot ==> out[order[p]] == RankOf(values, values[order[p]])
      {
        assert values[order[i]] <= values[order[slot]] <= values[order[j]];
        out[order[slot]] := average;
      }
      i := j + 1;
    }
    forall k | 0 <= k < |values|
      ensures out[k] == RankOf(values, values[k])
    {
      assert k in order;
    }
    return out[..];
  }

  function RankTotal(values: Vector, queries: Vector): real {
    if |queries| == 0 then 0.0
    else RankTotal(values, queries[..|queries| - 1]) + RankOf(values, queries[|queries| - 1])
  }

  /** Adding one observation raises the other ranks by what it ranks below. */
  lemma {:induction false} RankTotalGrows(values: Vector, x: real, queries: Vector)
    ensures RankTotal(values + [x], queries)
         == RankTotal(values, queries) + |queries| as real + 0.5 - RankOf(queries, x)
  {
    assert (values + [x])[..|values|] == values;
    if |queries| > 0 {
      RankTotalGrows(values, x, queries[..|queries| - 1]);
    }
  }

  lemma {:induction false} RanksSum(values: Vector)
    ensures RankTotal(values, values) == (|values| * (|values| + 1)) as real / 2.0
  {
    if |values| > 0 {
      var k := |values| - 1;
      RanksSum(values[..k]);
      assert values == values[..k] + [values[k]];
      RankTotalGrows(values[..k], values[k], values[..k]);
      assert RankOf(values, values[k]) == RankOf(values[..k], values[k]) + 0.5;
      assert (|values| * (|values| + 1)) as real / 2.0 == (k * (k + 1)) as real / 2.0 + |values| as real;
    }
  }

  // ------------------------------------------------------------------
  // Spearman
  // ------------------------------------------------------------------

  function Spearman(x: Vector, y: Vector): Result<Correlation, StatsError> {
    if |x| != |y| then Err(LengthMismatch(|x|, |y|)) else Pearson(Ranks(x), Ranks(y))
  }

  method ComputeSpearman(x: Vector, y: Vector) returns (result: Result<Correlation, StatsError>)
    ensures result == Spearman(x, y)
  {
    if |x| != |y| {
      return Err(LengthMismatch(|x|, |y|));
    }
    var rx := ComputeRanks(x);
    var ry := ComputeRanks(y);
    result := ComputePearson(rx, ry);
  }

  ghost predicate SameOrder(x: Vector, y: Vector) {
    |x| == |y| && forall i, j :: 0 <= i < |x| && 0 <= j < |x| ==> (x[i] < x[j] <==> y[i] < y[j])
  }

  lemma {:induction false} CountsFollowOrder(x: Vector, y: Vector, v: real, w: real)
    requires |x| == |y|
    requires forall i :: 0 <= i < |x| ==> (x[i] < v <==> y[i] < w) && (v < x[i] <==> w < y[i])
    ensures CountBelow(x, v) == CountBelow(y, w) && CountEqual(x, v) == CountEqual(y, w)
  {
    if |x| > 0 {
      CountsFollowOrder(x[..|x| - 1], y[..|y| - 1], v, w);
    }
  }

  /** Ranks see only the order of the observations. */
  lemma RanksFollowOrder(x: Vector, y: Vector)
    requires SameOrder(x, y)
    ensures Ranks(x) == Ranks(y)
  {
    forall i | 0 <= i < |x|
      ensures RankOf(x, x[i]) == RankOf(y, y[i])
    {
      CountsFollowOrder(x, y, x[i], y[i]);
    }
  }

  ghost predicate StrictlyIncreasing(f: real -> real) {
    forall a, b :: a < b ==> f(a) < f(b)
  }

  function MapValues(f: real -> real, x: Vector): Vector {
    seq(|x|, i requires 0 <= i < |x| => f(x[i]))
  }

  /** Spearman is unchanged by any strictly increasing transform of either input. */
  lemma SpearmanIgnoresMonotoneTransforms(f: real -> real, g: real -> real, x: Vector, y: Vector)
    requires StrictlyIncreasing(f) && StrictlyIncreasing(g)
    ensures Spearman(MapValues(f, x), MapValues(g, y)) == Spearman(x, y)
  {
    assert SameOrder(x, MapValues(f, x)) && SameOrder(y, MapValues(g, y));
    RanksFollowOrder(x, MapValues(f, x));
    RanksFollowOrder(y, MapValues(g, y));
  }

  /** A strictly increasing relationship has coefficient one. */
  lemma SpearmanOfMonotoneCurve(f: real -> real, x: Vector)
    requires StrictlyIncreasing(f)
    requires Spearman(x, MapValues(f, x)).Ok?
    ensures var c := Spearman(x, MapValues(f, x)).value; c.sxy == c.sxx == c.syy > 0.0
  {
    assert SameOrder(x, MapValues(f, x));
    RanksFollowOrder(x, MapValues(f, x));
    CoefficientInRange(Ranks(x), Ranks(x));
  }
}
