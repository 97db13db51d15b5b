/**
 What a coefficient measures: each of its sums is, up to the number of
 observations, a sum over all pairs of observations. So levels do not matter,
 scales factor out, a constant column is refused, and falling relationships
 have negative coefficients.
 */
module CorrelationLaws {
  import opened C = Correlation
  import opened Ordering
  import opened Results
  import opened Samples
  import opened Vectors

  // ------------------------------------------------------------------
  // The sums as sums over pairs
  // ------------------------------------------------------------------

  /** `sum over i of (x[i] - a) * (y[i] - b)`. */
  function Against(x: Vector, y: Vector, a: real, b: real): real
    requires |x| == |y|
  {
    if |x| == 0 then 0.0
    else
      var k := |x| - 1;
      Against(x[..k], y[..k], a, b) + Times(x[k] - a, y[k] - b)
  }

  /** `sum over i < j of (x[i] - x[j]) * (y[i] - y[j])`. */
  function OverPairs(x: Vector, y: Vector): real
    requires |x| == |y|
  {
    if |x| == 0 then 0.0
    else
      var k := |x| - 1;
      OverPairs(x[..k], y[..k]) + Against(x[..k], y[..k], x[k], y[k])
  }

  lemma ExpandTerm(p: real, q: real, a: real, b: real)
    ensures Times(p - a, q - b) == Times(p, q) - Times(a, q) - Times(b, p) + Times(a, b)
  {
  }

  lemma {:induction false} ExpandAgainst(x: Vector, y: Vector, a: real, b: real)
    requires |x| == |y|
    ensures Against(x, y, a, b)
         == Dot(x, y) - Times(a, Sum(y)) - Times(b, Sum(x)) + Times(|x| as real, Times(a, b))
  {
    hide Times;
    if |x| > 0 {
      var k := |x| - 1;
      ExpandAgainst(x[..k], y[..k], a, b);
      ExpandTerm(x[k], y[k], a, b);
      Distribute(a, Sum(y[..k]), y[k]);
      Distribute(b, Sum(x[..k]), x[k]);
      Distribute(Times(a, b), k as real, 1.0);
      Distribute(Times(a, b), |x| as real, 0.0);
    } else {
      TimesZero(a);
      TimesZero(b);
      TimesZero(Times(a, b));
    }
  }

  lemma TimesZero(c: real)
    ensures Times(c, 0.0) == 0.0 == Times(0.0, c)
  {
  }

  lemma Distribute(c: real, p: real, q: real)
    ensures Times(c, p + q) == Times(c, p) + Times(c, q)
    ensures Times(c, p) == Times(p, c) && Times(c, 1.0) == c
  {
  }

  lemma {:induction false} ExpandPairs(x: Vector, y: Vector)
    requires |x| == |y|
    ensures OverPairs(x, y) == Times(|x| as real, Dot(x, y)) - Times(Sum(x), Sum(y))
  {
    if |x| > 0 {
      var k := |x| - 1;
      ExpandPairs(x[..k], y[..k]);
      ExpandAgainst(x[..k], y[..k], x[k], y[k]);
      PairStep(k as real, Dot(x[..k], y[..k]), Sum(x[..k]), Sum(y[..k]), x[k], y[k]);
    }
  }

  lemma PairStep(k: real, d: real, p: real, q: real, a: real, b: real)
    ensures Times(k, d) - Times(p, q) + (d - Times(a, q) - Times(b, p) + Times(k, Times(a, b)))
         == Times(k + 1.0, d + Times(a, b)) - Times(p + a, q + b)
  {
  }

  lemma {:induction false} CrossSumIsAgainst(x: Vector, y: Vector, a: real, b: real)
    requires |x| == |y|
    ensures CrossSum(x, y, a, b, |x|) == Against(x, y, a, b)
  {
    if |x| > 0 {
      var k := |x| - 1;
      CrossSumIsAgainst(x[..k], y[..k], a, b);
      CrossSumPrefix(x, y, a, b, k, k);
    }
  }

  lemma CentredByMeans(n: real, d: real, p: real, q: real, a: real, b: real)
    requires Times(n, a) == p && Times(n, b) == q
    ensures Times(n, d - Times(a, q) - Times(b, p) + Times(n, Times(a, b))) == Times(n, d) - Times(p, q)
  {
    assert Times(n, Times(a, q)) == Times(p, q);
    assert Times(n, Times(b, p)) == Times(q, p);
    assert Times(n, Times(n, Times(a, b))) == Times(p, q);
  }

  lemma MeanFills(v: Vector)
    requires |v| > 0
    ensures Times(|v| as real, Mean(v)) == Sum(v)
  {
  }

  lemma SumIsOverPairs(x: Vector, y: Vector)
    requires |x| == |y| > 0
    ensures Times(|x| as real, CrossSum(x, y, Mean(x), Mean(y), |x|)) == OverPairs(x, y)
  {
    hide Times, Mean, OverPairs, CrossSum, Against;
    CrossSumIsAgainst(x, y, Mean(x), Mean(y));
    ExpandAgainst(x, y, Mean(x), Mean(y));
    ExpandPairs(x, y);
    MeanFills(x);
    MeanFills(y);
    CentredByMeans(|x| as real, Dot(x, y), Sum(x), Sum(y), Mean(x), Mean(y));
  }

  /** A returned coefficient's sums are, times the number of observations, the sums over all pairs. */
  lemma SumsAreOverPairs(x: Vector, y: Vector)
    requires Pearson(x, y).Ok?
    ensures
      var c, n := Pearson(x, y).value, |x| as real;
      && c.observations == |x| == |y|
      && Times(n, c.sxy) == OverPairs(x, y)
      && Times(n, c.sxx) == OverPairs(x, x)
      && Times(n, c.syy) == OverPairs(y, y)
  {
    hide Times, Mean, OverPairs, CrossSum;
    SumIsOverPairs(x, y);
    SumIsOverPairs(x, x);
    SumIsOverPairs(y, y);
  }

  // ------------------------------------------------------------------
  // Refusals
  // ------------------------------------------------------------------

  ghost predicate Level(x: Vector) {
    forall i, j :: 0 <= i < |x| && 0 <= j < |x| ==> x[i] == x[j]
  }

  lemma {:induction false} AgainstItself(x: Vector, a: real)
    ensures Against(x, x, a, a) >= 0.0
    ensures Against(x, x, a, a) == 0.0 <==> forall i :: 0 <= i < |x| ==> x[i] == a
  {
    if |x| > 0 {
      var k := |x| - 1;
      AgainstItself(x[..k], a);
      SquareNonNegative(x[k] - a);
      assert forall i :: 0 <= i < k ==> x[..k][i] == x[i];
    }
  }

  lemma {:induction false} PairsOfOne(x: Vector)
    ensures OverPairs(x, x) >= 0.0
    ensures OverPairs(x, x) == 0.0 <==> Level(x)
  {
    hide Against;
    if |x| > 0 {
      var k := |x| - 1;
      PairsOfOne(x[..k]);
      AgainstItself(x[..k], x[k]);
      assert forall i :: 0 <= i < k ==> x[..k][i] == x[i];
    }
  }

  lemma ZeroFactor(n: real, s: real)
    requires n > 0.0
    ensures Times(n, s) == 0.0 <==> s == 0.0
  {
  }

  /** A column is refused if and only if all its values are equal, the first one first. */
  lemma RefusedExactly(x: Vector, y: Vector)
    requires |x| == |y| >= 3
    ensures Pearson(x, y) == Err(ZeroVariance(0)) <==> Level(x)
    ensures Pearson(x, y) == Err(ZeroVariance(1)) <==> !Level(x) && Level(y)
    ensures Pearson(x, y).Ok? <==> !Level(x) && !Level(y)
  {
    hide Times, Mean, OverPairs, CrossSum, Level;
    SumIsOverPairs(x, x);
    SumIsOverPairs(y, y);
    PairsOfOne(x);
    PairsOfOne(y);
    ZeroFactor(|x| as real, CrossSum(x, x, Mean(x), Mean(x), |x|));
    ZeroFactor(|y| as real, CrossSum(y, y, Mean(y), Mean(y), |y|));
  }

  /** And series of different or too small sizes are refused before that. */
  lemma SizesAreChecked(x: Vector, y: Vector)
    ensures Pearson(x, y) == Err(LengthMismatch(|x|, |y|)) <==> |x| != |y|
    ensures Pearson(x, y) == Err(TooFewObservations(|x|, 3)) <==> |x| == |y| < 3
  {
  }

  // ------------------------------------------------------------------
  // Levels and scales
  // ------------------------------------------------------------------

  /** `a x + b`. */
  function Line(a: real, b: real, x: Vector): (r: Vector)
    ensures |r| == |x|
  {
    seq(|x|, i requires 0 <= i < |x| => Times(a, x[i]) + b)
  }

  lemma LineDifference(a: real, b: real, p: real, q: real, d: real)
    ensures Times(d, (Times(a, p) + b) - (Times(a, q) + b)) == Times(a, Times(d, p - q))
    ensures Times((Times(a, p) + b) - (Times(a, q) + b), d) == Times(a, Times(p - q, d))
  {
    assert Times(a, p) - Times(a, q) == Times(a, p - q);
    assert Times(d, Times(a, p - q)) == Times(a, Times(d, p - q));
    assert Times(Times(a, p - q), d) == Times(a, Times(p - q, d));
  }

  lemma {:induction false} AgainstLine(x: Vector, y: Vector, a: real, b: real, p: real, q: real)
    requires |x| == |y|
    ensures Against(x, Line(a, b, y), p, Times(a, q) + b) == Times(a, Against(x, y, p, q))
  {
    if |x| > 0 {
      var k := |x| - 1;
      assert Line(a, b, y)[..k] == Line(a, b, y[..k]);
      AgainstLine(x[..k], y[..k], a, b, p, q);
      LineDifference(a, b, y[k], q, x[k] - p);
      Distribute(a, Against(x[..k], y[..k], p, q), Times(x[k] - p, y[k] - q));
    }
  }

  lemma {:induction false} PairsOfLine(x: Vector, y: Vector, a: real, b: real)
    requires |x| == |y|
    ensures OverPairs(x, Line(a, b, y)) == Times(a, OverPairs(x, y))
  {
    hide Against;
    if |x| > 0 {
      var k := |x| - 1;
      assert Line(a, b, y)[..k] == Line(a, b, y[..k]);
      PairsOfLine(x[..k], y[..k], a, b);
      AgainstLine(x[..k], y[..k], a, b, x[k], y[k]);
      Distribute(a, OverPairs(x[..k], y[..k]), Against(x[..k], y[..k], x[k], y[k]));
    }
  }

  lemma {:induction false} PairsCommute(x: Vector, y: Vector)
    requires |x| == |y|
    ensures OverPairs(x, y) == OverPairs(y, x)
  {
    ExpandPairs(x, y);
    ExpandPairs(y, x);
    DotCommutes(x, y);
  }

  lemma LineIsLevel(a: real, b: real, x: Vector)
    requires a != 0.0
    ensures Level(Line(a, b, x)) <==> Level(x)
  {
    forall i, j | 0 <= i < |x| && 0 <= j < |x|
      ensures Line(a, b, x)[i] == Line(a, b, x)[j] <==> x[i] == x[j]
    {
      SameImage(a, x[i], x[j]);
    }
  }

  lemma SameImage(a: real, p: real, q: real)
    requires a != 0.0
    ensures Times(a, p) == Times(a, q) <==> p == q
  {
  }

  lemma SameMultiple(n: real, a: real, s: real, t: real)
    requires n > 0.0 && Times(n, s) == Times(a, Times(n, t))
    ensures s == Times(a, t)
  {
  }

  lemma CancelCount(n: real, s: real, t: real)
    requires n > 0.0 && Times(n, s) == Times(n, t)
    ensures s == t
  {
  }

  /** Which series comes first does not matter. */
  lemma PearsonCommutes(x: Vector, y: Vector)
    requires Pearson(x, y).Ok?
    ensures
      var c := Pearson(x, y).value;
      Pearson(y, x) == Ok(Correlation(c.sxy, c.syy, c.sxx, c.observations))
  {
    hide Times, Mean, OverPairs, CrossSum, Level;
    SumIsOverPairs(x, y);
    SumIsOverPairs(y, x);
    PairsCommute(x, y);
    CancelCount(|x| as real, CrossSum(y, x, Mean(y), Mean(x), |x|), CrossSum(x, y, Mean(x), Mean(y), |x|));
  }

  /**
   Measuring the response on another scale multiplies the joint sum by the scale
   and the response's own sum by its square; its level does not matter, and a
   scale of minus one only turns the sign of the joint sum.
   */
  lemma OnAnotherScale(x: Vector, y: Vector, a: real, b: real)
    requires a != 0.0 && Pearson(x, y).Ok?
    ensures
      var c := Pearson(x, y).value;
      Pearson(x, Line(a, b, y))
        == Ok(Correlation(Times(a, c.sxy), c.sxx, Times(a, Times(a, c.syy)), c.observations))
  {
    hide Times, Mean, OverPairs, CrossSum, Level, Line;
    var z, n := Line(a, b, y), |x| as real;
    RefusedExactly(x, y);
    RefusedExactly(x, z);
    LineIsLevel(a, b, y);
    SumIsOverPairs(x, y);
    SumIsOverPairs(y, y);
    SumIsOverPairs(x, z);
    SumIsOverPairs(z, z);
    PairsOfLine(x, y, a, b);
    PairsOfLine(z, y, a, b);
    PairsCommute(z, y);
    PairsOfLine(y, y, a, b);
    SameMultiple(n, a, CrossSum(x, z, Mean(x), Mean(z), |x|), CrossSum(x, y, Mean(x), Mean(y), |x|));
    SquareOut(n, a, CrossSum(y, y, Mean(y), Mean(y), |x|));
    SameMultiple(n, a, CrossSum(z, z, Mean(z), Mean(z), |x|), Times(a, CrossSum(y, y, Mean(y), Mean(y), |x|)));
  }

  lemma SquareOut(n: real, a: real, t: real)
    ensures Times(a, Times(a, Times(n, t))) == Times(a, Times(n, Times(a, t)))
  {
  }

  /** An exact line has the coefficient one or minus one, as it rises or falls. */
  lemma ExactLine(x: Vector, a: real, b: real)
    requires a != 0.0 && |x| >= 3 && !Level(x)
    ensures Pearson(x, Line(a, b, x)).Ok?
    ensures
      var c := Pearson(x, Line(a, b, x)).value;
      && Times(c.sxy, c.sxy) == Times(c.sxx, c.syy)
      && (c.sxy > 0.0 <==> a > 0.0) && (c.sxy < 0.0 <==> a < 0.0)
  {
    hide Times, Mean, CrossSum, Level, Line, Pearson;
    RefusedExactly(x, x);
    OnAnotherScale(x, x, a, b);
    CoefficientInRange(x, x);
    SameSums(x);
    SignOfLine(a, Pearson(x, x).value.sxx);
  }

  lemma SameSums(x: Vector)
    requires Pearson(x, x).Ok?
    ensures var c := Pearson(x, x).value; c.sxy == c.sxx == c.syy
  {
  }

  lemma SignOfLine(a: real, s: real)
    requires s > 0.0
    ensures Times(Times(a, s), Times(a, s)) == Times(s, Times(a, Times(a, s)))
    ensures (Times(a, s) > 0.0 <==> a > 0.0) && (Times(a, s) < 0.0 <==> a < 0.0)
  {
    if a > 0.0 {
      PositiveProduct(a, s);
    } else if a < 0.0 {
      PositiveProduct(-a, s);
      assert Times(-a, s) == -Times(a, s);
    }
  }

  // ------------------------------------------------------------------
  // Falling relationships
  // ------------------------------------------------------------------

  ghost predicate StrictlyDecreasing(f: real -> real) {
    forall a, b :: a < b ==> f(a) > f(b)
  }

  lemma {:induction false} CountsTurn(f: real -> real, x: Vector, v: real)
    requires StrictlyDecreasing(f)
    ensures
      var y := MapValues(f, x);
      && CountEqual(y, f(v)) == CountEqual(x, v)
      && CountBelow(y, f(v)) + CountBelow(x, v) + CountEqual(x, v) == |x|
  {
    if |x| > 0 {
      var k := |x| - 1;
      assert MapValues(f, x)[..k] == MapValues(f, x[..k]);
      CountsTurn(f, x[..k], v);
      assert x[k] < v ==> f(x[k]) > f(v);
      assert x[k] > v ==> f(x[k]) < f(v);
    }
  }

  lemma RanksTurn(f: real -> real, x: Vector)
    requires StrictlyDecreasing(f)
    ensures Ranks(MapValues(f, x)) == Line(-1.0, |x| as real + 1.0, Ranks(x))
  {
    forall i | 0 <= i < |x|
      ensures Ranks(MapValues(f, x))[i] == Line(-1.0, |x| as real + 1.0, Ranks(x))[i]
    {
      CountsTurn(f, x, x[i]);
    }
  }

  lemma {:induction false} RanksAreLevel(x: Vector)
    ensures Level(Ranks(x)) <==> Level(x)
  {
    if !Level(x) {
      var i, j :| 0 <= i < |x| && 0 <= j < |x| && x[i] < x[j];
      RanksRise(x, x[i], x[j]);
      CountsAtLeast(x, x[i], i);
      assert Ranks(x)[i] < Ranks(x)[j];
    }
  }

  lemma {:induction false} RanksRise(x: Vector, v: real, w: real)
    requires v < w
    ensures CountBelow(x, w) >= CountBelow(x, v) + CountEqual(x, v)
  {
    if |x| > 0 {
      RanksRise(x[..|x| - 1], v, w);
    }
  }

  lemma {:induction false} CountsAtLeast(x: Vector, v: real, i: nat)
    requires i < |x| && x[i] == v
    ensures CountEqual(x, v) >= 1
  {
    if i < |x| - 1 {
      CountsAtLeast(x[..|x| - 1], v, i);
    }
  }

  /** A strictly falling relationship has rank coefficient minus one. */
  lemma FallingCurve(f: real -> real, x: Vector)
    requires StrictlyDecreasing(f) && |x| >= 3 && !Level(x)
    ensures Spearman(x, MapValues(f, x)).Ok?
    ensures var c := Spearman(x, MapValues(f, x)).value; c.sxx == c.syy > 0.0 && c.sxy == -c.sxx
  {
    hide Times, Mean, CrossSum, Level, Line, Pearson, Ranks;
    var r, top := Ranks(x), |x| as real + 1.0;
    RanksTurn(f, x);
    RanksAreLevel(x);
    RefusedExactly(r, r);
    OnAnotherScale(r, r, -1.0, top);
    CoefficientInRange(r, r);
    SameSums(r);
    MinusOne(Pearson(r, r).value.sxx);
  }

  lemma MinusOne(s: real)
    ensures Times(-1.0, s) == -s && Times(-1.0, Times(-1.0, s)) == s
  {
  }

  /** And a strictly rising one is never refused unless the series is level. */
  lemma RisingCurve(f: real -> real, x: Vector)
    requires StrictlyIncreasing(f) && |x| >= 3 && !Level(x)
    ensures Spearman(x, MapValues(f, x)).Ok?
  {
    hide Level, Pearson, Ranks;
    RanksFollowOrder(x, MapValues(f, x));
    RanksAreLevel(x);
    RefusedExactly(Ranks(x), Ranks(x));
  }
}
