/**
 The CUSUM search for a single level shift: the split with the largest
 normalised cumulative deviation is the split whose two segments fit best
 about their own means.
 */
module ChangePoint {
  import opened Results
  import opened Vectors
  import opened Samples

  datatype ChangePoint = ChangePoint(
    index: nat,
    meanBefore: real,
    meanAfter: real,
    difference: real,
    pValue: real)

  function MinimumSegment(minSegment: nat): nat {
    if minSegment > 2 then minSegment else 2
  }

  predicate Admissible(n: nat, segment: nat, split: nat) {
    segment <= split && split <= n && segment <= n - split
  }

  /** The error left when each segment is described by its own mean. */
  function SplitError(series: Vector, split: nat): real
    requires 0 < split < |series|
  {
    SquaredError(series[..split], Mean(series[..split])) + SquaredError(series[split..], Mean(series[split..]))
  }

  /** The square of the normalised CUSUM statistic, from the running deviation `cumulative`. */
  function SquaredScore(cumulative: real, n: nat, split: nat): real
    requires 0 < split < n
  {
    Times(cumulative, cumulative) / (split as real * (n as real - split as real) / n as real)
  }

  /** `sum over i < split of (series[i] - overall)`. */
  function Deviation(series: Vector, overall: real, split: nat): real
    requires split <= |series|
  {
    if split == 0 then 0.0 else Deviation(series, overall, split - 1) + (series[split - 1] - overall)
  }

  // ------------------------------------------------------------------
  // The statistic measures the error a split removes
  // ------------------------------------------------------------------

  function SumSquares(v: Vector): real {
    if |v| == 0 then 0.0 else SumSquares(v[..|v| - 1]) + Times(v[|v| - 1], v[|v| - 1])
  }

  lemma {:induction false} SumsSplit(v: Vector, k: nat)
    requires k <= |v|
    ensures Sum(v) == Sum(v[..k]) + Sum(v[k..])
    ensures SumSquares(v) == SumSquares(v[..k]) + SumSquares(v[k..])
  {
    if k == |v| {
      assert v[..k] == v;
    } else {
      var last := |v| - 1;
      SumsSplit(v[..last], k);
      assert v[..last][..k] == v[..k] && v[..last][k..] == v[k..][..last - k];
    }
  }

  lemma ExpandSquare(x: real, center: real)
    ensures Times(x - center, x - center) == Times(x, x) - 2.0 * Times(center, x) + Times(center, center)
  {
  }

  lemma {:induction false} ExpandSquaredError(v: Vector, center: real)
    ensures SquaredError(v, center)
         == SumSquares(v) - 2.0 * Times(center, Sum(v)) + Times(|v| as real, Times(center, center))
  {
    if |v| > 0 {
      var k := |v| - 1;
      ExpandSquaredError(v[..k], center);
      ExpandSquare(v[k], center);
      assert Times(center, Sum(v)) == Times(center, Sum(v[..k])) + Times(center, v[k]);
      assert Times(|v| as real, Times(center, center))
          == Times(k as real, Times(center, center)) + Times(center, center);
    }
  }

  lemma ErrorAboutMean(v: Vector)
    requires |v| > 0
    ensures SquaredError(v, Mean(v)) == SumSquares(v) - Times(|v| as real, Times(Mean(v), Mean(v)))
  {
    hide SquaredError, SumSquares, Sum, Mean;
    ExpandSquaredError(v, Mean(v));
    MeanTimesSize(v);
    Rearrange(|v| as real, Mean(v));
  }

  lemma Rearrange(n: real, m: real)
    ensures Times(m, Times(n, m)) == Times(n, Times(m, m))
  {
  }

  lemma MeanTimesSize(v: Vector)
    requires |v| > 0
    ensures Times(|v| as real, Mean(v)) == Sum(v)
  {
  }

  lemma {:induction false} DeviationIsSum(series: Vector, overall: real, split: nat)
    requires split <= |series|
    ensures Deviation(series, overall, split) == Sum(series[..split]) - Times(split as real, overall)
  {
    if split > 0 {
      DeviationIsSum(series, overall, split - 1);
      assert series[..split][..split - 1] == series[..split - 1];
      assert Times(split as real, overall) == Times((split - 1) as real, overall) + overall;
    }
  }

  /**
   With `a` and `b` the segment means, `m` the overall mean and `u` the deviation:
   `k a^2 + j b^2 - (k + j) m^2 == u^2 / (k j / (k + j))`.
   */
  lemma BetweenSegments(k: real, j: real, a: real, b: real, m: real, u: real)
    requires k > 0.0 && j > 0.0
    requires u == Times(k, a) - Times(k, m) && u == Times(j, m) - Times(j, b)
    ensures Times(k, Times(a, a)) + Times(j, Times(b, b)) - Times(k + j, Times(m, m))
         == Times(u, u) / (k * j / (k + j))
  {
    var p, q := a - m, m - b;
    assert u == Times(k, p) && u == Times(j, q) by { Factor(k, a, m); Factor(j, m, b); }
    assert Times(k, Times(a, a)) - Times(k, Times(m, m)) == Times(u, p) + 2.0 * Times(u, m) by {
      SquareGap(k, a, m, p, u);
    }
    assert Times(j, Times(b, b)) - Times(j, Times(m, m)) == Times(u, q) - 2.0 * Times(u, m) by {
      SquareGap'(j, b, m, q, u);
    }
    assert Times(k + j, Times(m, m)) == Times(k, Times(m, m)) + Times(j, Times(m, m));
    Harmonic(k, j, p, q, u);
  }

  lemma Factor(k: real, x: real, y: real)
    ensures Times(k, x) - Times(k, y) == Times(k, x - y)
  {
  }

  lemma SquareGap(k: real, a: real, m: real, p: real, u: real)
    requires p == a - m && u == Times(k, p)
    ensures Times(k, Times(a, a)) - Times(k, Times(m, m)) == Times(u, p) + 2.0 * Times(u, m)
  {
  }

  lemma SquareGap'(j: real, b: real, m: real, q: real, u: real)
    requires q == m - b && u == Times(j, q)
    ensures Times(j, Times(b, b)) - Times(j, Times(m, m)) == Times(u, q) - 2.0 * Times(u, m)
  {
  }

  lemma Harmonic(k: real, j: real, p: real, q: real, u: real)
    requires k > 0.0 && j > 0.0 && u == Times(k, p) && u == Times(j, q)
    ensures Times(u, p) + Times(u, q) == Times(u, u) / (k * j / (k + j))
  {
    PositiveProduct(k, j);
    var h := k * j / (k + j);
    assert h * (k + j) == k * j;
    assert h > 0.0;
    var s := Times(u, p) + Times(u, q);
    assert s * (k * j) == Times(u, u) * (k + j) by {
      assert Times(u, p) * k == Times(u, u);
      assert Times(u, q) * j == Times(u, u);
      assert s * (k * j) == (Times(u, p) * k) * j + (Times(u, q) * j) * k;
    }
    assert (s * h) * (k + j) == Times(u, u) * (k + j);
    CancelFactor(s * h, Times(u, u), k + j);
    CancelQuotient(s, h, Times(u, u));
  }

  lemma CancelFactor(x: real, y: real, f: real)
    requires f > 0.0 && x * f == y * f
    ensures x == y
  {
  }

  lemma CancelQuotient(s: real, h: real, x: real)
    requires h > 0.0 && s * h == x
    ensures s == x / h
  {
  }

  /** The squared statistic is exactly the error the split removes from the whole series. */
  lemma ScoreIsErrorRemoved(series: Vector, split: nat)
    requires 0 < split < |series|
    ensures SplitError(series, split)
         == SquaredError(series, Mean(series))
            - SquaredScore(Deviation(series, Mean(series), split), |series|, split)
  {
    hide SquaredError, Sum, SumSquares, Mean, Deviation, Times;
    var before, after := series[..split], series[split..];
    var k, j, m := split as real, (|series| - split) as real, Mean(series);
    SumsSplit(series, split);
    ErrorAboutMean(series);
    ErrorAboutMean(before);
    ErrorAboutMean(after);
    MeanTimesSize(series);
    MeanTimesSize(before);
    MeanTimesSize(after);
    DeviationIsSum(series, m, split);
    var u := Deviation(series, m, split);
    TotalWeight(k, j, m);
    BetweenSegments(k, j, Mean(before), Mean(after), m, u);
    assert |series| as real == k + j;
    assert |series| as real - k == j;
  }

  lemma TotalWeight(k: real, j: real, m: real)
    ensures Times(k + j, m) == Times(k, m) + Times(j, m)
  {
  }

  // ------------------------------------------------------------------
  // The search
  // ------------------------------------------------------------------

  /** The leftmost admissible split with the least error. */
  ghost predicate IsBestSplit(series: Vector, segment: nat, split: nat)
    requires 2 <= segment
  {
    && Admissible(|series|, segment, split)
    && (forall other: nat :: Admissible(|series|, segment, other) ==>
          SplitError(series, split) <= SplitError(series, other))
    && (forall other: nat :: Admissible(|series|, segment, other) && other < split ==>
          SplitError(series, split) < SplitError(series, other))
  }

  method FindSplit(series: Vector, segment: nat) returns (bestIndex: nat)
    requires 2 <= segment && 2 * segment <= |series|
    ensures IsBestSplit(series, segment, bestIndex)
  {
    hide SplitError, SquaredScore, Mean;
    var n := |series|;
    var overall := Mean(series);
    var cumulative := 0.0;
    bestIndex := segment;
    var bestScore: Option<real> := None;
    for index := 0 to n
      invariant cumulative == Deviation(series, overall, index)
      invariant bestScore.None? ==> bestIndex == segment && index < segment
      invariant bestScore.Some? ==>
        && Admissible(n, segment, bestIndex) && bestIndex <= index
        && bestScore.value == SquaredScore(Deviation(series, overall, bestIndex), n, bestIndex)
      invariant forall other: nat :: Admissible(n, segment, other) && other <= index ==>
        && bestScore.Some?
        && SquaredScore(Deviation(series, overall, other), n, other) <= bestScore.value
        && (other < bestIndex ==> SquaredScore(Deviation(series, overall, other), n, other) < bestScore.value)
    {
      cumulative := cumulative + (series[index] - overall);
      var split := index + 1;
      if split < segment || n - split < segment {
        continue;
      }
      var score := SquaredScore(cumulative, n, split);
      if bestScore.None? || score > bestScore.value {
        bestScore := Some(score);
        bestIndex := split;
      }
    }
    assert Admissible(n, segment, segment);
    forall other: nat | Admissible(n, segment, other)
      ensures SplitError(series, bestIndex) <= SplitError(series, other)
      ensures other < bestIndex ==> SplitError(series, bestIndex) < SplitError(series, other)
    {
      ScoreIsErrorRemoved(series, bestIndex);
      ScoreIsErrorRemoved(series, other);
    }
  }

  /** What the search reports about its split; `pValue` stands for the Welch test. */
  function Verdict(series: Vector, split: nat, alpha: real, pValue: (Vector, Vector) -> real): Option<ChangePoint>
    requires 2 <= split <= |series| - 2
  {
    var before, after := series[..split], series[split..];
    var m1, m2 := Mean(before), Mean(after);
    var v1 := SquaredError(before, m1) / (|before| - 1) as real;
    var v2 := SquaredError(after, m2) / (|after| - 1) as real;
    if v1 == 0.0 && v2 == 0.0 then
      if Abs(m2 - m1) > 0.0 then Some(ChangePoint(split, m1, m2, m2 - m1, 0.0)) else None
    else if pValue(before, after) <= alpha then
      Some(ChangePoint(split, m1, m2, m2 - m1, pValue(before, after)))
    else
      None
  }

  method CusumChangePoint(series: Vector, minSegment: nat, alpha: real, pValue: (Vector, Vector) -> real)
    returns (result: Result<Option<ChangePoint>, StatsError>)
    ensures
      var segment := MinimumSegment(minSegment);
      if |series| < segment * 2 then
        result == Err(TooFewObservations(|series|, segment * 2))
      else
        exists split :: IsBestSplit(series, segment, split) && result == Ok(Verdict(series, split, alpha, pValue))
  {
    var segment := MinimumSegment(minSegment);
    if |series| < segment * 2 {
      return Err(TooFewObservations(|series|, segment * 2));
    }
    var split := FindSplit(series, segment);
    return Ok(Verdict(series, split, alpha, pValue));
  }

  // ------------------------------------------------------------------
  // Consequences
  // ------------------------------------------------------------------

  /** Two best splits are the same split: the answer is determined by the series. */
  lemma BestSplitIsUnique(series: Vector, segment: nat, a: nat, b: nat)
    requires 2 <= segment && IsBestSplit(series, segment, a) && IsBestSplit(series, segment, b)
    ensures a == b
  {
    hide SplitError;
  }

  predicate Constant(v: Vector, level: real) {
    forall i :: 0 <= i < |v| ==> v[i] == level
  }

  lemma {:induction false} ConstantSum(v: Vector, level: real)
    requires Constant(v, level)
    ensures Sum(v) == Times(|v| as real, level)
  {
    if |v| > 0 {
      ConstantSum(v[..|v| - 1], level);
      assert Times(|v| as real, level) == Times((|v| - 1) as real, level) + level;
    }
  }

  lemma ConstantMean(v: Vector, level: real)
    requires |v| > 0 && Constant(v, level)
    ensures Mean(v) == level && SquaredError(v, Mean(v)) == 0.0
  {
    ConstantSum(v, level);
    MeanTimesSize(v);
    CancelFactor(Mean(v), level, |v| as real);
    SquaredErrorNonNegative(v, level);
  }

  /** A clean step is found exactly, whatever the significance level. */
  lemma CleanStepIsFound(series: Vector, segment: nat, step: nat, low: real, high: real, split: nat,
                         alpha: real, pValue: (Vector, Vector) -> real)
    requires 2 <= segment && Admissible(|series|, segment, step) && low != high
    requires Constant(series[..step], low) && Constant(series[step..], high)
    requires IsBestSplit(series, segment, split)
    ensures split == step
    ensures Verdict(series, split, alpha, pValue) == Some(ChangePoint(step, low, high, high - low, 0.0))
  {
    hide SquaredError, Mean;
    var before, after := series[..split], series[split..];
    StepInside(series, step, low, high, split);
    ConstantMean(series[..step], low);
    ConstantMean(series[step..], high);
    SquaredErrorNonNegative(before, Mean(before));
    SquaredErrorNonNegative(after, Mean(after));
  }

  /** A segment that contains the step meets both levels. */
  lemma StepInside(series: Vector, step: nat, low: real, high: real, split: nat)
    requires 0 < step < |series| && 0 < split < |series|
    requires Constant(series[..step], low) && Constant(series[step..], high)
    ensures split < step ==> series[split..][0] == low && series[split..][|series| - split - 1] == high
    ensures split > step ==> series[..split][0] == low && series[..split][split - 1] == high
  {
    assert split < step ==> series[split] == series[..step][split];
    assert series[|series| - 1] == series[step..][|series| - step - 1];
    assert series[0] == series[..step][0];
    assert split > step ==> series[split - 1] == series[step..][split - 1 - step];
  }

  /** A level series reports no change point. */
  lemma LevelSeriesIsQuiet(series: Vector, level: real, split: nat, alpha: real, pValue: (Vector, Vector) -> real)
    requires 2 <= split <= |series| - 2 && Constant(series, level)
    ensures Verdict(series, split, alpha, pValue) == None
  {
    hide SquaredError, Mean;
    ConstantMean(series[..split], level);
    ConstantMean(series[split..], level);
  }

  /** The segment is what was asked for, but never shorter than two. */
  lemma SegmentOfAtLeastTwo(minSegment: nat)
    ensures MinimumSegment(minSegment) >= 2 && MinimumSegment(minSegment) >= minSegment
    ensures MinimumSegment(minSegment) in {2, minSegment}
  {
  }

  /** The best split leaves a segment on either side; any other that does has more error, or as much and is later. */
  lemma BestSplitMeans(series: Vector, segment: nat, split: nat, other: nat)
    requires 2 <= segment && IsBestSplit(series, segment, split)
    requires 0 < other < |series| && |series[..other]| >= segment && |series[other..]| >= segment
    ensures 0 < split < |series| && |series[..split]| >= segment && |series[split..]| >= segment
    ensures
      var (a, b, c, d) := (series[..split], series[split..], series[..other], series[other..]);
      var error := SquaredError(a, Mean(a)) + SquaredError(b, Mean(b));
      var others := SquaredError(c, Mean(c)) + SquaredError(d, Mean(d));
      error < others || (error == others && split <= other)
  {
    hide SquaredError, Mean;
    assert Admissible(|series|, segment, other);
  }

  ghost predicate IsLevel(v: Vector) {
    exists level :: Constant(v, level)
  }

  lemma LevelExactly(v: Vector)
    requires |v| > 0
    ensures SquaredError(v, Mean(v)) == 0.0 <==> IsLevel(v)
    ensures IsLevel(v) ==> Constant(v, Mean(v))
  {
    hide Mean;
    SquaredErrorNonNegative(v, Mean(v));
    if SquaredError(v, Mean(v)) == 0.0 {
      assert Constant(v, Mean(v));
    }
    if level :| Constant(v, level) {
      ConstantMean(v, level);
    }
  }

  /**
   A change is reported exactly when both segments are level and differ, or one
   of them varies and the test is significant; it names the split and what the
   segments are like.
   */
  lemma VerdictExactly(series: Vector, split: nat, alpha: real, pValue: (Vector, Vector) -> real)
    requires 2 <= split <= |series| - 2
    ensures
      var before, after := series[..split], series[split..];
      var level := IsLevel(before) && IsLevel(after);
      Verdict(series, split, alpha, pValue).Some? <==>
        (level && before[0] != after[0]) || (!level && pValue(before, after) <= alpha)
    ensures Verdict(series, split, alpha, pValue).Some? ==>
      var before, after := series[..split], series[split..];
      var found := Verdict(series, split, alpha, pValue).value;
      && found.index == split
      && Times(|before| as real, found.meanBefore) == Sum(before)
      && Times(|after| as real, found.meanAfter) == Sum(after)
      && found.meanBefore + found.difference == found.meanAfter
      && found.pValue == (if IsLevel(before) && IsLevel(after) then 0.0 else pValue(before, after))
  {
    hide SquaredError, Mean, Sum, Times, IsLevel;
    var before, after := series[..split], series[split..];
    LevelExactly(before);
    LevelExactly(after);
    MeanTimesSize(before);
    MeanTimesSize(after);
    NoVariance(SquaredError(before, Mean(before)), |before|);
    NoVariance(SquaredError(after, Mean(after)), |after|);
  }

  lemma NoVariance(e: real, n: nat)
    requires n >= 2
    ensures e / (n - 1) as real == 0.0 <==> e == 0.0
  {
  }
}
