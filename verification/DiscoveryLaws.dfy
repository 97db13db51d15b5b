/**
 What the two kinds of scan measure: the linear one sums over pairs of
 observations, the monotone one over pairs of ranks.
 */
module DiscoveryLaws {
  import opened CorrelationLaws
  import opened Discovery
  import opened Ordering
  import opened Results
  import opened Samples
  import opened Vectors
  import C = Correlation

  /** `c` is what pairs of `x` and `y` amount to, and neither is level. */
  ghost predicate Measures(c: C.Correlation, x: Vector, y: Vector) {
    && |x| == |y| == c.observations >= 3 && !Level(x) && !Level(y)
    && Times(|x| as real, c.sxy) == OverPairs(x, y)
    && Times(|x| as real, c.sxx) == OverPairs(x, x)
    && Times(|x| as real, c.syy) == OverPairs(y, y)
  }

  lemma MeasuresOne(c: C.Correlation, d: C.Correlation, x: Vector, y: Vector)
    requires Measures(c, x, y) && Measures(d, x, y)
    ensures c == d
  {
    hide Times, OverPairs, Level;
    CancelCount(|x| as real, c.sxy, d.sxy);
    CancelCount(|x| as real, c.sxx, d.sxx);
    CancelCount(|x| as real, c.syy, d.syy);
  }

  lemma PearsonMeasures(x: Vector, y: Vector, c: C.Correlation)
    ensures C.Pearson(x, y) == Ok(c) <==> Measures(c, x, y)
  {
    hide Times, OverPairs, Level;
    SizesAreChecked(x, y);
    if |x| == |y| >= 3 {
      RefusedExactly(x, y);
    }
    if C.Pearson(x, y).Ok? {
      SumsAreOverPairs(x, y);
      if Measures(c, x, y) {
        MeasuresOne(c, C.Pearson(x, y).value, x, y);
      }
    }
  }

  /** A feature is tested on its values, or in a monotone scan on their ranks, unless that is refused. */
  lemma TestMeasures(values: Vector, response: Vector, monotone: bool, c: C.Correlation)
    ensures Test(values, response, monotone) == Ok(c) <==>
            if monotone then |values| == |response| && Measures(c, C.Ranks(values), C.Ranks(response))
            else Measures(c, values, response)
  {
    hide Measures, C.Pearson, C.Ranks;
    PearsonMeasures(values, response, c);
    PearsonMeasures(C.Ranks(values), C.Ranks(response), c);
  }

  /** So the candidates of a scan are the features that can be measured, with what they measure. */
  lemma {:induction false} TestedAreMeasured(features: seq<Feature>, response: Vector, monotone: bool, t: Tested)
    ensures t in TestedOf(features, response, monotone) <==>
            exists values :: (t.0, values) in features &&
              if monotone then |values| == |response| && Measures(t.1, C.Ranks(values), C.Ranks(response))
              else Measures(t.1, values, response)
  {
    hide Measures, Test;
    if |features| > 0 {
      var before, last := features[..|features| - 1], features[|features| - 1];
      TestedAreMeasured(before, response, monotone, t);
      TestMeasures(last.1, response, monotone, t.1);
      assert features == before + [last];
    }
  }

  /** Why a feature cannot be measured against a response. */
  ghost predicate Unmeasurable(x: Vector, y: Vector, error: StatsError) {
    if |x| != |y| then error == LengthMismatch(|x|, |y|)
    else if |x| < 3 then error == TooFewObservations(|x|, 3)
    else (Level(x) && error == ZeroVariance(0)) || (!Level(x) && Level(y) && error == ZeroVariance(1))
  }

  lemma PearsonRefuses(x: Vector, y: Vector, error: StatsError)
    ensures C.Pearson(x, y) == Err(error) <==> Unmeasurable(x, y, error)
  {
    hide Level, C.CrossSum, Mean;
    SizesAreChecked(x, y);
    if |x| == |y| >= 3 {
      RefusedExactly(x, y);
    }
  }

  lemma TestRefuses(values: Vector, response: Vector, monotone: bool, error: StatsError)
    ensures Test(values, response, monotone) == Err(error) <==> Unmeasurable(values, response, error)
  {
    hide Level, C.Pearson, C.Ranks;
    PearsonRefuses(values, response, error);
    if |values| == |response| {
      PearsonRefuses(C.Ranks(values), C.Ranks(response), error);
      RanksAreLevel(values);
      RanksAreLevel(response);
    }
  }

  /** Both kinds of scan skip the features that cannot be measured, each with the reason. */
  lemma {:induction false} SkippedAreUnmeasurable(features: seq<Feature>, response: Vector, monotone: bool,
                                                  name: string, error: StatsError)
    ensures (name, error) in SkippedOf(features, response, monotone) <==>
            exists values :: (name, values) in features && Unmeasurable(values, response, error)
  {
    hide Unmeasurable, Test;
    if |features| > 0 {
      var before, last := features[..|features| - 1], features[|features| - 1];
      SkippedAreUnmeasurable(before, response, monotone, name, error);
      TestRefuses(last.1, response, monotone, error);
      assert features == before + [last];
    }
  }
}
