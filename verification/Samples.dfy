/** What the statistics share: their refusals, sums and means. */
module Samples {
  import opened Vectors

  datatype StatsError =
    | TooFewObservations(got: nat, need: nat)
    | LengthMismatch(left: nat, right: nat)
    | ZeroVariance(column: nat)
    | Singular

  function Sum(v: Vector): real {
    if |v| == 0 then 0.0 else Sum(v[..|v| - 1]) + v[|v| - 1]
  }

  function Mean(v: Vector): real
    requires |v| > 0
  {
    Sum(v) / |v| as real
  }

  /** `sum over i of (v[i] - center)^2`. */
  function SquaredError(v: Vector, center: real): real {
    if |v| == 0 then 0.0
    else SquaredError(v[..|v| - 1], center) + Times(v[|v| - 1] - center, v[|v| - 1] - center)
  }

  lemma {:induction false} SquaredErrorNonNegative(v: Vector, center: real)
    ensures SquaredError(v, center) >= 0.0
    ensures SquaredError(v, center) == 0.0 <==> forall i :: 0 <= i < |v| ==> v[i] == center
  {
    if |v| > 0 {
      SquaredErrorNonNegative(v[..|v| - 1], center);
      var d := v[|v| - 1] - center;
      SquareNonNegative(d);
      assert forall i :: 0 <= i < |v| - 1 ==> v[i] == v[..|v| - 1][i];
    }
  }

  lemma ProductNonNegative(x: real, y: real)
    requires x >= 0.0 && y >= 0.0
    ensures Times(x, y) >= 0.0
  {
  }

  lemma PositiveProduct(d: real, e: real)
    requires d > 0.0 && e > 0.0
    ensures Times(d, e) > 0.0
  {
  }

  lemma SquareNonNegative(d: real)
    ensures Times(d, d) >= 0.0
    ensures Times(d, d) == 0.0 <==> d == 0.0
  {
    if d > 0.0 {
      PositiveProduct(d, d);
    } else if d < 0.0 {
      PositiveProduct(-d, -d);
      assert Times(-d, -d) == Times(d, d);
    }
  }
}
