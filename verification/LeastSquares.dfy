/**
 Ordinary least squares: the normal equations are accumulated row by row,
 solved with the Gauss-Jordan inverse, and the fit is shown to be the one and
 only minimiser of the residual sum of squares.
 */
module LeastSquares {
  import opened Results
  import opened Vectors
  import opened Samples
  import opened Inversion

  /** Square roots are not taken: variances stand for standard deviations. */
  datatype OlsFit = OlsFit(
    coefficients: Vector,
    squaredStandardErrors: Vector,
    rSquared: real,
    adjustedRSquared: real,
    residualVariance: real,
    observations: nat,
    degreesOfFreedom: nat)

  function Predictors(rows: Matrix): nat {
    if |rows| == 0 then 0 else |rows[0]|
  }

  predicate Rectangular(rows: Matrix) {
    forall i :: 0 <= i < |rows| ==> |rows[i]| == Predictors(rows)
  }

  /** Each row with a leading one for the intercept. */
  function Design(rows: Matrix): (x: Matrix)
    ensures Rectangular(rows) ==> IsMatrix(x, |rows|, Predictors(rows) + 1)
  {
    seq(|rows|, i requires 0 <= i < |rows| => [1.0] + rows[i])
  }

  function Column(x: Matrix, a: nat): (c: Vector)
    requires forall i :: 0 <= i < |x| ==> a < |x[i]|
    ensures |c| == |x| && forall i :: 0 <= i < |x| ==> c[i] == x[i][a]
  {
    seq(|x|, i requires 0 <= i < |x| => x[i][a])
  }

  /** The transpose of `x` times `x`. */
  function Gram(x: Matrix, p: nat): (g: Matrix)
    requires IsMatrix(x, |x|, p)
    ensures IsMatrix(g, p, p)
  {
    seq(p, a requires 0 <= a < p => Combine(Column(x, a), x, p))
  }

  /** The transpose of `x` times `y`. */
  function Moment(x: Matrix, y: Vector, p: nat): (m: Vector)
    requires IsMatrix(x, |y|, p)
    ensures |m| == p
  {
    seq(p, a requires 0 <= a < p => Dot(Column(x, a), y))
  }

  function Residual(x: Matrix, y: Vector, b: Vector): Vector
    requires IsMatrix(x, |y|, |b|)
  {
    AddScaled(y, -1.0, Apply(x, b))
  }

  function ResidualSumSquares(x: Matrix, y: Vector, b: Vector): real
    requires IsMatrix(x, |y|, |b|)
  {
    Dot(Residual(x, y, b), Residual(x, y, b))
  }

  // ------------------------------------------------------------------
  // Gram matrices
  // ------------------------------------------------------------------

  lemma {:induction false} NormNonNegative(v: Vector)
    ensures Dot(v, v) >= 0.0
    ensures Dot(v, v) == 0.0 <==> v == Zero(|v|)
  {
    if |v| > 0 {
      var k := |v| - 1;
      NormNonNegative(v[..k]);
      SquareNonNegative(v[k]);
      assert v == v[..k] + [v[k]];
      assert Zero(|v|)[..k] == Zero(k) && Zero(|v|)[k] == 0.0;
    }
  }

  lemma {:induction false} CombineEntry(w: Vector, x: Matrix, p: nat, a: nat)
    requires IsMatrix(x, |w|, p) && a < p
    ensures Combine(w, x, p)[a] == Dot(Column(x, a), w)
  {
    if |w| > 0 {
      var k := |w| - 1;
      CombineEntry(w[..k], x[..k], p, a);
      assert Column(x, a)[..k] == Column(x[..k], a);
    }
  }

  /** `(x' x) d == x' (x d)`. */
  lemma GramApply(x: Matrix, p: nat, d: Vector)
    requires IsMatrix(x, |x|, p) && |d| == p
    ensures Apply(Gram(x, p), d) == Combine(Apply(x, d), x, p)
  {
    hide Dot, Combine;
    forall a | 0 <= a < p
      ensures Apply(Gram(x, p), d)[a] == Combine(Apply(x, d), x, p)[a]
    {
      CombineDot(Column(x, a), x, d);
      CombineEntry(Apply(x, d), x, p, a);
    }
  }

  /** `d . (x' x) d == |x d|^2`. */
  lemma GramNorm(x: Matrix, p: nat, d: Vector)
    requires IsMatrix(x, |x|, p) && |d| == p
    ensures Dot(Apply(Gram(x, p), d), d) == Dot(Apply(x, d), Apply(x, d))
  {
    hide Dot, Combine;
    GramApply(x, p, d);
    CombineDot(Apply(x, d), x, d);
  }

  /** The columns of the design are independent when its Gram matrix has an inverse. */
  lemma InverseGivesIndependence(x: Matrix, p: nat, b: Matrix, d: Vector)
    requires IsMatrix(x, |x|, p) && |d| == p
    requires IsInverse(b, Gram(x, p))
    requires Apply(x, d) == Zero(|x|)
    ensures d == Zero(p)
  {
    hide Dot, Combine, Gram, IsInverse;
    GramApply(x, p, d);
    CombineZero(x, p);
    KernelExcludesInverse(b, Gram(x, p), d);
  }

  /** So the clamp of each squared standard error to zero never fires. */
  lemma InverseDiagonalNonNegative(x: Matrix, p: nat, b: Matrix, a: nat)
    requires IsMatrix(x, |x|, p) && a < p
    requires IsInverse(b, Gram(x, p))
    ensures b[a][a] >= 0.0
  {
    hide Dot, Combine, Gram;
    var e := Unit(p, a);
    var u := Apply(b, e);
    ApplyProduct(Gram(x, p), b, e, p);
    EntryOfMatrix(b, p, a, a);
    DotUnit(u, a);
    GramNorm(x, p, u);
    NormNonNegative(Apply(x, u));
  }

  // ------------------------------------------------------------------
  // Optimality
  // ------------------------------------------------------------------

  ghost predicate NormalEquations(x: Matrix, y: Vector, p: nat, c: Vector)
    requires IsMatrix(x, |y|, p) && |c| == p
  {
    Apply(Gram(x, p), c) == Moment(x, y, p)
  }

  lemma ResidualOrthogonal(x: Matrix, y: Vector, p: nat, c: Vector)
    requires IsMatrix(x, |y|, p) && |c| == p && NormalEquations(x, y, p, c)
    ensures Combine(Residual(x, y, c), x, p) == Zero(p)
    ensures forall a :: 0 <= a < p ==> Dot(Column(x, a), Residual(x, y, c)) == 0.0
  {
    hide Dot, Combine;
    forall a | 0 <= a < p
      ensures Dot(Column(x, a), Residual(x, y, c)) == 0.0 && Combine(Residual(x, y, c), x, p)[a] == 0.0
    {
      var column := Column(x, a);
      GramApply(x, p, c);
      assert Apply(Gram(x, p), c)[a] == Dot(column, y);
      CombineEntry(Apply(x, c), x, p, a);
      DotAddScaled(y, -1.0, Apply(x, c), column);
      DotCommutes(column, Residual(x, y, c));
      DotCommutes(column, y);
      DotCommutes(column, Apply(x, c));
      CombineEntry(Residual(x, y, c), x, p, a);
    }
  }

  lemma NormOfDifference(r: Vector, v: Vector)
    requires |r| == |v|
    ensures Dot(AddScaled(r, -1.0, v), AddScaled(r, -1.0, v)) == Dot(r, r) - 2.0 * Dot(r, v) + Dot(v, v)
  {
    hide Dot;
    var d := AddScaled(r, -1.0, v);
    DotAddScaled(r, -1.0, v, d);
    DotCommutes(r, d);
    DotCommutes(v, d);
    DotAddScaled(r, -1.0, v, r);
    DotAddScaled(r, -1.0, v, v);
    DotCommutes(v, r);
  }

  /** Any coefficients cost the optimum plus the squared distance between the two predictions. */
  lemma ResidualDecomposition(x: Matrix, y: Vector, p: nat, c: Vector, b: Vector)
    requires IsMatrix(x, |y|, p) && |b| == |c| == p && NormalEquations(x, y, p, c)
    ensures
      var shift := Apply(x, AddScaled(b, -1.0, c));
      ResidualSumSquares(x, y, b) == ResidualSumSquares(x, y, c) + Dot(shift, shift)
  {
    hide Dot, Combine, NormalEquations;
    var d := AddScaled(b, -1.0, c);
    var shift := Apply(x, d);
    var r := Residual(x, y, c);
    ResidualOrthogonal(x, y, p, c);
    CombineDot(r, x, d);
    DotZero(d);
    ApplyAddScaled(x, b, -1.0, c);
    assert Residual(x, y, b) == AddScaled(r, -1.0, shift);
    NormOfDifference(r, shift);
  }

  lemma FitIsOptimal(x: Matrix, y: Vector, p: nat, c: Vector, b: Vector)
    requires IsMatrix(x, |y|, p) && |b| == |c| == p && NormalEquations(x, y, p, c)
    ensures ResidualSumSquares(x, y, c) <= ResidualSumSquares(x, y, b)
  {
    hide Dot, Combine, NormalEquations;
    ResidualDecomposition(x, y, p, c, b);
    NormNonNegative(Apply(x, AddScaled(b, -1.0, c)));
  }

  lemma FitIsUnique(x: Matrix, y: Vector, p: nat, inverse: Matrix, c: Vector, b: Vector)
    requires IsMatrix(x, |y|, p) && |b| == |c| == p && NormalEquations(x, y, p, c)
    requires IsInverse(inverse, Gram(x, p))
    requires ResidualSumSquares(x, y, b) <= ResidualSumSquares(x, y, c)
    ensures b == c
  {
    hide Dot, Combine, NormalEquations, IsInverse;
    var d := AddScaled(b, -1.0, c);
    ResidualDecomposition(x, y, p, c, b);
    NormNonNegative(Apply(x, d));
    InverseGivesIndependence(x, p, inverse, d);
    forall a | 0 <= a < p
      ensures b[a] == c[a]
    {
      assert d[a] == 0.0;
    }
  }

  // ------------------------------------------------------------------
  // R squared
  // ------------------------------------------------------------------

  lemma {:induction false} SquaredErrorIsNorm(y: Vector, center: real, d: Vector)
    requires |d| == |y| && forall i :: 0 <= i < |y| ==> d[i] == y[i] - center
    ensures SquaredError(y, center) == Dot(d, d)
  {
    if |y| > 0 {
      SquaredErrorIsNorm(y[..|y| - 1], center, d[..|y| - 1]);
    }
  }

  /** Predicting the mean everywhere is one of the candidate models. */
  lemma InterceptModel(rows: Matrix, y: Vector, center: real)
    requires |rows| == |y| && Rectangular(rows)
    ensures
      var p := Predictors(rows) + 1;
      ResidualSumSquares(Design(rows), y, Scale(center, Unit(p, 0))) == SquaredError(y, center)
  {
    hide Dot;
    var x, p := Design(rows), Predictors(rows) + 1;
    var b := Scale(center, Unit(p, 0));
    var r := Residual(x, y, b);
    forall i | 0 <= i < |y|
      ensures r[i] == y[i] - center
    {
      DotCommutes(x[i], b);
      DotScale(center, Unit(p, 0), x[i]);
      DotUnit(x[i], 0);
    }
    SquaredErrorIsNorm(y, center, r);
  }

  lemma ResidualSumNonNegative(x: Matrix, y: Vector, b: Vector)
    requires IsMatrix(x, |y|, |b|)
    ensures ResidualSumSquares(x, y, b) >= 0.0
  {
    NormNonNegative(Residual(x, y, b));
  }

  lemma RSquaredInUnitInterval(rows: Matrix, y: Vector, c: Vector)
    requires |rows| == |y| > 0 && Rectangular(rows) && |c| == Predictors(rows) + 1
    requires NormalEquations(Design(rows), y, Predictors(rows) + 1, c)
    requires SquaredError(y, Mean(y)) > 0.0
    ensures 0.0 <= 1.0 - ResidualSumSquares(Design(rows), y, c) / SquaredError(y, Mean(y)) <= 1.0
  {
    hide Dot, Combine, NormalEquations, ResidualSumSquares;
    var x, p := Design(rows), Predictors(rows) + 1;
    InterceptModel(rows, y, Mean(y));
    FitIsOptimal(x, y, p, c, Scale(Mean(y), Unit(p, 0)));
    ResidualSumNonNegative(x, y, c);
    RatioBounds(ResidualSumSquares(x, y, c), SquaredError(y, Mean(y)));
  }

  lemma RatioBounds(part: real, whole: real)
    requires 0.0 <= part <= whole && 0.0 < whole
    ensures 0.0 <= part / whole <= 1.0
  {
  }

  // ------------------------------------------------------------------
  // The algorithm
  // ------------------------------------------------------------------

  /** Add `row[a]` times `row` to row `a` of the accumulator. */
  method AccumulateRow(xtx: array<Vector>, a: nat, row: Vector)
    requires a < xtx.Length && |xtx[a]| == |row| && a < |row|
    modifies xtx
    ensures xtx[..] == old(xtx[..])[a := AddScaled(old(xtx[a]), row[a], row)]
  {
    ghost var before := xtx[a];
    for b := 0 to |row|
      invariant forall i :: 0 <= i < xtx.Length && i != a ==> xtx[i] == old(xtx[i])
      invariant |xtx[a]| == |row|
      invariant forall j :: 0 <= j < b ==> xtx[a][j] == before[j] + Times(row[a], row[j])
      invariant forall j :: b <= j < |row| ==> xtx[a][j] == before[j]
    {
      xtx[a] := xtx[a][b := xtx[a][b] + row[a] * row[b]];
    }
    assert xtx[a] == AddScaled(before, row[a], row);
  }

  /** Add one observation to the normal equations. */
  method Accumulate(xtx: array<Vector>, xty: array<real>, row: Vector, response: real)
    requires xtx.Length == xty.Length == |row|
    requires forall a :: 0 <= a < |row| ==> |xtx[a]| == |row|
    modifies xtx, xty
    ensures forall a :: 0 <= a < |row| ==> xty[a] == old(xty[a]) + Times(row[a], response)
    ensures forall a :: 0 <= a < |row| ==> xtx[a] == AddScaled(old(xtx[a]), row[a], row)
  {
    ghost var before := xtx[..];
    assert forall i :: 0 <= i < |row| ==> before[i] == xtx[i];
    for a := 0 to |row|
      invariant forall i :: 0 <= i < a ==> xty[i] == old(xty[i]) + Times(row[i], response)
      invariant forall i :: a <= i < |row| ==> xty[i] == old(xty[i])
      invariant forall i :: 0 <= i < a ==> xtx[i] == AddScaled(before[i], row[i], row)
      invariant forall i :: a <= i < |row| ==> xtx[i] == before[i]
    {
      xty[a] := xty[a] + row[a] * response;
      ghost var current := xtx[..];
      AccumulateRow(xtx, a, row);
      assert forall i :: 0 <= i < |row| && i != a ==> xtx[..][i] == current[i];
      assert xtx[..][a] == AddScaled(before[a], row[a], row);
    }
  }

  /** The accumulators hold the normal equations of the first `i` observations. */
  ghost predicate Accumulated(xtx: Matrix, xty: Vector, x: Matrix, y: Vector, p: nat, i: nat)
    requires IsMatrix(x, |y|, p) && i <= |y|
  {
    && IsMatrix(xtx, p, p)
    && |xty| == p
    && (forall a :: 0 <= a < p ==> xtx[a] == Gram(x[..i], p)[a])
    && (forall a :: 0 <= a < p ==> xty[a] == Moment(x[..i], y[..i], p)[a])
  }

  lemma AccumulatedNext(x: Matrix, y: Vector, p: nat, i: nat, a: nat)
    requires IsMatrix(x, |y|, p) && i < |y| && a < p
    ensures Gram(x[..i + 1], p)[a] == AddScaled(Gram(x[..i], p)[a], x[i][a], x[i])
    ensures Moment(x[..i + 1], y[..i + 1], p)[a] == Moment(x[..i], y[..i], p)[a] + Times(x[i][a], y[i])
  {
    assert x[..i + 1][..i] == x[..i] && y[..i + 1][..i] == y[..i];
    assert Column(x[..i + 1], a)[..i] == Column(x[..i], a);
  }

  method NormalSystem(x: Matrix, y: Vector, p: nat) returns (gram: Matrix, moment: Vector)
    requires IsMatrix(x, |y|, p)
    ensures gram == Gram(x, p) && moment == Moment(x, y, p)
  {
    hide Dot, Combine, Gram, Moment;
    var xtx := new Vector[p](_ => Zero(p));
    var xty := new real[p](_ => 0.0);
    StartAccumulating(xtx[..], xty[..], x, y, p);
    for i := 0 to |y|
      invariant Accumulated(xtx[..], xty[..], x, y, p, i)
    {
      ghost var xtx0, xty0 := xtx[..], xty[..];
      assert forall a :: 0 <= a < p ==> xtx0[a] == xtx[a] && xty0[a] == xty[a];
      Accumulate(xtx, xty, x[i], y[i]);
      forall a | 0 <= a < p
        ensures xtx[..][a] == Gram(x[..i + 1], p)[a] && xty[..][a] == Moment(x[..i + 1], y[..i + 1], p)[a]
      {
        AccumulatedNext(x, y, p, i, a);
      }
    }
    gram, moment := xtx[..], xty[..];
    assert x[..|y|] == x && y[..|y|] == y;
    assert gram == Gram(x, p) && moment == Moment(x, y, p);
  }

  lemma StartAccumulating(xtx: Matrix, xty: Vector, x: Matrix, y: Vector, p: nat)
    requires IsMatrix(x, |y|, p) && |xtx| == |xty| == p
    requires forall a :: 0 <= a < p ==> xtx[a] == Zero(p) && xty[a] == 0.0
    ensures Accumulated(xtx, xty, x, y, p, 0)
  {
  }

  /** What a fit promises about its data. */
  ghost predicate IsFit(rows: Matrix, y: Vector, fit: OlsFit)
    requires |rows| == |y| > 0 && Rectangular(rows)
  {
    var x, p := Design(rows), Predictors(rows) + 1;
    && |fit.coefficients| == p < |y|
    && |fit.squaredStandardErrors| == p
    && NormalEquations(x, y, p, fit.coefficients)
    && fit.observations == |y|
    && fit.degreesOfFreedom == |y| - p
    && fit.residualVariance == ResidualSumSquares(x, y, fit.coefficients) / fit.degreesOfFreedom as real
    && (forall b: Vector :: |b| == p && b != fit.coefficients ==>
          ResidualSumSquares(x, y, fit.coefficients) < ResidualSumSquares(x, y, b))
    && (forall a :: 0 <= a < p ==> fit.squaredStandardErrors[a] >= 0.0)
    && 0.0 <= fit.rSquared <= 1.0
    && fit.adjustedRSquared <= fit.rSquared
    && GoodnessOf(y, fit, ResidualSumSquares(x, y, fit.coefficients), SquaredError(y, Mean(y)))
    && Independent(x, p)
  }

  /**
   For a response that varies, the complements of R squared and of its adjusted
   form are the unexplained shares of the total and of the sample variance;
   for a constant one both are zero.
   */
  ghost predicate GoodnessOf(y: Vector, fit: OlsFit, residual: real, total: real)
    requires |y| > 1
  {
    if total > 0.0 then
      && Times(1.0 - fit.rSquared, total) == residual
      && Times(1.0 - fit.adjustedRSquared, total / (|y| - 1) as real) == fit.residualVariance
    else
      fit.rSquared == fit.adjustedRSquared == 0.0
  }

  /** No design column is a combination of the others. */
  ghost predicate Independent(x: Matrix, p: nat)
    requires IsMatrix(x, |x|, p)
  {
    forall d: Vector :: |d| == p && Apply(x, d) == Zero(|x|) ==> d == Zero(p)
  }

  /** Each squared standard error is the residual variance times a diagonal entry of the inverse. */
  ghost predicate ErrorsFromInverse(gram: Matrix, fit: OlsFit) {
    exists inverse: Matrix :: IsInverse(inverse, gram) && ErrorsFrom(inverse, fit)
  }

  ghost predicate ErrorsFrom(inverse: Matrix, fit: OlsFit) {
    && |inverse| == |fit.squaredStandardErrors|
    && forall a :: 0 <= a < |inverse| ==>
         a < |inverse[a]| && fit.squaredStandardErrors[a] == Times(fit.residualVariance, inverse[a][a])
  }

  function FirstRagged(rows: Matrix, i: nat): (r: nat)
    requires i <= |rows|
    ensures i <= r <= |rows|
    ensures forall k :: i <= k < r ==> |rows[k]| == Predictors(rows)
    ensures r < |rows| ==> |rows[r]| != Predictors(rows)
    decreases |rows| - i
  {
    if i < |rows| && |rows[i]| == Predictors(rows) then FirstRagged(rows, i + 1) else i
  }

  /** Coefficients, errors and goodness of fit, once the inverse is known. */
  function Assess(rows: Matrix, y: Vector, inverse: Matrix, moment: Vector): OlsFit
    requires |rows| == |y| && Rectangular(rows) && |y| > Predictors(rows) + 1
    requires |moment| == Predictors(rows) + 1 && IsMatrix(inverse, |moment|, |moment|)
  {
    var x, p := Design(rows), Predictors(rows) + 1;
    var coefficients := Apply(inverse, moment);
    var residual := ResidualSumSquares(x, y, coefficients);
    var total := SquaredError(y, Mean(y));
    var freedom := |y| - p;
    var variance := residual / freedom as real;
    var rSquared := if total > 0.0 then 1.0 - residual / total else 0.0;
    OlsFit(
      coefficients,
      seq(p, a requires 0 <= a < p => ClampToZero(Times(variance, inverse[a][a]))),
      rSquared,
      if total > 0.0 then 1.0 - Times(1.0 - rSquared, (|y| - 1) as real / freedom as real) else 0.0,
      variance,
      |y|,
      freedom)
  }

  function ClampToZero(x: real): real {
    if x < 0.0 then 0.0 else x
  }

  lemma SolvesNormalEquations(x: Matrix, y: Vector, p: nat, inverse: Matrix)
    requires IsMatrix(x, |y|, p) && IsInverse(inverse, Gram(x, p))
    ensures NormalEquations(x, y, p, Apply(inverse, Moment(x, y, p)))
  {
    hide Dot, Combine, Gram, Moment;
    ApplyProduct(Gram(x, p), inverse, Moment(x, y, p), p);
  }

  lemma OnlyMinimiser(x: Matrix, y: Vector, p: nat, inverse: Matrix, c: Vector)
    requires IsMatrix(x, |y|, p) && IsInverse(inverse, Gram(x, p))
    requires |c| == p && NormalEquations(x, y, p, c)
    ensures forall b: Vector :: |b| == p && b != c ==> ResidualSumSquares(x, y, c) < ResidualSumSquares(x, y, b)
  {
    hide Dot, Combine, Gram, IsInverse, NormalEquations, ResidualSumSquares;
    forall b: Vector | |b| == p && b != c
      ensures ResidualSumSquares(x, y, c) < ResidualSumSquares(x, y, b)
    {
      if ResidualSumSquares(x, y, b) <= ResidualSumSquares(x, y, c) {
        FitIsUnique(x, y, p, inverse, c, b);
      }
    }
  }

  lemma QuotientNonNegative(u: real, n: nat)
    requires u >= 0.0 && n > 0
    ensures u / n as real >= 0.0
  {
  }

  lemma AdjustmentLowers(r: real, above: nat, below: nat)
    requires r <= 1.0 && 0 < below <= above
    ensures 1.0 - Times(1.0 - r, above as real / below as real) <= r
  {
    var ratio := above as real / below as real;
    assert ratio >= 1.0;
    ProductNonNegative(1.0 - r, ratio - 1.0);
  }

  lemma ComplementTimesTotal(part: real, whole: real)
    requires whole > 0.0
    ensures Times(1.0 - (1.0 - part / whole), whole) == part
  {
  }

  /** `(1 - adjusted) (total / above) == residual / below`, with `adjusted` as it is computed. */
  lemma AdjustedComplement(residual: real, total: real, above: nat, below: nat)
    requires total > 0.0 && above > 0 && below > 0
    ensures
      var r := 1.0 - residual / total;
      var adjusted := 1.0 - Times(1.0 - r, above as real / below as real);
      Times(1.0 - adjusted, total / above as real) == residual / below as real
  {
    var share, a, b := residual / total, above as real, below as real;
    var v := Times(Times(share, a / b), total / a);
    assert share * total == residual;
    assert a / b * b == a && total / a * a == total;
    assert v * b == share * (a / b * b) * (total / a) == share * (total / a * a) == residual;
  }

  lemma InverseMeansIndependent(x: Matrix, p: nat, inverse: Matrix)
    requires IsMatrix(x, |x|, p) && IsInverse(inverse, Gram(x, p))
    ensures Independent(x, p)
  {
    hide Gram, IsInverse;
    forall d: Vector | |d| == p && Apply(x, d) == Zero(|x|)
      ensures d == Zero(p)
    {
      InverseGivesIndependence(x, p, inverse, d);
    }
  }

  lemma AssessIsFit(rows: Matrix, y: Vector, inverse: Matrix, moment: Vector)
    requires |rows| == |y| && Rectangular(rows) && |y| > Predictors(rows) + 1
    requires
      var x, p := Design(rows), Predictors(rows) + 1;
      IsInverse(inverse, Gram(x, p)) && moment == Moment(x, y, p) && IsMatrix(inverse, p, p)
    ensures IsFit(rows, y, Assess(rows, y, inverse, moment))
    ensures ErrorsFromInverse(Gram(Design(rows), Predictors(rows) + 1), Assess(rows, y, inverse, moment))
  {
    hide Dot, Combine, Gram, Moment, IsInverse, ResidualSumSquares, NormalEquations, SquaredError, Times, Independent;
    var x, p := Design(rows), Predictors(rows) + 1;
    var fit := Assess(rows, y, inverse, moment);
    var c := fit.coefficients;
    SolvesNormalEquations(x, y, p, inverse);
    OnlyMinimiser(x, y, p, inverse, c);
    InverseMeansIndependent(x, p, inverse);
    ResidualSumNonNegative(x, y, c);
    QuotientNonNegative(ResidualSumSquares(x, y, c), |y| - p);
    forall a | 0 <= a < p
      ensures fit.squaredStandardErrors[a] == Times(fit.residualVariance, inverse[a][a]) >= 0.0
    {
      InverseDiagonalNonNegative(x, p, inverse, a);
      ProductNonNegative(fit.residualVariance, inverse[a][a]);
    }
    var total := SquaredError(y, Mean(y));
    if total > 0.0 {
      RSquaredInUnitInterval(rows, y, c);
      ComplementTimesTotal(ResidualSumSquares(x, y, c), total);
      AdjustedComplement(ResidualSumSquares(x, y, c), total, |y| - 1, |y| - p);
      AdjustmentLowers(fit.rSquared, |y| - 1, |y| - p);
    }
    assert ErrorsFrom(inverse, fit);
  }

  /** With enough observations, a fit or the discovery that the predictors are nearly collinear. */
  ghost predicate Answers(rows: Matrix, y: Vector, result: Result<OlsFit, StatsError>)
    requires |rows| == |y| > 0 && Rectangular(rows)
  {
    var gram := Gram(Design(rows), Predictors(rows) + 1);
    match result
    case Ok(fit) => IsFit(rows, y, fit) && ErrorsFromInverse(gram, fit)
    case Err(error) => error == Singular && NearlySingular(gram, 0.000000000001)
  }

  /** Collinear predictors are never fitted: whatever is answered for them is not a fit. */
  lemma CollinearIsNotFitted(rows: Matrix, y: Vector, d: Vector, result: Result<OlsFit, StatsError>)
    requires |rows| == |y| > Predictors(rows) + 1 && Rectangular(rows) && Answers(rows, y, result)
    requires |d| == Predictors(rows) + 1 && d != Zero(|d|) && Apply(Design(rows), d) == Zero(|rows|)
    ensures result == Err(Singular)
  {
    hide Apply;
  }

  method Ols(rows: Matrix, y: Vector) returns (result: Result<OlsFit, StatsError>)
    ensures |rows| != |y| ==> result == Err(LengthMismatch(|rows|, |y|))
    ensures |rows| == |y| && !Rectangular(rows) ==>
      && FirstRagged(rows, 0) < |rows|
      && result == Err(LengthMismatch(Predictors(rows), |rows[FirstRagged(rows, 0)]|))
    ensures |rows| == |y| && Rectangular(rows) && |y| <= Predictors(rows) + 1 ==>
      result == Err(TooFewObservations(|rows|, Predictors(rows) + 2))
    ensures |rows| == |y| && Rectangular(rows) && |y| > Predictors(rows) + 1 ==> Answers(rows, y, result)
  {
    hide Dot, Combine, Gram, Moment, IsInverse, NearlySingular, ResidualSumSquares, NormalEquations, SquaredError;
    if |rows| != |y| {
      return Err(LengthMismatch(|rows|, |y|));
    }
    for i := 0 to |rows|
      invariant FirstRagged(rows, 0) == FirstRagged(rows, i)
      invariant forall k :: 0 <= k < i ==> |rows[k]| == Predictors(rows)
    {
      if |rows[i]| != Predictors(rows) {
        return Err(LengthMismatch(Predictors(rows), |rows[i]|));
      }
    }
    var p := Predictors(rows) + 1;
    if |rows| <= p {
      return Err(TooFewObservations(|rows|, p + 1));
    }
    var x := Design(rows);
    var gram, moment := NormalSystem(x, y, p);
    var inverted := Invert(gram);
    if inverted.None? {
      return Err(Singular);
    }
    InverseShape(inverted.value, gram, p);
    AssessIsFit(rows, y, inverted.value, moment);
    return Ok(Assess(rows, y, inverted.value, moment));
  }

  lemma InverseShape(inverse: Matrix, gram: Matrix, p: nat)
    requires IsInverse(inverse, gram) && |gram| == p
    ensures IsMatrix(inverse, p, p)
  {
  }
}
