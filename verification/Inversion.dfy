/**
 Gauss-Jordan inversion with partial pivoting, in place on two arrays of rows.
 The loop keeps `inv * matrix == a`, keeps `inv` invertible, and finishes one
 column of `a` at a time; what it returns, and what a refusal means, follow.
 */
module Inversion {
  import opened Results
  import opened Vectors

  /** Pivots smaller than this are refused. */
  const PIVOT_THRESHOLD: real := 0.000000000001

  /** `b` is the two-sided inverse of `m`. */
  ghost predicate IsInverse(b: Matrix, m: Matrix) {
    && IsMatrix(m, |m|, |m|)
    && IsMatrix(b, |m|, |m|)
    && ProductIsIdentity(b, m, |m|)
    && ProductIsIdentity(m, b, |m|)
  }

  /**
   Some vector with a coordinate equal to one is sent below `epsilon` in every
   coordinate: an entrywise change smaller than `epsilon` makes `m` singular.
   */
  ghost predicate NearlySingular(m: Matrix, epsilon: real)
    requires IsMatrix(m, |m|, |m|)
  {
    exists x: Vector, c: nat :: IsNearKernel(m, epsilon, x, c)
  }

  ghost predicate IsNearKernel(m: Matrix, epsilon: real, x: Vector, c: nat)
    requires IsMatrix(m, |m|, |m|)
  {
    && |x| == |m|
    && c < |m|
    && x[c] == 1.0
    && forall i :: 0 <= i < |m| ==> Abs(Apply(m, x)[i]) < epsilon
  }

  ghost predicate Injective(m: Matrix, n: nat)
    requires IsMatrix(m, n, n)
  {
    forall x: Vector :: |x| == n && Annihilates(m, x) ==> x == Zero(n)
  }

  ghost predicate Annihilates(m: Matrix, x: Vector)
    requires IsMatrix(m, |m|, |x|)
  {
    forall i :: 0 <= i < |m| ==> Dot(m[i], x) == 0.0
  }

  /** Entry `(i, j)` of the identity. */
  function Delta(i: int, j: int): real {
    if i == j then 1.0 else 0.0
  }

  ghost predicate ColumnsAreUnits(a: Matrix, n: nat, done: nat)
    requires IsMatrix(a, n, n) && done <= n
  {
    forall i, j :: 0 <= i < n && 0 <= j < done ==> a[i][j] == Delta(i, j)
  }

  /** The rows of `matrix` not yet used as pivots still appear in `inv` with weight one. */
  ghost predicate UntouchedRows(inv: Matrix, origin: seq<nat>, n: nat, done: nat)
    requires IsMatrix(inv, n, n) && done <= n
  {
    && |origin| == n
    && (forall s :: 0 <= s < n ==> origin[s] < n)
    && (forall s, t :: 0 <= s < t < n ==> origin[s] != origin[t])
    && forall i, s :: 0 <= i < n && done <= s < n ==> inv[i][origin[s]] == Delta(i, s)
  }

  ghost predicate SameProduct(a: Matrix, inv: Matrix, matrix: Matrix, n: nat)
    requires IsMatrix(a, n, n) && IsMatrix(inv, n, n) && IsMatrix(matrix, n, n)
  {
    forall i :: 0 <= i < n ==> Combine(inv[i], matrix, n) == a[i]
  }

  /** The loop invariant of the elimination after `done` columns. */
  ghost predicate Reduced(a: Matrix, inv: Matrix, origin: seq<nat>, matrix: Matrix, n: nat, done: nat)
    requires IsMatrix(matrix, n, n)
  {
    && done <= n
    && IsMatrix(a, n, n)
    && IsMatrix(inv, n, n)
    && SameProduct(a, inv, matrix, n)
    && Injective(inv, n)
    && ColumnsAreUnits(a, n, done)
    && UntouchedRows(inv, origin, n, done)
  }

  // ------------------------------------------------------------------
  // The three row operations
  // ------------------------------------------------------------------

  function Swapped<T>(s: seq<T>, i: nat, j: nat): seq<T>
    requires i < |s| && j < |s|
  {
    s[i := s[j]][j := s[i]]
  }

  lemma SwapKeepsInjective(inv: Matrix, n: nat, column: nat, pivot: nat)
    requires IsMatrix(inv, n, n) && column < n && pivot < n
    requires Injective(inv, n)
    ensures Injective(Swapped(inv, column, pivot), n)
  {
    hide Dot;
    var inv' := Swapped(inv, column, pivot);
    forall x: Vector | |x| == n && Annihilates(inv', x)
      ensures x == Zero(n)
    {
      forall i | 0 <= i < n
        ensures Dot(inv[i], x) == 0.0
      {
        var j := if i == column then pivot else if i == pivot then column else i;
        assert inv'[j] == inv[i];
      }
      assert Annihilates(inv, x);
    }
  }

  lemma SwapKeeps(a: Matrix, inv: Matrix, origin: seq<nat>, matrix: Matrix, n: nat, column: nat, pivot: nat)
    requires IsMatrix(matrix, n, n)
    requires Reduced(a, inv, origin, matrix, n, column)
    requires column <= pivot < n
    ensures Reduced(Swapped(a, column, pivot), Swapped(inv, column, pivot), Swapped(origin, column, pivot),
                    matrix, n, column)
  {
    hide Combine, Injective;
    SwapKeepsInjective(inv, n, column, pivot);
  }

  lemma ScaleKeepsInjective(inv: Matrix, n: nat, column: nat, factor: real)
    requires IsMatrix(inv, n, n) && column < n && factor != 0.0
    requires Injective(inv, n)
    ensures Injective(inv[column := Scale(factor, inv[column])], n)
  {
    hide Dot;
    var inv' := inv[column := Scale(factor, inv[column])];
    forall x: Vector | |x| == n && Annihilates(inv', x)
      ensures x == Zero(n)
    {
      forall i | 0 <= i < n
        ensures Dot(inv[i], x) == 0.0
      {
        assert Dot(inv'[i], x) == 0.0;
        if i == column {
          DotScale(factor, inv[i], x);
        }
      }
      assert Annihilates(inv, x);
    }
  }

  lemma ScaleKeeps(a: Matrix, inv: Matrix, origin: seq<nat>, matrix: Matrix, n: nat, column: nat, factor: real)
    requires IsMatrix(matrix, n, n)
    requires column < n && factor != 0.0
    requires Reduced(a, inv, origin, matrix, n, column)
    ensures
      var a', inv' := a[column := Scale(factor, a[column])], inv[column := Scale(factor, inv[column])];
      && IsMatrix(a', n, n) && IsMatrix(inv', n, n)
      && SameProduct(a', inv', matrix, n) && Injective(inv', n) && ColumnsAreUnits(a', n, column)
      && UntouchedRows(inv', origin, n, column + 1)
  {
    hide Combine, Injective;
    CombineScale(factor, inv[column], matrix, n);
    ScaleKeepsInjective(inv, n, column, factor);
  }

  lemma DotScale(factor: real, v: Vector, x: Vector)
    requires |v| == |x|
    ensures Dot(Scale(factor, v), x) == Times(factor, Dot(v, x))
  {
    DotAddScaled(Zero(|v|), factor, v, x);
    DotZero(x);
    assert AddScaled(Zero(|v|), factor, v) == Scale(factor, v);
  }

  /** What holds while the rows above `row` have had column `column` cleared. */
  ghost predicate Clearing(a: Matrix, inv: Matrix, origin: seq<nat>, matrix: Matrix, n: nat, column: nat, row: nat)
    requires IsMatrix(matrix, n, n)
  {
    && column < n
    && IsMatrix(a, n, n)
    && IsMatrix(inv, n, n)
    && SameProduct(a, inv, matrix, n)
    && Injective(inv, n)
    && ColumnsAreUnits(a, n, column)
    && UntouchedRows(inv, origin, n, column + 1)
    && a[column][column] == 1.0
    && forall i :: 0 <= i < n && i < row ==> a[i][column] == Delta(i, column)
  }

  lemma ClearKeepsInjective(inv: Matrix, n: nat, column: nat, row: nat, factor: real)
    requires IsMatrix(inv, n, n) && column < n && row < n && row != column
    requires Injective(inv, n)
    ensures Injective(inv[row := AddScaled(inv[row], factor, inv[column])], n)
  {
    hide Dot;
    var inv' := inv[row := AddScaled(inv[row], factor, inv[column])];
    forall x: Vector | |x| == n && Annihilates(inv', x)
      ensures x == Zero(n)
    {
      assert Dot(inv'[column], x) == 0.0;
      forall i | 0 <= i < n
        ensures Dot(inv[i], x) == 0.0
      {
        assert Dot(inv'[i], x) == 0.0;
        if i == row {
          DotAddScaled(inv[row], factor, inv[column], x);
        }
      }
      assert Annihilates(inv, x);
    }
  }

  lemma ClearKeeps(a: Matrix, inv: Matrix, origin: seq<nat>, matrix: Matrix, n: nat, column: nat, row: nat)
    requires IsMatrix(matrix, n, n)
    requires Clearing(a, inv, origin, matrix, n, column, row)
    requires row < n && row != column
    ensures
      var factor := a[row][column];
      Clearing(a[row := AddScaled(a[row], -factor, a[column])],
               inv[row := AddScaled(inv[row], -factor, inv[column])], origin, matrix, n, column, row + 1)
  {
    hide Combine, Injective;
    var factor := a[row][column];
    CombineAddScaled(inv[row], -factor, inv[column], matrix, n);
    ClearKeepsInjective(inv, n, column, row, -factor);
  }

  // ------------------------------------------------------------------
  // A refused pivot
  // ------------------------------------------------------------------

  /** The direction the finished columns cannot tell from zero. */
  function Direction(a: Matrix, n: nat, c: nat): Vector
    requires IsMatrix(a, n, n) && c < n
  {
    seq(n, j requires 0 <= j < n => if j < c then -a[j][c] else if j == c then 1.0 else 0.0)
  }

  lemma {:induction false} DotDirection(a: Matrix, n: nat, c: nat, i: nat, k: nat)
    requires IsMatrix(a, n, n) && c < n && i < n && k <= n
    requires ColumnsAreUnits(a, n, c)
    ensures Dot(a[i][..k], Direction(a, n, c)[..k])
         == (if i < c && i < k then -a[i][c] else 0.0) + (if c < k then a[i][c] else 0.0)
  {
    if k > 0 {
      DotDirection(a, n, c, i, k - 1);
      assert a[i][..k][..k - 1] == a[i][..k - 1];
      assert Direction(a, n, c)[..k][..k - 1] == Direction(a, n, c)[..k - 1];
    }
  }

  /** `sum over t >= s of w[t] * e(origin[t])`. */
  function Spread(origin: seq<nat>, w: Vector, s: nat): (r: Vector)
    requires |origin| == |w| && s <= |w|
    ensures |r| == |w|
    decreases |w| - s
  {
    if s == |w| then Zero(|w|)
    else AddScaled(Spread(origin, w, s + 1), w[s], Unit(|w|, origin[s]))
  }

  lemma {:induction false} SpreadEntry(origin: seq<nat>, w: Vector, s: nat, i: nat, bound: real)
    requires |origin| == |w| && s <= |w| && i < |w| && 0.0 < bound
    requires forall t, u :: 0 <= t < u < |w| ==> origin[t] != origin[u]
    requires forall t :: s <= t < |w| ==> Abs(w[t]) < bound
    ensures Abs(Spread(origin, w, s)[i]) < bound
    ensures (forall t :: s <= t < |w| ==> origin[t] != i) ==> Spread(origin, w, s)[i] == 0.0
    decreases |w| - s
  {
    if s < |w| {
      SpreadEntry(origin, w, s + 1, i, bound);
    }
  }

  lemma {:induction false} DotSpread(row: Vector, origin: seq<nat>, w: Vector, s: nat, i: nat)
    requires |row| == |origin| == |w| && s <= |w| && i < |w|
    requires forall t :: 0 <= t < |w| ==> origin[t] < |w|
    requires forall t :: s <= t < |w| ==> row[origin[t]] == Delta(i, t)
    ensures Dot(row, Spread(origin, w, s)) == if s <= i then w[i] else 0.0
    decreases |w| - s
  {
    DotCommutes(row, Spread(origin, w, s));
    if s == |w| {
      DotZero(row);
    } else {
      DotSpread(row, origin, w, s + 1, i);
      DotCommutes(row, Spread(origin, w, s + 1));
      DotAddScaled(Spread(origin, w, s + 1), w[s], Unit(|w|, origin[s]), row);
      DotUnit(row, origin[s]);
    }
  }

  /** An injective matrix tells distinct vectors apart. */
  lemma InjectiveCancels(m: Matrix, n: nat, u: Vector, v: Vector)
    requires IsMatrix(m, n, n) && |u| == |v| == n
    requires Injective(m, n)
    requires forall i :: 0 <= i < n ==> Dot(m[i], u) == Dot(m[i], v)
    ensures u == v
  {
    hide Dot;
    var difference := AddScaled(u, -1.0, v);
    forall i | 0 <= i < n
      ensures Dot(m[i], difference) == 0.0
    {
      DotAddScaled(u, -1.0, v, m[i]);
      DotCommutes(m[i], difference);
      DotCommutes(m[i], u);
      DotCommutes(m[i], v);
    }
    assert Annihilates(m, difference);
    forall i | 0 <= i < n
      ensures u[i] == v[i]
    {
      assert difference[i] == 0.0;
    }
  }

  /** `matrix` sends the direction to the leftover pivot column, row by original row. */
  lemma DirectionImage(a: Matrix, inv: Matrix, origin: seq<nat>, matrix: Matrix, n: nat, c: nat, w: Vector)
    requires IsMatrix(matrix, n, n) && c < n && |w| == n
    requires Reduced(a, inv, origin, matrix, n, c)
    requires forall i :: 0 <= i < n ==> w[i] == a[i][c]
    ensures Apply(matrix, Direction(a, n, c)) == Spread(origin, w, c)
  {
    hide Dot, Combine, Spread, Injective;
    var x := Direction(a, n, c);
    var image := Apply(matrix, x);
    forall i | 0 <= i < n
      ensures Dot(inv[i], image) == Dot(inv[i], Spread(origin, w, c))
    {
      assert a[i][..n] == a[i] && x[..n] == x;
      DotDirection(a, n, c, i, n);
      CombineDot(inv[i], matrix, x);
      DotSpread(inv[i], origin, w, c, i);
    }
    InjectiveCancels(inv, n, image, Spread(origin, w, c));
  }

  lemma RefusedPivotIsNearlySingular(a: Matrix, inv: Matrix, origin: seq<nat>, matrix: Matrix, n: nat, c: nat,
                                     epsilon: real)
    requires IsMatrix(matrix, n, n) && c < n && 0.0 < epsilon
    requires Reduced(a, inv, origin, matrix, n, c)
    requires forall i :: c <= i < n ==> Abs(a[i][c]) < epsilon
    ensures NearlySingular(matrix, epsilon)
  {
    hide Dot, Combine, Spread, Injective;
    var w := seq(n, i requires 0 <= i < n => a[i][c]);
    DirectionImage(a, inv, origin, matrix, n, c, w);
    forall i | 0 <= i < n
      ensures Abs(Spread(origin, w, c)[i]) < epsilon
    {
      SpreadEntry(origin, w, c, i, epsilon);
    }
    assert IsNearKernel(matrix, epsilon, Direction(a, n, c), c);
  }

  // ------------------------------------------------------------------
  // A finished elimination
  // ------------------------------------------------------------------

  lemma FinishedIsInverse(a: Matrix, inv: Matrix, origin: seq<nat>, matrix: Matrix)
    requires IsMatrix(matrix, |matrix|, |matrix|)
    requires Reduced(a, inv, origin, matrix, |matrix|, |matrix|)
    ensures IsInverse(inv, matrix)
  {
    hide Dot, Combine, Injective;
    var n := |matrix|;
    forall i | 0 <= i < n
      ensures Combine(inv[i], matrix, n) == Unit(n, i)
    {
      assert a[i] == Unit(n, i);
    }
    RightInverse(inv, matrix, n);
  }

  /** An injective left inverse is also a right inverse. */
  lemma RightInverse(b: Matrix, m: Matrix, n: nat)
    requires IsMatrix(b, n, n) && IsMatrix(m, n, n)
    requires ProductIsIdentity(b, m, n) && Injective(b, n)
    ensures ProductIsIdentity(m, b, n)
  {
    hide Dot, Combine, Injective;
    forall i | 0 <= i < n
      ensures Combine(m[i], b, n) == Unit(n, i)
    {
      forall k | 0 <= k < n
        ensures Combine(m[i], b, n)[k] == Delta(i, k)
      {
        RightInverseColumn(b, m, n, k);
        ColumnOfProduct(m[i], b, n, k);
        assert Apply(m, Apply(b, Unit(n, k)))[i] == Unit(n, k)[i];
      }
    }
  }

  /** `m (b e) == e` for the unit vector `e`. */
  lemma RightInverseColumn(b: Matrix, m: Matrix, n: nat, k: nat)
    requires IsMatrix(b, n, n) && IsMatrix(m, n, n) && k < n
    requires ProductIsIdentity(b, m, n) && Injective(b, n)
    ensures Apply(m, Apply(b, Unit(n, k))) == Unit(n, k)
  {
    hide Dot, Combine, Injective;
    var e := Unit(n, k);
    var y := Apply(b, e);
    ApplyProduct(b, m, y, n);
    forall i | 0 <= i < n
      ensures Dot(b[i], Apply(m, y)) == Dot(b[i], e)
    {
      assert Apply(b, Apply(m, y))[i] == Apply(b, e)[i];
    }
    InjectiveCancels(b, n, Apply(m, y), e);
  }

  lemma ColumnOfProduct(w: Vector, m: Matrix, n: nat, k: nat)
    requires IsMatrix(m, n, n) && |w| == n && k < n
    ensures Combine(w, m, n)[k] == Dot(w, Apply(m, Unit(n, k)))
  {
    hide Dot, Combine;
    CombineDot(w, m, Unit(n, k));
    DotUnit(Combine(w, m, n), k);
    DotCommutes(Combine(w, m, n), Unit(n, k));
  }

  /** A matrix with a non-zero kernel vector has no inverse. */
  lemma KernelExcludesInverse(b: Matrix, m: Matrix, x: Vector)
    requires IsInverse(b, m) && |x| == |m|
    requires Apply(m, x) == Zero(|m|)
    ensures x == Zero(|m|)
  {
    ApplyProduct(b, m, x, |m|);
    ApplyZero(b, |m|);
  }

  /** Inverses are unique, so a successful answer is determined by its argument. */
  lemma InverseIsUnique(b: Matrix, c: Matrix, m: Matrix)
    requires IsInverse(b, m) && IsInverse(c, m)
    ensures b == c
  {
    hide Dot, Combine;
    var n := |m|;
    forall i, k | 0 <= i < n && 0 <= k < n
      ensures b[i][k] == c[i][k]
    {
      InverseColumn(b, c, m, k);
      EntryOfMatrix(b, n, i, k);
      EntryOfMatrix(c, n, i, k);
    }
    forall i | 0 <= i < n
      ensures b[i] == c[i]
    {
    }
  }

  lemma InverseColumn(b: Matrix, c: Matrix, m: Matrix, k: nat)
    requires IsInverse(b, m) && IsInverse(c, m) && k < |m|
    ensures Apply(b, Unit(|m|, k)) == Apply(c, Unit(|m|, k))
  {
    hide Dot, Combine, ProductIsIdentity;
    var e := Unit(|m|, k);
    ApplyProduct(m, c, e, |m|);
    ApplyProduct(b, m, Apply(c, e), |m|);
  }

  lemma EntryOfMatrix(m: Matrix, n: nat, i: nat, k: nat)
    requires IsMatrix(m, n, n) && i < n && k < n
    ensures Apply(m, Unit(n, k))[i] == m[i][k]
  {
    hide Dot;
    DotUnit(m[i], k);
    DotCommutes(m[i], Unit(n, k));
  }

  // ------------------------------------------------------------------
  // The algorithm
  // ------------------------------------------------------------------

  /** The last row at or below `column` whose entry there is largest in magnitude. */
  method FindPivot(a: array<Vector>, n: nat, column: nat) returns (pivot: nat)
    requires a.Length == n && IsMatrix(a[..], n, n) && column < n
    ensures column <= pivot < n
    ensures forall i :: column <= i < n ==> Abs(a[i][column]) <= Abs(a[pivot][column])
    ensures forall i :: pivot < i < n ==> Abs(a[i][column]) < Abs(a[pivot][column])
  {
    pivot := column;
    for candidate := column + 1 to n
      invariant column <= pivot < candidate
      invariant forall i :: column <= i < candidate ==> Abs(a[..][i][column]) <= Abs(a[..][pivot][column])
      invariant forall i :: pivot < i < candidate ==> Abs(a[..][i][column]) < Abs(a[..][pivot][column])
    {
      if Abs(a[..][candidate][column]) >= Abs(a[..][pivot][column]) {
        pivot := candidate;
      }
    }
    forall i | 0 <= i < n
      ensures a[i] == a[..][i]
    {
    }
  }

  method DivideRow(a: array<Vector>, row: nat, divisor: real)
    requires row < a.Length && divisor != 0.0
    modifies a
    ensures a[..] == old(a[..])[row := Scale(1.0 / divisor, old(a[row]))]
  {
    ghost var before := a[row];
    for k := 0 to |a[row]|
      invariant |a[row]| == |before|
      invariant forall i :: 0 <= i < a.Length && i != row ==> a[i] == old(a[i])
      invariant forall j :: 0 <= j < k ==> a[row][j] == Times(1.0 / divisor, before[j])
      invariant forall j :: k <= j < |before| ==> a[row][j] == before[j]
    {
      Reciprocal(before[k], divisor);
      a[row] := a[row][k := a[row][k] / divisor];
    }
    assert a[row] == Scale(1.0 / divisor, before);
  }

  lemma Reciprocal(x: real, divisor: real)
    requires divisor != 0.0
    ensures x / divisor == Times(1.0 / divisor, x)
  {
  }

  /** Subtract `factor` times row `source` from row `target`, in both matrices at once. */
  method SubtractRow(a: array<Vector>, inv: array<Vector>, n: nat, target: nat, source: nat, factor: real)
    requires a != inv && a.Length == inv.Length == n
    requires IsMatrix(a[..], n, n) && IsMatrix(inv[..], n, n)
    requires target < n && source < n && target != source
    modifies a, inv
    ensures a[..] == old(a[..])[target := AddScaled(old(a[..])[target], -factor, old(a[..])[source])]
    ensures inv[..] == old(inv[..])[target := AddScaled(old(inv[..])[target], -factor, old(inv[..])[source])]
  {
    ghost var before, before' := a[..], inv[..];
    assert forall i :: 0 <= i < n ==> before[i] == a[i] && before'[i] == inv[i];
    for k := 0 to n
      invariant |a[target]| == |inv[target]| == n
      invariant forall i :: 0 <= i < n && i != target ==> a[i] == before[i] && inv[i] == before'[i]
      invariant forall j :: 0 <= j < k ==> a[target][j] == before[target][j] + Times(-factor, before[source][j])
      invariant forall j :: 0 <= j < k ==> inv[target][j] == before'[target][j] + Times(-factor, before'[source][j])
      invariant forall j :: k <= j < n ==> a[target][j] == before[target][j] && inv[target][j] == before'[target][j]
    {
      a[target] := a[target][k := a[target][k] - factor * a[source][k]];
      inv[target] := inv[target][k := inv[target][k] - factor * inv[source][k]];
    }
    assert a[target] == AddScaled(before[target], -factor, before[source]);
    assert inv[target] == AddScaled(before'[target], -factor, before'[source]);
  }

  /** Bring the pivot row up and divide it, in both matrices. */
  method PlacePivot(a: array<Vector>, inv: array<Vector>, ghost origin: seq<nat>, ghost matrix: Matrix,
                    n: nat, column: nat, pivot: nat)
    returns (ghost origin': seq<nat>)
    requires a != inv && a.Length == inv.Length == n && IsMatrix(matrix, n, n)
    requires Reduced(a[..], inv[..], origin, matrix, n, column)
    requires column <= pivot < n && a[pivot][column] != 0.0
    modifies a, inv
    ensures Clearing(a[..], inv[..], origin', matrix, n, column, 0)
  {
    hide Combine, SameProduct, Injective, ColumnsAreUnits, Clearing;
    ghost var a0, inv0 := Swapped(a[..], column, pivot), Swapped(inv[..], column, pivot);
    SwapKeeps(a[..], inv[..], origin, matrix, n, column, pivot);
    a[column], a[pivot] := a[pivot], a[column];
    inv[column], inv[pivot] := inv[pivot], inv[column];
    origin' := Swapped(origin, column, pivot);
    assert a[..] == a0 && inv[..] == inv0;
    var divisor := a[column][column];
    DivideRow(a, column, divisor);
    DivideRow(inv, column, divisor);
    DividedIsClearing(a0, inv0, origin', matrix, n, column);
    assert a[..] == a0[column := Scale(1.0 / divisor, a0[column])];
    assert inv[..] == inv0[column := Scale(1.0 / divisor, inv0[column])];
  }

  lemma DividedIsClearing(a: Matrix, inv: Matrix, origin: seq<nat>, matrix: Matrix, n: nat, column: nat)
    requires IsMatrix(matrix, n, n) && column < n
    requires Reduced(a, inv, origin, matrix, n, column)
    requires a[column][column] != 0.0
    ensures
      var factor := 1.0 / a[column][column];
      Clearing(a[column := Scale(factor, a[column])], inv[column := Scale(factor, inv[column])],
               origin, matrix, n, column, 0)
  {
    hide Combine, Injective;
    ScaleKeeps(a, inv, origin, matrix, n, column, 1.0 / a[column][column]);
    Reciprocal(a[column][column], a[column][column]);
  }

  /** Clear column `column` from every row but its own. */
  method ClearColumn(a: array<Vector>, inv: array<Vector>, ghost origin: seq<nat>, ghost matrix: Matrix,
                     n: nat, column: nat)
    requires a != inv && a.Length == inv.Length == n && IsMatrix(matrix, n, n)
    requires Clearing(a[..], inv[..], origin, matrix, n, column, 0)
    modifies a, inv
    ensures Clearing(a[..], inv[..], origin, matrix, n, column, n)
  {
    hide Combine, Injective, SameProduct, UntouchedRows;
    for row := 0 to n
      invariant Clearing(a[..], inv[..], origin, matrix, n, column, row)
    {
      assert a[row] == a[..][row];
      if row == column {
        continue;
      }
      var factor := a[row][column];
      ClearKeeps(a[..], inv[..], origin, matrix, n, column, row);
      if factor == 0.0 {
        SubtractNothing(a[..], row, column);
        SubtractNothing(inv[..], row, column);
        continue;
      }
      SubtractRow(a, inv, n, row, column, factor);
    }
  }

  lemma SubtractNothing(m: Matrix, row: nat, column: nat)
    requires row < |m| && column < |m| && |m[row]| == |m[column]|
    ensures m[row := AddScaled(m[row], -0.0, m[column])] == m
  {
    assert AddScaled(m[row], -0.0, m[column]) == m[row];
  }

  /** The first column has nothing to start from. */
  ghost predicate NegligibleColumn(matrix: Matrix)
    requires IsMatrix(matrix, |matrix|, |matrix|)
  {
    |matrix| > 0 && forall i :: 0 <= i < |matrix| ==> Abs(matrix[i][0]) < 0.000000000001
  }

  method Invert(matrix: Matrix) returns (result: Option<Matrix>)
    requires IsMatrix(matrix, |matrix|, |matrix|)
    ensures result.Some? ==> IsInverse(result.value, matrix)
    ensures result.None? ==> NearlySingular(matrix, 0.000000000001)
    ensures NegligibleColumn(matrix) ==> result.None?
  {
    hide Combine, Injective, SameProduct, UntouchedRows, IsInverse, NearlySingular;
    var n := |matrix|;
    var a := new Vector[n](i requires 0 <= i < n => matrix[i]);
    var inv := new Vector[n](i => Unit(n, i));
    ghost var origin: seq<nat> := seq(n, i => i);
    assert a[..] == matrix;
    StartIsReduced(inv[..], origin, matrix);
    for column := 0 to n
      invariant Reduced(a[..], inv[..], origin, matrix, n, column)
      invariant column == 0 ==> a[..] == matrix
      invariant column > 0 ==> !NegligibleColumn(matrix)
    {
      var pivot := FindPivot(a, n, column);
      assert forall i :: 0 <= i < n ==> a[i] == a[..][i];
      if Abs(a[pivot][column]) < PIVOT_THRESHOLD {
        RefusedPivotIsNearlySingular(a[..], inv[..], origin, matrix, n, column, PIVOT_THRESHOLD);
        return None;
      }
      origin := PlacePivot(a, inv, origin, matrix, n, column, pivot);
      ClearColumn(a, inv, origin, matrix, n, column);
    }
    FinishedIsInverse(a[..], inv[..], origin, matrix);
    return Some(inv[..]);
  }

  lemma StartIsReduced(inv: Matrix, origin: seq<nat>, matrix: Matrix)
    requires IsMatrix(matrix, |matrix|, |matrix|)
    requires |inv| == |matrix| == |origin|
    requires forall i :: 0 <= i < |matrix| ==> inv[i] == Unit(|matrix|, i) && origin[i] == i
    ensures Reduced(matrix, inv, origin, matrix, |matrix|, 0)
  {
    hide Dot, Combine;
    var n := |matrix|;
    forall i | 0 <= i < n
      ensures Combine(inv[i], matrix, n) == matrix[i]
    {
      CombineUnit(matrix, n, i);
    }
    UnitsAreInjective(inv, n);
  }

  lemma UnitsAreInjective(inv: Matrix, n: nat)
    requires IsMatrix(inv, n, n) && forall i :: 0 <= i < n ==> inv[i] == Unit(n, i)
    ensures Injective(inv, n)
  {
    hide Dot;
    forall x: Vector | |x| == n && Annihilates(inv, x)
      ensures x == Zero(n)
    {
      forall i | 0 <= i < n
        ensures x[i] == 0.0
      {
        DotUnit(x, i);
        assert Dot(inv[i], x) == 0.0;
      }
    }
  }
}
