/**
 Vectors and matrices over the reals: the algebra that the regression engine's
 loops are proved against. A matrix is a sequence of rows; sums run from the
 front, the way the loops accumulate them.
 */
module Vectors {
  type Vector = seq<real>
  type Matrix = seq<Vector>

  predicate IsMatrix(m: Matrix, rows: nat, columns: nat) {
    |m| == rows && forall i :: 0 <= i < rows ==> |m[i]| == columns
  }

  function Abs(x: real): real {
    if x < 0.0 then -x else x
  }

  /** The product, named so that equal factors are seen to give equal products. */
  function Times(x: real, y: real): real {
    x * y
  }

  function Zero(n: nat): Vector {
    seq(n, _ => 0.0)
  }

  function Unit(n: nat, i: nat): Vector {
    seq(n, j => if j == i then 1.0 else 0.0)
  }

  function Scale(f: real, v: Vector): Vector {
    seq(|v|, i requires 0 <= i < |v| => Times(f, v[i]))
  }

  /** `u + f * v`, the shape of every elimination step. */
  function AddScaled(u: Vector, f: real, v: Vector): (r: Vector)
    requires |u| == |v|
    ensures |r| == |u| && forall i :: 0 <= i < |u| ==> r[i] == u[i] + Times(f, v[i])
  {
    seq(|u|, i requires 0 <= i < |u| => u[i] + Times(f, v[i]))
  }

  function Dot(u: Vector, v: Vector): real
    requires |u| == |v|
  {
    if |u| == 0 then 0.0
    else Dot(u[..|u| - 1], v[..|u| - 1]) + Times(u[|u| - 1], v[|u| - 1])
  }

  /** The matrix-vector product. */
  function Apply(m: Matrix, x: Vector): Vector
    requires IsMatrix(m, |m|, |x|)
  {
    seq(|m|, i requires 0 <= i < |m| => Dot(m[i], x))
  }

  /** The vector-matrix product: the rows of `m` combined with weights `w`. */
  function Combine(w: Vector, m: Matrix, columns: nat): (r: Vector)
    requires IsMatrix(m, |w|, columns)
    ensures |r| == columns
  {
    if |w| == 0 then Zero(columns)
    else AddScaled(Combine(w[..|w| - 1], m[..|w| - 1], columns), w[|w| - 1], m[|w| - 1])
  }

  /** `left` times `right` is the identity of size `n`. */
  ghost predicate ProductIsIdentity(left: Matrix, right: Matrix, n: nat)
    requires IsMatrix(left, n, n) && IsMatrix(right, n, n)
  {
    forall i :: 0 <= i < n ==> Combine(left[i], right, n) == Unit(n, i)
  }

  lemma TimesLinear(a: real, f: real, b: real, x: real, rest: real)
    ensures Times(a + Times(f, b), x) == Times(a, x) + Times(f, Times(b, x))
    ensures Times(f, rest + Times(b, x)) == Times(f, rest) + Times(f, Times(b, x))
  {
  }

  lemma {:induction false} DotAddScaled(u: Vector, f: real, v: Vector, x: Vector)
    requires |u| == |v| == |x|
    ensures Dot(AddScaled(u, f, v), x) == Dot(u, x) + Times(f, Dot(v, x))
  {
    if |u| > 0 {
      var k := |u| - 1;
      assert AddScaled(u, f, v)[..k] == AddScaled(u[..k], f, v[..k]);
      DotAddScaled(u[..k], f, v[..k], x[..k]);
      TimesLinear(u[k], f, v[k], x[k], Dot(v[..k], x[..k]));
    }
  }

  lemma {:induction false} DotCommutes(u: Vector, v: Vector)
    requires |u| == |v|
    ensures Dot(u, v) == Dot(v, u)
  {
    if |u| > 0 {
      DotCommutes(u[..|u| - 1], v[..|u| - 1]);
    }
  }

  lemma {:induction false} DotZero(x: Vector)
    ensures Dot(Zero(|x|), x) == 0.0
  {
    if |x| > 0 {
      assert Zero(|x|)[..|x| - 1] == Zero(|x| - 1);
      DotZero(x[..|x| - 1]);
    }
  }

  lemma {:induction false} DotUnit(x: Vector, i: nat)
    requires i < |x|
    ensures Dot(Unit(|x|, i), x) == x[i]
  {
    var k := |x| - 1;
    if i < k {
      assert Unit(|x|, i)[..k] == Unit(k, i);
      DotUnit(x[..k], i);
    } else {
      assert Unit(|x|, i)[..k] == Zero(k);
      DotZero(x[..k]);
    }
  }

  /** `(w m) x == w (m x)`. */
  lemma {:induction false} CombineDot(w: Vector, m: Matrix, x: Vector)
    requires IsMatrix(m, |w|, |x|)
    ensures Dot(Combine(w, m, |x|), x) == Dot(w, Apply(m, x))
  {
    if |w| == 0 {
      DotZero(x);
    } else {
      var k := |w| - 1;
      CombineDot(w[..k], m[..k], x);
      DotAddScaled(Combine(w[..k], m[..k], |x|), w[k], m[k], x);
      assert Apply(m, x)[..k] == Apply(m[..k], x);
    }
  }

  lemma {:induction false} CombineAddScaled(u: Vector, f: real, v: Vector, m: Matrix, columns: nat)
    requires |u| == |v| && IsMatrix(m, |u|, columns)
    ensures Combine(AddScaled(u, f, v), m, columns) == AddScaled(Combine(u, m, columns), f, Combine(v, m, columns))
  {
    if |u| > 0 {
      var k := |u| - 1;
      var w := AddScaled(u, f, v);
      assert w[..k] == AddScaled(u[..k], f, v[..k]);
      CombineAddScaled(u[..k], f, v[..k], m[..k], columns);
      var left, a, b := Combine(w, m, columns), Combine(u, m, columns), Combine(v, m, columns);
      forall j | 0 <= j < columns
        ensures left[j] == a[j] + Times(f, b[j])
      {
        TimesLinear(u[k], f, v[k], m[k][j], Combine(v[..k], m[..k], columns)[j]);
      }
    }
  }

  lemma CombineScale(f: real, v: Vector, m: Matrix, columns: nat)
    requires IsMatrix(m, |v|, columns)
    ensures Combine(Scale(f, v), m, columns) == Scale(f, Combine(v, m, columns))
  {
    hide Combine;
    CombineAddScaled(Zero(|v|), f, v, m, columns);
    assert AddScaled(Zero(|v|), f, v) == Scale(f, v);
    CombineZero(m, columns);
    var c := Combine(v, m, columns);
    assert AddScaled(Zero(columns), f, c) == Scale(f, c);
  }

  lemma {:induction false} CombineZero(m: Matrix, columns: nat)
    requires IsMatrix(m, |m|, columns)
    ensures Combine(Zero(|m|), m, columns) == Zero(columns)
  {
    if |m| > 0 {
      assert Zero(|m|)[..|m| - 1] == Zero(|m| - 1);
      CombineZero(m[..|m| - 1], columns);
    }
  }

  lemma {:induction false} CombineUnit(m: Matrix, columns: nat, i: nat)
    requires IsMatrix(m, |m|, columns) && i < |m|
    ensures Combine(Unit(|m|, i), m, columns) == m[i]
  {
    var k := |m| - 1;
    if i < k {
      assert Unit(|m|, i)[..k] == Unit(k, i);
      CombineUnit(m[..k], columns, i);
    } else {
      assert Unit(|m|, i)[..k] == Zero(k);
      CombineZero(m[..k], columns);
    }
  }

  /** Applying `left` after `right` is applying their product. */
  lemma ApplyProduct(left: Matrix, right: Matrix, x: Vector, n: nat)
    requires IsMatrix(left, n, n) && IsMatrix(right, n, n) && |x| == n
    requires ProductIsIdentity(left, right, n)
    ensures Apply(left, Apply(right, x)) == x
  {
    forall i | 0 <= i < n
      ensures Apply(left, Apply(right, x))[i] == x[i]
    {
      CombineDot(left[i], right, x);
      DotUnit(x, i);
    }
  }

  lemma ApplyAddScaled(m: Matrix, u: Vector, f: real, v: Vector)
    requires |u| == |v| && IsMatrix(m, |m|, |u|)
    ensures Apply(m, AddScaled(u, f, v)) == AddScaled(Apply(m, u), f, Apply(m, v))
  {
    forall i | 0 <= i < |m|
      ensures Dot(m[i], AddScaled(u, f, v)) == Dot(m[i], u) + Times(f, Dot(m[i], v))
    {
      DotAddScaled(u, f, v, m[i]);
      DotCommutes(m[i], AddScaled(u, f, v));
      DotCommutes(m[i], u);
      DotCommutes(m[i], v);
    }
  }

  lemma ApplyZero(m: Matrix, n: nat)
    requires IsMatrix(m, |m|, n)
    ensures Apply(m, Zero(n)) == Zero(|m|)
  {
    forall i | 0 <= i < |m|
      ensures Dot(m[i], Zero(n)) == 0.0
    {
      DotZero(m[i]);
      DotCommutes(m[i], Zero(n));
    }
  }
}
