/**
 Benjamini-Hochberg adjustment. The loop walks the sorted p-values downwards;
 its answer is characterised without reference to the order the sort chose.
 */
module FalseDiscovery {
  import opened Vectors
  import opened Samples
  import opened Ordering
  import opened Sets

  type PValue = p: real | 0.0 <= p <= 1.0 witness 0.0

  /** The adjusted value that level `v` proposes for every p-value up to it. */
  function Candidate(p: seq<PValue>, v: real): real
    requires |p| > 0
  {
    if CountAtMost(p, v) == 0 then 1.0 else Times(v, |p| as real) / CountAtMost(p, v) as real
  }

  /** `q` is the least of one and the candidates at or above `level`. */
  ghost predicate IsAdjusted(p: seq<PValue>, level: real, q: real)
    requires |p| > 0
  {
    && q <= 1.0
    && (forall j :: 0 <= j < |p| && level <= p[j] ==> q <= Candidate(p, p[j]))
    && (q == 1.0 || exists j :: 0 <= j < |p| && level <= p[j] && q == Candidate(p, p[j]))
  }

  // ------------------------------------------------------------------
  // The walk
  // ------------------------------------------------------------------

  /** `running` is the least of one and the candidates at sorted positions from `rank` on. */
  ghost predicate IsRunningMinimum(p: seq<PValue>, order: seq<nat>, rank: nat, running: real)
    requires |p| > 0 && SortedOrder(order, p) && rank <= |p|
  {
    && running <= 1.0
    && (forall r :: rank <= r < |p| ==> running <= Candidate(p, p[order[r]]))
    && (running == 1.0 || exists r :: rank <= r < |p| && running == Candidate(p, p[order[r]]))
  }

  function Min(x: real, y: real): real {
    if x < y then x else y
  }

  lemma SmallerDivisor(x: real, a: nat, b: nat)
    requires x >= 0.0 && 0 < a <= b
    ensures x / b as real <= x / a as real
  {
    var quotient := x / b as real;
    assert quotient * b as real == x;
    assert quotient >= 0.0;
    ScaledUp(quotient, a, b);
    QuotientBound(quotient, x, a);
  }

  lemma ScaledUp(quotient: real, a: nat, b: nat)
    requires quotient >= 0.0 && a <= b
    ensures quotient * a as real <= quotient * b as real
  {
  }

  lemma QuotientBound(quotient: real, x: real, a: nat)
    requires a > 0 && quotient * a as real <= x
    ensures quotient <= x / a as real
  {
  }

  lemma WalkStep(p: seq<PValue>, order: seq<nat>, rank: nat, running: real)
    requires |p| > 0 && SortedOrder(order, p) && rank < |p|
    requires IsRunningMinimum(p, order, rank + 1, running)
    ensures
      var candidate := Times(p[order[rank]], |p| as real) / (rank + 1) as real;
      IsRunningMinimum(p, order, rank, Min(Min(running, candidate), 1.0))
  {
    hide CountAtMost;
    var v := p[order[rank]];
    var candidate := Times(v, |p| as real) / (rank + 1) as real;
    PositionBound(order, p, rank);
    ProductNonNegative(v, |p| as real);
    SmallerDivisor(Times(v, |p| as real), rank + 1, CountAtMost(p, v));
    if rank + 1 < |p| && p[order[rank + 1]] == v {
      assert Min(Min(running, candidate), 1.0) == running;
    } else {
      RunEnd(order, p, rank);
    }
  }

  lemma RunningIsAdjusted(p: seq<PValue>, order: seq<nat>, rank: nat, running: real)
    requires |p| > 0 && SortedOrder(order, p) && rank < |p|
    requires IsRunningMinimum(p, order, rank, running)
    ensures IsAdjusted(p, p[order[rank]], running)
  {
    hide Candidate;
    forall j | 0 <= j < |p| && p[order[rank]] <= p[j]
      ensures running <= Candidate(p, p[j])
    {
      assert j in order;
      var r :| 0 <= r < |order| && order[r] == j;
      if r < rank {
        assert p[order[r]] <= p[order[rank]];
      }
    }
  }

  method BenjaminiHochberg(p: seq<PValue>) returns (adjusted: seq<real>)
    ensures |adjusted| == |p|
    ensures forall i :: 0 <= i < |p| ==> IsAdjusted(p, p[i], adjusted[i])
  {
    hide IsRunningMinimum, IsAdjusted;
    var m := |p|;
    if m == 0 {
      return [];
    }
    var order := SortIndices(p);
    var out := new real[m](_ => 0.0);
    // One stands for infinity: the first step takes the minimum with one anyway.
    var running := 1.0;
    StartOfWalk(p, order);
    for rank := m downto 0
      invariant IsRunningMinimum(p, order, rank, running)
      invariant forall r :: rank <= r < m ==> IsAdjusted(p, p[order[r]], out[order[r]])
    {
      var index := order[rank];
      var candidate := Times(p[index], m as real) / (rank + 1) as real;
      WalkStep(p, order, rank, running);
      running := Min(Min(running, candidate), 1.0);
      RunningIsAdjusted(p, order, rank, running);
      out[index] := running;
    }
    forall i | 0 <= i < m
      ensures IsAdjusted(p, p[i], out[i])
    {
      assert i in order;
    }
    return out[..];
  }

  lemma StartOfWalk(p: seq<PValue>, order: seq<nat>)
    requires |p| > 0 && SortedOrder(order, p)
    ensures IsRunningMinimum(p, order, |p|, 1.0)
  {
  }

  // ------------------------------------------------------------------
  // What the adjusted values mean
  // ------------------------------------------------------------------

  lemma AdjustedIsUnique(p: seq<PValue>, level: real, q: real, q': real)
    requires |p| > 0 && IsAdjusted(p, level, q) && IsAdjusted(p, level, q')
    ensures q == q'
  {
    hide Candidate;
  }

  /** Adjusted values are monotone in the p-values, so equal p-values share theirs. */
  lemma AdjustedIsMonotone(p: seq<PValue>, level: real, level': real, q: real, q': real)
    requires |p| > 0 && IsAdjusted(p, level, q) && IsAdjusted(p, level', q')
    requires level <= level'
    ensures q <= q'
  {
    hide Candidate;
  }

  lemma {:induction false} CountAtMostBound(p: Vector, v: real)
    ensures CountAtMost(p, v) <= |p|
    ensures (exists j :: 0 <= j < |p| && p[j] <= v) ==> CountAtMost(p, v) > 0
  {
    if |p| > 0 {
      CountAtMostBound(p[..|p| - 1], v);
      assert forall j :: 0 <= j < |p| - 1 ==> p[j] == p[..|p| - 1][j];
    }
  }

  /** Adjustment never makes a p-value smaller. */
  lemma AdjustedNotSmaller(p: seq<PValue>, i: nat, q: real)
    requires i < |p| && IsAdjusted(p, p[i], q)
    ensures p[i] <= q
  {
    hide CountAtMost;
    if q != 1.0 {
      var j :| 0 <= j < |p| && p[i] <= p[j] && q == Candidate(p, p[j]);
      CountAtMostBound(p, p[j]);
      Inflated(p[j], CountAtMost(p, p[j]), |p|);
    }
  }

  lemma Inflated(v: real, count: nat, n: nat)
    requires v >= 0.0 && 0 < count <= n
    ensures v <= Times(v, n as real) / count as real
  {
    ScaledUp(v, count, n);
    QuotientBound(v, Times(v, n as real), count);
  }

  lemma ThresholdForm(x: real, n: nat, alpha: real)
    requires n > 0
    ensures x / n as real <= alpha <==> x <= Times(alpha, n as real)
  {
    var quotient := x / n as real;
    assert quotient * n as real == x;
    if quotient <= alpha {
      assert (alpha - quotient) * n as real >= 0.0;
    } else {
      assert (quotient - alpha) * n as real > 0.0;
    }
  }

  /**
   The step-up procedure: below level one, a p-value is called significant at
   `alpha` exactly when some p-value at or above its rank `s` lies under the
   rejection line of its own rank.
   */
  lemma StepUp(p: seq<PValue>, order: seq<nat>, s: nat, q: real, alpha: real)
    requires s < |p| && SortedOrder(order, p)
    requires IsAdjusted(p, p[order[s]], q) && alpha < 1.0
    ensures q <= alpha <==>
            exists r :: s <= r < |p| && UnderLine(p, order, r, alpha)
  {
    if q <= alpha {
      var j :| 0 <= j < |p| && p[order[s]] <= p[j] && q == Candidate(p, p[j]);
      var r := LastOfRun(p, order, s, j);
      ThresholdForm(Times(p[j], |p| as real), r + 1, alpha);
      assert UnderLine(p, order, r, alpha);
    }
    if r :| s <= r < |p| && UnderLine(p, order, r, alpha) {
      var v := p[order[r]];
      PositionBound(order, p, r);
      ProductNonNegative(v, |p| as real);
      ThresholdForm(Times(v, |p| as real), r + 1, alpha);
      SmallerDivisor(Times(v, |p| as real), r + 1, CountAtMost(p, v));
    }
  }

  ghost predicate UnderLine(p: seq<PValue>, order: seq<nat>, r: nat, alpha: real)
    requires SortedOrder(order, p) && r < |p|
  {
    Times(p[order[r]], |p| as real) <= Times(alpha, (r + 1) as real)
  }

  /** The last sorted position holding the value `p[j]`. */
  lemma LastOfRun(p: seq<PValue>, order: seq<nat>, s: nat, j: nat) returns (r: nat)
    requires s < |p| && j < |p| && SortedOrder(order, p) && p[order[s]] <= p[j]
    ensures s <= r < |p| && p[order[r]] == p[j] && r + 1 == CountAtMost(p, p[j])
  {
    assert j in order;
    var k :| 0 <= k < |order| && order[k] == j;
    r := if k < s then s else k;
    assert p[order[k]] <= p[order[r]];
    while r + 1 < |p| && p[order[r + 1]] == p[j]
      invariant s <= r < |p| && p[order[r]] == p[j]
      decreases |p| - r
    {
      r := r + 1;
    }
    assert r + 1 < |p| ==> p[order[r]] <= p[order[r + 1]];
    RunEnd(order, p, r);
  }

  /** Permuting the input permutes the output: only the multiset of p-values matters. */
  lemma AdjustedIgnoresOrder(p: seq<PValue>, p': seq<PValue>, level: real, q: real)
    requires |p| > 0 && |p'| > 0 && multiset(p) == multiset(p')
    requires IsAdjusted(p, level, q)
    ensures IsAdjusted(p', level, q)
  {
    hide CountAtMost;
    SameCandidates(p, p');
    forall j | 0 <= j < |p'| && level <= p'[j]
      ensures q <= Candidate(p', p'[j])
    {
      assert p'[j] in multiset(p);
      var i :| 0 <= i < |p| && p[i] == p'[j];
    }
    if q != 1.0 {
      var j :| 0 <= j < |p| && level <= p[j] && q == Candidate(p, p[j]);
      assert p[j] in multiset(p');
      var i :| 0 <= i < |p'| && p'[i] == p[j];
    }
  }

  lemma SameCandidates(p: seq<PValue>, p': seq<PValue>)
    requires |p| > 0 && |p'| > 0 && multiset(p) == multiset(p')
    ensures forall v :: Candidate(p, v) == Candidate(p', v)
  {
    var a: Vector, b: Vector := p, p';
    assert multiset(a) == multiset(b);
    SameSize(a, b);
    forall v
      ensures Candidate(p, v) == Candidate(p', v)
    {
      CountsIgnoreOrder(a, b, v);
    }
  }
}
