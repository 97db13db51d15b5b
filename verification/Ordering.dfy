/**
 Sorting a sample by index, and counting how many observations lie below,
 at or up to a level. Ties may come out of the sort in any order.
 */
module Ordering {
  import opened Sets
  import opened Vectors

  /** `order` lists every index once, by non-decreasing value. */
  ghost predicate SortedOrder(order: seq<nat>, values: Vector) {
    && |order| == |values|
    && Listing(order, |values|)
    && forall p, q :: 0 <= p <= q < |order| ==> values[order[p]] <= values[order[q]]
  }

  /** `order` lists the numbers below `n`, each once. */
  ghost predicate Listing(order: seq<nat>, n: nat) {
    && |order| == n
    && (forall p :: 0 <= p < n ==> order[p] < n)
    && (forall p, q :: 0 <= p < q < n ==> order[p] != order[q])
    && (forall i: nat :: i < n ==> i in order)
  }

  method SortIndices(values: Vector) returns (order: seq<nat>)
    ensures SortedOrder(order, values)
  {
    order := [];
    for k := 0 to |values|
      invariant Listing(order, k)
      invariant forall p, q :: 0 <= p <= q < k ==> values[order[p]] <= values[order[q]]
    {
      var at := k;
      while at > 0 && values[k] < values[order[at - 1]]
        invariant 0 <= at <= k
        invariant forall q :: at <= q < k ==> values[k] < values[order[q]]
      {
        at := at - 1;
      }
      ghost var before := order;
      order := order[..at] + [k] + order[at..];
      InsertListing(before, order, k, at);
      InsertSorted(before, order, values, k, at);
    }
  }

  lemma InsertSorted(before: seq<nat>, after: seq<nat>, values: Vector, k: nat, at: nat)
    requires k < |values| && |before| == k && at <= k
    requires forall p :: 0 <= p < k ==> before[p] < k
    requires forall p, q :: 0 <= p <= q < k ==> values[before[p]] <= values[before[q]]
    requires forall q :: at <= q < k ==> values[k] < values[before[q]]
    requires at > 0 ==> values[before[at - 1]] <= values[k]
    requires after == before[..at] + [k] + before[at..]
    ensures forall p :: 0 <= p <= k ==> after[p] <= k
    ensures forall p, q :: 0 <= p <= q <= k ==> values[after[p]] <= values[after[q]]
  {
    forall p, q | 0 <= p <= q <= k
      ensures values[after[p]] <= values[after[q]]
    {
      if q < at {
      } else if q == at {
        assert p < at ==> values[before[p]] <= values[before[at - 1]];
      } else {
        assert after[q] == before[q - 1];
        if p > at {
          assert after[p] == before[p - 1];
        }
      }
    }
  }

  lemma InsertListing(before: seq<nat>, after: seq<nat>, k: nat, at: nat)
    requires Listing(before, k) && at <= k
    requires after == before[..at] + [k] + before[at..]
    ensures Listing(after, k + 1)
  {
    assert forall p :: 0 <= p < k + 1 ==>
      after[p] == if p < at then before[p] else if p == at then k else before[p - 1];
    forall p, q | 0 <= p < q < k + 1
      ensures after[p] != after[q]
    {
      var p', q' := if p < at then p else p - 1, if q < at then q else q - 1;
      assert p != at && q != at ==> before[p'] != before[q'];
    }
    forall i: nat | i < k + 1
      ensures i in after
    {
      if i < k {
        assert i in before;
        var p :| 0 <= p < k && before[p] == i;
        assert after[if p < at then p else p + 1] == i;
      } else {
        assert after[at] == i;
      }
    }
  }

  // ------------------------------------------------------------------
  // Counting
  // ------------------------------------------------------------------

  function CountBelow(values: Vector, v: real): nat {
    if |values| == 0 then 0
    else CountBelow(values[..|values| - 1], v) + if values[|values| - 1] < v then 1 else 0
  }

  function CountEqual(values: Vector, v: real): nat {
    if |values| == 0 then 0
    else CountEqual(values[..|values| - 1], v) + if values[|values| - 1] == v then 1 else 0
  }

  function CountAtMost(values: Vector, v: real): nat {
    CountBelow(values, v) + CountEqual(values, v)
  }

  lemma {:induction false} BelowIsSize(values: Vector, v: real)
    ensures CountBelow(values, v) == |set k: nat | k < |values| && values[k] < v|
  {
    var below := set k: nat | k < |values| && values[k] < v;
    if |values| == 0 {
      assert below == {};
    } else {
      var last := |values| - 1;
      var rest := values[..last];
      BelowIsSize(rest, v);
      var below' := set k: nat | k < |rest| && rest[k] < v;
      assert below == if values[last] < v then below' + {last} else below';
    }
  }

  lemma {:induction false} EqualIsSize(values: Vector, v: real)
    ensures CountEqual(values, v) == |set k: nat | k < |values| && values[k] == v|
  {
    var equal := set k: nat | k < |values| && values[k] == v;
    if |values| == 0 {
      assert equal == {};
    } else {
      var last := |values| - 1;
      var rest := values[..last];
      EqualIsSize(rest, v);
      var equal' := set k: nat | k < |rest| && rest[k] == v;
      assert equal == if values[last] == v then equal' + {last} else equal';
    }
  }

  lemma {:induction false} ImageSize(order: seq<nat>, lo: nat, hi: nat)
    requires lo <= hi <= |order|
    requires forall p, q :: 0 <= p < q < |order| ==> order[p] != order[q]
    ensures |set p | lo <= p < hi :: order[p]| == hi - lo
  {
    var image := set p | lo <= p < hi :: order[p];
    if lo == hi {
      assert image == {};
    } else {
      ImageSize(order, lo, hi - 1);
      var shorter := set p | lo <= p < hi - 1 :: order[p];
      assert order[hi - 1] !in shorter;
      assert |shorter + {order[hi - 1]}| == hi - lo;
      forall k: nat
        ensures k in image <==> k in shorter + {order[hi - 1]}
      {
        if k in image {
          var p :| lo <= p < hi && order[p] == k;
        }
      }
      assert image == shorter + {order[hi - 1]};
    }
  }

  /** A maximal run of equal values in sorted order sits at the positions the counts predict. */
  lemma RunPositions(order: seq<nat>, values: Vector, i: nat, j: nat)
    requires SortedOrder(order, values)
    requires i <= j < |order| && values[order[i]] == values[order[j]]
    requires i > 0 ==> values[order[i - 1]] < values[order[i]]
    requires j + 1 < |order| ==> values[order[j]] < values[order[j + 1]]
    ensures CountBelow(values, values[order[i]]) == i
    ensures CountEqual(values, values[order[i]]) == j - i + 1
  {
    hide CountBelow, CountEqual;
    var v := values[order[i]];
    BelowIsSize(values, v);
    EqualIsSize(values, v);
    ImageSize(order, 0, i);
    ImageSize(order, i, j + 1);
    var below := set k: nat | k < |values| && values[k] < v;
    var equal := set k: nat | k < |values| && values[k] == v;
    var first := set p | 0 <= p < i :: order[p];
    var run := set p | i <= p < j + 1 :: order[p];
    forall k: nat
      ensures k in below <==> k in first
      ensures k in equal <==> k in run
    {
      if k < |values| {
        assert k in order;
        var p :| 0 <= p < |order| && order[p] == k;
        assert p < i ==> values[order[p]] <= values[order[i - 1]];
        assert p > j ==> values[order[j + 1]] <= values[order[p]];
        assert i <= p <= j ==> values[order[i]] <= values[order[p]] <= values[order[j]];
      }
    }
    assert below == first && equal == run;
  }

  /** Every position is at most the number of values up to the value found there. */
  lemma PositionBound(order: seq<nat>, values: Vector, r: nat)
    requires SortedOrder(order, values) && r < |order|
    ensures r + 1 <= CountAtMost(values, values[order[r]])
  {
    var v := values[order[r]];
    BelowIsSize(values, v);
    EqualIsSize(values, v);
    ImageSize(order, 0, r + 1);
    var below := set k: nat | k < |values| && values[k] < v;
    var equal := set k: nat | k < |values| && values[k] == v;
    var first := set p | 0 <= p < r + 1 :: order[p];
    assert first <= below + equal;
    SubsetSize(first, below + equal);
    assert below * equal == {};
  }

  /** Where a run ends, the position is exactly that count. */
  lemma RunEnd(order: seq<nat>, values: Vector, r: nat)
    requires SortedOrder(order, values) && r < |order|
    requires r + 1 < |order| ==> values[order[r]] < values[order[r + 1]]
    ensures r + 1 == CountAtMost(values, values[order[r]])
  {
    var i := r;
    while i > 0 && values[order[i - 1]] == values[order[r]]
      invariant 0 <= i <= r && values[order[i]] == values[order[r]]
    {
      i := i - 1;
    }
    RunPositions(order, values, i, r);
  }

  /** Counts depend on the values only, not on where they stand. */
  lemma {:induction false} CountsIgnoreOrder(a: Vector, b: Vector, v: real)
    requires multiset(a) == multiset(b)
    ensures CountBelow(a, v) == CountBelow(b, v) && CountEqual(a, v) == CountEqual(b, v)
    decreases |a|
  {
    SameSize(a, b);
    if |a| > 0 {
      var last := a[|a| - 1];
      assert last in multiset(b);
      var k :| 0 <= k < |b| && b[k] == last;
      var b' := b[..k] + b[k + 1..];
      Removed(a, |a| - 1);
      Removed(b, k);
      assert a[..|a| - 1] + a[|a|..] == a[..|a| - 1];
      CountsIgnoreOrder(a[..|a| - 1], b', v);
      CountRemove(b, k, v);
    }
  }

  lemma {:induction false} CountRemove(b: Vector, k: nat, v: real)
    requires k < |b|
    ensures CountBelow(b, v) == CountBelow(b[..k] + b[k + 1..], v) + if b[k] < v then 1 else 0
    ensures CountEqual(b, v) == CountEqual(b[..k] + b[k + 1..], v) + if b[k] == v then 1 else 0
    decreases |b|
  {
    var b', last := b[..k] + b[k + 1..], |b| - 1;
    if k == last {
      assert b' == b[..last];
    } else {
      CountRemove(b[..last], k, v);
      assert b'[..last - 1] == b[..last][..k] + b[..last][k + 1..];
    }
  }
}
