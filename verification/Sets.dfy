/** Finite sets and multisets, where the counting arguments need them. */
module Sets {
  lemma {:induction false} SubsetSize<T>(a: set<T>, b: set<T>)
    requires a <= b
    ensures |a| <= |b|
  {
    if a != {} {
      var x :| x in a;
      SubsetSize(a - {x}, b - {x});
    }
  }

  /** Where `b`, listing the elements of `a` in another order, has the first of them. */
  lemma TakeOut<T>(a: seq<T>, b: seq<T>) returns (k: nat)
    requires |a| > 0 && multiset(a) == multiset(b)
    ensures k < |b| == |a| && b[k] == a[0]
    ensures a == [a[0]] + a[1..] && b == b[..k] + ([b[k]] + b[k + 1..])
    ensures multiset(a[1..]) == multiset(b[..k] + b[k + 1..])
  {
    SameSize(a, b);
    assert a[0] in multiset(b);
    k :| 0 <= k < |b| && b[k] == a[0];
    Removed(a, 0);
    Removed(b, k);
    assert a[..0] + a[1..] == a[1..];
  }

  lemma Removed<T>(a: seq<T>, k: nat)
    requires k < |a|
    ensures a == a[..k] + ([a[k]] + a[k + 1..])
    ensures multiset(a[..k] + a[k + 1..]) == multiset(a) - multiset{a[k]}
  {
    assert a == a[..k] + ([a[k]] + a[k + 1..]);
  }

  lemma TailsMatch<T>(a: seq<T>, b: seq<T>)
    requires |a| > 0 && |b| > 0 && a[0] == b[0] && multiset(a) == multiset(b)
    ensures multiset(a[1..]) == multiset(b[1..])
    ensures a[1..] == b[1..] ==> a == b
  {
    Removed(a, 0);
    Removed(b, 0);
    assert a[..0] + a[1..] == a[1..] && b[..0] + b[1..] == b[1..];
  }

  lemma Inserted<T>(a: seq<T>, k: nat, x: T)
    requires k <= |a|
    ensures multiset(a[..k] + [x] + a[k..]) == multiset(a) + multiset{x}
  {
    assert a == a[..k] + a[k..];
  }

  lemma SameSize<T>(a: seq<T>, b: seq<T>)
    requires multiset(a) == multiset(b)
    ensures |a| == |b|
  {
    assert |multiset(a)| == |a| && |multiset(b)| == |b|;
  }
}
