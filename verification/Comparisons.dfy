/** Three-way comparison, and the order of strings by their characters. */
module Comparisons {
  datatype Comparison = Less | Equal | Greater

  function CompareNumbers(a: int, b: int): Comparison {
    if a < b then Less else if a > b then Greater else Equal
  }

  function CompareReals(a: real, b: real): Comparison {
    if a < b then Less else if a > b then Greater else Equal
  }

  function CompareText(a: string, b: string): Comparison {
    if |a| == 0 then (if |b| == 0 then Equal else Less)
    else if |b| == 0 then Greater
    else if a[0] < b[0] then Less
    else if b[0] < a[0] then Greater
    else CompareText(a[1..], b[1..])
  }

  function Then(first: Comparison, second: Comparison): Comparison {
    if first == Equal then second else first
  }

  function Flip(o: Comparison): Comparison {
    match o
    case Less => Greater
    case Equal => Equal
    case Greater => Less
  }

  lemma {:induction false} CompareTextFlips(a: string, b: string)
    ensures CompareText(b, a) == Flip(CompareText(a, b))
    ensures CompareText(a, b) == Equal <==> a == b
    decreases |a|
  {
    if |a| > 0 && |b| > 0 {
      CompareTextFlips(a[1..], b[1..]);
      assert a == [a[0]] + a[1..] && b == [b[0]] + b[1..];
    }
  }

  lemma {:induction false} CompareTextTransitive(a: string, b: string, c: string)
    requires CompareText(a, b) == Less && CompareText(b, c) == Less
    ensures CompareText(a, c) == Less
    decreases |a|
  {
    if |a| > 0 && |b| > 0 && |c| > 0 && a[0] == b[0] && b[0] == c[0] {
      CompareTextTransitive(a[1..], b[1..], c[1..]);
    }
  }

  /** `a` is a proper prefix of `b`, or has the smaller character at the first place where they differ. */
  ghost predicate ComesFirstAt(a: string, b: string, k: nat) {
    && k <= |a| && k < |b| && a[..k] == b[..k]
    && (k < |a| ==> a[k] < b[k])
  }

  lemma SameStart(a: string, b: string, k: nat)
    ensures ComesFirstAt(a, b, k) && k > 0 ==> |a| > 0 && |b| > 0 && a[0] == b[0]
  {
    if ComesFirstAt(a, b, k) && k > 0 {
      assert a[..k][0] == b[..k][0];
    }
  }

  lemma {:induction false} CompareTextExactly(a: string, b: string)
    ensures CompareText(a, b) == Less <==> exists k: nat :: ComesFirstAt(a, b, k)
    decreases |a|
  {
    if |a| == 0 || |b| == 0 || a[0] != b[0] {
      if CompareText(a, b) == Less {
        assert ComesFirstAt(a, b, 0);
      }
      if k: nat :| ComesFirstAt(a, b, k) {
        SameStart(a, b, k);
      }
    } else {
      CompareTextExactly(a[1..], b[1..]);
      if k: nat :| ComesFirstAt(a[1..], b[1..], k) {
        assert a[..k + 1] == [a[0]] + a[1..][..k] && b[..k + 1] == [b[0]] + b[1..][..k];
        assert ComesFirstAt(a, b, k + 1);
      }
      if k: nat :| ComesFirstAt(a, b, k) {
        assert a[1..][..k - 1] == a[..k][1..] && b[1..][..k - 1] == b[..k][1..];
        assert ComesFirstAt(a[1..], b[1..], k - 1);
      }
    }
  }
}
