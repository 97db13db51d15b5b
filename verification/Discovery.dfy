/**
 The discovery scan: every feature is tested or reported as skipped, the
 p-values are adjusted together, and what is significant is listed strongest
 first. The p-value of a coefficient is a parameter.
 */
module Discovery {
  import opened Comparisons
  import opened FalseDiscovery
  import opened Ordering
  import opened Results
  import opened Samples
  import opened Sets
  import opened Vectors
  import C = Correlation

  type Feature = (string, Vector)

  type Tested = (string, C.Correlation)

  datatype Finding = Finding(feature: string, correlation: C.Correlation, qValue: real)

  datatype Report = Report(
    findings: seq<Finding>,
    candidatesExamined: nat,
    skipped: seq<(string, StatsError)>,
    falseDiscoveryRate: real)

  function Test(values: Vector, response: Vector, monotone: bool): Result<C.Correlation, StatsError> {
    if monotone then C.Spearman(values, response) else C.Pearson(values, response)
  }

  function TestedOf(features: seq<Feature>, response: Vector, monotone: bool): seq<Tested> {
    if |features| == 0 then []
    else
      var (name, values) := features[|features| - 1];
      TestedOf(features[..|features| - 1], response, monotone)
        + match Test(values, response, monotone) { case Ok(c) => [(name, c)] case Err(_) => [] }
  }

  function SkippedOf(features: seq<Feature>, response: Vector, monotone: bool): seq<(string, StatsError)> {
    if |features| == 0 then []
    else
      var (name, values) := features[|features| - 1];
      SkippedOf(features[..|features| - 1], response, monotone)
        + match Test(values, response, monotone) { case Ok(_) => [] case Err(e) => [(name, e)] }
  }

  function PValues(tested: seq<Tested>, pValue: C.Correlation -> PValue): (p: seq<PValue>)
    ensures |p| == |tested|
  {
    seq<PValue>(|tested|, i requires 0 <= i < |tested| => pValue(tested[i].1))
  }

  /** The square of the coefficient, which orders findings as its magnitude does. */
  function Strength(c: C.Correlation): real {
    var scale := Times(c.sxx, c.syy);
    if scale == 0.0 then 0.0 else Times(c.sxy, c.sxy) / scale
  }

  function Order(a: Finding, b: Finding): Comparison {
    Then(CompareReals(Strength(b.correlation), Strength(a.correlation)), CompareText(a.feature, b.feature))
  }

  ghost predicate StrongestFirst(findings: seq<Finding>) {
    forall i, j :: 0 <= i < j < |findings| ==> Order(findings[i], findings[j]) != Greater
  }

  /** The candidates whose adjusted value is at most `rate`. */
  function Select(tested: seq<Tested>, q: seq<real>, rate: real): seq<Finding>
    requires |q| == |tested|
  {
    if |tested| == 0 then []
    else
      var k := |tested| - 1;
      Select(tested[..k], q[..k], rate) + if q[k] <= rate then [Finding(tested[k].0, tested[k].1, q[k])] else []
  }

  ghost predicate AllAdjusted(p: seq<PValue>, q: seq<real>) {
    |q| == |p| && forall i :: 0 <= i < |p| ==> IsAdjusted(p, p[i], q[i])
  }

  /** `findings` are the significant candidates, each as often as it was tested, strongest first. */
  ghost predicate AreFindings(tested: seq<Tested>, pValue: C.Correlation -> PValue, rate: real,
                              findings: seq<Finding>) {
    && StrongestFirst(findings)
    && exists q: seq<real> :: SelectedBy(tested, pValue, rate, findings, q)
  }

  ghost predicate SelectedBy(tested: seq<Tested>, pValue: C.Correlation -> PValue, rate: real,
                             findings: seq<Finding>, q: seq<real>) {
    AllAdjusted(PValues(tested, pValue), q) && multiset(findings) == multiset(Select(tested, q, rate))
  }

  // ------------------------------------------------------------------
  // The scan
  // ------------------------------------------------------------------

  lemma OrderFlips(a: Finding, b: Finding)
    ensures Order(b, a) == Flip(Order(a, b))
    ensures Order(a, b) == Equal ==> a.feature == b.feature
  {
    hide CompareText, Strength;
    CompareTextFlips(a.feature, b.feature);
  }

  lemma OrderTransitive(a: Finding, b: Finding, c: Finding)
    requires Order(a, b) != Greater && Order(b, c) != Greater
    ensures Order(a, c) != Greater
  {
    hide CompareText, Strength;
    CompareTextFlips(a.feature, b.feature);
    CompareTextFlips(b.feature, c.feature);
    if CompareText(a.feature, b.feature) == Less && CompareText(b.feature, c.feature) == Less {
      CompareTextTransitive(a.feature, b.feature, c.feature);
    }
  }

  lemma NothingOutOfOrder()
    ensures StrongestFirst([])
  {
  }

  method SortFindings(findings: seq<Finding>) returns (sorted: seq<Finding>)
    ensures StrongestFirst(sorted) && multiset(sorted) == multiset(findings)
  {
    hide Order, StrongestFirst;
    sorted := [];
    NothingOutOfOrder();
    for k := 0 to |findings|
      invariant |sorted| == k
      invariant StrongestFirst(sorted) && multiset(sorted) == multiset(findings[..k])
    {
      var at := k;
      while at > 0 && Order(sorted[at - 1], findings[k]) == Greater
        invariant 0 <= at <= k
        invariant forall i :: at <= i < k ==> Order(sorted[i], findings[k]) == Greater
      {
        at := at - 1;
      }
      ghost var before := sorted;
      sorted := sorted[..at] + [findings[k]] + sorted[at..];
      InsertedStrongestFirst(before, findings[k], at);
      Inserted(before, at, findings[k]);
      assert findings[..k + 1] == findings[..k] + [findings[k]];
    }
    assert findings[..|findings|] == findings;
  }

  lemma InsertedStrongestFirst(before: seq<Finding>, f: Finding, at: nat)
    requires StrongestFirst(before) && at <= |before|
    requires at > 0 ==> Order(before[at - 1], f) != Greater
    requires forall i :: at <= i < |before| ==> Order(before[i], f) == Greater
    ensures StrongestFirst(before[..at] + [f] + before[at..])
  {
    hide Order;
    var after := before[..at] + [f] + before[at..];
    forall i, j | 0 <= i < j < |after|
      ensures Order(after[i], after[j]) != Greater
    {
      if j == at && i < at - 1 {
        OrderTransitive(before[i], before[at - 1], f);
      } else if i == at {
        OrderFlips(before[j - 1], f);
      }
    }
  }

  method Discover(features: seq<Feature>, response: Vector, rate: real, monotone: bool,
                  pValue: C.Correlation -> PValue)
    returns (report: Report)
    ensures report.candidatesExamined == |features| && report.falseDiscoveryRate == rate
    ensures report.skipped == SkippedOf(features, response, monotone)
    ensures AreFindings(TestedOf(features, response, monotone), pValue, rate, report.findings)
  {
    hide IsAdjusted, StrongestFirst;
    var tested: seq<Tested>, skipped := [], [];
    for i := 0 to |features|
      invariant tested == TestedOf(features[..i], response, monotone)
      invariant skipped == SkippedOf(features[..i], response, monotone)
    {
      assert features[..i + 1][..i] == features[..i];
      var (name, values) := features[i];
      var result;
      if monotone {
        result := C.ComputeSpearman(values, response);
      } else {
        result := C.ComputePearson(values, response);
      }
      match result {
        case Ok(correlation) => tested := tested + [(name, correlation)];
        case Err(error) => skipped := skipped + [(name, error)];
      }
    }
    assert features[..|features|] == features;
    var q := BenjaminiHochberg(PValues(tested, pValue));
    var findings: seq<Finding> := [];
    for i := 0 to |tested|
      invariant findings == Select(tested[..i], q[..i], rate)
    {
      assert tested[..i + 1][..i] == tested[..i] && q[..i + 1][..i] == q[..i];
      if q[i] <= rate {
        findings := findings + [Finding(tested[i].0, tested[i].1, q[i])];
      }
    }
    assert tested[..|tested|] == tested && q[..|q|] == q;
    var sorted := SortFindings(findings);
    assert SelectedBy(tested, pValue, rate, sorted, q);
    return Report(sorted, |features|, skipped, rate);
  }

  // ------------------------------------------------------------------
  // What a report means
  // ------------------------------------------------------------------

  function FeatureNames(features: seq<Feature>): seq<string> {
    seq(|features|, i requires 0 <= i < |features| => features[i].0)
  }

  function TestedNames(tested: seq<Tested>): seq<string> {
    seq(|tested|, i requires 0 <= i < |tested| => tested[i].0)
  }

  function SkippedNames(skipped: seq<(string, StatsError)>): seq<string> {
    seq(|skipped|, i requires 0 <= i < |skipped| => skipped[i].0)
  }

  /** Every feature is either tested or reported as skipped; none is dropped or counted twice. */
  lemma {:induction false} NothingIsDropped(features: seq<Feature>, response: Vector, monotone: bool)
    ensures
      var tested, skipped := TestedOf(features, response, monotone), SkippedOf(features, response, monotone);
      && |tested| + |skipped| == |features|
      && multiset(TestedNames(tested)) + multiset(SkippedNames(skipped)) == multiset(FeatureNames(features))
  {
    hide Test;
    if |features| > 0 {
      var before := features[..|features| - 1];
      var (name, values) := features[|features| - 1];
      NothingIsDropped(before, response, monotone);
      var tested, skipped := TestedOf(before, response, monotone), SkippedOf(before, response, monotone);
      OneMoreName(before, features[|features| - 1]);
      assert features == before + [features[|features| - 1]];
      match Test(values, response, monotone) {
        case Ok(c) =>
          OneMoreTested(tested, (name, c));
          assert SkippedOf(features, response, monotone) == skipped;
        case Err(e) =>
          OneMoreSkipped(skipped, (name, e));
          assert TestedOf(features, response, monotone) == tested;
      }
    }
  }

  lemma OneMoreName(features: seq<Feature>, f: Feature)
    ensures multiset(FeatureNames(features + [f])) == multiset(FeatureNames(features)) + multiset{f.0}
  {
    assert FeatureNames(features + [f]) == FeatureNames(features) + [f.0];
  }

  lemma OneMoreTested(tested: seq<Tested>, t: Tested)
    ensures multiset(TestedNames(tested + [t])) == multiset(TestedNames(tested)) + multiset{t.0}
  {
    assert TestedNames(tested + [t]) == TestedNames(tested) + [t.0];
  }

  lemma OneMoreSkipped(skipped: seq<(string, StatsError)>, t: (string, StatsError))
    ensures multiset(SkippedNames(skipped + [t])) == multiset(SkippedNames(skipped)) + multiset{t.0}
  {
    assert SkippedNames(skipped + [t]) == SkippedNames(skipped) + [t.0];
  }

  lemma {:induction false} SelectMembers(tested: seq<Tested>, q: seq<real>, rate: real, f: Finding)
    requires |q| == |tested|
    ensures f in Select(tested, q, rate) <==>
            exists i :: 0 <= i < |tested| && q[i] <= rate && f == Finding(tested[i].0, tested[i].1, q[i])
  {
    if |tested| > 0 {
      var k := |tested| - 1;
      SelectMembers(tested[..k], q[..k], rate, f);
      if i :| 0 <= i < |tested| && q[i] <= rate && f == Finding(tested[i].0, tested[i].1, q[i]) {
        if i < k {
          assert tested[..k][i] == tested[i] && q[..k][i] == q[i];
        }
      }
    }
  }

  /** What being found says of a candidate, without the adjusted values of the others. */
  lemma FoundMeans(tested: seq<Tested>, pValue: C.Correlation -> PValue, rate: real, findings: seq<Finding>, f: Finding)
    requires AreFindings(tested, pValue, rate, findings)
    ensures f in findings <==>
            && (f.feature, f.correlation) in tested
            && IsAdjusted(PValues(tested, pValue), pValue(f.correlation), f.qValue)
            && f.qValue <= rate
  {
    hide IsAdjusted, Select, StrongestFirst;
    var p := PValues(tested, pValue);
    var q: seq<real> :| SelectedBy(tested, pValue, rate, findings, q);
    SelectMembers(tested, q, rate, f);
    assert f in findings <==> f in multiset(findings);
    assert f in Select(tested, q, rate) <==> f in multiset(Select(tested, q, rate));
    if (f.feature, f.correlation) in tested && IsAdjusted(p, pValue(f.correlation), f.qValue) && f.qValue <= rate {
      var i :| 0 <= i < |tested| && tested[i] == (f.feature, f.correlation);
      AdjustedIsUnique(p, p[i], q[i], f.qValue);
    }
  }

  /** Below level one, being found is being rejected by the step-up procedure over all candidates. */
  lemma FindingsAreStepUp(tested: seq<Tested>, pValue: C.Correlation -> PValue, rate: real, findings: seq<Finding>,
                          order: seq<nat>, s: nat)
    requires AreFindings(tested, pValue, rate, findings) && rate < 1.0
    requires SortedOrder(order, PValues(tested, pValue)) && s < |tested|
    ensures
      var p := PValues(tested, pValue);
      var (name, correlation) := tested[order[s]];
      (exists q :: Finding(name, correlation, q) in findings) <==>
        exists r :: s <= r < |p| && UnderLine(p, order, r, rate)
  {
    hide IsAdjusted, StrongestFirst, UnderLine, Select;
    var p, i := PValues(tested, pValue), order[s];
    var (name, correlation) := tested[i];
    var q: seq<real> :| SelectedBy(tested, pValue, rate, findings, q);
    StepUp(p, order, s, q[i], rate);
    FoundMeans(tested, pValue, rate, findings, Finding(name, correlation, q[i]));
    if other :| Finding(name, correlation, other) in findings {
      FoundMeans(tested, pValue, rate, findings, Finding(name, correlation, other));
      AdjustedIsUnique(p, p[i], q[i], other);
    }
  }

  ghost predicate DistinctNames(findings: seq<Finding>) {
    forall i, j :: 0 <= i < j < |findings| ==> findings[i].feature != findings[j].feature
  }

  /** With distinct names the listing is determined by what it contains. */
  lemma {:induction false} ListingIsUnique(a: seq<Finding>, b: seq<Finding>)
    requires StrongestFirst(a) && StrongestFirst(b) && DistinctNames(a)
    requires multiset(a) == multiset(b)
    ensures a == b
    decreases |a|
  {
    hide StrongestFirst, DistinctNames;
    SameSize(a, b);
    if |a| > 0 {
      FirstIsSame(a, b);
      WithoutFirst(a);
      WithoutFirst(b);
      TailsMatch(a, b);
      ListingIsUnique(a[1..], b[1..]);
    }
  }

  lemma WithoutFirst(a: seq<Finding>)
    requires StrongestFirst(a) && |a| > 0
    ensures StrongestFirst(a[1..])
    ensures DistinctNames(a) ==> DistinctNames(a[1..])
  {
    hide Order;
  }

  lemma FirstIsSame(a: seq<Finding>, b: seq<Finding>)
    requires StrongestFirst(a) && StrongestFirst(b) && DistinctNames(a)
    requires |a| > 0 && multiset(a) == multiset(b)
    ensures |b| > 0 && a[0] == b[0]
  {
    hide Order;
    SameSize(a, b);
    assert a[0] in multiset(b) && b[0] in multiset(a);
    var i :| 0 <= i < |b| && b[i] == a[0];
    var j :| 0 <= j < |a| && a[j] == b[0];
    OrderFlips(a[0], b[0]);
  }

  /** With the rank coefficient, strictly increasing transforms of any feature and of the response change nothing. */
  lemma {:induction false} MonotoneScanIgnoresTransforms(features: seq<Feature>, transforms: seq<real -> real>,
                                                         response: Vector, g: real -> real)
    requires |transforms| == |features| && C.StrictlyIncreasing(g)
    requires forall i :: 0 <= i < |features| ==> C.StrictlyIncreasing(transforms[i])
    ensures TestedOf(Transformed(features, transforms), C.MapValues(g, response), true)
         == TestedOf(features, response, true)
    ensures SkippedOf(Transformed(features, transforms), C.MapValues(g, response), true)
         == SkippedOf(features, response, true)
  {
    if |features| > 0 {
      var k := |features| - 1;
      MonotoneScanIgnoresTransforms(features[..k], transforms[..k], response, g);
      assert Transformed(features, transforms)[..k] == Transformed(features[..k], transforms[..k]);
      C.SpearmanIgnoresMonotoneTransforms(transforms[k], g, features[k].1, response);
    }
  }

  function Transformed(features: seq<Feature>, transforms: seq<real -> real>): seq<Feature>
    requires |transforms| == |features|
  {
    seq(|features|, i requires 0 <= i < |features| => (features[i].0, C.MapValues(transforms[i], features[i].1)))
  }

  lemma {:induction false} TestedConcat(a: seq<Feature>, b: seq<Feature>, response: Vector, monotone: bool)
    ensures TestedOf(a + b, response, monotone) == TestedOf(a, response, monotone) + TestedOf(b, response, monotone)
    decreases |b|
  {
    hide Test;
    if |b| == 0 {
      assert a + b == a;
    } else {
      TestedConcat(a, b[..|b| - 1], response, monotone);
      assert (a + b)[..|a + b| - 1] == a + b[..|b| - 1];
    }
  }

  lemma {:induction false} TestedFollowsOrder(a: seq<Feature>, b: seq<Feature>, response: Vector, monotone: bool)
    requires multiset(a) == multiset(b)
    ensures multiset(TestedOf(a, response, monotone)) == multiset(TestedOf(b, response, monotone))
    decreases |a|
  {
    hide TestedOf;
    SameSize(a, b);
    if |a| == 0 {
      assert a == b;
    } else {
      var k := TakeOut(a, b);
      TestedFollowsOrder(a[1..], b[..k] + b[k + 1..], response, monotone);
      TestedConcat([a[0]], a[1..], response, monotone);
      TestedConcat(b[..k], [b[k]] + b[k + 1..], response, monotone);
      TestedConcat([b[k]], b[k + 1..], response, monotone);
      TestedConcat(b[..k], b[k + 1..], response, monotone);
    }
  }

  lemma {:induction false} SelectConcat(a: seq<Tested>, b: seq<Tested>, p: seq<real>, q: seq<real>, rate: real)
    requires |p| == |a| && |q| == |b|
    ensures Select(a + b, p + q, rate) == Select(a, p, rate) + Select(b, q, rate)
    decreases |b|
  {
    if |b| == 0 {
      assert a + b == a && p + q == p;
    } else {
      var k := |b| - 1;
      SelectConcat(a, b[..k], p, q[..k], rate);
      assert (a + b)[..|a| + k] == a + b[..k] && (p + q)[..|a| + k] == p + q[..k];
    }
  }

  /** What one candidate contributes. */
  function SelectOne(t: Tested, q: real, rate: real): seq<Finding> {
    if q <= rate then [Finding(t.0, t.1, q)] else []
  }

  lemma SelectTaken(tested: seq<Tested>, q: seq<real>, rate: real, k: nat)
    requires |q| == |tested| && k < |tested|
    ensures multiset(Select(tested, q, rate))
         == multiset(Select(tested[..k] + tested[k + 1..], q[..k] + q[k + 1..], rate))
            + multiset(SelectOne(tested[k], q[k], rate))
  {
    hide Select;
    var one, after := [tested[k]], tested[k + 1..];
    var qOne, qAfter := [q[k]], q[k + 1..];
    SelectConcat(tested[..k], after, q[..k], qAfter, rate);
    SelectConcat(one, after, qOne, qAfter, rate);
    SelectConcat(tested[..k], one + after, q[..k], qOne + qAfter, rate);
    SelectSingle(tested[k], q[k], rate);
    Removed(tested, k);
    Removed(q, k);
  }

  lemma SelectSingle(t: Tested, q: real, rate: real)
    ensures Select([t], [q], rate) == SelectOne(t, q, rate)
  {
    assert Select([t][..0], [q][..0], rate) == [];
  }

  /** Equal candidates have equal adjusted values in both listings. */
  ghost predicate Consistent(a: seq<Tested>, p: seq<real>, b: seq<Tested>, q: seq<real>) {
    && |p| == |a| && |q| == |b|
    && forall i, j :: 0 <= i < |a| && 0 <= j < |b| && a[i] == b[j] ==> p[i] == q[j]
  }

  lemma {:induction false} SelectFollowsOrder(a: seq<Tested>, p: seq<real>, b: seq<Tested>, q: seq<real>, rate: real)
    requires multiset(a) == multiset(b) && Consistent(a, p, b, q)
    ensures multiset(Select(a, p, rate)) == multiset(Select(b, q, rate))
    decreases |a|
  {
    SameSize(a, b);
    if |a| > 0 {
      var k := TakeOut(a, b);
      ConsistentRest(a, p, b, q, k);
      SelectFollowsOrder(a[1..], p[1..], b[..k] + b[k + 1..], q[..k] + q[k + 1..], rate);
      SelectStep(a, p, b, q, rate, k);
    }
  }

  lemma SelectStep(a: seq<Tested>, p: seq<real>, b: seq<Tested>, q: seq<real>, rate: real, k: nat)
    requires |p| == |a| > 0 && |q| == |b| && k < |b| && a[0] == b[k] && p[0] == q[k]
    requires multiset(Select(a[1..], p[1..], rate))
          == multiset(Select(b[..k] + b[k + 1..], q[..k] + q[k + 1..], rate))
    ensures multiset(Select(a, p, rate)) == multiset(Select(b, q, rate))
  {
    hide Select;
    SelectTaken(a, p, rate, 0);
    SelectTaken(b, q, rate, k);
    assert a[..0] + a[1..] == a[1..] && p[..0] + p[1..] == p[1..];
  }

  lemma ConsistentRest(a: seq<Tested>, p: seq<real>, b: seq<Tested>, q: seq<real>, k: nat)
    requires Consistent(a, p, b, q) && |a| > 0 && k < |b|
    ensures Consistent(a[1..], p[1..], b[..k] + b[k + 1..], q[..k] + q[k + 1..])
  {
    var rest, values := b[..k] + b[k + 1..], q[..k] + q[k + 1..];
    forall j | 0 <= j < |rest|
      ensures exists m :: 0 <= m < |b| && rest[j] == b[m] && values[j] == q[m]
    {
      var m := if j < k then j else j + 1;
      assert rest[j] == b[m] && values[j] == q[m];
    }
  }

  lemma {:induction false} PValuesFollowOrder(a: seq<Tested>, b: seq<Tested>, pValue: C.Correlation -> PValue)
    requires multiset(a) == multiset(b)
    ensures multiset(PValues(a, pValue)) == multiset(PValues(b, pValue))
    decreases |a|
  {
    SameSize(a, b);
    if |a| > 0 {
      var k := TakeOut(a, b);
      var rest := b[..k] + b[k + 1..];
      PValuesFollowOrder(a[1..], rest, pValue);
      var level := pValue(a[0].1);
      assert PValues(a, pValue) == [level] + PValues(a[1..], pValue);
      assert PValues(b, pValue) == PValues(b[..k], pValue) + [level] + PValues(b[k + 1..], pValue);
      assert PValues(rest, pValue) == PValues(b[..k], pValue) + PValues(b[k + 1..], pValue);
    }
  }

  lemma AdjustedIsConsistent(a: seq<Tested>, b: seq<Tested>, pValue: C.Correlation -> PValue,
                             p: seq<real>, q: seq<real>)
    requires multiset(a) == multiset(b)
    requires AllAdjusted(PValues(a, pValue), p) && AllAdjusted(PValues(b, pValue), q)
    ensures Consistent(a, p, b, q)
  {
    hide IsAdjusted;
    PValuesFollowOrder(a, b, pValue);
    forall i, j | 0 <= i < |a| && 0 <= j < |b| && a[i] == b[j]
      ensures p[i] == q[j]
    {
      var level := pValue(a[i].1);
      AdjustedIgnoresOrder(PValues(a, pValue), PValues(b, pValue), level, p[i]);
      AdjustedIsUnique(PValues(b, pValue), level, p[i], q[j]);
    }
  }

  /** Listing the features in another order gives the same findings, each as often. */
  lemma ScanIgnoresOrder(a: seq<Feature>, b: seq<Feature>, response: Vector, monotone: bool,
                         pValue: C.Correlation -> PValue, rate: real, found: seq<Finding>, found': seq<Finding>)
    requires multiset(a) == multiset(b)
    requires AreFindings(TestedOf(a, response, monotone), pValue, rate, found)
    requires AreFindings(TestedOf(b, response, monotone), pValue, rate, found')
    ensures multiset(found) == multiset(found')
  {
    hide AllAdjusted, Select, StrongestFirst, TestedOf;
    var tested, tested' := TestedOf(a, response, monotone), TestedOf(b, response, monotone);
    TestedFollowsOrder(a, b, response, monotone);
    var p: seq<real> :| SelectedBy(tested, pValue, rate, found, p);
    var q: seq<real> :| SelectedBy(tested', pValue, rate, found', q);
    AdjustedIsConsistent(tested, tested', pValue, p, q);
    SelectFollowsOrder(tested, p, tested', q, rate);
  }

  /** And in the same order, if the features have distinct names. */
  lemma ScanListsTheSame(a: seq<Feature>, b: seq<Feature>, response: Vector, monotone: bool,
                         pValue: C.Correlation -> PValue, rate: real, found: seq<Finding>, found': seq<Finding>)
    requires multiset(a) == multiset(b) && DistinctFeatures(a)
    requires AreFindings(TestedOf(a, response, monotone), pValue, rate, found)
    requires AreFindings(TestedOf(b, response, monotone), pValue, rate, found')
    ensures found == found'
  {
    hide TestedOf;
    ScanIgnoresOrder(a, b, response, monotone, pValue, rate, found, found');
    FindingsAreDistinct(a, response, monotone, pValue, rate, found);
    ListingIsUnique(found, found');
  }

  ghost predicate DistinctFeatures(features: seq<Feature>) {
    forall i, j :: 0 <= i < j < |features| ==> features[i].0 != features[j].0
  }

  ghost predicate DistinctTested(tested: seq<Tested>) {
    forall i, j :: 0 <= i < j < |tested| ==> tested[i].0 != tested[j].0
  }

  lemma {:induction false} TestedAreFeatures(features: seq<Feature>, response: Vector, monotone: bool, t: Tested)
    requires t in TestedOf(features, response, monotone)
    ensures exists i :: 0 <= i < |features| && features[i].0 == t.0
  {
    hide Test;
    var k := |features| - 1;
    if t in TestedOf(features[..k], response, monotone) {
      TestedAreFeatures(features[..k], response, monotone, t);
      var i :| 0 <= i < k && features[..k][i].0 == t.0;
      assert features[i].0 == t.0;
    } else {
      assert features[k].0 == t.0;
    }
  }

  lemma {:induction false} TestedAreDistinct(features: seq<Feature>, response: Vector, monotone: bool)
    requires DistinctFeatures(features)
    ensures DistinctTested(TestedOf(features, response, monotone))
  {
    hide Test;
    if |features| > 0 {
      var k := |features| - 1;
      var before := TestedOf(features[..k], response, monotone);
      TestedAreDistinct(features[..k], response, monotone);
      forall t | t in before
        ensures t.0 != features[k].0
      {
        TestedAreFeatures(features[..k], response, monotone, t);
        var i :| 0 <= i < k && features[..k][i].0 == t.0;
      }
    }
  }

  lemma {:induction false} SelectedAreDistinct(tested: seq<Tested>, q: seq<real>, rate: real)
    requires |q| == |tested| && DistinctTested(tested)
    ensures DistinctNames(Select(tested, q, rate))
  {
    if |tested| > 0 {
      var k := |tested| - 1;
      var before := Select(tested[..k], q[..k], rate);
      SelectedAreDistinct(tested[..k], q[..k], rate);
      forall f | f in before
        ensures f.feature != tested[k].0
      {
        SelectMembers(tested[..k], q[..k], rate, f);
      }
    }
  }

  /** Listing the same findings in another order keeps their names distinct. */
  lemma DistinctInAnyOrder(a: seq<Finding>, b: seq<Finding>)
    requires DistinctNames(a) && multiset(a) == multiset(b)
    ensures DistinctNames(b)
  {
    forall i, j | 0 <= i < j < |b|
      ensures b[i].feature != b[j].feature
    {
      assert b[i] in multiset(a) && b[j] in multiset(a);
      var m :| 0 <= m < |a| && a[m] == b[i];
      var n :| 0 <= n < |a| && a[n] == b[j];
      if b[i] == b[j] {
        CountedOnce(a, b[i]);
        CountedTwice(b, i, j);
      }
    }
  }

  lemma {:induction false} CountedOnce(a: seq<Finding>, f: Finding)
    requires DistinctNames(a)
    ensures multiset(a)[f] == if f in a then 1 else 0
    decreases |a|
  {
    if |a| > 0 {
      CountedOnce(a[1..], f);
      assert a == [a[0]] + a[1..];
      assert f == a[0] ==> f !in a[1..];
    }
  }

  lemma CountedTwice(b: seq<Finding>, i: nat, j: nat)
    requires i < j < |b| && b[i] == b[j]
    ensures multiset(b)[b[i]] >= 2
  {
    Removed(b, j);
    assert (b[..j] + b[j + 1..])[i] == b[i];
    assert b[i] in multiset(b[..j] + b[j + 1..]);
  }

  lemma FindingsAreDistinct(features: seq<Feature>, response: Vector, monotone: bool,
                            pValue: C.Correlation -> PValue, rate: real, found: seq<Finding>)
    requires DistinctFeatures(features)
    requires AreFindings(TestedOf(features, response, monotone), pValue, rate, found)
    ensures DistinctNames(found)
  {
    hide AllAdjusted, StrongestFirst, DistinctNames, TestedOf, Select;
    var tested := TestedOf(features, response, monotone);
    var q: seq<real> :| SelectedBy(tested, pValue, rate, found, q);
    assert |q| == |tested| by { AdjustedSize(PValues(tested, pValue), q); }
    TestedAreDistinct(features, response, monotone);
    SelectedAreDistinct(tested, q, rate);
    DistinctInAnyOrder(Select(tested, q, rate), found);
  }

  lemma AdjustedSize(p: seq<PValue>, q: seq<real>)
    requires AllAdjusted(p, q)
    ensures |q| == |p|
  {
  }

  // ------------------------------------------------------------------
  // What being stronger means
  // ------------------------------------------------------------------

  /** With `root` the square root of `sxx * syy`, the strength is the square of the coefficient. */
  lemma StrengthIsSquare(c: C.Correlation, root: real)
    requires root > 0.0 && Times(root, root) == Times(c.sxx, c.syy)
    ensures Strength(c) == Times(c.sxy / root, c.sxy / root)
  {
    SquareOfQuotient(c.sxy, root);
  }

  lemma SquareOfQuotient(s: real, root: real)
    requires root > 0.0
    ensures Times(root, root) != 0.0
    ensures Times(s, s) / Times(root, root) == Times(s / root, s / root)
  {
    PositiveProduct(root, root);
    var q := s / root;
    assert Times(q, root) == s;
    assert Times(s, s) == Times(Times(q, q), Times(root, root));
  }

  /** Of two findings in the listing, the earlier is the stronger, or as strong with a name that is not later. */
  lemma StrongestFirstMeans(findings: seq<Finding>, i: nat, j: nat)
    requires StrongestFirst(findings) && i < j < |findings|
    ensures
      var a, b := findings[i], findings[j];
      || Strength(a.correlation) > Strength(b.correlation)
      || (Strength(a.correlation) == Strength(b.correlation)
          && !(exists k: nat :: ComesFirstAt(b.feature, a.feature, k)))
  {
    hide Strength, CompareText;
    var a, b := findings[i], findings[j];
    assert Order(a, b) != Greater;
    CompareTextExactly(b.feature, a.feature);
    CompareTextFlips(a.feature, b.feature);
  }
}
