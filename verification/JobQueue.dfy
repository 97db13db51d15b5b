/**
 Scheduling policy of the durable queue: eligibility, aging priorities, a total
 order on candidates, and the selection of the next job.
 */
module JobQueue {
  import opened Comparisons
  import opened Results
  import opened Bytes

  datatype TrustTier = Untrusted | Standard | Trusted | Privileged

  function TierRank(t: TrustTier): nat {
    match t
    case Untrusted => 0
    case Standard => 1
    case Trusted => 2
    case Privileged => 3
  }

  datatype Requirements = Requirements(
    os: string, arch: string, runtime: Option<string>, profile: string, features: seq<string>, minimumTier: TrustTier)

  datatype Worker = Worker(
    os: string, arch: string, runtime: Option<string>, profile: string, features: seq<string>, tier: TrustTier,
    maxConcurrency: nat, activeJobs: nat)

  datatype EligibilityError =
    | CapacityExhausted | OsMismatch | ArchMismatch | RuntimeMismatch | ProfileMismatch
    | MissingFeature | InsufficientTrust

  function CheckEligibility(r: Requirements, w: Worker): Result<(), EligibilityError> {
    if w.maxConcurrency == 0 || w.activeJobs >= w.maxConcurrency then Err(CapacityExhausted)
    else if r.os != w.os then Err(OsMismatch)
    else if r.arch != w.arch then Err(ArchMismatch)
    else if r.runtime.Some? && w.runtime != r.runtime then Err(RuntimeMismatch)
    else if r.profile != w.profile then Err(ProfileMismatch)
    else if exists k :: 0 <= k < |r.features| && r.features[k] !in w.features then Err(MissingFeature)
    else if TierRank(w.tier) < TierRank(r.minimumTier) then Err(InsufficientTrust)
    else Ok(())
  }

  /** A worker that offers at least as much, and has a slot free, takes whatever the other would. */
  lemma RicherWorkerTakesAsMuch(r: Requirements, w: Worker, richer: Worker)
    requires richer.os == w.os && richer.arch == w.arch && richer.runtime == w.runtime && richer.profile == w.profile
    requires forall f :: f in w.features ==> f in richer.features
    requires TierRank(w.tier) <= TierRank(richer.tier) && richer.activeJobs < richer.maxConcurrency
    ensures CheckEligibility(r, w).Ok? ==> CheckEligibility(r, richer).Ok?
  {
  }

  datatype Policy = Policy(ageStepSeconds: nat, maxAgeBoost: nat)

  datatype Candidate = Candidate(
    jobId: string, basePriority: nat, enqueuedAt: U64, availableAt: U64, requirements: Requirements)

  function AgeStep(policy: Policy): (step: nat)
    ensures step > 0
  {
    if policy.ageStepSeconds > 1 then policy.ageStepSeconds else 1
  }

  function EffectivePriority(c: Candidate, now: nat, policy: Policy): nat {
    var age := if now > c.enqueuedAt then now - c.enqueuedAt else 0;
    var boost := age / AgeStep(policy);
    c.basePriority + if boost < policy.maxAgeBoost then boost else policy.maxAgeBoost
  }

  // ------------------------------------------------------------------
  // The order
  // ------------------------------------------------------------------

  /** `Less` means `a` is scheduled before `b`. */
  function Compare(a: Candidate, b: Candidate, now: nat, policy: Policy): Comparison {
    Then(Then(CompareNumbers(EffectivePriority(b, now, policy), EffectivePriority(a, now, policy)),
              CompareNumbers(a.availableAt, b.availableAt)),
         CompareText(a.jobId, b.jobId))
  }

  lemma CompareFlips(a: Candidate, b: Candidate, now: nat, policy: Policy)
    ensures Compare(b, a, now, policy) == Flip(Compare(a, b, now, policy))
    ensures Compare(a, b, now, policy) == Equal ==> a.jobId == b.jobId
  {
    hide EffectivePriority, CompareText;
    CompareTextFlips(a.jobId, b.jobId);
  }

  lemma CompareTransitive(a: Candidate, b: Candidate, c: Candidate, now: nat, policy: Policy)
    requires Compare(a, b, now, policy) == Less && Compare(b, c, now, policy) == Less
    ensures Compare(a, c, now, policy) == Less
  {
    hide EffectivePriority, CompareText;
    CompareTextFlips(a.jobId, b.jobId);
    CompareTextFlips(b.jobId, c.jobId);
    if CompareText(a.jobId, b.jobId) == Less && CompareText(b.jobId, c.jobId) == Less {
      CompareTextTransitive(a.jobId, b.jobId, c.jobId);
    }
  }

  /** A base priority that leads by more than the largest boost is never overtaken, whatever the ages. */
  lemma LeadBeyondBoostHolds(a: Candidate, b: Candidate, now: nat, policy: Policy)
    requires a.basePriority > b.basePriority + policy.maxAgeBoost
    ensures Compare(a, b, now, policy) == Less
  {
  }

  /** When `b` leads `a` by most: just before a later `a` gets its first boost, or when the clock ends. */
  function BestTime(a: Candidate, policy: Policy): U64 {
    if a.enqueuedAt + AgeStep(policy) - 1 < U64_MAX then a.enqueuedAt + AgeStep(policy) - 1 else U64_MAX
  }

  /** The largest boost `b` can have over `a` at any one time of a 64-bit clock. */
  function BestAdvantage(a: Candidate, b: Candidate, policy: Policy): nat {
    if a.enqueuedAt <= b.enqueuedAt then 0
    else
      var steps := (BestTime(a, policy) - b.enqueuedAt) / AgeStep(policy);
      if steps < policy.maxAgeBoost then steps else policy.maxAgeBoost
  }

  function Boost(c: Candidate, now: nat, policy: Policy): nat {
    EffectivePriority(c, now, policy) - c.basePriority
  }

  /** `floor((x + gap) / step) <= floor(x / step) + ceil(gap / step)`. */
  lemma QuotientGap(x: nat, gap: nat, step: nat)
    requires step > 0
    ensures (x + gap) / step <= x / step + (gap + step - 1) / step
  {
    var q, c, f := x / step, (gap + step - 1) / step, (x + gap) / step;
    assert x < (q + 1) * step by { Division(x, step); }
    assert gap <= c * step by { Division(gap + step - 1, step); }
    Division(x + gap, step);
    if f >= q + c + 1 {
      Factored(q + 1, c, step);
      Scaled(q + c + 1, f, step);
    }
  }

  lemma Division(x: nat, step: nat)
    requires step > 0
    ensures x / step * step <= x < (x / step + 1) * step
  {
  }

  lemma Factored(a: nat, b: nat, step: nat)
    ensures (a + b) * step == a * step + b * step
  {
  }

  lemma Scaled(a: nat, b: nat, step: nat)
    requires a <= b
    ensures a * step <= b * step
  {
  }

  lemma QuotientGrows(x: nat, y: nat, step: nat)
    requires step > 0 && x <= y
    ensures x / step <= y / step
  {
    Division(x, step);
    Division(y, step);
    if x / step > y / step {
      Scaled(y / step + 1, x / step, step);
    }
  }

  lemma AdvantageIsBest(a: Candidate, b: Candidate, now: U64, policy: Policy)
    ensures Boost(b, now, policy) <= Boost(a, now, policy) + BestAdvantage(a, b, policy)
  {
    var step := AgeStep(policy);
    var ageA := if now > a.enqueuedAt then now - a.enqueuedAt else 0;
    var ageB := if now > b.enqueuedAt then now - b.enqueuedAt else 0;
    if a.enqueuedAt <= b.enqueuedAt {
      QuotientGrows(ageB, ageA, step);
    } else if now <= BestTime(a, policy) {
      QuotientGrows(ageB, BestTime(a, policy) - b.enqueuedAt, step);
    } else {
      QuotientGap(ageA, a.enqueuedAt - b.enqueuedAt, step);
    }
  }

  /** That advantage is reached, when the earlier job is `b`, while `a` has no boost yet. */
  lemma AdvantageIsReached(a: Candidate, b: Candidate, policy: Policy)
    ensures
      var now := if a.enqueuedAt <= b.enqueuedAt then 0 else BestTime(a, policy);
      Boost(b, now, policy) == Boost(a, now, policy) + BestAdvantage(a, b, policy)
  {
    var step, now := AgeStep(policy), BestTime(a, policy);
    assert 0 / step == 0;
    NoWholeStep(now - a.enqueuedAt, step);
  }

  lemma NoWholeStep(x: nat, step: nat)
    requires x < step
    ensures x / step == 0
  {
  }

  /**
   A job with the higher base priority is overtaken at some time of a 64-bit
   clock if and only if its lead is less than the other's best advantage, or
   equal to it with availability and then id in the other's favour.
   */
  lemma OvertakenExactly(a: Candidate, b: Candidate, policy: Policy)
    requires a.basePriority >= b.basePriority
    ensures
      var lead, best := a.basePriority - b.basePriority, BestAdvantage(a, b, policy);
      (exists now: U64 :: Compare(a, b, now, policy) == Greater)
      <==> lead < best || (lead == best && TieBreak(a, b) == Greater)
  {
    hide BestAdvantage, CompareText;
    var lead, best := a.basePriority - b.basePriority, BestAdvantage(a, b, policy);
    AdvantageIsReached(a, b, policy);
    var at: U64 := if a.enqueuedAt <= b.enqueuedAt then 0 else BestTime(a, policy);
    if lead < best || (lead == best && TieBreak(a, b) == Greater) {
      assert Compare(a, b, at, policy) == Greater;
    }
    if now: U64 :| Compare(a, b, now, policy) == Greater {
      AdvantageIsBest(a, b, now, policy);
    }
  }

  function TieBreak(a: Candidate, b: Candidate): Comparison {
    Then(CompareNumbers(a.availableAt, b.availableAt), CompareText(a.jobId, b.jobId))
  }

  // ------------------------------------------------------------------
  // Selection
  // ------------------------------------------------------------------

  predicate Eligible(c: Candidate, w: Worker, now: nat) {
    c.availableAt <= now && CheckEligibility(c.requirements, w).Ok?
  }

  /** The first minimum among the eligible, as an index. */
  function SelectIndex(candidates: seq<Candidate>, w: Worker, now: nat, policy: Policy): (r: Option<nat>)
    ensures r.Some? ==> r.value < |candidates|
  {
    if |candidates| == 0 then None
    else
      var k := |candidates| - 1;
      var best := SelectIndex(candidates[..k], w, now, policy);
      if !Eligible(candidates[k], w, now) then best
      else if best.None? then Some(k)
      else if Compare(candidates[k], candidates[best.value], now, policy) == Less then Some(k)
      else best
  }

  function SelectNext(candidates: seq<Candidate>, w: Worker, now: nat, policy: Policy): Option<Candidate> {
    match SelectIndex(candidates, w, now, policy)
    case Some(k) => Some(candidates[k])
    case None => None
  }

  ghost predicate DistinctIds(candidates: seq<Candidate>) {
    forall i, j :: 0 <= i < j < |candidates| ==> candidates[i].jobId != candidates[j].jobId
  }

  /** `c` is eligible and goes before every other eligible candidate. */
  ghost predicate IsFirst(c: Candidate, candidates: seq<Candidate>, w: Worker, now: nat, policy: Policy) {
    && c in candidates && Eligible(c, w, now)
    && forall d :: d in candidates && d != c && Eligible(d, w, now) ==> Compare(c, d, now, policy) == Less
  }

  lemma {:induction false} SelectedIsFirst(candidates: seq<Candidate>, w: Worker, now: nat, policy: Policy)
    requires DistinctIds(candidates)
    ensures match SelectNext(candidates, w, now, policy)
            case Some(c) => IsFirst(c, candidates, w, now, policy)
            case None => forall d :: d in candidates ==> !Eligible(d, w, now)
  {
    hide Eligible, Compare;
    if |candidates| > 0 {
      var k := |candidates| - 1;
      var rest, last := candidates[..k], candidates[k];
      SelectedIsFirst(rest, w, now, policy);
      assert candidates == rest + [last];
      var best := SelectNext(rest, w, now, policy);
      if Eligible(last, w, now) && best.Some? {
        CompareFlips(last, best.value, now, policy);
        forall d | d in rest && d != best.value && Eligible(d, w, now)
          ensures Compare(last, best.value, now, policy) == Less ==> Compare(last, d, now, policy) == Less
        {
          if Compare(last, best.value, now, policy) == Less {
            CompareTransitive(last, best.value, d, now, policy);
          }
        }
      }
    }
  }

  lemma FirstIsUnique(c: Candidate, d: Candidate, candidates: seq<Candidate>, w: Worker, now: nat, policy: Policy)
    requires IsFirst(c, candidates, w, now, policy) && IsFirst(d, candidates, w, now, policy)
    ensures c == d
  {
    CompareFlips(c, d, now, policy);
  }

  /** The order in which candidates are listed does not matter. */
  lemma SelectionIgnoresOrder(a: seq<Candidate>, b: seq<Candidate>, w: Worker, now: nat, policy: Policy)
    requires DistinctIds(a) && DistinctIds(b) && multiset(a) == multiset(b)
    ensures SelectNext(a, w, now, policy) == SelectNext(b, w, now, policy)
  {
    hide Eligible, Compare, SelectNext;
    SelectedIsFirst(a, w, now, policy);
    SelectedIsFirst(b, w, now, policy);
    assert forall c :: c in a <==> c in multiset(a);
    assert forall c :: c in b <==> c in multiset(b);
    var x, y := SelectNext(a, w, now, policy), SelectNext(b, w, now, policy);
    if x.Some? && y.Some? {
      assert IsFirst(x.value, b, w, now, policy);
      FirstIsUnique(x.value, y.value, b, w, now, policy);
    }
  }

  // ------------------------------------------------------------------
  // Draining
  // ------------------------------------------------------------------

  /** Select and remove until nothing is eligible. */
  function Drain(candidates: seq<Candidate>, w: Worker, now: nat, policy: Policy): seq<Candidate>
    decreases |candidates|
  {
    match SelectIndex(candidates, w, now, policy)
    case None => []
    case Some(k) => [candidates[k]] + Drain(candidates[..k] + candidates[k + 1..], w, now, policy)
  }

  lemma RemovalKeepsIds(candidates: seq<Candidate>, k: nat)
    requires DistinctIds(candidates) && k < |candidates|
    ensures
      var rest := candidates[..k] + candidates[k + 1..];
      && DistinctIds(rest)
      && candidates[k] !in rest
      && multiset(candidates) == multiset(rest) + multiset{candidates[k]}
      && forall c :: c in candidates <==> c in rest || c == candidates[k]
  {
    var rest := candidates[..k] + candidates[k + 1..];
    assert candidates == candidates[..k] + [candidates[k]] + candidates[k + 1..];
    forall c | c in rest
      ensures c.jobId != candidates[k].jobId
    {
      var i :| 0 <= i < |rest| && rest[i] == c;
      assert c == candidates[if i < k then i else i + 1];
    }
  }

  /** Draining yields each eligible candidate once, in scheduling order, and nothing else. */
  lemma {:induction false} DrainIsSorted(candidates: seq<Candidate>, w: Worker, now: nat, policy: Policy)
    requires DistinctIds(candidates)
    ensures
      var drained := Drain(candidates, w, now, policy);
      && (forall c :: c in drained <==> c in candidates && Eligible(c, w, now))
      && (forall i, j :: 0 <= i < j < |drained| ==> Compare(drained[i], drained[j], now, policy) == Less)
    decreases |candidates|
  {
    hide Eligible, Compare, SelectIndex;
    SelectedIsFirst(candidates, w, now, policy);
    match SelectIndex(candidates, w, now, policy)
    case None =>
    case Some(k) =>
      var rest := candidates[..k] + candidates[k + 1..];
      RemovalKeepsIds(candidates, k);
      DrainIsSorted(rest, w, now, policy);
      var tail := Drain(rest, w, now, policy);
      forall i | 0 <= i < |tail|
        ensures Compare(candidates[k], tail[i], now, policy) == Less
      {
        assert tail[i] in tail;
      }
  }

  // ------------------------------------------------------------------
  // What the rules say, in plain terms
  // ------------------------------------------------------------------

  lemma TierOrder(a: TrustTier, b: TrustTier)
    ensures TierRank(a) < TierRank(b) <==>
            (a, b) in {(Untrusted, Standard), (Untrusted, Trusted), (Untrusted, Privileged),
                       (Standard, Trusted), (Standard, Privileged), (Trusted, Privileged)}
  {
  }

  /** The worker has a slot free and offers everything required. */
  ghost predicate Offers(w: Worker, r: Requirements) {
    && w.activeJobs < w.maxConcurrency
    && w.os == r.os && w.arch == r.arch && w.profile == r.profile
    && (r.runtime == None || r.runtime == w.runtime)
    && (forall f :: f in r.features ==> f in w.features)
    && (w.tier == r.minimumTier || TierRank(r.minimumTier) < TierRank(w.tier))
  }

  lemma EligibleExactly(r: Requirements, w: Worker)
    ensures CheckEligibility(r, w).Ok? <==> Offers(w, r)
  {
  }

  /**
   What a worker is given has become available and is something the worker can
   do; nothing else that is goes before it, and nothing is given only if nothing is.
   */
  lemma SelectedCanBeDone(candidates: seq<Candidate>, w: Worker, now: nat, policy: Policy)
    requires DistinctIds(candidates)
    ensures match SelectNext(candidates, w, now, policy)
            case Some(c) =>
              && c in candidates && c.availableAt <= now && Offers(w, c.requirements)
              && forall d :: d in candidates && d.availableAt <= now && Offers(w, d.requirements) ==>
                   d == c || Compare(c, d, now, policy) == Less
            case None => forall d :: d in candidates ==> !(d.availableAt <= now && Offers(w, d.requirements))
  {
    hide SelectNext, Compare, CheckEligibility, Offers;
    SelectedIsFirst(candidates, w, now, policy);
    forall d: Candidate
      ensures Eligible(d, w, now) <==> d.availableAt <= now && Offers(w, d.requirements)
    {
      EligibleExactly(d.requirements, w);
    }
  }

  /** A refusal names the first thing that is missing. */
  lemma RefusedForTheFirst(r: Requirements, w: Worker)
    ensures
      var answer, free := CheckEligibility(r, w), w.activeJobs < w.maxConcurrency;
      var runs := r.runtime == None || r.runtime == w.runtime;
      var features := forall f :: f in r.features ==> f in w.features;
      && (answer == Err(CapacityExhausted) <==> !free)
      && (answer == Err(OsMismatch) <==> free && w.os != r.os)
      && (answer == Err(ArchMismatch) <==> free && w.os == r.os && w.arch != r.arch)
      && (answer == Err(RuntimeMismatch) <==> free && w.os == r.os && w.arch == r.arch && !runs)
      && (answer == Err(ProfileMismatch) <==>
            free && w.os == r.os && w.arch == r.arch && runs && w.profile != r.profile)
      && (answer == Err(MissingFeature) <==>
            free && w.os == r.os && w.arch == r.arch && runs && w.profile == r.profile && !features)
      && (answer == Err(InsufficientTrust) <==>
            && free && w.os == r.os && w.arch == r.arch && runs && w.profile == r.profile && features
            && TierRank(w.tier) < TierRank(r.minimumTier))
  {
  }

  /** The boost is the largest number of whole steps the job has waited, up to the largest allowed. */
  lemma PriorityExactly(c: Candidate, now: U64, policy: Policy, boost: nat)
    ensures EffectivePriority(c, now, policy) == c.basePriority + boost <==>
            && boost <= policy.maxAgeBoost
            && (boost == 0 || c.enqueuedAt + Waited(boost, policy) <= now)
            && (boost == policy.maxAgeBoost || now < c.enqueuedAt + Waited(boost + 1, policy))
  {
    var step := if policy.ageStepSeconds == 0 then 1 else policy.ageStepSeconds;
    var age := if now > c.enqueuedAt then now - c.enqueuedAt else 0;
    Division(age, step);
    if boost <= age / step {
      Scaled(boost, age / step, step);
    } else {
      Scaled(age / step + 1, boost, step);
    }
    if boost + 1 <= age / step {
      Scaled(boost + 1, age / step, step);
    } else {
      Scaled(age / step + 1, boost + 1, step);
    }
  }

  /** How long `n` steps take; a step of no seconds counts as one second. */
  function Waited(n: nat, policy: Policy): nat {
    n * (if policy.ageStepSeconds == 0 then 1 else policy.ageStepSeconds)
  }

  /** The higher priority goes first, then what was available earlier, then the smaller id. */
  lemma GoesFirstExactly(a: Candidate, b: Candidate, now: nat, policy: Policy)
    ensures
      var p, q := EffectivePriority(a, now, policy), EffectivePriority(b, now, policy);
      Compare(a, b, now, policy) == Less <==>
        || p > q
        || (p == q && a.availableAt < b.availableAt)
        || (p == q && a.availableAt == b.availableAt && exists k: nat :: ComesFirstAt(a.jobId, b.jobId, k))
  {
    hide EffectivePriority, CompareText;
    CompareTextExactly(a.jobId, b.jobId);
  }
}
