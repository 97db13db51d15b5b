/**
 Interleavings of the fencing provider. An acquisition inserts into the table
 and takes its fencing token in two separate steps; a lease, once complete, may
 be released by anyone holding a copy, any number of times.
 */
module LockRuns {
  import opened Results
  import Locks

  /** One successful table insertion, in insertion order. */
  datatype Acquisition = Acquisition(key: string, owner: string, fence: Option<nat>, released: bool)

  datatype State = State(table: map<string, string>, lastFence: nat, history: seq<Acquisition>)

  datatype Action =
    | Insert(key: string, owner: string)
    | TakeFence(which: nat)
    | Release(which: nat)

  const START: State := State(map[], 0, [])

  function Step(s: State, a: Action): State {
    match a
    case Insert(key, owner) =>
      if key in s.table then s
      else s.(table := s.table[key := owner], history := s.history + [Acquisition(key, owner, None, false)])
    case TakeFence(i) =>
      if i < |s.history| && s.history[i].fence.None? then
        s.(lastFence := s.lastFence + 1, history := s.history[i := s.history[i].(fence := Some(s.lastFence + 1))])
      else s
    case Release(i) =>
      if i < |s.history| && s.history[i].fence.Some?
         && s.history[i].key in s.table && s.table[s.history[i].key] == s.history[i].owner then
        s.(table := s.table - {s.history[i].key}, history := s.history[i := s.history[i].(released := true)])
      else s
  }

  function Run(s: State, actions: seq<Action>): State {
    if |actions| == 0 then s else Step(Run(s, actions[..|actions| - 1]), actions[|actions| - 1])
  }

  // ------------------------------------------------------------------
  // The fencing provider, uninterrupted, takes these steps
  // ------------------------------------------------------------------

  ghost predicate Mirrors(p: Locks.Provider, s: State)
    reads p
  {
    p.fencing && p.held == s.table && p.lastFence == s.lastFence
  }

  /** An acquisition is an insertion and the taking of its fence. */
  method AcquireMirrored(p: Locks.Provider, ghost s: State, key: string, owner: string)
    returns (r: Result<Locks.Lease, Locks.LockError>, ghost s': State)
    requires Mirrors(p, s)
    modifies p
    ensures Mirrors(p, s') && s' == Step(Step(s, Insert(key, owner)), TakeFence(|s.history|))
    ensures r.Ok? ==> s'.history == s.history + [Acquisition(key, owner, r.value.fence, false)]
    ensures r.Err? ==> s' == s
  {
    r := p.Acquire(key, owner);
    s' := Step(Step(s, Insert(key, owner)), TakeFence(|s.history|));
  }

  /** Releasing a copy of a lease succeeds exactly when it changes anything. */
  method ReleaseMirrored(p: Locks.Provider, ghost s: State, ghost i: nat, lease: Locks.Lease)
    returns (r: Result<(), Locks.LockError>, ghost s': State)
    requires Mirrors(p, s) && i < |s.history| && s.history[i].fence.Some?
    requires lease == Locks.Lease(s.history[i].key, s.history[i].owner, s.history[i].fence)
    modifies p
    ensures Mirrors(p, s') && s' == Step(s, Release(i))
    ensures r.Ok? <==> s' != s
  {
    r := p.Release(lease);
    s' := Step(s, Release(i));
    assert r.Ok? ==> lease.key in s.table && lease.key !in s'.table;
  }

  // ------------------------------------------------------------------
  // Exclusion
  // ------------------------------------------------------------------

  /** The table names the owner of every unreleased acquisition, and every entry belongs to one. */
  ghost predicate TableMatches(s: State) {
    && (forall i :: 0 <= i < |s.history| && !s.history[i].released ==>
          s.history[i].key in s.table && s.table[s.history[i].key] == s.history[i].owner)
    && (forall key :: key in s.table ==> Holder(s, key))
  }

  ghost predicate Holder(s: State, key: string) {
    exists i :: 0 <= i < |s.history| && s.history[i].key == key && !s.history[i].released
  }

  ghost predicate ReleasedWereComplete(history: seq<Acquisition>) {
    forall i :: 0 <= i < |history| && history[i].released ==> history[i].fence.Some?
  }

  /** Of two acquisitions of one key, the earlier is over and its fence is the smaller. */
  ghost predicate Succession(history: seq<Acquisition>) {
    forall i, j :: 0 <= i < j < |history| && history[i].key == history[j].key ==>
      && history[i].released
      && history[i].fence.Some?
      && (history[j].fence.Some? ==> history[i].fence.value < history[j].fence.value)
  }

  ghost predicate FencesIssued(s: State) {
    forall i :: 0 <= i < |s.history| && s.history[i].fence.Some? ==> s.history[i].fence.value <= s.lastFence
  }

  ghost predicate Inv(s: State) {
    && TableMatches(s)
    && ReleasedWereComplete(s.history)
    && Succession(s.history)
    && FencesIssued(s)
  }

  /** The release of a lease that is already over, while the table names its owner again. */
  ghost predicate Stale(s: State, a: Action) {
    && a.Release?
    && a.which < |s.history|
    && s.history[a.which].released
    && s.history[a.which].key in s.table
    && s.table[s.history[a.which].key] == s.history[a.which].owner
  }

  /** No two unreleased acquisitions share a key. */
  ghost predicate Exclusive(s: State) {
    forall i, j :: 0 <= i < j < |s.history| && s.history[i].key == s.history[j].key ==>
      s.history[i].released || s.history[j].released
  }

  lemma InsertKeeps(s: State, key: string, owner: string)
    requires Inv(s)
    ensures Inv(Step(s, Insert(key, owner)))
  {
    var s' := Step(s, Insert(key, owner));
    if s' != s {
      assert !s'.history[|s.history|].released;
      forall k | k in s'.table
        ensures Holder(s', k)
      {
        if k != key {
          var i :| 0 <= i < |s.history| && s.history[i].key == k && !s.history[i].released;
          assert s'.history[i] == s.history[i];
        }
      }
    }
  }

  lemma TakeFenceKeeps(s: State, i: nat)
    requires Inv(s)
    ensures Inv(Step(s, TakeFence(i)))
  {
    var s' := Step(s, TakeFence(i));
    forall k | k in s'.table
      ensures Holder(s', k)
    {
      assert Holder(s, k);
      var j :| 0 <= j < |s.history| && s.history[j].key == k && !s.history[j].released;
      assert s'.history[j].key == k && !s'.history[j].released;
    }
  }

  lemma ReleaseKeeps(s: State, i: nat)
    requires Inv(s) && !Stale(s, Release(i))
    ensures Inv(Step(s, Release(i)))
  {
    var s' := Step(s, Release(i));
    if s' != s {
      assert !s.history[i].released;
      forall k | k in s'.table
        ensures Holder(s', k)
      {
        assert Holder(s, k);
        var j :| 0 <= j < |s.history| && s.history[j].key == k && !s.history[j].released;
        assert j != i;
        assert s'.history[j] == s.history[j];
      }
    }
  }

  /** A stale release takes the key from the acquisition that holds it, which stays unreleased. */
  lemma StaleReleaseRobs(s: State, a: Action) returns (j: nat)
    requires Inv(s) && Stale(s, a)
    ensures j < |s.history| && s.history[j].key == s.history[a.which].key
    ensures
      var s' := Step(s, a);
      && s'.history[j] == s.history[j]
      && !s'.history[j].released
      && s'.table == s.table - {s.history[j].key}
  {
    assert Holder(s, s.history[a.which].key);
    j :| 0 <= j < |s.history| && s.history[j].key == s.history[a.which].key && !s.history[j].released;
  }

  /** A step keeps the invariant if and only if it is not a stale release. */
  lemma StepKeepsExactly(s: State, a: Action)
    requires Inv(s)
    ensures Inv(Step(s, a)) <==> !Stale(s, a)
  {
    if Stale(s, a) {
      var j := StaleReleaseRobs(s, a);
      hide Step;
      assert !TableMatches(Step(s, a));
    } else {
      match a
      case Insert(key, owner) => InsertKeeps(s, key, owner);
      case TakeFence(i) => TakeFenceKeeps(s, i);
      case Release(i) => ReleaseKeeps(s, i);
    }
  }

  /** After a stale release the next insertion of the key stands beside the acquisition it robbed. */
  lemma StaleReleaseBreaksExclusion(s: State, a: Action, owner: string)
    requires Inv(s) && Stale(s, a)
    ensures !Exclusive(Step(Step(s, a), Insert(s.history[a.which].key, owner)))
  {
    var j := StaleReleaseRobs(s, a);
    var s' := Step(s, a);
    var s'' := Step(s', Insert(s.history[a.which].key, owner));
    assert s''.history[j] == s'.history[j] && !s''.history[|s'.history|].released;
  }

  ghost predicate NeverStale(s: State, actions: seq<Action>)
    decreases |actions|
  {
    |actions| > 0 ==>
      && NeverStale(s, actions[..|actions| - 1])
      && !Stale(Run(s, actions[..|actions| - 1]), actions[|actions| - 1])
  }

  lemma {:induction false} RunKeeps(s: State, actions: seq<Action>)
    requires Inv(s) && NeverStale(s, actions)
    ensures Inv(Run(s, actions))
  {
    hide Inv, Step, Stale;
    if |actions| > 0 {
      var before := actions[..|actions| - 1];
      RunKeeps(s, before);
      StepKeepsExactly(Run(s, before), actions[|actions| - 1]);
    }
  }

  /**
   In every interleaving without a stale release, a key has at most one
   unreleased acquisition, and along its acquisitions fences strictly increase.
   */
  lemma MutualExclusion(actions: seq<Action>, i: nat, j: nat)
    requires NeverStale(START, actions)
    requires i < j < |Run(START, actions).history|
    requires Run(START, actions).history[i].key == Run(START, actions).history[j].key
    ensures
      var a, b := Run(START, actions).history[i], Run(START, actions).history[j];
      a.released && a.fence.Some? && (b.fence.Some? ==> a.fence.value < b.fence.value)
  {
    hide Run, NeverStale;
    assert Inv(START);
    RunKeeps(START, actions);
  }

  /** At every moment of the run, exclusion survives whatever is inserted next. */
  ghost predicate AlwaysSafe(s: State, actions: seq<Action>) {
    forall k: nat, key: string, owner: string | k <= |actions| ::
      Exclusive(Step(Run(s, actions[..k]), Insert(key, owner)))
  }

  /** Exclusion is safe throughout a run if and only if the run has no stale release. */
  lemma SafeExactlyWithoutStale(actions: seq<Action>)
    ensures AlwaysSafe(START, actions) <==> NeverStale(START, actions)
  {
    assert Inv(START);
    if NeverStale(START, actions) {
      forall k: nat, key: string, owner: string | k <= |actions|
        ensures Exclusive(Step(Run(START, actions[..k]), Insert(key, owner)))
      {
        PrefixNeverStale(START, actions, k);
        RunKeeps(START, actions[..k]);
        InsertKeeps(Run(START, actions[..k]), key, owner);
      }
    } else {
      var k := FirstStale(START, actions);
      var s := Run(START, actions[..k]);
      RunKeeps(START, actions[..k]);
      RunStep(START, actions, k);
      StaleReleaseBreaksExclusion(s, actions[k], "");
      assert !Exclusive(Step(Run(START, actions[..k + 1]), Insert(s.history[actions[k].which].key, "")));
    }
  }

  lemma {:induction false} PrefixNeverStale(s: State, actions: seq<Action>, k: nat)
    requires NeverStale(s, actions) && k <= |actions|
    ensures NeverStale(s, actions[..k])
    decreases |actions|
  {
    if k < |actions| {
      PrefixNeverStale(s, actions[..|actions| - 1], k);
      assert actions[..|actions| - 1][..k] == actions[..k];
    } else {
      assert actions[..k] == actions;
    }
  }

  lemma {:induction false} FirstStale(s: State, actions: seq<Action>) returns (k: nat)
    requires !NeverStale(s, actions)
    ensures k < |actions| && NeverStale(s, actions[..k]) && Stale(Run(s, actions[..k]), actions[k])
    decreases |actions|
  {
    var last := |actions| - 1;
    if NeverStale(s, actions[..last]) {
      k := last;
    } else {
      k := FirstStale(s, actions[..last]);
      assert actions[..last][..k] == actions[..k];
    }
  }

  // ------------------------------------------------------------------
  // Fresh owners
  // ------------------------------------------------------------------

  ghost predicate FreshOwner(s: State, a: Action) {
    a.Insert? ==> forall i :: 0 <= i < |s.history| ==> s.history[i].owner != a.owner
  }

  /** Every insertion names an owner no earlier one used. */
  ghost predicate FreshOwners(s: State, actions: seq<Action>)
    decreases |actions|
  {
    |actions| > 0 ==>
      && FreshOwners(s, actions[..|actions| - 1])
      && FreshOwner(Run(s, actions[..|actions| - 1]), actions[|actions| - 1])
  }

  ghost predicate OwnersDistinct(history: seq<Acquisition>) {
    forall i, j :: 0 <= i < j < |history| ==> history[i].owner != history[j].owner
  }

  lemma DistinctIsNotStale(s: State, a: Action)
    requires Inv(s) && OwnersDistinct(s.history)
    ensures !Stale(s, a)
  {
    if Stale(s, a) {
      var _ := StaleReleaseRobs(s, a);
    }
  }

  lemma DistinctNext(s: State, a: Action)
    requires OwnersDistinct(s.history) && FreshOwner(s, a)
    ensures OwnersDistinct(Step(s, a).history)
  {
  }

  /** Fresh owners are one way to rule stale releases out. */
  lemma {:induction false} FreshIsNeverStale(s: State, actions: seq<Action>)
    requires Inv(s) && OwnersDistinct(s.history) && FreshOwners(s, actions)
    ensures NeverStale(s, actions) && OwnersDistinct(Run(s, actions).history)
  {
    hide Inv, Step, Stale, OwnersDistinct, FreshOwner;
    if |actions| > 0 {
      var before, last := actions[..|actions| - 1], actions[|actions| - 1];
      FreshIsNeverStale(s, before);
      RunKeeps(s, before);
      DistinctIsNotStale(Run(s, before), last);
      DistinctNext(Run(s, before), last);
    }
  }

  lemma FreshOwnersExclude(actions: seq<Action>)
    requires FreshOwners(START, actions)
    ensures AlwaysSafe(START, actions) && Exclusive(Run(START, actions))
  {
    FreshIsNeverStale(START, actions);
    SafeExactlyWithoutStale(actions);
    RunKeeps(START, actions);
  }

  const REUSED_OWNER: seq<Action> :=
    [Insert("k", "a"), TakeFence(0), Release(0), Insert("k", "a"), TakeFence(1), Release(0), Insert("k", "b")]

  /**
   Reusing an owner name breaks exclusion: a stale copy of the first lease
   releases the second, and a third acquisition then stands beside it.
   */
  lemma OwnerReuseBreaksExclusion()
    ensures
      var s := Run(START, REUSED_OWNER);
      && |s.history| == 3
      && s.history[1].key == s.history[2].key == "k"
      && !s.history[1].released && !s.history[2].released
  {
    var actions := REUSED_OWNER;
    var s1 := Step(START, Insert("k", "a"));
    var s2 := Step(s1, TakeFence(0));
    var s3 := Step(s2, Release(0));
    var s4 := Step(s3, Insert("k", "a"));
    var s5 := Step(s4, TakeFence(1));
    var s6 := Step(s5, Release(0));
    var s7 := Step(s6, Insert("k", "b"));
    RunStep(START, actions, 0);
    RunStep(START, actions, 1);
    RunStep(START, actions, 2);
    RunStep(START, actions, 3);
    RunStep(START, actions, 4);
    RunStep(START, actions, 5);
    RunStep(START, actions, 6);
    hide Run;
    assert actions[..7] == actions;
    assert Run(START, actions) == s7;
  }

  lemma RunStep(s: State, actions: seq<Action>, k: nat)
    requires k < |actions|
    ensures Run(s, actions[..k + 1]) == Step(Run(s, actions[..k]), actions[k])
    ensures Run(s, actions[..0]) == s
  {
    assert actions[..k + 1][..k] == actions[..k];
  }
}
