/**
 The liveness machine, and how its verdicts relate to real silence over whole
 runs with a clock that never goes back.
 */
module Heartbeats {
  import opened Results
  import opened Bytes

  datatype Liveness = Idle | SendPing(nonce: U64) | Dead

  datatype State = State(
    interval: U64,
    maxMissed: U32,
    lastSeen: U64,
    outstanding: Option<U64>,
    missed: U32,
    nextNonce: U64)

  function Start(interval: U64, maxMissed: U32, now: U64): State {
    State(interval, maxMissed, now, None, 0, 1)
  }

  function Wrapped(n: U64): U64 {
    (n + 1) % 0x1_0000_0000_0000_0000
  }

  function Saturated(n: U32): U32 {
    if n == U32_MAX then n else n + 1
  }

  function Elapsed(s: State, now: U64): nat {
    if now > s.lastSeen then now - s.lastSeen else 0
  }

  function AfterTraffic(s: State, now: U64): State {
    s.(lastSeen := now, missed := 0, outstanding := None)
  }

  function AfterPong(s: State, nonce: U64, now: U64): (State, bool) {
    if s.outstanding == Some(nonce) then (AfterTraffic(s, now), true) else (s, false)
  }

  function Ping(s: State, now: U64): (State, Liveness) {
    (s.(nextNonce := Wrapped(s.nextNonce), outstanding := Some(s.nextNonce), lastSeen := now), SendPing(s.nextNonce))
  }

  function AfterPoll(s: State, now: U64): (State, Liveness) {
    if Elapsed(s, now) < s.interval then (s, Idle)
    else if s.outstanding.Some? then
      var counted := s.(missed := Saturated(s.missed));
      if counted.missed >= s.maxMissed then (counted, Dead) else Ping(counted, now)
    else Ping(s, now)
  }

  class Heartbeat {
    const interval: U64
    const maxMissed: U32
    var lastSeen: U64
    var outstanding: Option<U64>
    var missed: U32
    var nextNonce: U64

    ghost function Abstract(): State
      reads this
    {
      State(interval, maxMissed, lastSeen, outstanding, missed, nextNonce)
    }

    constructor (interval: U64, maxMissed: U32, now: U64)
      ensures Abstract() == Start(interval, maxMissed, now)
    {
      this.interval := interval;
      this.maxMissed := maxMissed;
      lastSeen := now;
      outstanding := None;
      missed := 0;
      nextNonce := 1;
    }

    method SawTraffic(now: U64)
      modifies this
      ensures Abstract() == AfterTraffic(old(Abstract()), now)
    {
      lastSeen := now;
      missed := 0;
      outstanding := None;
    }

    method SawPong(nonce: U64, now: U64) returns (counted: bool)
      modifies this
      ensures (Abstract(), counted) == AfterPong(old(Abstract()), nonce, now)
    {
      if outstanding == Some(nonce) {
        SawTraffic(now);
        return true;
      }
      return false;
    }

    method Poll(now: U64) returns (verdict: Liveness)
      modifies this
      ensures (Abstract(), verdict) == AfterPoll(old(Abstract()), now)
    {
      var elapsed := if now > lastSeen then now - lastSeen else 0;
      if elapsed < interval {
        return Idle;
      }
      if outstanding.Some? {
        missed := if missed == U32_MAX then missed else missed + 1;
        if missed >= maxMissed {
          return Dead;
        }
      }
      var nonce := nextNonce;
      nextNonce := if nextNonce == 0xFFFF_FFFF_FFFF_FFFF then 0 else nextNonce + 1;
      outstanding := Some(nonce);
      lastSeen := now;
      return SendPing(nonce);
    }
  }

  // ------------------------------------------------------------------
  // Runs
  // ------------------------------------------------------------------

  datatype Happening =
    | Traffic(now: U64)
    | PongReceived(nonce: U64, now: U64)
    | Polled(now: U64)

  /** A run remembers its machine, the time of the last real traffic, and the clock. */
  datatype Run = Run(
    state: State,
    traffic: U64,             // creation, traffic or an accepted pong
    clock: U64,
    verdict: Liveness,        // of the last poll since the last traffic, Idle before one
    acceptedNonces: seq<U64>,
    polls: nat)

  function Begin(interval: U64, maxMissed: U32, now: U64): Run {
    Run(Start(interval, maxMissed, now), now, now, Idle, [], 0)
  }

  function After(r: Run, h: Happening): Run {
    match h
    case Traffic(now) => r.(state := AfterTraffic(r.state, now), traffic := now, clock := now, verdict := Idle)
    case PongReceived(nonce, now) =>
      var (state, counted) := AfterPong(r.state, nonce, now);
      if counted then
        r.(state := state, traffic := now, clock := now, verdict := Idle, acceptedNonces := r.acceptedNonces + [nonce])
      else r.(clock := now)
    case Polled(now) =>
      var (state, verdict) := AfterPoll(r.state, now);
      r.(state := state, clock := now, verdict := verdict, polls := r.polls + 1)
  }

  function AfterAll(r: Run, history: seq<Happening>): Run {
    if |history| == 0 then r else After(AfterAll(r, history[..|history| - 1]), history[|history| - 1])
  }

  /** The clock never goes back. */
  ghost predicate Forward(start: U64, history: seq<Happening>) {
    forall i :: 0 <= i < |history| ==>
      start <= history[i].now && forall j :: 0 <= j < i ==> history[j].now <= history[i].now
  }

  function Misses(s: State): nat {
    if s.maxMissed == 0 then 1 else s.maxMissed
  }

  /**
   Between real traffic and now: either nothing is outstanding, or `missed + 1`
   pings have gone out, each at least an interval after what came before it.
   */
  ghost predicate Paced(r: Run) {
    var s := r.state;
    && r.traffic <= s.lastSeen <= r.clock
    && (s.outstanding.None? ==> s.missed == 0 && s.lastSeen == r.traffic && r.verdict == Idle)
    && (s.outstanding.Some? && !r.verdict.Dead? ==>
          s.missed < Misses(s) && s.lastSeen >= r.traffic + (s.missed + 1) * s.interval)
    && (r.verdict.Dead? ==>
          && s.outstanding.Some?
          && s.missed >= Misses(s)
          && r.clock >= s.lastSeen + s.interval
          && s.lastSeen >= r.traffic + Misses(s) * s.interval)
  }

  lemma OneMore(n: nat, i: nat)
    ensures (n + 1) * i == n * i + i
  {
  }

  lemma PacedNext(r: Run, h: Happening)
    requires Paced(r) && r.clock <= h.now
    ensures Paced(After(r, h))
    ensures After(r, h).state.interval == r.state.interval && After(r, h).state.maxMissed == r.state.maxMissed
    ensures After(r, h).clock == h.now
  {
    OneMore(r.state.missed, r.state.interval);
    OneMore(r.state.missed + 1, r.state.interval);
  }

  lemma {:induction false} PacedAlways(interval: U64, maxMissed: U32, start: U64, history: seq<Happening>)
    requires Forward(start, history)
    ensures
      var r := AfterAll(Begin(interval, maxMissed, start), history);
      && Paced(r)
      && r.state.interval == interval && r.state.maxMissed == maxMissed
      && r.clock == (if |history| == 0 then start else history[|history| - 1].now)
  {
    if |history| > 0 {
      var before := history[..|history| - 1];
      PacedAlways(interval, maxMissed, start, before);
      assert |before| > 0 ==> before[|before| - 1] == history[|before| - 1];
      PacedNext(AfterAll(Begin(interval, maxMissed, start), before), history[|history| - 1]);
    }
  }

  /** A peer is never called dead before `misses + 1` full intervals of real silence. */
  lemma DeadIsNotEarly(interval: U64, maxMissed: U32, start: U64, history: seq<Happening>)
    requires Forward(start, history)
    requires AfterAll(Begin(interval, maxMissed, start), history).verdict.Dead?
    ensures
      var r := AfterAll(Begin(interval, maxMissed, start), history);
      r.clock - r.traffic >= (Misses(r.state) + 1) * interval
  {
    PacedAlways(interval, maxMissed, start, history);
    OneMore(Misses(AfterAll(Begin(interval, maxMissed, start), history).state), interval);
  }

  /** Once dead, every later poll says so until traffic is seen. */
  lemma DeadStays(interval: U64, maxMissed: U32, start: U64, history: seq<Happening>, now: U64)
    requires Forward(start, history + [Polled(now)])
    requires AfterAll(Begin(interval, maxMissed, start), history).verdict.Dead?
    ensures AfterAll(Begin(interval, maxMissed, start), history + [Polled(now)]).verdict.Dead?
  {
    var longer := history + [Polled(now)];
    assert longer[..|longer| - 1] == history;
    assert Forward(start, history) by {
      assert forall i :: 0 <= i < |history| ==> longer[i] == history[i];
    }
    PacedAlways(interval, maxMissed, start, history);
    assert |history| > 0 ==> longer[|history| - 1].now <= longer[|history|].now;
  }

  // ------------------------------------------------------------------
  // A silent peer is found in time
  // ------------------------------------------------------------------

  /** Polling every `d` or sooner from `from` on. */
  ghost predicate PolledEvery(d: nat, from: U64, times: seq<U64>) {
    forall i: nat :: i < |times| ==> Before(from, times, i) <= times[i] <= Before(from, times, i) + d
  }

  function Before(from: U64, times: seq<U64>, i: nat): U64
    requires i <= |times|
  {
    if i == 0 then from else times[i - 1]
  }

  function PollAll(s: State, times: seq<U64>): (State, Liveness) {
    if |times| == 0 then (s, Idle)
    else AfterPoll(PollAll(s, times[..|times| - 1]).0, times[|times| - 1])
  }

  /** Poll number `i` calls the peer dead. */
  ghost predicate DeadAt(s: State, times: seq<U64>, i: nat) {
    i < |times| && PollAll(s, times[..i + 1]).1.Dead?
  }

  /** The last ping went out at most an interval and one polling delay after what came before it. */
  ghost predicate Prompt(s: State, traffic: U64, d: nat, clock: U64) {
    && traffic <= s.lastSeen <= clock
    && (s.outstanding.None? ==>
          && s.missed == 0 && s.lastSeen == traffic
          && (clock < traffic + s.interval || clock == traffic))
    && (s.outstanding.Some? ==>
          && s.missed < Misses(s)
          && s.lastSeen <= traffic + (s.missed + 1) * (s.interval + d)
          && (clock < s.lastSeen + s.interval || clock == s.lastSeen))
  }

  lemma PromptNext(s: State, traffic: U64, d: nat, clock: U64, now: U64)
    requires Prompt(s, traffic, d, clock) && clock <= now <= clock + d
    ensures !AfterPoll(s, now).1.Dead? ==> Prompt(AfterPoll(s, now).0, traffic, d, now)
  {
    OneMore(s.missed + 1, s.interval + d);
  }

  lemma PromptIsBounded(s: State, traffic: U64, d: nat, clock: U64)
    requires Prompt(s, traffic, d, clock) && s.interval + d > 0
    ensures clock < traffic + (Misses(s) + 1) * (s.interval + d)
  {
    var w := s.interval + d;
    OneMore(Misses(s), w);
    if s.outstanding.Some? {
      MultiplyMonotone(s.missed + 1, Misses(s), w);
    } else {
      MultiplyMonotone(0, Misses(s), w);
    }
  }

  lemma MultiplyMonotone(a: nat, b: nat, c: nat)
    requires a <= b
    ensures a * c <= b * c
  {
  }

  ghost predicate NeverDead(s: State, times: seq<U64>) {
    forall i: nat :: !DeadAt(s, times, i)
  }

  lemma DropLastPoll(s: State, from: U64, d: nat, times: seq<U64>)
    requires |times| > 0 && PolledEvery(d, from, times) && NeverDead(s, times)
    ensures PolledEvery(d, from, times[..|times| - 1]) && NeverDead(s, times[..|times| - 1])
    ensures !PollAll(s, times).1.Dead?
  {
    var k := |times| - 1;
    var before := times[..k];
    assert times[..k + 1] == times;
    assert !DeadAt(s, times, k);
    assert forall i: nat :: i < k ==> Before(from, before, i) == Before(from, times, i) && before[i] == times[i];
    forall i: nat
      ensures !DeadAt(s, before, i)
    {
      if i < |before| {
        assert before[..i + 1] == times[..i + 1];
        assert !DeadAt(s, times, i);
      }
    }
  }

  lemma {:induction false} PollsArePrompt(quiet: State, traffic: U64, d: nat, times: seq<U64>)
    requires quiet.lastSeen == traffic && quiet.outstanding.None? && quiet.missed == 0
    requires PolledEvery(d, traffic, times) && NeverDead(quiet, times)
    ensures
      var s := PollAll(quiet, times).0;
      && Prompt(s, traffic, d, Before(traffic, times, |times|))
      && s.interval == quiet.interval && s.maxMissed == quiet.maxMissed
  {
    if |times| > 0 {
      hide Prompt, NeverDead;
      var k := |times| - 1;
      DropLastPoll(quiet, traffic, d, times);
      PollsArePrompt(quiet, traffic, d, times[..k]);
      PromptNext(PollAll(quiet, times[..k]).0, traffic, d, Before(traffic, times, k), times[k]);
    }
  }

  /** Polled on after calling the peer dead, the machine says so again. */
  lemma {:induction false} DeadAgain(s: State, from: U64, d: nat, times: seq<U64>, i: nat)
    requires PolledEvery(d, from, times) && DeadAt(s, times, i)
    ensures PollAll(s, times).1.Dead?
    decreases |times|
  {
    hide AfterPoll, PolledEvery, Before;
    var k := |times| - 1;
    if i == k {
      assert times[..i + 1] == times;
    } else {
      assert times[..k][..i + 1] == times[..i + 1];
      PolledBefore(from, d, times);
      DeadAgain(s, from, d, times[..k], i);
      assert times[..k][..k - 1] == times[..k - 1];
      OneMoreDead(PollAll(s, times[..k - 1]).0, times[k - 1], times[k]);
    }
  }

  lemma PolledBefore(from: U64, d: nat, times: seq<U64>)
    requires |times| > 1 && PolledEvery(d, from, times)
    ensures PolledEvery(d, from, times[..|times| - 1]) && times[|times| - 2] <= times[|times| - 1]
  {
    var k := |times| - 1;
    assert forall n: nat :: n < k ==>
      Before(from, times[..k], n) == Before(from, times, n) && times[..k][n] == times[n];
    assert Before(from, times, k) == times[k - 1];
  }

  lemma OneMoreDead(s: State, now: U64, later: U64)
    requires AfterPoll(s, now).1.Dead? && now <= later
    ensures AfterPoll(AfterPoll(s, now).0, later).1.Dead?
  {
  }

  /** Polled at most `d` apart, from nothing outstanding, long enough: the last poll calls the peer dead. */
  lemma PolledLongEnough(quiet: State, traffic: U64, d: nat, times: seq<U64>)
    requires quiet.lastSeen == traffic && quiet.outstanding.None? && quiet.missed == 0
    requires PolledEvery(d, traffic, times) && |times| > 0 && quiet.interval + d > 0
    requires times[|times| - 1] >= traffic + (Misses(quiet) + 1) * (quiet.interval + d)
    ensures PollAll(quiet, times).1.Dead?
  {
    hide PollAll, Prompt;
    if NeverDead(quiet, times) {
      PollsArePrompt(quiet, traffic, d, times);
      PromptIsBounded(PollAll(quiet, times).0, traffic, d, times[|times| - 1]);
    } else {
      var i: nat :| DeadAt(quiet, times, i);
      DeadAgain(quiet, traffic, d, times, i);
    }
  }

  /** Real traffic, or the pong that answers the outstanding ping. */
  predicate IsReal(r: Run, h: Happening) {
    h.Traffic? || (h.PongReceived? && AfterPong(r.state, h.nonce, h.now).1)
  }

  /** Nothing real happens; pongs that are not the outstanding one may arrive at any time. */
  ghost predicate Silent(r: Run, history: seq<Happening>)
    decreases |history|
  {
    |history| > 0 ==>
      && Silent(r, history[..|history| - 1])
      && !IsReal(AfterAll(r, history[..|history| - 1]), history[|history| - 1])
  }

  function PollTimes(history: seq<Happening>): seq<U64> {
    if |history| == 0 then []
    else
      var last := history[|history| - 1];
      PollTimes(history[..|history| - 1]) + if last.Polled? then [last.now] else []
  }

  /** In silence only the polls count: refused pongs change neither the machine nor its verdict. */
  lemma {:induction false} SilenceIsPolling(r: Run, history: seq<Happening>)
    requires Silent(r, history)
    ensures
      var later, times := AfterAll(r, history), PollTimes(history);
      && later.state == PollAll(r.state, times).0
      && later.verdict == (if |times| == 0 then r.verdict else PollAll(r.state, times).1)
      && later.traffic == r.traffic
    decreases |history|
  {
    hide AfterPoll;
    if |history| > 0 {
      var before := history[..|history| - 1];
      SilenceIsPolling(r, before);
      var last := history[|history| - 1];
      if last.Polled? {
        assert PollTimes(history)[..|PollTimes(before)|] == PollTimes(before);
      } else {
        assert PollTimes(history) == PollTimes(before);
      }
    }
  }

  /**
   After real traffic, with nothing real since and polls at most `d` apart, the
   peer is called dead once `misses + 1` intervals and delays have passed,
   whatever stale pongs are replayed meanwhile.
   */
  lemma SilenceIsReported(r: Run, heard: Happening, silence: seq<Happening>, d: nat)
    requires IsReal(r, heard) && Silent(After(r, heard), silence)
    requires r.state.interval + d > 0
    requires
      var times := PollTimes(silence);
      && PolledEvery(d, heard.now, times) && |times| > 0
      && times[|times| - 1] >= heard.now + (Misses(r.state) + 1) * (r.state.interval + d)
    ensures AfterAll(After(r, heard), silence).verdict.Dead?
  {
    hide PollAll, PolledEvery;
    var quiet := After(r, heard).state;
    SilenceIsPolling(After(r, heard), silence);
    PolledLongEnough(quiet, heard.now, d, PollTimes(silence));
  }

  /** The same for a peer that has never been heard from. */
  lemma SilenceFromTheStartIsReported(interval: U64, maxMissed: U32, start: U64, silence: seq<Happening>, d: nat)
    requires Silent(Begin(interval, maxMissed, start), silence) && interval + d > 0
    requires
      var times := PollTimes(silence);
      && PolledEvery(d, start, times) && |times| > 0
      && times[|times| - 1] >= start + (Misses(Start(interval, maxMissed, start)) + 1) * (interval + d)
    ensures AfterAll(Begin(interval, maxMissed, start), silence).verdict.Dead?
  {
    hide PollAll, PolledEvery;
    SilenceIsPolling(Begin(interval, maxMissed, start), silence);
    PolledLongEnough(Start(interval, maxMissed, start), start, d, PollTimes(silence));
  }

  // ------------------------------------------------------------------
  // Nonces
  // ------------------------------------------------------------------

  ghost predicate NoncesOnce(r: Run) {
    && r.state.nextNonce <= r.polls + 1
    && (r.state.outstanding.Some? ==> r.state.outstanding.value < r.state.nextNonce)
    && (forall i :: 0 <= i < |r.acceptedNonces| ==> r.acceptedNonces[i] < r.state.nextNonce)
    && (r.state.outstanding.Some? ==>
          forall i :: 0 <= i < |r.acceptedNonces| ==> r.acceptedNonces[i] < r.state.outstanding.value)
    && (forall i, j :: 0 <= i < j < |r.acceptedNonces| ==> r.acceptedNonces[i] < r.acceptedNonces[j])
  }

  lemma NoncesOnceNext(r: Run, h: Happening)
    requires NoncesOnce(r) && r.polls + 2 < 0x1_0000_0000_0000_0000
    ensures NoncesOnce(After(r, h)) && After(r, h).polls <= r.polls + 1
  {
  }

  /** Before the counter wraps, no nonce refreshes liveness twice. */
  lemma {:induction false} NonceCountsOnce(interval: U64, maxMissed: U32, start: U64, history: seq<Happening>)
    requires |history| + 2 < 0x1_0000_0000_0000_0000
    ensures
      var r := AfterAll(Begin(interval, maxMissed, start), history);
      && NoncesOnce(r) && r.polls <= |history|
      && forall i, j :: 0 <= i < j < |r.acceptedNonces| ==> r.acceptedNonces[i] != r.acceptedNonces[j]
  {
    if |history| > 0 {
      NonceCountsOnce(interval, maxMissed, start, history[..|history| - 1]);
      NoncesOnceNext(AfterAll(Begin(interval, maxMissed, start), history[..|history| - 1]), history[|history| - 1]);
    }
  }

  // ------------------------------------------------------------------
  // Answering in time
  // ------------------------------------------------------------------

  /** An answer to the outstanding ping makes the machine as good as new; any other leaves it alone. */
  lemma AnswerRenews(s: State, nonce: U64, now: U64)
    ensures AfterPong(s, nonce, now).1 <==> s.outstanding == Some(nonce)
    ensures AfterPong(s, nonce, now).0 ==
              if s.outstanding == Some(nonce) then Start(s.interval, s.maxMissed, now).(nextNonce := s.nextNonce)
              else s
  {
  }

  /** A poll, and when the ping it may send is answered. */
  datatype Exchange = Exchange(poll: U64, answer: U64)

  function Exchanged(s: State, e: Exchange): (State, Liveness) {
    var (polled, verdict) := AfterPoll(s, e.poll);
    (if verdict.SendPing? then AfterPong(polled, verdict.nonce, e.answer).0 else polled, verdict)
  }

  /** The machine after the exchanges, and what each poll said. */
  function ExchangeAll(s: State, exchanges: seq<Exchange>): (State, seq<Liveness>) {
    if |exchanges| == 0 then (s, [])
    else
      var (before, verdicts) := ExchangeAll(s, exchanges[..|exchanges| - 1]);
      var (after, verdict) := Exchanged(before, exchanges[|exchanges| - 1]);
      (after, verdicts + [verdict])
  }

  lemma OneExchange(s: State, e: Exchange)
    requires s.outstanding.None?
    ensures
      var (after, verdict) := Exchanged(s, e);
      var pinged := e.poll - s.lastSeen >= s.interval || s.interval == 0;
      && verdict == (if pinged then SendPing(s.nextNonce) else Idle)
      && after.outstanding.None? && after.interval == s.interval
      && after.lastSeen == if pinged then e.answer else s.lastSeen
  {
  }

  /** When the peer was last heard from: its latest answer, if there was one. */
  function HeardLast(s: State, exchanges: seq<Exchange>): U64
    decreases |exchanges|, 0
  {
    if |exchanges| == 0 then s.lastSeen
    else
      var before, e := exchanges[..|exchanges| - 1], exchanges[|exchanges| - 1];
      if IsDue(s, before, e.poll) then e.answer else HeardLast(s, before)
  }

  /** At least an interval has passed since then. */
  predicate IsDue(s: State, exchanges: seq<Exchange>, now: U64)
    decreases |exchanges|, 1
  {
    now - HeardLast(s, exchanges) >= s.interval || s.interval == 0
  }

  /**
   A peer that answers each ping before the next poll is never called dead,
   whatever the clock and the limits; it is pinged exactly at polls at least an
   interval after it was last heard from.
   */
  lemma {:induction false} AnsweringIsEnough(s: State, exchanges: seq<Exchange>)
    requires s.outstanding.None?
    ensures
      var (after, verdicts) := ExchangeAll(s, exchanges);
      && |verdicts| == |exchanges|
      && after.outstanding.None? && after.interval == s.interval && after.lastSeen == HeardLast(s, exchanges)
      && forall i :: 0 <= i < |verdicts| ==>
           if IsDue(s, exchanges[..i], exchanges[i].poll) then verdicts[i].SendPing? else verdicts[i].Idle?
  {
    hide Exchanged, IsDue;
    if |exchanges| > 0 {
      var k := |exchanges| - 1;
      AnsweringIsEnough(s, exchanges[..k]);
      DueExchange(s, exchanges[..k], ExchangeAll(s, exchanges[..k]).0, exchanges[k]);
      assert forall i :: 0 <= i < k ==> exchanges[..k][..i] == exchanges[..i];
    }
  }

  lemma DueExchange(s: State, exchanges: seq<Exchange>, now: State, e: Exchange)
    requires now.outstanding.None? && now.interval == s.interval && now.lastSeen == HeardLast(s, exchanges)
    ensures
      var (after, verdict) := Exchanged(now, e);
      && (if IsDue(s, exchanges, e.poll) then verdict.SendPing? else verdict.Idle?)
      && after.outstanding.None? && after.interval == s.interval
      && after.lastSeen == if IsDue(s, exchanges, e.poll) then e.answer else now.lastSeen
  {
    hide Exchanged, HeardLast;
    OneExchange(now, e);
  }
}
