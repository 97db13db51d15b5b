/**
 Lock providers and their composition, and the interleavings of concurrent
 acquisitions in which inserting into the table and taking a fencing token are
 two separate steps.
 */
module Locks {
  import opened Results

  datatype Lease = Lease(key: string, owner: string, fence: Option<nat>)

  datatype LockError = Contended(key: string) | Expired(key: string) | FencingRequired(key: string)

  /** The in-process provider; with `fencing`, the double that also issues fencing tokens. */
  class Provider {
    const fencing: bool
    var held: map<string, string>
    var lastFence: nat

    /** The entry an acquisition of `key` by `owner` leaves. */
    ghost predicate Names(key: string, owner: string)
      reads this
    {
      key in held && held[key] == owner
    }

    constructor (fencing: bool)
      ensures this.fencing == fencing && held == map[] && lastFence == 0
    {
      this.fencing := fencing;
      held := map[];
      lastFence := 0;
    }

    method Acquire(key: string, owner: string) returns (r: Result<Lease, LockError>)
      modifies this
      ensures key in old(held) ==> r == Err(Contended(key)) && unchanged(this)
      ensures key !in old(held) ==>
        && held == old(held)[key := owner]
        && lastFence == old(lastFence) + (if fencing then 1 else 0)
        && r == Ok(Lease(key, owner, if fencing then Some(lastFence) else None))
    {
      if key in held {
        return Err(Contended(key));
      }
      held := held[key := owner];
      if !fencing {
        return Ok(Lease(key, owner, None));
      }
      lastFence := lastFence + 1;
      return Ok(Lease(key, owner, Some(lastFence)));
    }

    method Renew(lease: Lease) returns (r: Result<Lease, LockError>)
      ensures r == if lease.key in held && held[lease.key] == lease.owner then Ok(lease) else Err(Expired(lease.key))
    {
      if lease.key in held && held[lease.key] == lease.owner {
        return Ok(lease);
      }
      return Err(Expired(lease.key));
    }

    method Release(lease: Lease) returns (r: Result<(), LockError>)
      modifies this`held
      ensures
        if lease.key in old(held) && old(held)[lease.key] == lease.owner then
          r == Ok(()) && held == old(held) - {lease.key}
        else
          r == Err(Expired(lease.key)) && held == old(held)
    {
      if lease.key in held && held[lease.key] == lease.owner {
        held := held - {lease.key};
        return Ok(());
      }
      return Err(Expired(lease.key));
    }
  }

  // ------------------------------------------------------------------
  // Composition
  // ------------------------------------------------------------------

  datatype LockPolicy = LockPolicy(fiduciaEnabled: bool, pgAdvisoryEnabled: bool, requireFencing: bool)

  datatype Event = Acquired(p: Provider) | Worked | Released(p: Provider)

  function AcquireEvents(providers: seq<Provider>): seq<Event> {
    if |providers| == 0 then []
    else AcquireEvents(providers[..|providers| - 1]) + [Acquired(providers[|providers| - 1])]
  }

  function ReleaseEvents(providers: seq<Provider>): seq<Event> {
    if |providers| == 0 then []
    else [Released(providers[|providers| - 1])] + ReleaseEvents(providers[..|providers| - 1])
  }

  type Tables = map<Provider, map<string, string>>

  // ------------------------------------------------------------------
  // What others do meanwhile
  // ------------------------------------------------------------------

  /** What others leave in a table they touch, and how many fences they took there. */
  datatype Deed = Deed(table: map<string, string>, fences: nat)

  type Move = map<Provider, Deed>

  /** `next`, unless it would put `owner` on `key` where it was not: nobody else acquires under this name. */
  function Without(next: map<string, string>, now: map<string, string>, key: string, owner: string)
    : map<string, string>
  {
    if key in next && next[key] == owner && !(key in now && now[key] == owner) then next - {key} else next
  }

  /** One move of everyone else, the work included, between two calls of a provider. */
  method Others(providers: seq<Provider>, moves: seq<Move>, key: string, owner: string) returns (rest: seq<Move>)
    requires moves != []
    modifies providers
    ensures rest == moves[1..]
    ensures forall p :: p in providers && p.Names(key, owner) ==> old(p.Names(key, owner))
  {
    rest := moves[1..];
    for i := 0 to |providers|
      invariant forall p :: p in providers && p.Names(key, owner) ==> old(p.Names(key, owner))
    {
      var p := providers[i];
      if p in moves[0] {
        p.held := Without(moves[0][p].table, p.held, key, owner);
        p.lastFence := p.lastFence + moves[0][p].fences;
      }
    }
  }

  /** Others can leave any table at all, short of acquiring under this name. */
  lemma OthersAreFree(next: map<string, string>, now: map<string, string>, key: string, owner: string)
    ensures Without(next, now, key, owner) == next <==>
            (key in next && next[key] == owner ==> key in now && now[key] == owner)
  {
    if key in next {
      assert key !in next - {key};
    }
  }

  // ------------------------------------------------------------------
  // Releasing the stack
  // ------------------------------------------------------------------

  /** The stack lists leases of `key` from the providers, in their order. */
  ghost predicate Stacked(stack: seq<(Provider, Lease)>, providers: seq<Provider>, key: string, owner: string) {
    && |stack| == |providers|
    && forall i :: 0 <= i < |stack| ==>
         && stack[i].0 == providers[i] && stack[i].1.key == key && stack[i].1.owner == owner
         && (stack[i].1.fence.Some? <==> providers[i].fencing)
  }

  /** A table after the entry of `owner` for `key`, if it is still there, is given back. */
  function GivenBack(table: map<string, string>, key: string, owner: string): map<string, string> {
    if key in table && table[key] == owner then table - {key} else table
  }

  function GivenBackIf(mine: bool, table: map<string, string>, key: string, owner: string): map<string, string> {
    if mine then GivenBack(table, key, owner) else table
  }

  /** The providers of `taken` have given back; the other tables are as recorded. */
  ghost predicate AllGivenBack(all: seq<Provider>, taken: seq<Provider>, key: string, owner: string, during: Tables)
    reads all
  {
    forall p :: p in all ==>
      && p in during
      && p.held == GivenBackIf(p in taken, during[p], key, owner)
  }

  /** Others act, then one lease is given back; whether its entry is still there does not matter. */
  method ReleaseTop(all: seq<Provider>, provider: Provider, lease: Lease, moves: seq<Move>) returns (rest: seq<Move>)
    requires provider in all
    modifies all
    ensures !provider.Names(lease.key, lease.owner)
    ensures forall p :: p in all && p.Names(lease.key, lease.owner) ==> old(p.Names(lease.key, lease.owner))
    ensures moves == [] ==> rest == [] && forall p :: p in all ==>
      && p.lastFence == old(p.lastFence)
      && p.held == GivenBackIf(p == provider, old(p.held), lease.key, lease.owner)
  {
    rest := moves;
    if moves != [] {
      rest := Others(all, moves, lease.key, lease.owner);
    }
    var _ := provider.Release(lease);
  }

  /**
   Release everything on the stack, last taken first; failures are ignored. In
   whatever state the tables are, no provider on the stack is left with an
   entry of this owner, and nothing else changes.
   */
  method ReleaseAll(all: seq<Provider>, stack: seq<(Provider, Lease)>, moves: seq<Move>,
                    ghost taken: seq<Provider>, ghost key: string, ghost owner: string)
    returns (ghost trace: seq<Event>)
    requires Stacked(stack, taken, key, owner) && forall p :: p in taken ==> p in all
    modifies all
    ensures forall p :: p in taken ==> !p.Names(key, owner)
    ensures forall p :: p in all && p.Names(key, owner) ==> old(p.Names(key, owner))
    ensures moves == [] ==> forall p :: p in all ==>
      && p.lastFence == old(p.lastFence)
      && p.held == GivenBackIf(p in taken, old(p.held), key, owner)
    ensures trace == ReleaseEvents(taken)
  {
    hide ReleaseEvents;
    ghost var during := map p | p in all :: p.held;
    trace := [];
    var held, rest := stack, moves;
    assert taken[..|held|] == taken;
    while |held| > 0
      invariant held <= stack && (moves == [] ==> rest == [])
      invariant forall p :: p in taken[|held|..] ==> !p.Names(key, owner)
      invariant forall p :: p in all && p.Names(key, owner) ==> old(p.Names(key, owner))
      invariant moves == [] ==> AllGivenBack(all, taken[|held|..], key, owner, during)
      invariant moves == [] ==> forall p :: p in all ==> p.lastFence == old(p.lastFence)
      invariant trace + ReleaseEvents(taken[..|held|]) == ReleaseEvents(taken)
    {
      var last := |held| - 1;
      var (provider, lease) := held[last];
      assert held[last] == stack[last] && provider in taken;
      held := held[..last];
      rest := ReleaseTop(all, provider, lease, rest);
      ReleaseOneMore(taken[..last + 1], trace);
      trace := trace + [Released(provider)];
      assert taken[..last + 1][..last] == taken[..last];
      assert taken[last..] == [provider] + taken[last + 1..];
    }
    NothingLeft(taken);
  }

  lemma ReleaseOneMore(taken: seq<Provider>, trace: seq<Event>)
    requires |taken| > 0
    ensures
      var last := |taken| - 1;
      trace + ReleaseEvents(taken) == trace + [Released(taken[last])] + ReleaseEvents(taken[..last])
  {
  }

  lemma NothingLeft(taken: seq<Provider>)
    ensures taken[0..] == taken && ReleaseEvents(taken[..0]) == []
  {
  }

  // ------------------------------------------------------------------
  // Taking every provider, or none
  // ------------------------------------------------------------------

  /** With nobody else acting: one lease of `key` from each, whose tables were `before`. */
  ghost predicate Taken(held: seq<(Provider, Lease)>, taken: seq<Provider>, key: string, owner: string, before: Tables)
    reads taken
  {
    && |held| == |taken|
    && (forall i, j :: 0 <= i < j < |taken| ==> taken[i] != taken[j])
    && forall i :: 0 <= i < |taken| ==>
         && held[i].1 == LeaseNow(taken[i], key, owner)
         && taken[i] in before && key !in before[taken[i]]
         && taken[i].held == before[taken[i]][key := owner]
  }

  ghost function LeaseNow(p: Provider, key: string, owner: string): Lease
    reads p
  {
    Lease(key, owner, if p.fencing then Some(p.lastFence) else None)
  }

  /** The providers not among the first `i` are as they were. */
  ghost predicate RestUntouched(providers: seq<Provider>, i: nat, before: Tables)
    requires i <= |providers|
    reads providers
  {
    forall p :: p in providers && p !in providers[..i] ==> p in before && p.held == before[p]
  }

  ghost predicate Untouched(providers: seq<Provider>, before: Tables)
    reads providers
  {
    forall p :: p in providers ==> p in before && p.held == before[p]
  }

  /** Provider `n` could not be taken: it held the key, or it had just been taken. */
  ghost predicate Blocked(providers: seq<Provider>, n: nat, key: string, before: Tables)
    requires n < |providers|
  {
    (providers[n] in before && key in before[providers[n]]) || providers[n] in providers[..n]
  }

  /** What holds after `i` providers when nobody else has acted. */
  ghost predicate Quiet(held: seq<(Provider, Lease)>, providers: seq<Provider>, i: nat, key: string, owner: string,
                        before: Tables)
    requires i <= |providers|
    reads providers
  {
    && Taken(held, providers[..i], key, owner, before)
    && RestUntouched(providers, i, before)
    && forall p :: p in providers ==> p in before
  }

  /** When nobody else acts, an acquisition of the next provider extends the stack. */
  lemma QuietNext(held: seq<(Provider, Lease)>, providers: seq<Provider>, i: nat, key: string, owner: string,
                  before: Tables, fence: Option<nat>)
    requires i < |providers| && providers[i] !in providers[..i]
    requires Taken(held, providers[..i], key, owner, before)
    requires forall p :: p in providers ==> p in before
    requires forall p :: p in providers && p !in providers[..i] && p != providers[i] ==> p.held == before[p]
    requires key !in before[providers[i]] && providers[i].held == before[providers[i]][key := owner]
    requires Lease(key, owner, fence) == LeaseNow(providers[i], key, owner)
    ensures Quiet(held + [(providers[i], Lease(key, owner, fence))], providers, i + 1, key, owner, before)
  {
    assert providers[..i + 1] == providers[..i] + [providers[i]];
  }

  lemma QuietBlocks(held: seq<(Provider, Lease)>, providers: seq<Provider>, i: nat, key: string, owner: string,
                    before: Tables)
    requires i < |providers| && Quiet(held, providers, i, key, owner, before)
    ensures providers[i] in providers[..i] ==> key in providers[i].held
    ensures providers[i] !in providers[..i] ==> providers[i].held == before[providers[i]]
  {
    if providers[i] in providers[..i] {
      var j :| 0 <= j < i && providers[..i][j] == providers[i];
    }
  }

  /** One more provider joins the stack or is contended. */
  method AcquireNext(held: seq<(Provider, Lease)>, providers: seq<Provider>, i: nat, key: string, owner: string,
                     ghost before: Tables, ghost quiet: bool)
    returns (r: Result<Lease, LockError>)
    requires i < |providers|
    requires quiet ==> Quiet(held, providers, i, key, owner, before)
    modifies providers[i]
    ensures r.Ok? ==> r.value.key == key && r.value.owner == owner && (r.value.fence.Some? <==> providers[i].fencing)
    ensures r.Err? ==> r == Err(Contended(key)) && unchanged(providers[i])
    ensures r.Ok? && quiet ==> Quiet(held + [(providers[i], r.value)], providers, i + 1, key, owner, before)
    ensures r.Err? && quiet ==> Quiet(held, providers, i, key, owner, before) && Blocked(providers, i, key, before)
  {
    if quiet {
      QuietBlocks(held, providers, i, key, owner, before);
    }
    assert forall j :: 0 <= j < i ==> providers[..i][j] in providers[..i];
    r := providers[i].Acquire(key, owner);
    if quiet && r.Ok? {
      assert forall j :: 0 <= j < i ==> unchanged(providers[..i][j]);
      QuietNext(held, providers, i, key, owner, before, r.value.fence);
    }
  }

  /** The next provider is asked once others have acted. */
  method TakeNext(held: seq<(Provider, Lease)>, providers: seq<Provider>, i: nat, key: string, owner: string,
                  moves: seq<Move>, ghost before: Tables, ghost quiet: bool)
    returns (r: Result<Lease, LockError>, rest: seq<Move>)
    requires i < |providers|
    requires quiet ==> moves == [] && Quiet(held, providers, i, key, owner, before)
    modifies providers
    ensures quiet ==> rest == []
    ensures r.Ok? ==> r.value.key == key && r.value.owner == owner && (r.value.fence.Some? <==> providers[i].fencing)
    ensures r.Err? ==> r == Err(Contended(key))
    ensures forall p :: p in providers && p.Names(key, owner) ==>
      old(p.Names(key, owner)) || (r.Ok? && p == providers[i])
    ensures r.Ok? && quiet ==> Quiet(held + [(providers[i], r.value)], providers, i + 1, key, owner, before)
    ensures r.Err? && quiet ==> Quiet(held, providers, i, key, owner, before) && Blocked(providers, i, key, before)
  {
    hide Quiet, Blocked;
    rest := moves;
    if moves != [] {
      rest := Others(providers, moves, key, owner);
    }
    r := AcquireNext(held, providers, i, key, owner, before, quiet);
  }

  lemma QuietTables(held: seq<(Provider, Lease)>, providers: seq<Provider>, i: nat, key: string, owner: string,
                    before: Tables)
    requires i <= |providers| && Quiet(held, providers, i, key, owner, before)
    ensures forall p :: p in providers ==>
      && p in before
      && (p in providers[..i] ==> key !in before[p] && p.held == before[p][key := owner])
      && GivenBackIf(p in providers[..i], p.held, key, owner) == before[p]
  {
    forall p | p in providers
      ensures p in providers[..i] ==> key !in before[p] && p.held == before[p][key := owner]
      ensures GivenBackIf(p in providers[..i], p.held, key, owner) == before[p]
    {
      if p in providers[..i] {
        var j :| 0 <= j < i && providers[..i][j] == p;
        assert before[p][key := owner] - {key} == before[p];
      }
    }
  }

  /** Give back what the first `i` providers gave; if nobody else acted, all tables are then as before. */
  method GiveBack(held: seq<(Provider, Lease)>, providers: seq<Provider>, ghost i: nat, moves: seq<Move>,
                  ghost key: string, ghost owner: string, ghost before: Tables, ghost quiet: bool)
    returns (ghost trace: seq<Event>)
    requires i <= |providers| && Stacked(held, providers[..i], key, owner)
    requires quiet ==> moves == [] && Quiet(held, providers, i, key, owner, before)
    modifies providers
    ensures trace == ReleaseEvents(providers[..i])
    ensures forall p :: p in providers && p.Names(key, owner) ==> p !in providers[..i] && old(p.Names(key, owner))
    ensures quiet ==> Untouched(providers, before)
    ensures quiet ==> forall p :: p in providers ==> p.lastFence == old(p.lastFence)
  {
    hide ReleaseEvents, Quiet, Stacked;
    if quiet {
      QuietTables(held, providers, i, key, owner, before);
    }
    trace := ReleaseAll(providers, held, moves, providers[..i], key, owner);
  }

  /**
   Ask provider `i`; when it is contended, give back everything taken so far.
   Others may act before the asking and before each release.
   */
  method AskOne(held: seq<(Provider, Lease)>, providers: seq<Provider>, i: nat, key: string, owner: string,
                moves: seq<Move>, ghost before: Tables, ghost trace: seq<Event>, ghost quiet: bool)
    returns (held': seq<(Provider, Lease)>, failure: Option<LockError>, rest: seq<Move>, ghost trace': seq<Event>)
    requires i < |providers| && Stacked(held, providers[..i], key, owner)
    requires trace == AcquireEvents(providers[..i])
    requires quiet ==> moves == [] && Quiet(held, providers, i, key, owner, before)
    modifies providers
    ensures quiet ==> rest == []
    ensures failure.None? ==> Stacked(held', providers[..i + 1], key, owner)
    ensures failure.None? ==> trace' == AcquireEvents(providers[..i + 1])
    ensures failure.None? && quiet ==> Quiet(held', providers, i + 1, key, owner, before)
    ensures failure.Some? ==> failure == Some(Contended(key))
    ensures failure.Some? ==> trace' == AcquireEvents(providers[..i]) + ReleaseEvents(providers[..i])
    ensures failure.Some? ==>
      forall p :: p in providers && p.Names(key, owner) ==> p !in providers[..i] && old(p.Names(key, owner))
    ensures failure.None? ==>
      forall p :: p in providers && p.Names(key, owner) ==> p in providers[..i + 1] || old(p.Names(key, owner))
    ensures failure.Some? && quiet ==> Untouched(providers, before) && Blocked(providers, i, key, before)
  {
    hide AcquireEvents, ReleaseEvents, Blocked, Quiet, Untouched;
    held', failure, trace' := held, None, trace;
    var acquired;
    acquired, rest := TakeNext(held, providers, i, key, owner, moves, before, quiet);
    if acquired.Err? {
      ghost var released := GiveBack(held, providers, i, rest, key, owner, before, quiet);
      failure := Some(acquired.error);
      trace' := trace + released;
    } else {
      held' := held + [(providers[i], acquired.value)];
      AcquireOneMore(providers, i);
      trace' := trace + [Acquired(providers[i])];
    }
  }

  lemma AcquireOneMore(providers: seq<Provider>, i: nat)
    requires i < |providers|
    ensures providers[..i + 1] == providers[..i] + [providers[i]]
    ensures AcquireEvents(providers[..i + 1]) == AcquireEvents(providers[..i]) + [Acquired(providers[i])]
  {
    assert providers[..i + 1][..i] == providers[..i];
  }

  /** Take every provider in order, or none: a contended one releases those before it. */
  method AcquireAll(providers: seq<Provider>, key: string, owner: string, moves: seq<Move>, ghost before: Tables)
    returns (held: seq<(Provider, Lease)>, failure: Option<LockError>, rest: seq<Move>,
             ghost reached: nat, ghost trace: seq<Event>)
    requires Untouched(providers, before)
    modifies providers
    ensures reached <= |providers| && (moves == [] ==> rest == [])
    ensures failure.None? ==>
      reached == |providers| && Stacked(held, providers, key, owner) && trace == AcquireEvents(providers)
    ensures failure.None? && moves == [] ==> Quiet(held, providers, |providers|, key, owner, before)
    ensures failure.Some? ==>
      && failure == Some(Contended(key)) && reached < |providers|
      && trace == AcquireEvents(providers[..reached]) + ReleaseEvents(providers[..reached])
    ensures failure.Some? ==> forall p :: p in providers && p.Names(key, owner) ==> old(p.Names(key, owner))
    ensures failure.Some? && moves == [] ==> Untouched(providers, before) && Blocked(providers, reached, key, before)
  {
    hide AcquireEvents, ReleaseEvents, Blocked;
    held, failure, rest, trace := [], None, moves, [];
    StartQuiet(providers, key, owner, before);
    hide Untouched, Quiet, Stacked;
    for i := 0 to |providers|
      invariant failure.None? && (moves == [] ==> rest == [])
      invariant Stacked(held, providers[..i], key, owner) && trace == AcquireEvents(providers[..i])
      invariant moves == [] ==> Quiet(held, providers, i, key, owner, before)
      invariant forall p :: p in providers && p.Names(key, owner) ==> p in providers[..i] || old(p.Names(key, owner))
    {
      held, failure, rest, trace := AskOne(held, providers, i, key, owner, rest, before, trace, moves == []);
      reached := i;
      if failure.Some? {
        return;
      }
      assert forall p :: p in providers[..i] ==> p in providers[..i + 1];
    }
    reached := |providers|;
    assert providers[..|providers|] == providers;
  }

  lemma StartQuiet(providers: seq<Provider>, key: string, owner: string, before: Tables)
    requires Untouched(providers, before)
    ensures Quiet([], providers, 0, key, owner, before)
    ensures Stacked([], providers[..0], key, owner) && AcquireEvents(providers[..0]) == []
  {
  }

  /** No table had the key, and no provider is listed twice. */
  ghost predicate FreeIn(providers: seq<Provider>, key: string, before: Tables) {
    && (forall i :: 0 <= i < |providers| ==> providers[i] in before && key !in before[providers[i]])
    && (forall i, j :: 0 <= i < j < |providers| ==> providers[i] != providers[j])
  }

  lemma BlockedIsNotFree(providers: seq<Provider>, n: nat, key: string, before: Tables)
    requires n < |providers| && Blocked(providers, n, key, before)
    ensures !FreeIn(providers, key, before)
  {
  }

  predicate SomeFencing(providers: seq<Provider>) {
    exists k :: 0 <= k < |providers| && providers[k].fencing
  }

  function LeasesIn(held: seq<(Provider, Lease)>): seq<Lease> {
    seq(|held|, k requires 0 <= k < |held| => held[k].1)
  }

  /** One lease of `key` for each provider, in their order, fenced where the provider fences. */
  ghost predicate LeasesFrom(leases: seq<Lease>, providers: seq<Provider>, key: string, owner: string) {
    && |leases| == |providers|
    && forall i :: 0 <= i < |leases| ==>
         && leases[i].key == key && leases[i].owner == owner
         && (leases[i].fence.Some? <==> providers[i].fencing)
  }

  /** The leases in force once everything is taken, in the order taken. */
  ghost function LeasesOf(providers: seq<Provider>, key: string, owner: string): seq<Lease>
    reads providers
  {
    seq(|providers|, i requires 0 <= i < |providers| reads providers => LeaseNow(providers[i], key, owner))
  }

  lemma StackedLeases(held: seq<(Provider, Lease)>, providers: seq<Provider>, key: string, owner: string)
    requires Stacked(held, providers, key, owner)
    ensures LeasesFrom(LeasesIn(held), providers, key, owner)
    ensures (exists k :: 0 <= k < |held| && held[k].1.fence.Some?) <==> SomeFencing(providers)
  {
    if k :| 0 <= k < |providers| && providers[k].fencing {
      assert held[k].1.fence.Some?;
    }
  }

  lemma QuietLeases(held: seq<(Provider, Lease)>, providers: seq<Provider>, key: string, owner: string, before: Tables)
    requires Quiet(held, providers, |providers|, key, owner, before)
    ensures FreeIn(providers, key, before) && LeasesIn(held) == LeasesOf(providers, key, owner)
  {
    assert providers[..|providers|] == providers;
  }

  /** Some providers were acquired in order, all of them if the work ran, and released in reverse. */
  ghost predicate InReverse(trace: seq<Event>, providers: seq<Provider>, worked: bool) {
    exists n: nat :: IsTrace(trace, providers, n, worked)
  }

  ghost predicate IsTrace(trace: seq<Event>, providers: seq<Provider>, n: nat, worked: bool) {
    && n <= |providers|
    && (worked ==> n == |providers|)
    && trace == AcquireEvents(providers[..n]) + (if worked then [Worked] else []) + ReleaseEvents(providers[..n])
  }

  lemma RefusedTrace(providers: seq<Provider>, n: nat)
    requires n <= |providers|
    ensures InReverse(AcquireEvents(providers[..n]) + ReleaseEvents(providers[..n]), providers, false)
  {
    assert AcquireEvents(providers[..n]) + [] == AcquireEvents(providers[..n]);
    assert IsTrace(AcquireEvents(providers[..n]) + ReleaseEvents(providers[..n]), providers, n, false);
  }

  lemma WorkedTrace(providers: seq<Provider>)
    ensures InReverse(AcquireEvents(providers) + [Worked] + ReleaseEvents(providers), providers, true)
  {
    assert providers[..|providers|] == providers;
    assert IsTrace(AcquireEvents(providers) + [Worked] + ReleaseEvents(providers), providers, |providers|, true);
  }

  /** Check fencing, do the work and release, with every provider already taken. */
  method WorkHeld<T, E>(held: seq<(Provider, Lease)>, providers: seq<Provider>, requireFencing: bool,
                        key: string, owner: string, work: seq<Lease> -> Result<T, E>, moves: seq<Move>,
                        ghost before: Tables, ghost quiet: bool)
    returns (r: Result<Result<T, E>, LockError>, ghost trace: seq<Event>)
    requires Stacked(held, providers, key, owner)
    requires quiet ==> moves == [] && Quiet(held, providers, |providers|, key, owner, before)
    modifies providers
    ensures forall p :: p in providers ==> !p.Names(key, owner)
    ensures quiet ==> Untouched(providers, before)
    ensures quiet ==> forall p :: p in providers ==> p.lastFence == old(p.lastFence)
    ensures requireFencing && !SomeFencing(providers) ==>
      r == Err(FencingRequired(key)) && trace == ReleaseEvents(providers)
    ensures !(requireFencing && !SomeFencing(providers)) ==>
      r == Ok(work(LeasesIn(held))) && trace == [Worked] + ReleaseEvents(providers)
  {
    hide ReleaseEvents, Quiet, Stacked, Untouched;
    StackedLeases(held, providers, key, owner);
    assert providers[..|providers|] == providers;
    var fenced := exists k :: 0 <= k < |held| && held[k].1.fence.Some?;
    if requireFencing && !fenced {
      trace := GiveBack(held, providers, |providers|, moves, key, owner, before, quiet);
      return Err(FencingRequired(key)), trace;
    }
    var outcome := work(LeasesIn(held));
    ghost var released := GiveBack(held, providers, |providers|, moves, key, owner, before, quiet);
    return Ok(outcome), [Worked] + released;
  }

  method WithProviders<T, E>(providers: seq<Provider>, requireFencing: bool,
                             key: string, owner: string, work: seq<Lease> -> Result<T, E>, moves: seq<Move>,
                             ghost before: Tables)
    returns (r: Result<Result<T, E>, LockError>, ghost leases: seq<Lease>, ghost trace: seq<Event>)
    requires Untouched(providers, before)
    modifies providers
    ensures forall p :: p in providers && p.Names(key, owner) ==> old(p.Names(key, owner)) && r == Err(Contended(key))
    ensures r.Err? ==> r.error in {Contended(key), FencingRequired(key)}
    ensures r == Err(FencingRequired(key)) ==> requireFencing && !SomeFencing(providers)
    ensures r.Ok? ==>
      && !(requireFencing && !SomeFencing(providers))
      && LeasesFrom(leases, providers, key, owner) && r == Ok(work(leases))
    ensures InReverse(trace, providers, r.Ok?)
    ensures moves == [] ==> Untouched(providers, before)
    ensures moves == [] && !FreeIn(providers, key, before) ==> r == Err(Contended(key))
    ensures moves == [] && FreeIn(providers, key, before) && requireFencing && !SomeFencing(providers) ==>
      r == Err(FencingRequired(key))
    ensures moves == [] && FreeIn(providers, key, before) && !(requireFencing && !SomeFencing(providers)) ==>
      r == Ok(work(LeasesOf(providers, key, owner)))
  {
    hide FreeIn, Blocked, AcquireEvents, ReleaseEvents, InReverse, SomeFencing, Quiet, Untouched, Stacked;
    var held, failure, rest;
    ghost var reached;
    held, failure, rest, reached, trace := AcquireAll(providers, key, owner, moves, before);
    if failure.Some? {
      if moves == [] {
        BlockedIsNotFree(providers, reached, key, before);
      }
      RefusedTrace(providers, reached);
      return Err(failure.value), [], trace;
    }
    StackedLeases(held, providers, key, owner);
    if moves == [] {
      QuietLeases(held, providers, key, owner, before);
    }
    leases := LeasesIn(held);
    ghost var ending;
    r, ending := WorkHeld(held, providers, requireFencing, key, owner, work, rest, before, moves == []);
    RefusedTrace(providers, |providers|);
    WorkedTrace(providers);
    assert providers[..|providers|] == providers;
    assert AcquireEvents(providers) + ([Worked] + ReleaseEvents(providers))
        == AcquireEvents(providers) + [Worked] + ReleaseEvents(providers);
    assert moves == [] ==> leases == LeasesOf(providers, key, owner);
    trace := trace + ending;
  }

  class Composite {
    const policy: LockPolicy
    const outer: Option<Provider>
    const inner: Option<Provider>

    /** A disabled provider is dropped even if supplied. */
    constructor (policy: LockPolicy, outer: Option<Provider>, inner: Option<Provider>)
      ensures this.policy == policy
      ensures this.outer == if policy.fiduciaEnabled then outer else None
      ensures this.inner == if policy.pgAdvisoryEnabled then inner else None
    {
      this.policy := policy;
      this.outer := if policy.fiduciaEnabled then outer else None;
      this.inner := if policy.pgAdvisoryEnabled then inner else None;
    }

    function Providers(): seq<Provider> {
      (if outer.Some? then [outer.value] else []) + (if inner.Some? then [inner.value] else [])
    }

    /** No provider holds the key, and the same provider is not asked twice. */
    ghost predicate Available(key: string)
      reads Providers()
    {
      var providers := Providers();
      && (forall i :: 0 <= i < |providers| ==> key !in providers[i].held)
      && (forall i, j :: 0 <= i < j < |providers| ==> providers[i] != providers[j])
    }

    /** Fencing is required and no enabled provider issues tokens. */
    predicate Unfenced() {
      policy.requireFencing && !SomeFencing(Providers())
    }

    /**
     Whatever others and the work itself do to the tables between the calls, no
     entry of this acquisition is left behind on any exit, and releases come in
     reverse. An entry under this name can be seen afterwards only where it was
     before, when that is what made the key contended. With nobody else acting,
     every table ends as it was, and the work runs exactly when everything was
     available and fencing, if required, is there.
     */
    method WithLock<T, E>(key: string, owner: string, work: seq<Lease> -> Result<T, E>, moves: seq<Move>)
      returns (r: Result<Result<T, E>, LockError>, ghost leases: seq<Lease>, ghost trace: seq<Event>)
      modifies Providers()
      ensures forall p :: p in Providers() && p.Names(key, owner) ==>
        old(p.Names(key, owner)) && r == Err(Contended(key))
      ensures r.Err? ==> r.error in {Contended(key), FencingRequired(key)}
      ensures r == Err(FencingRequired(key)) ==> Unfenced()
      ensures r.Ok? ==>
        && !Unfenced()
        && LeasesFrom(leases, Providers(), key, owner) && r == Ok(work(leases))
      ensures InReverse(trace, Providers(), r.Ok?)
      ensures moves == [] ==> forall p :: p in Providers() ==> p.held == old(p.held)
      ensures moves == [] && !old(Available(key)) ==> r == Err(Contended(key))
      ensures moves == [] && old(Available(key)) && Unfenced() ==> r == Err(FencingRequired(key))
      ensures moves == [] && old(Available(key)) && !Unfenced() ==> r == Ok(work(LeasesOf(Providers(), key, owner)))
    {
      hide InReverse;
      var providers := Providers();
      ghost var before := map p | p in providers :: p.held;
      assert Available(key) <==> FreeIn(providers, key, before);
      r, leases, trace := WithProviders(providers, policy.requireFencing, key, owner, work, moves, before);
    }
  }
}
