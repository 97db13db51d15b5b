/**
 Credit, the resumption cursor and the resume rule, and the protocol they make
 together: a server with a bounded window of retained events, a FIFO channel
 that can be cut at any time, and a client that resumes where it got to.
 */
module Delivery {
  import opened Results
  import opened Bytes

  // ------------------------------------------------------------------
  // Flow control
  // ------------------------------------------------------------------

  function Min(a: nat, b: nat): nat {
    if a < b then a else b
  }

  /** Credit after a grant: addition saturates at 32 bits, then at the cap. */
  function Granted(credit: nat, additional: nat, maxCredit: nat): nat {
    Min(Min(credit + additional, U32_MAX), maxCredit)
  }

  class FlowControl {
    var credit: U32
    const maxCredit: U32

    ghost predicate Valid()
      reads this
    {
      credit <= maxCredit
    }

    constructor (initial: U32, maxCredit: U32)
      ensures Valid() && credit == Min(initial, maxCredit) && this.maxCredit == maxCredit
    {
      credit := if initial > maxCredit then maxCredit else initial;
      this.maxCredit := maxCredit;
    }

    method Consume() returns (allowed: bool)
      requires Valid()
      modifies this
      ensures Valid() && (allowed <==> old(credit) > 0)
      ensures credit == if allowed then old(credit) - 1 else old(credit)
    {
      if credit == 0 {
        return false;
      }
      credit := credit - 1;
      return true;
    }

    /** Returns how much was really added. */
    method Grant(additional: U32) returns (added: U32)
      requires Valid()
      modifies this
      ensures Valid() && credit == Granted(old(credit), additional, maxCredit)
      ensures old(credit) + added == credit && added <= additional
      ensures added == additional || credit == maxCredit
    {
      var before := credit;
      var sum := if credit + additional > U32_MAX then U32_MAX else credit + additional;
      credit := if sum > maxCredit then maxCredit else sum;
      return credit - before;
    }
  }

  // ------------------------------------------------------------------
  // The cursor
  // ------------------------------------------------------------------

  /** The gap a jump reports: sequences strictly between, saturating at zero. */
  function ReportedGap(delivered: nat, skippedTo: nat): nat {
    if skippedTo > delivered + 1 then skippedTo - (delivered + 1) else 0
  }

  datatype Refusal = Expected(sequence: U64) | Overflow

  /**
   The sequence after `delivered`. Past 64 bits the addition stops the program
   when it is built with overflow checks, and wraps otherwise.
   */
  function After(delivered: U64, checked: bool): (next: Option<U64>)
    ensures delivered < U64_MAX ==> next == Some(delivered + 1)
  {
    if delivered < U64_MAX then Some(delivered + 1) else if checked then None else Some(0)
  }

  class Cursor {
    const checked: bool
    var delivered: U64

    constructor (checked: bool)
      ensures this.checked == checked && delivered == 0
    {
      this.checked := checked;
      delivered := 0;
    }

    method Accept(sequence: U64) returns (r: Result<(), Refusal>)
      modifies this
      ensures match After(old(delivered), checked)
              case None => r == Err(Overflow) && delivered == old(delivered)
              case Some(next) =>
                if sequence == next then r == Ok(()) && delivered == sequence
                else r == Err(Expected(next)) && delivered == old(delivered)
    {
      if delivered == U64_MAX && checked {
        return Err(Overflow);
      }
      var expected := if delivered == U64_MAX then 0 else delivered + 1;
      if sequence == expected {
        delivered := sequence;
        return Ok(());
      }
      return Err(Expected(expected));
    }

    method Jump(skippedTo: U64) returns (r: Result<nat, Refusal>)
      modifies this
      ensures match After(old(delivered), checked)
              case None => r == Err(Overflow) && delivered == old(delivered)
              case Some(next) =>
                r == Ok(if skippedTo > next then skippedTo - next else 0) && delivered == skippedTo
    {
      if delivered == U64_MAX && checked {
        return Err(Overflow);
      }
      var next := if delivered == U64_MAX then 0 else delivered + 1;
      var gap := if skippedTo > next then skippedTo - next else 0;
      delivered := skippedTo;
      return Ok(gap);
    }
  }

  /** A jump covers one more sequence than it reports, exactly when it goes forward. */
  lemma JumpUnderReports(delivered: nat, skippedTo: nat)
    ensures skippedTo - delivered == ReportedGap(delivered, skippedTo) + 1 <==> skippedTo > delivered
  {
  }

  // ------------------------------------------------------------------
  // Sequence numbers of one direction, and the resume rule
  // ------------------------------------------------------------------

  function NextSequence(n: nat): nat {
    Min(n + 1, U64_MAX)
  }

  class Sequencer {
    var next: U64

    constructor ()
      ensures next == 0
    {
      next := 0;
    }

    constructor ResumingAfter(lastSeen: U64)
      ensures next == NextSequence(lastSeen)
    {
      next := if lastSeen == U64_MAX then lastSeen else lastSeen + 1;
    }

    method Issue() returns (current: U64)
      modifies this
      ensures current == old(next) && next == NextSequence(old(next))
    {
      current := next;
      next := if next == U64_MAX then next else next + 1;
    }

    /** The error carries the expected and the received sequence. */
    method Accept(sequence: U64) returns (r: Result<(), (U64, U64)>)
      modifies this
      ensures sequence == old(next) ==> r == Ok(()) && next == NextSequence(old(next))
      ensures sequence != old(next) ==> r == Err((old(next), sequence)) && next == old(next)
    {
      if sequence != next {
        return Err((next, sequence));
      }
      next := if next == U64_MAX then next else next + 1;
      return Ok(());
    }
  }

  datatype Resume =
    | Replay(from: nat, through: nat)
    | UpToDate
    | WindowLost(earliestRetained: nat)

  function PlanResume(earliest: nat, latest: nat, lastSeen: Option<nat>): Resume {
    match lastSeen
    case None => Replay(earliest, latest)
    case Some(seen) =>
      if seen >= latest then UpToDate
      else
        var wanted := NextSequence(seen);
        if wanted < earliest then WindowLost(earliest) else Replay(wanted, latest)
  }

  /** A resume never skips silently: a replay starts right after what the client has. */
  lemma ResumeIsExact(earliest: nat, latest: nat, seen: nat)
    requires latest <= U64_MAX && earliest <= latest + 1
    ensures match PlanResume(earliest, latest, Some(seen))
            case Replay(from, through) => from == seen + 1 && earliest <= from <= through == latest
            case UpToDate => seen >= latest
            case WindowLost(e) => e == earliest && seen + 1 < earliest
  {
  }

  // ------------------------------------------------------------------
  // The protocol
  // ------------------------------------------------------------------

  type Payload = seq<Byte>

  datatype Message = EventMessage(sequence: nat, payload: Payload) | LaggedMessage(skippedTo: nat)

  datatype State = State(
    log: seq<Payload>,                  // event n carries log[n - 1]
    earliest: nat,                      // first sequence still retained
    connected: bool,
    next: nat,                          // what the server sends next
    base: nat,                          // where the server takes the client to be
    channel: seq<Message>,
    credit: nat,
    maxCredit: nat,
    delivered: nat,                     // the client's cursor
    accepted: seq<(nat, Payload)>,      // what the client took, in order
    refused: nat,                       // events the cursor turned away
    gaps: nat,                          // sum of the gaps the client reported
    jumps: nat,
    sends: nat,
    allowance: nat)                     // clamped initial credits plus what grants really added

  datatype Action =
    | Append(payload: Payload)
    | Evict
    | Send(target: nat)
    | GrantCredit(additional: nat)
    | Receive
    | Drop
    | Reconnect(initial: nat, target: nat)
    | Subscribe(initial: nat)

  function Start(maxCredit: nat): State {
    State([], 1, false, 1, 0, [], 0, maxCredit, 0, [], 0, 0, 0, 0, 0)
  }

  /**
   Where a server that has lost events skips to. Any event from the one before
   the window on will do; `target` is the server's choice.
   */
  function SkipTo(s: State, target: nat): nat {
    var least := if s.earliest == 0 then 0 else s.earliest - 1;
    if least <= target <= |s.log| then target else least
  }

  function SendStep(s: State, target: nat): State {
    if !s.connected || s.next > |s.log| || s.next == 0 then s
    else if s.next < s.earliest then
      s.(channel := s.channel + [LaggedMessage(SkipTo(s, target))], next := SkipTo(s, target) + 1)
    else if s.credit == 0 then s
    else s.(channel := s.channel + [EventMessage(s.next, s.log[s.next - 1])], next := s.next + 1,
            credit := s.credit - 1, sends := s.sends + 1)
  }

  function ReceiveStep(s: State): State {
    if |s.channel| == 0 then s
    else match s.channel[0]
      case EventMessage(sequence, payload) =>
        var arrived := s.(channel := s.channel[1..], base := sequence);
        if sequence == s.delivered + 1 then
          arrived.(delivered := sequence, accepted := s.accepted + [(sequence, payload)])
        else arrived.(refused := s.refused + 1)
      case LaggedMessage(skippedTo) =>
        s.(channel := s.channel[1..], base := skippedTo, delivered := skippedTo,
           gaps := s.gaps + ReportedGap(s.delivered, skippedTo), jumps := s.jumps + 1)
  }

  function Connected(s: State, initial: nat): State {
    s.(connected := true, credit := Min(initial, s.maxCredit), allowance := s.allowance + Min(initial, s.maxCredit))
  }

  /** The client says where it got to, and the server resumes from there. */
  function ReconnectStep(s: State, initial: nat, target: nat): State {
    if s.connected then s
    else
      var resumed := Connected(s, initial).(base := s.delivered);
      match PlanResume(s.earliest, |s.log|, Some(s.delivered))
      case Replay(from, _) => resumed.(next := from)
      case UpToDate => resumed.(next := s.delivered + 1)
      case WindowLost(_) =>
        resumed.(next := SkipTo(s, target) + 1, channel := [LaggedMessage(SkipTo(s, target))])
  }

  /** The client names no position, and the server replays its window. */
  function SubscribeStep(s: State, initial: nat): State {
    if s.connected then s
    else
      match PlanResume(s.earliest, |s.log|, None)
      case Replay(from, _) => Connected(s, initial).(next := from, base := if from == 0 then 0 else from - 1)
      case _ => s
  }

  function Step(s: State, a: Action): State {
    match a
    case Append(payload) => s.(log := s.log + [payload])
    case Evict => if s.earliest <= |s.log| then s.(earliest := s.earliest + 1) else s
    case Send(target) => SendStep(s, target)
    case GrantCredit(additional) =>
      if !s.connected || Granted(s.credit, additional, s.maxCredit) < s.credit then s
      else s.(credit := Granted(s.credit, additional, s.maxCredit),
              allowance := s.allowance + (Granted(s.credit, additional, s.maxCredit) - s.credit))
    case Receive => ReceiveStep(s)
    case Drop => s.(connected := false, channel := [])
    case Reconnect(initial, target) => ReconnectStep(s, initial, target)
    case Subscribe(initial) => SubscribeStep(s, initial)
  }

  function Run(s: State, actions: seq<Action>): State {
    if |actions| == 0 then s else Step(Run(s, actions[..|actions| - 1]), actions[|actions| - 1])
  }

  /** The messages of `channel` follow one another from `from` to `to`, with the log's payloads. */
  ghost predicate Leads(channel: seq<Message>, log: seq<Payload>, from: nat, to: nat) {
    if |channel| == 0 then from == to
    else match channel[0]
      case EventMessage(sequence, payload) =>
        && sequence == from + 1 && sequence <= |log| && payload == log[sequence - 1]
        && Leads(channel[1..], log, sequence, to)
      case LaggedMessage(skippedTo) =>
        from < skippedTo <= |log| && Leads(channel[1..], log, skippedTo, to)
  }

  /** Every accepted event exists and carries the server's payload. */
  ghost predicate Genuine(accepted: seq<(nat, Payload)>, log: seq<Payload>) {
    forall i :: 0 <= i < |accepted| ==>
      1 <= accepted[i].0 <= |log| && accepted[i].1 == log[accepted[i].0 - 1]
  }

  /** What every run keeps. */
  ghost predicate Core(s: State) {
    && 1 <= s.earliest <= |s.log| + 1
    && s.delivered <= |s.log| <= U64_MAX
    && s.maxCredit <= U32_MAX
    && (s.connected ==> s.next >= 1 && s.base <= |s.log| && Leads(s.channel, s.log, s.base, s.next - 1))
    && (!s.connected ==> s.channel == [])
    && Genuine(s.accepted, s.log)
    && s.credit <= s.maxCredit
    && s.sends + s.credit <= s.allowance
  }

  /** Accepted sequences strictly increase up to the cursor. */
  ghost predicate InOrder(accepted: seq<(nat, Payload)>, delivered: nat) {
    && (forall i :: 0 <= i < |accepted| ==> 1 <= accepted[i].0 <= delivered)
    && (forall i, j :: 0 <= i < j < |accepted| ==> accepted[i].0 < accepted[j].0)
  }

  /** The cursor has passed exactly what was accepted or lost in jumps. */
  ghost predicate Accounted(s: State) {
    s.delivered == |s.accepted| + s.gaps + s.jumps
  }

  ghost predicate Inv(s: State) {
    Core(s) && InOrder(s.accepted, s.delivered) && Accounted(s)
  }

  /** The client is about to be told to skip to where it already is, or back. */
  ghost predicate JumpsBack(s: State, a: Action) {
    a.Receive? && |s.channel| > 0 && s.channel[0].LaggedMessage? && s.channel[0].skippedTo <= s.delivered
  }

  // ------------------------------------------------------------------
  // What each step keeps
  // ------------------------------------------------------------------

  lemma {:induction false} LeadsLater(channel: seq<Message>, log: seq<Payload>, from: nat, to: nat,
                                      message: Message, end: nat)
    requires Leads(channel, log, from, to) && Leads([message], log, to, end)
    ensures Leads(channel + [message], log, from, end)
  {
    if |channel| == 0 {
      assert channel + [message] == [message];
    } else {
      assert (channel + [message])[1..] == channel[1..] + [message];
      match channel[0]
      case EventMessage(sequence, _) => LeadsLater(channel[1..], log, sequence, to, message, end);
      case LaggedMessage(skippedTo) => LeadsLater(channel[1..], log, skippedTo, to, message, end);
    }
  }

  lemma {:induction false} LeadsWithLongerLog(channel: seq<Message>, log: seq<Payload>, from: nat, to: nat,
                                              payload: Payload)
    requires Leads(channel, log, from, to)
    ensures Leads(channel, log + [payload], from, to)
  {
    if |channel| > 0 {
      match channel[0]
      case EventMessage(sequence, _) => LeadsWithLongerLog(channel[1..], log, sequence, to, payload);
      case LaggedMessage(skippedTo) => LeadsWithLongerLog(channel[1..], log, skippedTo, to, payload);
    }
  }

  lemma {:induction false} LeadsForward(channel: seq<Message>, log: seq<Payload>, from: nat, to: nat)
    requires Leads(channel, log, from, to) && from <= |log|
    ensures from <= to <= |log|
  {
    if |channel| > 0 {
      match channel[0]
      case EventMessage(sequence, _) => LeadsForward(channel[1..], log, sequence, to);
      case LaggedMessage(skippedTo) => LeadsForward(channel[1..], log, skippedTo, to);
    }
  }

  lemma SendKeeps(s: State, target: nat)
    requires Core(s)
    ensures Core(SendStep(s, target))
  {
    hide Genuine;
    if s.connected {
      LeadsForward(s.channel, s.log, s.base, s.next - 1);
      if s.next <= |s.log| && s.next < s.earliest {
        var lagged := LaggedMessage(SkipTo(s, target));
        assert [lagged][1..] == [];
        LeadsLater(s.channel, s.log, s.base, s.next - 1, lagged, SkipTo(s, target));
      } else if s.next <= |s.log| && s.credit > 0 {
        var event := EventMessage(s.next, s.log[s.next - 1]);
        assert [event][1..] == [];
        LeadsLater(s.channel, s.log, s.base, s.next - 1, event, s.next);
      }
    }
  }

  lemma GenuineOneMore(accepted: seq<(nat, Payload)>, log: seq<Payload>, sequence: nat)
    requires Genuine(accepted, log) && 1 <= sequence <= |log|
    ensures Genuine(accepted + [(sequence, log[sequence - 1])], log)
  {
  }

  lemma ReceiveKeeps(s: State)
    requires Core(s)
    ensures Core(ReceiveStep(s))
  {
    hide Genuine;
    if |s.channel| > 0 && s.channel[0].EventMessage? {
      GenuineOneMore(s.accepted, s.log, s.channel[0].sequence);
    }
  }

  lemma ReconnectKeeps(s: State, initial: nat, target: nat)
    requires Core(s)
    ensures Core(ReconnectStep(s, initial, target))
  {
    hide Genuine;
    if !s.connected {
      ResumeIsExact(s.earliest, |s.log|, s.delivered);
      match PlanResume(s.earliest, |s.log|, Some(s.delivered)) {
        case WindowLost(_) =>
          var lagged := LaggedMessage(SkipTo(s, target));
          assert [lagged][1..] == [];
          assert Leads([lagged], s.log, s.delivered, SkipTo(s, target));
          assert ReconnectStep(s, initial, target).channel == [lagged];
        case _ =>
      }
    }
  }

  /** Every step keeps the window, the channel, the payloads and the credit. */
  lemma CoreKeeps(s: State, a: Action)
    requires Core(s)
    requires a.Append? ==> |s.log| < U64_MAX
    ensures Core(Step(s, a))
  {
    hide SendStep, ReceiveStep, ReconnectStep;
    match a
    case Append(payload) =>
      if s.connected {
        LeadsWithLongerLog(s.channel, s.log, s.base, s.next - 1, payload);
      }
    case Send(target) => SendKeeps(s, target);
    case Receive => ReceiveKeeps(s);
    case Reconnect(initial, target) => ReconnectKeeps(s, initial, target);
    case _ =>
  }

  lemma InOrderOneMore(accepted: seq<(nat, Payload)>, delivered: nat, to: nat, payload: Payload)
    requires InOrder(accepted, delivered) && delivered <= to
    ensures InOrder(accepted, to)
    ensures delivered < to ==> InOrder(accepted + [(to, payload)], to)
  {
  }

  lemma OrderKeeps(s: State, a: Action)
    requires InOrder(s.accepted, s.delivered) && Accounted(s) && !JumpsBack(s, a)
    ensures InOrder(Step(s, a).accepted, Step(s, a).delivered) && Accounted(Step(s, a))
  {
    hide InOrder;
    if a.Receive? && |s.channel| > 0 {
      var to := if s.channel[0].EventMessage? then s.delivered + 1 else s.channel[0].skippedTo;
      var payload := if s.channel[0].EventMessage? then s.channel[0].payload else [];
      InOrderOneMore(s.accepted, s.delivered, to, payload);
    }
  }

  /** A step keeps order and accounting too if and only if it is not a jump back. */
  lemma StepKeepsExactly(s: State, a: Action)
    requires Inv(s)
    requires a.Append? ==> |s.log| < U64_MAX
    ensures Core(Step(s, a))
    ensures Inv(Step(s, a)) <==> !JumpsBack(s, a)
    ensures Accounted(Step(s, a)) <==> !JumpsBack(s, a)
  {
    CoreKeeps(s, a);
    if !JumpsBack(s, a) {
      OrderKeeps(s, a);
    }
  }

  // ------------------------------------------------------------------
  // Runs
  // ------------------------------------------------------------------

  lemma OneStepGrowth(s: State, a: Action)
    ensures |Step(s, a).log| == |s.log| + (if a.Append? then 1 else 0) && Step(s, a).maxCredit == s.maxCredit
  {
  }

  function Appends(actions: seq<Action>): (n: nat)
    ensures n <= |actions|
  {
    if |actions| == 0 then 0
    else Appends(actions[..|actions| - 1]) + (if actions[|actions| - 1].Append? then 1 else 0)
  }

  /** No event ever needs a sequence number past 64 bits. */
  ghost predicate InRange(s: State, actions: seq<Action>) {
    |s.log| + Appends(actions) <= U64_MAX
  }

  lemma {:induction false} CoreAlways(s: State, actions: seq<Action>)
    requires Core(s) && InRange(s, actions)
    ensures Core(Run(s, actions)) && |Run(s, actions).log| == |s.log| + Appends(actions)
    ensures Run(s, actions).maxCredit == s.maxCredit
  {
    hide Core, Step;
    if |actions| > 0 {
      var before := actions[..|actions| - 1];
      CoreAlways(s, before);
      CoreKeeps(Run(s, before), actions[|actions| - 1]);
      OneStepGrowth(Run(s, before), actions[|actions| - 1]);
    }
  }

  /**
   In every run whatsoever the client takes only the server's payloads, and the
   server never sends beyond the initial credits and what grants really added.
   */
  lemma NothingIsForged(maxCredit: U32, actions: seq<Action>)
    requires Appends(actions) <= U64_MAX
    ensures
      var s := Run(Start(maxCredit), actions);
      && Genuine(s.accepted, s.log)
      && s.credit <= maxCredit
      && s.sends + s.credit <= s.allowance
  {
    assert Core(Start(maxCredit));
    CoreAlways(Start(maxCredit), actions);
  }

  /** No step of the run is a bad one. */
  ghost predicate Never(bad: (State, Action) -> bool, s: State, actions: seq<Action>)
    decreases |actions|
  {
    |actions| > 0 ==>
      && Never(bad, s, actions[..|actions| - 1])
      && !bad(Run(s, actions[..|actions| - 1]), actions[|actions| - 1])
  }

  lemma {:induction false} PrefixNever(bad: (State, Action) -> bool, s: State, actions: seq<Action>, k: nat)
    requires Never(bad, s, actions) && k <= |actions|
    ensures Never(bad, s, actions[..k])
    decreases |actions|
  {
    if k < |actions| {
      PrefixNever(bad, s, actions[..|actions| - 1], k);
      assert actions[..|actions| - 1][..k] == actions[..k];
    } else {
      assert actions[..k] == actions;
    }
  }

  lemma {:induction false} FirstBad(bad: (State, Action) -> bool, s: State, actions: seq<Action>)
    returns (k: nat)
    requires !Never(bad, s, actions)
    ensures k < |actions| && Never(bad, s, actions[..k]) && bad(Run(s, actions[..k]), actions[k])
    decreases |actions|
  {
    var last := |actions| - 1;
    if Never(bad, s, actions[..last]) {
      k := last;
    } else {
      k := FirstBad(bad, s, actions[..last]);
      assert actions[..last][..k] == actions[..k];
    }
  }

  lemma {:induction false} PrefixAppends(actions: seq<Action>, k: nat)
    requires k <= |actions|
    ensures Appends(actions[..k]) <= Appends(actions)
    decreases |actions|
  {
    if k < |actions| {
      PrefixAppends(actions[..|actions| - 1], k);
      assert actions[..|actions| - 1][..k] == actions[..k];
    } else {
      assert actions[..k] == actions;
    }
  }

  ghost predicate NeverBack(s: State, actions: seq<Action>) {
    Never(JumpsBack, s, actions)
  }

  lemma {:induction false} RunKeeps(s: State, actions: seq<Action>)
    requires Inv(s) && InRange(s, actions) && NeverBack(s, actions)
    ensures Inv(Run(s, actions))
  {
    hide Inv, Step, JumpsBack, Core;
    if |actions| > 0 {
      var before := actions[..|actions| - 1];
      RunKeeps(s, before);
      InvIsCore(s);
      CoreAlways(s, before);
      StepKeepsExactly(Run(s, before), actions[|actions| - 1]);
    }
  }

  lemma InvIsCore(s: State)
    requires Inv(s)
    ensures Core(s)
  {
  }

  /**
   In every run without a jump back: accepted events are in strictly increasing
   order with the server's payloads; everything up to the cursor was accepted or
   lost in a jump, each jump losing one event more than it reports.
   */
  lemma DeliveryIsAccountedFor(maxCredit: U32, actions: seq<Action>)
    requires Appends(actions) <= U64_MAX && NeverBack(Start(maxCredit), actions)
    ensures
      var s := Run(Start(maxCredit), actions);
      && InOrder(s.accepted, s.delivered) && Genuine(s.accepted, s.log)
      && s.delivered - |s.accepted| == s.gaps + s.jumps
  {
    assert Inv(Start(maxCredit));
    RunKeeps(Start(maxCredit), actions);
  }

  ghost predicate AlwaysAccounted(s: State, actions: seq<Action>) {
    forall k: nat :: k <= |actions| ==> Accounted(Run(s, actions[..k]))
  }

  /** The gaps reported account for the cursor throughout a run if and only if it never jumps back. */
  lemma {:induction false} AccountedExactly(s: State, actions: seq<Action>)
    requires Inv(s) && InRange(s, actions)
    ensures AlwaysAccounted(s, actions) <==> NeverBack(s, actions)
    decreases |actions|
  {
    hide Inv, Step, JumpsBack, Core, Accounted;
    assert actions[..|actions|] == actions;
    if |actions| == 0 {
      InvIsAccounted(s);
      assert forall k: nat :: k <= |actions| ==> actions[..k] == [];
    } else {
      var before := actions[..|actions| - 1];
      AccountedExactly(s, before);
      assert forall k: nat :: k < |actions| ==> before[..k] == actions[..k];
      if NeverBack(s, before) {
        RunKeeps(s, before);
        InvIsCore(s);
        CoreAlways(s, before);
        StepKeepsExactly(Run(s, before), actions[|actions| - 1]);
      } else {
        var k: nat :| k <= |before| && !Accounted(Run(s, before[..k]));
        assert actions[..k] == before[..k];
      }
    }
  }

  lemma InvIsAccounted(s: State)
    requires Inv(s)
    ensures Accounted(s)
  {
  }

  // ------------------------------------------------------------------
  // Fresh subscriptions
  // ------------------------------------------------------------------

  /** The server does not take the client to be further back than it is. */
  ghost predicate Ahead(s: State) {
    s.connected ==> s.delivered <= s.base
  }

  /** A subscription without a position by a client that has gone into the window, or past it. */
  ghost predicate Revisits(s: State, a: Action) {
    a.Subscribe? && !s.connected && s.earliest <= s.delivered
  }

  lemma AheadExactly(s: State, a: Action)
    requires Core(s) && Ahead(s)
    ensures Ahead(Step(s, a)) <==> !Revisits(s, a)
    ensures !JumpsBack(s, a)
  {
    hide Genuine;
  }

  ghost predicate NeverRevisits(s: State, actions: seq<Action>) {
    Never(Revisits, s, actions)
  }

  /** While positions are left out only by clients short of the window, the cursor never jumps back. */
  lemma {:induction false} FreshClientsNeverJumpBack(s: State, actions: seq<Action>)
    requires Core(s) && Ahead(s) && InRange(s, actions) && NeverRevisits(s, actions)
    ensures NeverBack(s, actions) && Ahead(Run(s, actions))
  {
    hide Core, Ahead, Revisits, JumpsBack, Step;
    if |actions| > 0 {
      var before := actions[..|actions| - 1];
      FreshClientsNeverJumpBack(s, before);
      CoreAlways(s, before);
      AheadExactly(Run(s, before), actions[|actions| - 1]);
    }
  }

  /** Without another such subscription, no run from here jumps back. */
  ghost predicate OnlyForward(s: State) {
    forall future: seq<Action> :: InRange(s, future) && NeverRevisits(s, future) ==> NeverBack(s, future)
  }

  ghost predicate AlwaysForward(s: State, actions: seq<Action>) {
    forall k: nat :: k <= |actions| ==> OnlyForward(Run(s, actions[..k]))
  }

  /** The cursor can only go forward throughout a run if and only if no subscription revisits. */
  lemma ForwardExactly(s: State, actions: seq<Action>)
    requires Core(s) && Ahead(s) && InRange(s, actions)
    ensures AlwaysForward(s, actions) <==> NeverRevisits(s, actions)
  {
    hide Core, Ahead, Revisits, JumpsBack, Step, Run, Never;
    if NeverRevisits(s, actions) {
      forall k: nat | k <= |actions| ensures OnlyForward(Run(s, actions[..k])) {
        PrefixNever(Revisits, s, actions, k);
        PrefixAppends(actions, k);
        CoreAlways(s, actions[..k]);
        FreshClientsNeverJumpBack(s, actions[..k]);
        ForwardFromHere(Run(s, actions[..k]));
      }
    } else {
      var k := FirstBad(Revisits, s, actions);
      PrefixAppends(actions, k);
      CoreAlways(s, actions[..k]);
      RunStep(s, actions, k);
      RevisitJumpsBack(Run(s, actions[..k]), actions[k]);
      assert !OnlyForward(Run(s, actions[..k + 1]));
    }
  }

  lemma ForwardFromHere(s: State)
    requires Core(s) && Ahead(s)
    ensures OnlyForward(s)
  {
    hide Core, Ahead, Never;
    forall future: seq<Action> | InRange(s, future) && NeverRevisits(s, future) ensures NeverBack(s, future) {
      FreshClientsNeverJumpBack(s, future);
    }
  }

  /** After a revisiting subscription the server only has to lose one more event. */
  lemma RevisitJumpsBack(s: State, a: Action)
    requires Core(s) && Revisits(s, a)
    ensures JumpsBack(Run(Step(s, a), [Evict, Send(0)]), Receive)
    ensures !OnlyForward(Step(s, a))
  {
    hide Run, Leads, Genuine, Step;
    var after, future := Step(s, a), [Evict, Send(0), Receive];
    RunNothing(after);
    RunTwice(after, [], Evict, Send(0));
    assert [] + [Evict, Send(0)] == [Evict, Send(0)];
    SentBehind(s, a.initial);
    assert future[..2] == [Evict, Send(0)];
    SubscribesNothing(after, future);
    AppendsAreEarly(future, 0);
    FreshStart(s, a.initial);
    assert !NeverBack(after, future);
  }

  lemma {:induction false} SubscribesNothing(s: State, actions: seq<Action>)
    requires forall i :: 0 <= i < |actions| ==> !actions[i].Subscribe?
    ensures NeverRevisits(s, actions) && NeverMisses(s, actions)
    decreases |actions|
  {
    if |actions| > 0 {
      SubscribesNothing(s, actions[..|actions| - 1]);
    }
  }

  lemma {:induction false} AppendsAreEarly(actions: seq<Action>, k: nat)
    requires k <= |actions| && forall i :: k <= i < |actions| ==> !actions[i].Append?
    ensures Appends(actions) == Appends(actions[..k])
    decreases |actions|
  {
    if k < |actions| {
      AppendsAreEarly(actions[..|actions| - 1], k);
      assert actions[..|actions| - 1][..k] == actions[..k];
    } else {
      assert actions[..k] == actions;
    }
  }

  /** Nothing was refused, and the server takes the client to be where it is. */
  ghost predicate InStep(s: State) {
    s.refused == 0 && (s.connected ==> s.base == s.delivered)
  }

  /** A subscription without a position by a client that is not just before the window. */
  ghost predicate Misses(s: State, a: Action) {
    a.Subscribe? && !s.connected && s.earliest != s.delivered + 1
  }

  lemma InStepExactly(s: State, a: Action)
    requires Core(s) && InStep(s)
    ensures InStep(Step(s, a)) <==> !Misses(s, a)
  {
    hide Genuine;
  }

  ghost predicate NeverMisses(s: State, actions: seq<Action>) {
    Never(Misses, s, actions)
  }

  /** Otherwise the cursor refuses nothing in any run, however often connections drop. */
  lemma {:induction false} NothingIsRefused(s: State, actions: seq<Action>)
    requires Core(s) && InStep(s) && InRange(s, actions) && NeverMisses(s, actions)
    ensures InStep(Run(s, actions))
  {
    hide Core, InStep, Misses, Step;
    if |actions| > 0 {
      var before := actions[..|actions| - 1];
      NothingIsRefused(s, before);
      CoreAlways(s, before);
      InStepExactly(Run(s, before), actions[|actions| - 1]);
    }
  }

  /** Without another such subscription, no run from here refuses anything. */
  ghost predicate TakesAll(s: State) {
    forall future: seq<Action> :: InRange(s, future) && NeverMisses(s, future) ==> Run(s, future).refused == 0
  }

  ghost predicate AlwaysTakesAll(s: State, actions: seq<Action>) {
    forall k: nat :: k <= |actions| ==> TakesAll(Run(s, actions[..k]))
  }

  /** With room for one more event, nothing can be refused throughout a run if and only if no subscription misses. */
  lemma RefusesNothingExactly(s: State, actions: seq<Action>)
    requires Core(s) && InStep(s) && s.maxCredit > 0
    requires |s.log| + Appends(actions) < U64_MAX
    ensures AlwaysTakesAll(s, actions) <==> NeverMisses(s, actions)
  {
    hide Core, InStep, Misses, Step, Run, Never;
    if NeverMisses(s, actions) {
      forall k: nat | k <= |actions| ensures TakesAll(Run(s, actions[..k])) {
        PrefixNever(Misses, s, actions, k);
        PrefixAppends(actions, k);
        CoreAlways(s, actions[..k]);
        NothingIsRefused(s, actions[..k]);
        TakesAllFromHere(Run(s, actions[..k]));
      }
    } else {
      var k := FirstBad(Misses, s, actions);
      PrefixAppends(actions, k);
      CoreAlways(s, actions[..k]);
      NothingIsRefused(s, actions[..k]);
      RunStep(s, actions, k);
      MissIsRefused(Run(s, actions[..k]), actions[k]);
      assert !TakesAll(Run(s, actions[..k + 1]));
    }
  }

  lemma TakesAllFromHere(s: State)
    requires Core(s) && InStep(s)
    ensures TakesAll(s)
  {
    hide Core, Never;
    forall future: seq<Action> | InRange(s, future) && NeverMisses(s, future) ensures Run(s, future).refused == 0 {
      NothingIsRefused(s, future);
    }
  }

  /** After a subscription that misses, the first event sent is refused. */
  lemma MissIsRefused(s: State, a: Action)
    requires Core(s) && Misses(s, a) && s.maxCredit > 0 && |s.log| < U64_MAX
    ensures
      var r := Run(Step(s, a), [Append([]), GrantCredit(1), Send(0), Receive]);
      r.refused == s.refused + 1 && r.delivered == s.delivered
    ensures !TakesAll(Step(s, a))
  {
    hide Run, Leads, Genuine, Step;
    var after, first := Step(s, a), [Append([]), GrantCredit(1)];
    var future := [Append([]), GrantCredit(1), Send(0), Receive];
    RunNothing(after);
    RunTwice(after, [], Append([]), GrantCredit(1));
    RunTwice(after, first, Send(0), Receive);
    assert [] + first == first && first + [Send(0), Receive] == future;
    var ready := Step(Step(after, Append([])), GrantCredit(1));
    ReadyToSend(s, a.initial);
    OneRound(ready);
    SubscribesNothing(after, future);
    FreshStart(s, a.initial);
    AppendsAreEarly(future, 1);
    assert future[..1] == [Append([])] && Appends(future) == 1;
  }

  lemma ReadyToSend(s: State, initial: nat)
    requires Core(s) && !s.connected && s.maxCredit > 0
    ensures
      var ready := Step(Step(Step(s, Subscribe(initial)), Append([])), GrantCredit(1));
      && ready.connected && ready.channel == [] && ready.credit > 0 && ready.next == ready.earliest == s.earliest
      && ready.log == s.log + [[]] && ready.delivered == s.delivered && ready.refused == s.refused
  {
    hide Leads, Genuine;
    FreshStart(s, initial);
  }

  /** `n` events sent and received one by one. */
  function Rounds(s: State, n: nat): State {
    if n == 0 then s else Step(Step(Rounds(s, n - 1), Send(0)), Receive)
  }

  /** How many of the first `n` events of a window from `earliest` a cursor at `delivered` turns away. */
  function TurnedAway(delivered: nat, earliest: nat, n: nat): nat {
    if earliest > delivered + 1 then n else Min(n, delivered + 1 - earliest)
  }

  /**
   After a subscription without a position, of the first `n` events the client
   refuses those it has, or every one if it lacks some before the window; it
   takes the others.
   */
  lemma {:induction false} FreshReplayIsFollowed(s: State, initial: nat, n: nat)
    requires Core(s) && !s.connected
    requires s.earliest + n <= |s.log| + 1 && n <= Min(initial, s.maxCredit)
    ensures
      var r, away := Rounds(Step(s, Subscribe(initial)), n), TurnedAway(s.delivered, s.earliest, n);
      && r.connected && r.channel == [] && r.next == s.earliest + n
      && r.log == s.log && r.earliest == s.earliest && r.credit == Min(initial, s.maxCredit) - n
      && r.refused == s.refused + away
      && r.delivered == s.delivered + (n - away)
      && |r.accepted| == |s.accepted| + (n - away)
  {
    hide Leads, Genuine, Step;
    if n == 0 {
      FreshStart(s, initial);
    } else {
      FreshReplayIsFollowed(s, initial, n - 1);
      OneRound(Rounds(Step(s, Subscribe(initial)), n - 1));
    }
  }

  lemma FreshStart(s: State, initial: nat)
    requires Core(s) && !s.connected
    ensures
      var credit := Min(initial, s.maxCredit);
      Step(s, Subscribe(initial)) == s.(connected := true, next := s.earliest, base := s.earliest - 1,
                                        credit := credit, allowance := s.allowance + credit)
  {
  }

  /** A retained event sent with nothing in flight is taken exactly when it is the next one. */
  lemma OneRound(s: State)
    requires s.connected && s.channel == [] && s.credit > 0 && 1 <= s.earliest <= s.next <= |s.log|
    ensures
      var sent := s.(next := s.next + 1, base := s.next, credit := s.credit - 1, sends := s.sends + 1);
      Step(Step(s, Send(0)), Receive) ==
        if s.next == s.delivered + 1 then
          sent.(delivered := s.next, accepted := s.accepted + [(s.next, s.log[s.next - 1])])
        else sent.(refused := s.refused + 1)
  {
    var event := EventMessage(s.next, s.log[s.next - 1]);
    assert Step(s, Send(0)).channel == [event];
    assert [event][1..] == [];
  }

  /** A client with nothing yet takes a fresh replay if and only if the window is whole. */
  lemma NewClientNeedsWholeWindow(s: State, initial: nat, n: nat)
    requires Core(s) && !s.connected && s.delivered == 0 && n > 0
    requires s.earliest + n <= |s.log| + 1 && n <= Min(initial, s.maxCredit)
    ensures
      var r := Rounds(Step(s, Subscribe(initial)), n);
      && (r.delivered == n && r.refused == s.refused <==> s.earliest == 1)
      && (r.delivered == 0 && r.refused == s.refused + n <==> s.earliest != 1)
  {
    FreshReplayIsFollowed(s, initial, n);
  }

  /**
   Any client past the first retained event that subscribes without a position
   can be sent back and take an event it already had.
   */
  lemma RevisitCanRepeat(s: State, initial: nat)
    requires Core(s) && !s.connected && s.earliest < s.delivered && Min(initial, s.maxCredit) > 0
    ensures
      var r := Run(s, [Subscribe(initial), Evict, Send(0), Receive, Send(0), Receive]);
      && r.accepted == s.accepted + [(s.earliest + 1, s.log[s.earliest])]
      && r.delivered == s.earliest + 1 <= s.delivered
  {
    hide Run, Leads, Genuine, Step;
    var first, round := [Subscribe(initial), Evict], [Send(0), Receive];
    RunNothing(s);
    RunTwice(s, [], Subscribe(initial), Evict);
    RunTwice(s, first, Send(0), Receive);
    RunTwice(s, first + round, Send(0), Receive);
    assert [] + first == first;
    assert first + round + round == [Subscribe(initial), Evict, Send(0), Receive, Send(0), Receive];
    SentBack(s, initial);
    OneRound(Step(Step(Step(Step(s, Subscribe(initial)), Evict), Send(0)), Receive));
  }

  const PAST_THE_WINDOW: seq<Action> :=
    [Append([1]), Subscribe(1), Send(0), Receive, Append([2]), GrantCredit(1), Send(0), Receive, Drop]

  /** Such a client exists whatever the cap, as long as it lets anything be sent. */
  lemma RevisitIsReachable(maxCredit: U32)
    requires maxCredit > 0
    ensures
      var s := Run(Start(maxCredit), PAST_THE_WINDOW);
      && Core(s) && !s.connected && s.earliest < s.delivered
      && s.accepted == [(1, [1]), (2, [2])]
  {
    hide Run, Leads, Step;
    var actions, start := PAST_THE_WINDOW, Start(maxCredit);
    var first, second := [Append([1]), Subscribe(1)], [Append([2]), GrantCredit(1)];
    CoreAlways(start, actions[..4]);
    CoreAlways(start, actions);
    RunNothing(start);
    RunTwice(start, [], Append([1]), Subscribe(1));
    assert actions[..2] == [] + first;
    FirstIsReady(maxCredit);
    TakenNext(start, actions[..2]);
    assert actions[..4] == actions[..2] + [Send(0), Receive];
    RunTwice(start, actions[..4], Append([2]), GrantCredit(1));
    assert actions[..6] == actions[..4] + second;
    NextIsReady(Run(start, actions[..4]), [2]);
    TakenNext(start, actions[..6]);
    assert actions[..8] == actions[..6] + [Send(0), Receive];
    RunStep(start, actions, 8);
    assert actions[..9] == actions;
    Dropped(Run(start, actions[..8]));
  }

  /** The client waits for the one event it does not have, and a credit is left for it. */
  ghost predicate Ready(s: State) {
    && s.connected && s.channel == [] && s.credit > 0 && s.earliest == 1
    && s.next == |s.log| == s.delivered + 1
  }

  lemma FirstIsReady(maxCredit: U32)
    requires maxCredit > 0
    ensures
      var s := Step(Step(Start(maxCredit), Append([1])), Subscribe(1));
      Ready(s) && s.log == [[1]] && s.accepted == [] && s.maxCredit == maxCredit
  {
  }

  lemma NextIsReady(s: State, payload: Payload)
    requires s.connected && s.channel == [] && s.earliest == 1 && 0 < s.maxCredit <= U32_MAX
    requires s.credit <= s.maxCredit && s.next == |s.log| + 1 == s.delivered + 1
    ensures
      var r := Step(Step(s, Append(payload)), GrantCredit(1));
      Ready(r) && r.log == s.log + [payload] && r.accepted == s.accepted && r.maxCredit == s.maxCredit
  {
  }

  lemma TakenNext(s: State, actions: seq<Action>)
    requires Ready(Run(s, actions))
    ensures
      var r, t := Run(s, actions), Run(s, actions + [Send(0), Receive]);
      && t.connected && t.channel == [] && t.earliest == 1 && t.next == |t.log| + 1 == t.delivered + 1
      && t.log == r.log && t.maxCredit == r.maxCredit
      && t.accepted == r.accepted + [(|r.log|, r.log[|r.log| - 1])]
  {
    hide Run, Step;
    RunTwice(s, actions, Send(0), Receive);
    OneRound(Run(s, actions));
  }

  lemma Dropped(s: State)
    ensures Step(s, Drop) == s.(connected := false, channel := [])
  {
  }

  lemma RunTwice(s: State, actions: seq<Action>, a: Action, b: Action)
    ensures Run(s, actions + [a, b]) == Step(Step(Run(s, actions), a), b)
  {
    var longer := actions + [a, b];
    assert longer[..|actions| + 1][..|actions|] == actions;
  }

  lemma RunStep(s: State, actions: seq<Action>, k: nat)
    requires k < |actions|
    ensures Run(s, actions[..k + 1]) == Step(Run(s, actions[..k]), actions[k])
  {
    assert actions[..k + 1][..k] == actions[..k];
  }

  lemma RunNothing(s: State)
    ensures Run(s, []) == s
  {
  }

  lemma SentBehind(s: State, initial: nat)
    requires Core(s) && !s.connected && s.earliest <= s.delivered
    ensures
      var lagging := Step(Step(Step(s, Subscribe(initial)), Evict), Send(0));
      lagging.channel == [LaggedMessage(s.earliest)] && lagging.delivered == s.delivered
  {
    hide Leads, Genuine;
    FreshStart(s, initial);
  }

  lemma SentBack(s: State, initial: nat)
    requires Core(s) && !s.connected && s.earliest <= s.delivered
    ensures
      var credit := Min(initial, s.maxCredit);
      var r := Step(Step(Step(Step(s, Subscribe(initial)), Evict), Send(0)), Receive);
      && r.connected && r.channel == [] && r.earliest == r.next == s.earliest + 1
      && r.credit == credit && r.log == s.log && r.accepted == s.accepted && r.delivered == s.earliest
  {
    hide Leads, Genuine;
    FreshStart(s, initial);
    var evicted := Step(Step(s, Subscribe(initial)), Evict);
    var lagging := Step(evicted, Send(0));
    assert lagging.channel == [LaggedMessage(s.earliest)] && lagging.channel[1..] == [];
  }

  // ------------------------------------------------------------------
  // The credit and the cursor take these steps
  // ------------------------------------------------------------------

  ghost predicate Spends(flow: FlowControl, s: State)
    reads flow
  {
    flow.Valid() && flow.credit == s.credit && flow.maxCredit == s.maxCredit
  }

  /** With an event due, the server sends it exactly when consuming a credit is allowed. */
  method SendMirrored(flow: FlowControl, ghost s: State, ghost target: nat) returns (allowed: bool, ghost s': State)
    requires Spends(flow, s) && s.connected && 1 <= s.earliest <= s.next <= |s.log|
    modifies flow
    ensures s' == SendStep(s, target) && Spends(flow, s')
    ensures allowed ==> s'.channel == s.channel + [EventMessage(s.next, s.log[s.next - 1])]
    ensures !allowed ==> s' == s
  {
    allowed := flow.Consume();
    s' := SendStep(s, target);
  }

  method GrantMirrored(flow: FlowControl, ghost s: State, additional: U32) returns (added: U32, ghost s': State)
    requires Spends(flow, s) && s.connected
    modifies flow
    ensures s' == Step(s, GrantCredit(additional)) && Spends(flow, s')
    ensures s'.allowance == s.allowance + added
  {
    added := flow.Grant(additional);
    s' := Step(s, GrantCredit(additional));
  }

  /** The cursor takes the oldest message in flight, reporting what a jump says is gone. */
  method ReceiveMirrored(cursor: Cursor, message: Message, ghost s: State) returns (gap: nat, ghost s': State)
    requires Core(s) && |s.log| < U64_MAX
    requires |s.channel| > 0 && message == s.channel[0] && cursor.delivered == s.delivered
    modifies cursor
    ensures s' == ReceiveStep(s) && cursor.delivered == s'.delivered && s'.gaps == s.gaps + gap
    ensures message.EventMessage? ==>
      if message.sequence == s.delivered + 1 then s'.accepted == s.accepted + [(message.sequence, message.payload)]
      else s'.refused == s.refused + 1
  {
    gap := 0;
    match message {
      case EventMessage(sequence, _) =>
        var _ := cursor.Accept(sequence);
      case LaggedMessage(skippedTo) =>
        var r := cursor.Jump(skippedTo);
        gap := r.value;
    }
    s' := ReceiveStep(s);
  }

  // ------------------------------------------------------------------
  // Nothing is lost while nothing is evicted
  // ------------------------------------------------------------------

  ghost predicate NothingLost(s: State) {
    && s.earliest == 1
    && s.gaps == 0 && s.jumps == 0
    && forall k :: 0 <= k < |s.channel| ==> s.channel[k].EventMessage?
  }

  lemma StepLosesNothing(s: State, a: Action)
    requires Core(s) && NothingLost(s) && a != Evict
    ensures NothingLost(Step(s, a)) && !JumpsBack(s, a)
  {
  }

  lemma {:induction false} RunLosesNothing(s: State, actions: seq<Action>)
    requires Core(s) && InRange(s, actions) && NothingLost(s) && Evict !in actions
    ensures NothingLost(Run(s, actions)) && NeverBack(s, actions)
  {
    hide Core, NothingLost, Step, JumpsBack;
    if |actions| > 0 {
      var before := actions[..|actions| - 1];
      RunLosesNothing(s, before);
      CoreAlways(s, before);
      StepLosesNothing(Run(s, before), actions[|actions| - 1]);
    }
  }

  lemma IncreasingFillsRange(accepted: seq<(nat, Payload)>, delivered: nat, i: nat)
    requires InOrder(accepted, delivered) && |accepted| == delivered && i < |accepted|
    ensures accepted[i].0 == i + 1
  {
    AtLeastPosition(accepted, delivered, i);
    AtMostPosition(accepted, delivered, i);
  }

  lemma {:induction false} AtLeastPosition(accepted: seq<(nat, Payload)>, delivered: nat, i: nat)
    requires InOrder(accepted, delivered) && i < |accepted|
    ensures accepted[i].0 >= i + 1
  {
    if i > 0 {
      AtLeastPosition(accepted, delivered, i - 1);
    }
  }

  lemma {:induction false} AtMostPosition(accepted: seq<(nat, Payload)>, delivered: nat, i: nat)
    requires InOrder(accepted, delivered) && i < |accepted|
    ensures accepted[i].0 + (|accepted| - 1 - i) <= delivered
    decreases |accepted| - i
  {
    if i + 1 < |accepted| {
      AtMostPosition(accepted, delivered, i + 1);
    }
  }

  /**
   While nothing is evicted, drops, reconnects and fresh subscriptions are
   invisible: the client has exactly the log so far.
   */
  lemma ResumptionIsExact(maxCredit: U32, actions: seq<Action>)
    requires Appends(actions) <= U64_MAX && Evict !in actions
    ensures
      var s := Run(Start(maxCredit), actions);
      && |s.accepted| == s.delivered <= |s.log|
      && forall i :: 0 <= i < s.delivered ==> s.accepted[i] == (i + 1, s.log[i])
  {
    hide Run, Leads;
    assert Inv(Start(maxCredit)) && NothingLost(Start(maxCredit));
    RunLosesNothing(Start(maxCredit), actions);
    RunKeeps(Start(maxCredit), actions);
    var s := Run(Start(maxCredit), actions);
    forall i | 0 <= i < s.delivered
      ensures s.accepted[i] == (i + 1, s.log[i])
    {
      IncreasingFillsRange(s.accepted, s.delivered, i);
    }
  }
}
