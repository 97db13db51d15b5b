/**
 The length-prefixed framing of the TCP avenue, in both of its
 implementations. Each decoder is proved to be the same small machine, which
 closes for good at its first bad header.
 */
module LengthPrefix {
  import opened Results
  import opened Bytes
  import opened Streams

  datatype ProtocolError = FrameTooLarge(declared: nat, limit: nat) | EmptyFrame | NotUtf8

  const HEADER_BYTES: nat := 4

  type Payload = seq<Byte>

  // ------------------------------------------------------------------
  // The machine
  // ------------------------------------------------------------------

  function PayloadStep(limit: nat, b: seq<Byte>): Step<Payload, ProtocolError> {
    if |b| < HEADER_BYTES then Wait
    else
      var declared := FromBytes(b[..HEADER_BYTES]);
      if declared == 0 then Fail(EmptyFrame)
      else if declared > limit then Fail(FrameTooLarge(declared, limit))
      else if |b| < HEADER_BYTES + declared then Wait
      else Yield(b[HEADER_BYTES..HEADER_BYTES + declared], HEADER_BYTES + declared)
  }

  datatype Machine = Machine(buffer: seq<Byte>, limit: nat, poisoned: bool)

  function AfterFeed(m: Machine, chunk: seq<Byte>): Machine {
    if m.poisoned then m else m.(buffer := m.buffer + chunk)
  }

  function AfterNext(m: Machine): (Machine, Result<Option<Payload>, ProtocolError>) {
    if m.poisoned then (m, Ok(None))
    else match PayloadStep(m.limit, m.buffer)
      case Wait => (m, Ok(None))
      case Fail(error) => (m.(poisoned := true), Err(error))
      case Yield(payload, used) =>
        (if used <= |m.buffer| then m.(buffer := m.buffer[used..]) else m, Ok(Some(payload)))
  }

  // ------------------------------------------------------------------
  // The Rust decoder
  // ------------------------------------------------------------------

  class Decoder {
    var buffer: seq<Byte>
    const limit: nat
    var poisoned: bool

    ghost function State(): Machine
      reads this
    {
      Machine(buffer, limit, poisoned)
    }

    constructor WithLimit(limit: nat)
      ensures State() == Machine([], limit, false)
    {
      buffer := [];
      this.limit := limit;
      poisoned := false;
    }

    method FeedChunk(chunk: seq<Byte>)
      modifies this
      ensures State() == AfterFeed(old(State()), chunk)
    {
      if !poisoned {
        buffer := buffer + chunk;
      }
    }

    method NextFrame() returns (r: Result<Option<Payload>, ProtocolError>)
      modifies this
      ensures (State(), r) == AfterNext(old(State()))
    {
      if poisoned || |buffer| < HEADER_BYTES {
        return Ok(None);
      }
      var declared := FromBytes(buffer[..HEADER_BYTES]);
      if declared == 0 {
        poisoned := true;
        return Err(EmptyFrame);
      }
      if declared > limit {
        poisoned := true;
        return Err(FrameTooLarge(declared, limit));
      }
      if |buffer| < HEADER_BYTES + declared {
        return Ok(None);
      }
      var payload := buffer[HEADER_BYTES..HEADER_BYTES + declared];
      buffer := buffer[HEADER_BYTES + declared..];
      return Ok(Some(payload));
    }

    /** A payload that is not UTF-8 poisons the decoder as well. */
    method NextText() returns (r: Result<Option<string>, ProtocolError>)
      modifies this
      ensures
        var (m, pulled) := AfterNext(old(State()));
        match pulled
        case Err(error) => r == Err(error) && State() == m
        case Ok(None) => r == Ok(None) && State() == m
        case Ok(Some(payload)) =>
          (match DecodeUtf8(payload)
           case Some(text) => r == Ok(Some(text)) && State() == m
           case None => r == Err(NotUtf8) && State() == m.(poisoned := true))
    {
      var pulled :- NextFrame();
      if pulled.None? {
        return Ok(None);
      }
      var text := DecodeUtf8(pulled.value);
      if text.Some? {
        return Ok(Some(text.value));
      }
      poisoned := true;
      return Err(NotUtf8);
    }
  }

  // ------------------------------------------------------------------
  // The TypeScript decoder
  // ------------------------------------------------------------------

  class ScriptDecoder {
    var buffer: array<Byte>
    const limit: nat
    var poisoned: bool

    ghost function State(): Machine
      reads this, buffer
    {
      Machine(buffer[..], limit, poisoned)
    }

    constructor (limit: nat)
      ensures State() == Machine([], limit, false)
      ensures fresh(buffer)
    {
      buffer := new Byte[0];
      this.limit := limit;
      poisoned := false;
    }

    method FeedChunk(chunk: array<Byte>)
      modifies this
      ensures State() == AfterFeed(old(State()), chunk[..])
    {
      if poisoned {
        return;
      }
      var held := buffer.Length;
      var next := new Byte[held + chunk.Length](i requires 0 <= i < held + chunk.Length reads this, buffer, chunk
                                                 requires held == buffer.Length
                                                 => if i < held then buffer[i] else chunk[i - held]);
      buffer := next;
      assert buffer[..] == old(buffer[..]) + chunk[..];
    }

    method Next() returns (r: Result<Option<Payload>, ProtocolError>)
      modifies this
      ensures (State(), r) == AfterNext(old(State()))
    {
      if poisoned || buffer.Length < HEADER_BYTES {
        return Ok(None);
      }
      var declared := FromBytes(buffer[..HEADER_BYTES]);
      assert buffer[..][..HEADER_BYTES] == buffer[..HEADER_BYTES];
      if declared == 0 {
        poisoned := true;
        return Err(EmptyFrame);
      }
      if declared > limit {
        poisoned := true;
        return Err(FrameTooLarge(declared, limit));
      }
      if buffer.Length < HEADER_BYTES + declared {
        return Ok(None);
      }
      var end := HEADER_BYTES + declared;
      var payload := buffer[HEADER_BYTES..end];
      var rest := new Byte[buffer.Length - end](i requires 0 <= i < buffer.Length - end reads this, buffer
                                                => buffer[end + i]);
      assert payload == buffer[..][HEADER_BYTES..end];
      assert rest[..] == buffer[..][end..];
      buffer := rest;
      return Ok(Some(payload));
    }
  }

  // ------------------------------------------------------------------
  // The two decoders have the same trace
  // ------------------------------------------------------------------

  datatype Operation = FeedOp(chunk: seq<Byte>) | NextOp

  type Trace = seq<Result<Option<Payload>, ProtocolError>>

  /** The machine after `operations`, and what the pulls among them returned. */
  ghost function Play(m: Machine, operations: seq<Operation>): (Machine, Trace) {
    if |operations| == 0 then (m, [])
    else
      var (m', trace) := Play(m, operations[..|operations| - 1]);
      match operations[|operations| - 1]
      case FeedOp(chunk) => (AfterFeed(m', chunk), trace)
      case NextOp => (AfterNext(m').0, trace + [AfterNext(m').1])
  }

  method Lockstep(rust: Decoder, script: ScriptDecoder, operations: seq<Operation>)
    returns (trace: Trace, scriptTrace: Trace)
    requires rust.State() == script.State()
    modifies rust, script
    ensures trace == scriptTrace
    ensures rust.State() == script.State()
    ensures (rust.State(), trace) == Play(old(rust.State()), operations)
  {
    hide AfterFeed, AfterNext;
    trace, scriptTrace := [], [];
    for i := 0 to |operations|
      invariant trace == scriptTrace && rust.State() == script.State()
      invariant (rust.State(), trace) == Play(old(rust.State()), operations[..i])
    {
      assert operations[..i + 1][..i] == operations[..i];
      match operations[i]
      case FeedOp(chunk) =>
        var bytes := new Byte[|chunk|](k requires 0 <= k < |chunk| => chunk[k]);
        assert bytes[..] == chunk;
        rust.FeedChunk(chunk);
        script.FeedChunk(bytes);
      case NextOp =>
        var a := rust.NextFrame();
        var b := script.Next();
        trace, scriptTrace := trace + [a], scriptTrace + [b];
    }
    assert operations[..|operations|] == operations;
  }

  // ------------------------------------------------------------------
  // Chunking and poisoning
  // ------------------------------------------------------------------

  function StepWith(limit: nat): seq<Byte> -> Step<Payload, ProtocolError> {
    b => PayloadStep(limit, b)
  }

  lemma StepIsIncremental(limit: nat)
    ensures Incremental(StepWith(limit))
  {
    hide FromBytes;
    var step := StepWith(limit);
    forall b: seq<Byte>, c: seq<Byte> | !step(b).Wait?
      ensures step(b + c) == step(b)
    {
      assert |b| >= 4 && (b + c)[..4] == b[..4];
      var declared := FromBytes(b[..4]);
      if |b| >= 4 + declared {
        assert (b + c)[4..4 + declared] == b[4..4 + declared];
      }
    }
  }

  lemma PoisonedIsSilent(m: Machine, chunk: seq<Byte>)
    ensures !m.poisoned ==> (AfterNext(m).1.Err? <==> AfterNext(m).0.poisoned) && !AfterFeed(m, chunk).poisoned
    ensures m.poisoned ==> AfterNext(m) == (m, Ok(None)) && AfterFeed(m, chunk) == m
  {
  }

  ghost predicate Fails(trace: Trace) {
    exists i :: 0 <= i < |trace| && trace[i].Err?
  }

  /**
   In any run of feeds and pulls a failure is reported once, by the pull that
   poisons the machine; every later pull yields nothing.
   */
  lemma {:induction false} FailureIsReportedOnce(m: Machine, operations: seq<Operation>)
    requires !m.poisoned
    ensures
      var (m', trace) := Play(m, operations);
      && (m'.poisoned <==> Fails(trace))
      && forall i, j :: 0 <= i < j < |trace| && trace[i].Err? ==> trace[j] == Ok(None)
    decreases |operations|
  {
    hide AfterFeed, AfterNext;
    if |operations| > 0 {
      var last := operations[|operations| - 1];
      var (m', trace) := Play(m, operations[..|operations| - 1]);
      FailureIsReportedOnce(m, operations[..|operations| - 1]);
      PoisonedIsSilent(m', if last.FeedOp? then last.chunk else []);
      if last.NextOp? {
        assert (trace + [AfterNext(m').1])[|trace|] == AfterNext(m').1;
        assert forall i :: 0 <= i < |trace| ==> (trace + [AfterNext(m').1])[i] == trace[i];
      }
    }
  }

  /** Once poisoned, no run of feeds and pulls changes anything or yields anything. */
  lemma {:induction false} PoisonedStaysSilent(m: Machine, operations: seq<Operation>)
    requires m.poisoned
    ensures
      var (m', trace) := Play(m, operations);
      m' == m && forall i :: 0 <= i < |trace| ==> trace[i] == Ok(None)
    decreases |operations|
  {
    hide AfterFeed, AfterNext;
    if |operations| > 0 {
      PoisonedStaysSilent(m, operations[..|operations| - 1]);
      PoisonedIsSilent(m, match operations[|operations| - 1] case FeedOp(chunk) => chunk case NextOp => []);
    }
  }

  /** What a machine has produced so far, and the machine itself. */
  datatype Progress = Progress(payloads: seq<Payload>, failure: Option<ProtocolError>, machine: Machine)

  /** Pull until nothing more comes or the machine fails. */
  ghost function PullAll(m: Machine): Progress
    decreases |m.buffer|
  {
    match AfterNext(m)
    case (m', Ok(Some(payload))) =>
      if |m'.buffer| < |m.buffer| then
        var p := PullAll(m');
        Progress([payload] + p.payloads, p.failure, p.machine)
      else Progress([payload], None, m')
    case (m', Ok(None)) => Progress([], None, m')
    case (m', Err(error)) => Progress([], Some(error), m')
  }

  ghost function Absorb(p: Progress, chunk: seq<Byte>): Progress {
    var q := PullAll(AfterFeed(p.machine, chunk));
    Progress(p.payloads + q.payloads, if p.failure.Some? then p.failure else q.failure, q.machine)
  }

  ghost function AbsorbAll(p: Progress, chunks: seq<seq<Byte>>): Progress {
    if |chunks| == 0 then p else Absorb(AbsorbAll(p, chunks[..|chunks| - 1]), chunks[|chunks| - 1])
  }

  /** The machine's progress agrees with the stream reading of the same bytes. */
  ghost predicate Reflects(p: Progress, limit: nat, d: Drained<Payload, ProtocolError>) {
    && p.payloads == d.items
    && p.failure == d.error
    && p.machine.limit == limit
    && p.machine.poisoned == d.error.Some?
    && (d.error.None? ==> p.machine.buffer == d.rest)
  }

  lemma {:induction false} PullAllDrains(m: Machine)
    requires !m.poisoned
    ensures Incremental(StepWith(m.limit))
    ensures Reflects(PullAll(m), m.limit, Drain(StepWith(m.limit), m.buffer))
    decreases |m.buffer|
  {
    hide PayloadStep, Incremental;
    StepIsIncremental(m.limit);
    UsedIsPositive(m.limit, m.buffer);
    match PayloadStep(m.limit, m.buffer)
    case Yield(payload, used) => PullAllDrains(AfterNext(m).0);
    case _ =>
  }

  lemma UsedIsPositive(limit: nat, b: seq<Byte>)
    ensures PayloadStep(limit, b).Yield? ==> 0 < PayloadStep(limit, b).used <= |b|
  {
  }

  /** Whatever the chunks, the machine delivers the payloads of the whole stream and its first failure. */
  lemma {:induction false} AbsorbedIsDrained(limit: nat, chunks: seq<seq<Byte>>)
    ensures Incremental(StepWith(limit))
    ensures Reflects(AbsorbAll(Progress([], None, Machine([], limit, false)), chunks), limit,
                     Drain(StepWith(limit), Flatten(chunks)))
  {
    hide Incremental, PayloadStep;
    StepIsIncremental(limit);
    if |chunks| == 0 {
      NothingArrived(limit);
    } else {
      var before, last := chunks[..|chunks| - 1], chunks[|chunks| - 1];
      AbsorbedIsDrained(limit, before);
      var p := AbsorbAll(Progress([], None, Machine([], limit, false)), before);
      DrainMore(StepWith(limit), Flatten(before), last);
      if p.machine.poisoned {
        assert p.payloads + [] == p.payloads;
      } else {
        PullAllDrains(AfterFeed(p.machine, last));
      }
    }
  }

  lemma NothingArrived(limit: nat)
    requires Incremental(StepWith(limit))
    ensures Drain(StepWith(limit), []) == Drained([], [], None)
  {
  }

  // ------------------------------------------------------------------
  // The encoders
  // ------------------------------------------------------------------

  /** What `encode_with_limit` answers. */
  function Encoded(payload: Payload, limit: nat): Result<seq<Byte>, ProtocolError> {
    if |payload| == 0 then Err(EmptyFrame)
    else if |payload| > limit then Err(FrameTooLarge(|payload|, limit))
    else if |payload| > U32_MAX then Err(FrameTooLarge(|payload|, limit))
    else Ok(ToBytes(|payload|, 4) + payload)
  }

  method EncodeWithLimit(payload: Payload, limit: nat) returns (r: Result<seq<Byte>, ProtocolError>)
    ensures r == Encoded(payload, limit)
  {
    if |payload| == 0 {
      return Err(EmptyFrame);
    }
    if |payload| > limit {
      return Err(FrameTooLarge(|payload|, limit));
    }
    var out: seq<Byte> := [];
    if |payload| > U32_MAX {
      return Err(FrameTooLarge(|payload|, limit));
    }
    out := out + ToBytes(|payload|, 4);
    out := out + payload;
    assert out == ToBytes(|payload|, 4) + payload;
    return Ok(out);
  }

  /** The TypeScript encoder writes the length modulo 2^32 and has no 32-bit check. */
  function ScriptEncoded(payload: Payload, limit: nat): Result<seq<Byte>, ProtocolError> {
    if |payload| == 0 then Err(EmptyFrame)
    else if |payload| > limit then Err(FrameTooLarge(|payload|, limit))
    else Ok(ToBytes(|payload| % 0x1_0000_0000, 4) + payload)
  }

  method EncodeScriptFrame(payload: array<Byte>, limit: nat) returns (r: Result<array<Byte>, ProtocolError>)
    ensures match ScriptEncoded(payload[..], limit)
            case Err(error) => r == Err(error)
            case Ok(bytes) => r.Ok? && r.value[..] == bytes
  {
    if payload.Length == 0 {
      return Err(EmptyFrame);
    }
    if payload.Length > limit {
      return Err(FrameTooLarge(payload.Length, limit));
    }
    var header := ToBytes(payload.Length % 0x1_0000_0000, 4);
    var out := new Byte[HEADER_BYTES + payload.Length](_ => 0);
    for i := 0 to HEADER_BYTES
      invariant forall k :: 0 <= k < i ==> out[k] == header[k]
    {
      out[i] := header[i];
    }
    for i := 0 to payload.Length
      invariant forall k :: 0 <= k < HEADER_BYTES ==> out[k] == header[k]
      invariant forall k :: 0 <= k < i ==> out[HEADER_BYTES + k] == payload[k]
    {
      out[HEADER_BYTES + i] := payload[i];
    }
    assert out[..] == header + payload[..];
    return Ok(out);
  }

  /** What the encoder accepts, the decoder with the same limit reads back. */
  lemma EncodedReadsBack(payload: Payload, limit: nat, rest: seq<Byte>)
    requires Encoded(payload, limit).Ok?
    ensures
      var wire := Encoded(payload, limit).value;
      PayloadStep(limit, wire + rest) == Yield(payload, |wire|)
  {
    hide FromBytes, ToBytes;
    PowerValues();
    FromToBytes(|payload|, 4);
    var wire := Encoded(payload, limit).value;
    assert (wire + rest)[..4] == ToBytes(|payload|, 4);
    assert (wire + rest)[4..4 + |payload|] == payload;
  }

  /** The two encoders differ exactly on payloads past 32 bits that the limit admits. */
  lemma EncodersAgree(payload: Payload, limit: nat)
    ensures Encoded(payload, limit) == ScriptEncoded(payload, limit) <==> !(U32_MAX < |payload| <= limit)
  {
    hide ToBytes;
  }

  /** A payload one past 32 bits: one encoder refuses it, the other writes a length of zero. */
  lemma EncodersDiffer()
    ensures
      var payload := seq<Byte>(U32_MAX + 1, _ => 0);
      && Encoded(payload, |payload|).Err?
      && ScriptEncoded(payload, |payload|) == Ok(ToBytes(0, 4) + payload)
  {
  }

  /** What the encoder refuses, and what it writes. */
  lemma EncodedExactly(payload: Payload, limit: nat)
    ensures Encoded(payload, limit) == Err(EmptyFrame) <==> payload == []
    ensures Encoded(payload, limit) == Err(FrameTooLarge(|payload|, limit)) <==>
            |payload| > 0 && (|payload| > limit || |payload| > 0xFFFF_FFFF)
    ensures forall wire: seq<Byte> :: Encoded(payload, limit) == Ok(wire) <==>
              && 0 < |payload| <= limit && |wire| == 4 + |payload|
              && Header(wire) == |payload| && wire[4..] == payload
  {
    hide ToBytes, FromBytes;
    PowerValues();
    forall wire: seq<Byte> | Encoded(payload, limit) == Ok(wire)
      ensures Header(wire) == |payload|
    {
      FourBytes(wire);
      FromToBytes(|payload|, 4);
      assert wire[..4] == ToBytes(|payload|, 4);
    }
    forall wire: seq<Byte> | 0 < |payload| <= limit && |wire| == 4 + |payload| && Header(wire) == |payload|
                             && wire[4..] == payload
      ensures Encoded(payload, limit) == Ok(wire)
    {
      FourBytes(wire);
      ToFromBytes(wire[..4]);
      FromBytesBound(wire[..4]);
      assert wire == wire[..4] + wire[4..];
    }
  }

  /**
   What the machine makes of its buffer: an empty or too large header fails as
   soon as it is there; then the machine waits exactly while the payload is
   short, and yields what the encoder would have written.
   */
  lemma StepExactly(limit: nat, b: seq<Byte>)
    ensures |b| < 4 ==> PayloadStep(limit, b) == Wait
    ensures |b| >= 4 ==>
      var declared := Header(b);
      && (PayloadStep(limit, b) == Fail(EmptyFrame) <==> declared == 0)
      && (PayloadStep(limit, b) == Fail(FrameTooLarge(declared, limit)) <==> declared > limit)
      && (PayloadStep(limit, b) == Wait <==> 0 < declared <= limit && |b| < 4 + declared)
      && (forall payload: Payload, used: nat ::
            PayloadStep(limit, b) == Yield(payload, used) <==>
            used <= |b| && Encoded(payload, limit) == Ok(b[..used]))
  {
    hide FromBytes, ToBytes;
    if |b| >= 4 {
      FourBytes(b);
      forall payload: Payload, used: nat
        ensures PayloadStep(limit, b) == Yield(payload, used) <==>
                used <= |b| && Encoded(payload, limit) == Ok(b[..used])
      {
        YieldExactly(limit, b, payload, used);
      }
    }
  }

  lemma YieldExactly(limit: nat, b: seq<Byte>, payload: Payload, used: nat)
    requires |b| >= 4
    ensures PayloadStep(limit, b) == Yield(payload, used) <==>
            used <= |b| && Encoded(payload, limit) == Ok(b[..used])
  {
    hide FromBytes, ToBytes;
    FourBytes(b);
    EncodedExactly(payload, limit);
    if used <= |b| {
      var wire := b[..used];
      assert used >= 4 ==> Header(wire) == Header(b) && wire[4..] == b[4..used];
    }
  }

  // ------------------------------------------------------------------
  // Many payloads on one wire
  // ------------------------------------------------------------------

  ghost predicate AllEncode(payloads: seq<Payload>, limit: nat) {
    forall k :: 0 <= k < |payloads| ==> Encoded(payloads[k], limit).Ok?
  }

  function Wire(payloads: seq<Payload>, limit: nat): seq<Byte>
    requires AllEncode(payloads, limit)
  {
    if |payloads| == 0 then [] else Encoded(payloads[0], limit).value + Wire(payloads[1..], limit)
  }

  /** Accepted payloads come out whole and in order, and an unfinished tail is retained. */
  lemma {:induction false} WireDrains(payloads: seq<Payload>, limit: nat, tail: seq<Byte>)
    requires AllEncode(payloads, limit) && PayloadStep(limit, tail).Wait?
    ensures Incremental(StepWith(limit))
    ensures Drain(StepWith(limit), Wire(payloads, limit) + tail) == Drained(payloads, tail, None)
  {
    hide PayloadStep, Encoded, Incremental;
    StepIsIncremental(limit);
    if |payloads| == 0 {
      assert Wire(payloads, limit) + tail == tail;
    } else {
      var first, rest := Encoded(payloads[0], limit).value, Wire(payloads[1..], limit) + tail;
      WireDrains(payloads[1..], limit, tail);
      EncodedReadsBack(payloads[0], limit, rest);
      assert Wire(payloads, limit) + tail == first + rest;
      assert (first + rest)[|first|..] == rest;
      assert [payloads[0]] + payloads[1..] == payloads;
    }
  }

  /** So any cutting of the wire delivers exactly the payloads sent, and leaves the machine open on the tail. */
  lemma ChunkedWire(payloads: seq<Payload>, limit: nat, tail: seq<Byte>, chunks: seq<seq<Byte>>)
    requires AllEncode(payloads, limit) && PayloadStep(limit, tail).Wait?
    requires Flatten(chunks) == Wire(payloads, limit) + tail
    ensures AbsorbAll(Progress([], None, Machine([], limit, false)), chunks)
         == Progress(payloads, None, Machine(tail, limit, false))
  {
    hide Incremental, PayloadStep, Wire, AbsorbAll;
    WireDrains(payloads, limit, tail);
    AbsorbedIsDrained(limit, chunks);
  }
}
