/**
 The session codec as the program runs it: a cursor over received bytes, an
 output buffer, the length prefix used on TCP, and the incremental decoder.
 */
module SessionStream {
  import opened Results
  import opened Bytes
  import opened Streams
  import opened SessionFrames
  import F = SessionFrames

  /** What a cursor read agrees with the reading of the bytes that were ahead of it. */
  ghost predicate Agrees<T>(result: Result<T, CodecError>, rest: seq<Byte>,
                            reading: Result<(T, seq<Byte>), CodecError>) {
    match reading
    case Ok((value, after)) => result == Ok(value) && rest == after
    case Err(error) => result == Err(error)
  }

  class Reader {
    const bytes: seq<Byte>
    var at: nat

    ghost predicate Valid()
      reads this
    {
      at <= |bytes|
    }

    ghost function Rest(): seq<Byte>
      requires Valid()
      reads this
    {
      bytes[at..]
    }

    constructor (bytes: seq<Byte>)
      ensures Valid() && Rest() == bytes
    {
      this.bytes := bytes;
      at := 0;
    }

    method Take(n: nat) returns (r: Result<seq<Byte>, CodecError>)
      requires Valid()
      modifies this
      ensures Valid() && Agrees(r, Rest(), F.Take(old(Rest()), n))
    {
      var end := at + n;
      if end > |bytes| {
        return Err(Malformed);
      }
      r := Ok(bytes[at..end]);
      assert bytes[at..][..n] == bytes[at..end] && bytes[at..][n..] == bytes[end..];
      at := end;
    }

    method Byte() returns (r: Result<U8, CodecError>)
      requires Valid()
      modifies this
      ensures Valid() && Agrees(r, Rest(), TakeByte(old(Rest())))
    {
      var b :- Take(1);
      return Ok(b[0]);
    }

    method U16() returns (r: Result<U16, CodecError>)
      requires Valid()
      modifies this
      ensures Valid() && Agrees(r, Rest(), TakeU16(old(Rest())))
    {
      PowerValues();
      var b :- Take(2);
      FromBytesBound(b);
      return Ok(FromBytes(b));
    }

    method U32() returns (r: Result<U32, CodecError>)
      requires Valid()
      modifies this
      ensures Valid() && Agrees(r, Rest(), TakeU32(old(Rest())))
    {
      PowerValues();
      var b :- Take(4);
      FromBytesBound(b);
      return Ok(FromBytes(b));
    }

    method U64() returns (r: Result<U64, CodecError>)
      requires Valid()
      modifies this
      ensures Valid() && Agrees(r, Rest(), TakeU64(old(Rest())))
    {
      PowerValues();
      var b :- Take(8);
      FromBytesBound(b);
      return Ok(FromBytes(b));
    }

    method Bytes() returns (r: Result<seq<Byte>, CodecError>)
      requires Valid()
      modifies this
      ensures Valid() && Agrees(r, Rest(), TakeBytes(old(Rest())))
    {
      var length :- U32();
      r := Take(length);
    }

    method Text() returns (r: Result<string, CodecError>)
      requires Valid()
      modifies this
      ensures Valid() && Agrees(r, Rest(), TakeText(old(Rest())))
    {
      var raw :- Bytes();
      var text := DecodeUtf8(raw);
      return if text.Some? then Ok(text.value) else Err(Malformed);
    }

    method OptionalText() returns (r: Result<Option<string>, CodecError>)
      requires Valid()
      modifies this
      ensures Valid() && Agrees(r, Rest(), TakeOptionalText(old(Rest())))
    {
      hide TakeText;
      var flag :- Byte();
      if flag == 0 {
        return Ok(None);
      } else if flag == 1 {
        var text :- Text();
        return Ok(Some(text));
      }
      return Err(Malformed);
    }

    method Flag() returns (r: Result<bool, CodecError>)
      requires Valid()
      modifies this
      ensures Valid() && Agrees(r, Rest(), TakeFlag(old(Rest())))
    {
      var flag :- Byte();
      if flag == 0 {
        return Ok(false);
      } else if flag == 1 {
        return Ok(true);
      }
      return Err(Malformed);
    }

    method OptionalNumber() returns (r: Result<Option<U64>, CodecError>)
      requires Valid()
      modifies this
      ensures Valid() && Agrees(r, Rest(), TakeOptionalNumber(old(Rest())))
    {
      hide TakeU64;
      var flag :- Byte();
      if flag == 0 {
        return Ok(None);
      } else if flag == 1 {
        var n :- U64();
        return Ok(Some(n));
      }
      return Err(Malformed);
    }

    method Code() returns (r: Result<ErrorCode, CodecError>)
      requires Valid()
      modifies this
      ensures Valid() && Agrees(r, Rest(), TakeCode(old(Rest())))
    {
      var tag :- Byte();
      return CodeFromTag(tag);
    }

    method Fields(tag: U8) returns (r: Result<Frame, CodecError>)
      requires Valid()
      modifies this
      ensures Valid() && Agrees(r, Rest(), DecodeFields(tag, old(Rest())))
    {
      hide TakeU16, TakeU32, TakeU64, TakeText, TakeBytes, TakeOptionalText, TakeOptionalNumber, TakeCode, TakeFlag;
      if tag == 1 {
        var version :- U16();
        var resume :- OptionalText();
        return Ok(Hello(version, resume));
      } else if tag == 2 {
        var session :- Text();
        var resumed :- Flag();
        var heartbeat :- U32();
        return Ok(Welcome(session, resumed, heartbeat));
      } else if tag == 3 {
        var nonce :- U64();
        return Ok(Ping(nonce));
      } else if tag == 4 {
        var nonce :- U64();
        return Ok(Pong(nonce));
      } else if tag == 5 {
        var stream :- Text();
        var from :- U64();
        var credit :- U32();
        return Ok(Subscribe(stream, from, credit));
      } else if tag == 6 {
        var stream :- Text();
        return Ok(Unsubscribe(stream));
      } else if tag == 7 {
        var stream :- Text();
        var additional :- U32();
        return Ok(Credit(stream, additional));
      } else if tag == 8 {
        var stream :- Text();
        var sequence :- U64();
        var payload :- Bytes();
        return Ok(Event(stream, sequence, payload));
      } else if tag == 9 {
        var stream :- Text();
        var skippedTo :- U64();
        return Ok(Lagged(stream, skippedTo));
      } else if tag == 10 {
        var id :- U64();
        var verb :- Text();
        var payload :- Bytes();
        return Ok(Command(id, verb, payload));
      } else if tag == 11 {
        var id :- U64();
        var payload :- Bytes();
        return Ok(Ack(id, payload));
      } else if tag == 12 {
        var correlation :- OptionalNumber();
        var code :- Code();
        var message :- Text();
        return Ok(Error(correlation, code, message));
      } else if tag == 13 {
        var code :- Code();
        var message :- Text();
        return Ok(Close(code, message));
      }
      return Err(Malformed);
    }
  }

  method DecodeFrame(bytes: seq<Byte>) returns (r: Result<Frame, CodecError>)
    ensures r == Decode(bytes)
  {
    hide DecodeFields;
    var reader := new Reader(bytes);
    var tag :- reader.Byte();
    var frame :- reader.Fields(tag);
    if reader.at != |reader.bytes| {
      return Err(Malformed);
    }
    return Ok(frame);
  }

  lemma Appended(tag: seq<Byte>, a: seq<Byte>, b: seq<Byte>, c: seq<Byte>)
    ensures tag + a + b == tag + (a + b)
    ensures tag + a + b + c == tag + (a + (b + c))
  {
  }

  method EncodeFrame(f: Frame) returns (out: seq<Byte>)
    ensures out == Encode(f)
  {
    hide ToBytes, PutText, PutBytes, PutOptionalText, CodeTag, FrameTag;
    out := [FrameTag(f)];
    ghost var tag := out;
    match f
    case Hello(version, resume) =>
      out := out + ToBytes(version, 2);
      out := out + PutOptionalText(resume);
      Appended(tag, ToBytes(version, 2), PutOptionalText(resume), []);
    case Welcome(session, resumed, heartbeat) =>
      out := out + PutText(session);
      out := out + [if resumed then 1 else 0];
      out := out + ToBytes(heartbeat, 4);
      Appended(tag, PutText(session), [if resumed then 1 else 0], ToBytes(heartbeat, 4));
    case Ping(nonce) => out := out + ToBytes(nonce, 8);
    case Pong(nonce) => out := out + ToBytes(nonce, 8);
    case Subscribe(stream, from, credit) =>
      out := out + PutText(stream);
      out := out + ToBytes(from, 8);
      out := out + ToBytes(credit, 4);
      Appended(tag, PutText(stream), ToBytes(from, 8), ToBytes(credit, 4));
    case Unsubscribe(stream) => out := out + PutText(stream);
    case Credit(stream, additional) =>
      out := out + PutText(stream);
      out := out + ToBytes(additional, 4);
      Appended(tag, PutText(stream), ToBytes(additional, 4), []);
    case Event(stream, sequence, payload) =>
      out := out + PutText(stream);
      out := out + ToBytes(sequence, 8);
      out := out + PutBytes(payload);
      Appended(tag, PutText(stream), ToBytes(sequence, 8), PutBytes(payload));
    case Lagged(stream, skippedTo) =>
      out := out + PutText(stream);
      out := out + ToBytes(skippedTo, 8);
      Appended(tag, PutText(stream), ToBytes(skippedTo, 8), []);
    case Command(id, verb, payload) =>
      out := out + ToBytes(id, 8);
      out := out + PutText(verb);
      out := out + PutBytes(payload);
      Appended(tag, ToBytes(id, 8), PutText(verb), PutBytes(payload));
    case Ack(id, payload) =>
      out := out + ToBytes(id, 8);
      out := out + PutBytes(payload);
      Appended(tag, ToBytes(id, 8), PutBytes(payload), []);
    case Error(correlation, code, message) =>
      if correlation.Some? {
        out := out + [1];
        out := out + ToBytes(correlation.value, 8);
        Appended(tag, [1], ToBytes(correlation.value, 8), []);
      } else {
        out := out + [0];
      }
      assert out == tag + PutOptionalNumber(correlation);
      out := out + [CodeTag(code)];
      out := out + PutText(message);
      Appended(tag, PutOptionalNumber(correlation), [CodeTag(code)], PutText(message));
    case Close(code, message) =>
      out := out + [CodeTag(code)];
      out := out + PutText(message);
      Appended(tag, [CodeTag(code)], PutText(message), []);
  }

  // ------------------------------------------------------------------
  // The length prefix
  // ------------------------------------------------------------------

  function EncodeFramed(f: Frame): seq<Byte> {
    PutBytes(Encode(f))
  }

  function DecodeFramed(buffer: seq<Byte>): (r: Result<(Frame, nat), CodecError>)
    ensures r.Ok? ==> 4 <= r.value.1 <= |buffer|
  {
    if |buffer| < 4 then Err(Incomplete)
    else
      var declared := FromBytes(buffer[..4]);
      if declared > MAX_FRAME_BYTES then Err(TooLarge(declared))
      else if |buffer| < 4 + declared then Err(Incomplete)
      else
        var frame :- Decode(buffer[4..4 + declared]);
        Ok((frame, 4 + declared))
  }

  lemma SmallBodyFits(f: Frame)
    requires |Encode(f)| <= U32_MAX
    ensures Fits(f)
  {
    hide EncodeUtf8, ToBytes, CodeTag, FrameTag;
  }

  lemma PrefixReads(body: seq<Byte>, rest: seq<Byte>)
    ensures
      var b := PutBytes(body) + rest;
      && |b| >= 4
      && FromBytes(b[..4]) == (if |body| <= U32_MAX then |body| else U32_MAX)
      && b[4..] == body + rest
  {
    hide ToBytes, FromBytes;
    var declared := if |body| <= U32_MAX then |body| else U32_MAX;
    PowerValues();
    FromToBytes(declared, 4);
    assert (PutBytes(body) + rest)[..4] == ToBytes(declared, 4);
  }

  /**
   A framed frame is read back, whatever follows it, exactly when its body is
   within the limit: the encoder does not enforce the limit, the decoder does.
   */
  lemma FramedRoundTrip(f: Frame, rest: seq<Byte>)
    ensures DecodeFramed(EncodeFramed(f) + rest) == Ok((f, |EncodeFramed(f)|)) <==> |Encode(f)| <= MAX_FRAME_BYTES
    ensures |Encode(f)| > MAX_FRAME_BYTES ==>
      DecodeFramed(EncodeFramed(f) + rest) == Err(TooLarge(if |Encode(f)| <= U32_MAX then |Encode(f)| else U32_MAX))
  {
    hide Encode, Decode, FromBytes, ToBytes, Fits;
    var body := Encode(f);
    var b := EncodeFramed(f) + rest;
    PrefixReads(body, rest);
    if |body| <= MAX_FRAME_BYTES {
      SmallBodyFits(f);
      DecodeEncode(f);
      assert b[4..4 + |body|] == b[4..][..|body|] == body;
    }
  }

  /** A frame that is encoded although it is too large to be read back. */
  lemma OversizeFrameIsEncoded()
    ensures
      var f := Ack(0, seq<Byte>(MAX_FRAME_BYTES, _ => 0));
      DecodeFramed(EncodeFramed(f)) == Err(TooLarge(MAX_FRAME_BYTES + 13))
  {
    hide Decode, FromBytes, ToBytes;
    var f := Ack(0, seq<Byte>(MAX_FRAME_BYTES, _ => 0));
    FramedRoundTrip(f, []);
    assert EncodeFramed(f) + [] == EncodeFramed(f);
  }

  // ------------------------------------------------------------------
  // The incremental decoder
  // ------------------------------------------------------------------

  function NextStep(buffer: seq<Byte>): Step<Frame, CodecError> {
    match DecodeFramed(buffer)
    case Ok((frame, consumed)) => Yield(frame, consumed)
    case Err(Incomplete) => Wait
    case Err(error) => Fail(error)
  }

  lemma NextStepIsIncremental()
    ensures Incremental(NextStep)
  {
    hide Decode, FromBytes;
    forall b: seq<Byte>, c: seq<Byte> | !NextStep(b).Wait?
      ensures NextStep(b + c) == NextStep(b)
    {
      assert |b| >= 4 && (b + c)[..4] == b[..4];
      var declared := FromBytes(b[..4]);
      if declared <= MAX_FRAME_BYTES {
        if |b| >= 4 + declared {
          assert (b + c)[4..4 + declared] == b[4..4 + declared];
        }
      }
    }
  }

  /**
   What the decoder makes of its buffer: too large as soon as the header says
   so, whatever has arrived of the body; waiting exactly while the body is short;
   then the frame that is encoded as the body, or the fatal error if there is none.
   */
  lemma StepExactly(b: seq<Byte>)
    ensures |b| < 4 ==> NextStep(b) == Wait
    ensures |b| >= 4 ==>
      var declared := Header(b);
      && (NextStep(b) == Fail(TooLarge(declared)) <==> declared > 1_048_576)
      && (NextStep(b) == Wait <==> declared <= 1_048_576 && |b| < 4 + declared)
      && (declared <= 1_048_576 && |b| >= 4 + declared ==>
            && (forall f: Frame, used: nat ::
                  NextStep(b) == Yield(f, used) <==> used == 4 + declared && Encode(f) == b[4..4 + declared])
            && (NextStep(b) == Fail(Malformed) <==> forall f: Frame :: Encode(f) != b[4..4 + declared]))
  {
    hide Decode, Encode, FromBytes, Fits;
    if |b| >= 4 {
      FourBytes(b);
      var declared := FromBytes(b[..4]);
      if declared <= MAX_FRAME_BYTES && |b| >= 4 + declared {
        BodyExactly(b[4..4 + declared]);
      }
    }
  }

  lemma BodyExactly(body: seq<Byte>)
    requires |body| <= MAX_FRAME_BYTES
    ensures forall f: Frame :: Decode(body) == Ok(f) <==> Encode(f) == body
    ensures Decode(body).Err? ==> Decode(body) == Err(Malformed)
  {
    hide DecodeFields, EncodeFields, Fits;
    if Decode(body).Ok? {
      EncodeDecode(body);
    }
    forall f: Frame | Encode(f) == body
      ensures Decode(body) == Ok(f)
    {
      SmallBodyFits(f);
      DecodeEncode(f);
    }
  }

  /** The body of one byte that is no frame's tag is an error, not a reason to wait. */
  lemma UnknownTagIsFatal(rest: seq<Byte>)
    ensures NextStep([0, 0, 0, 1, 255] + rest) == Fail(Malformed)
  {
    hide Encode;
    var b := [0, 0, 0, 1, 255] + rest;
    StepExactly(b);
    assert b[4..5] == [255];
    forall f: Frame
      ensures Encode(f) != [255]
    {
      TagIsKnown(f);
    }
  }

  lemma TagIsKnown(f: Frame)
    ensures |Encode(f)| > 0 && 1 <= Encode(f)[0] <= 13
  {
    hide EncodeFields;
  }

  class FrameDecoder {
    var buffer: seq<Byte>

    constructor ()
      ensures buffer == []
    {
      buffer := [];
    }

    method Feed(bytes: seq<Byte>)
      modifies this
      ensures buffer == old(buffer) + bytes
    {
      buffer := buffer + bytes;
    }

    method NextFrame() returns (r: Result<Option<Frame>, CodecError>)
      modifies this
      ensures match NextStep(old(buffer))
              case Wait => r == Ok(None) && buffer == old(buffer)
              case Fail(error) => r == Err(error) && buffer == old(buffer)
              case Yield(frame, used) => used <= |old(buffer)| && r == Ok(Some(frame)) && buffer == old(buffer)[used..]
    {
      var decoded := DecodeFramed(buffer);
      match decoded
      case Ok((frame, consumed)) =>
        buffer := buffer[consumed..];
        return Ok(Some(frame));
      case Err(error) =>
        if error == Incomplete {
          return Ok(None);
        }
        return Err(error);
    }
  }

  /** Feed chunks as they arrive, pulling whole frames out after each. */
  method Pump(decoder: FrameDecoder, chunks: seq<seq<Byte>>) returns (frames: seq<Frame>, failure: Option<CodecError>)
    requires decoder.buffer == []
    modifies decoder
    ensures Incremental(NextStep)
    ensures Drained(frames, decoder.buffer, failure) == Drain(NextStep, Flatten(chunks))
  {
    hide NextStep;
    frames, failure := [], None;
    NextStepIsIncremental();
    StartEmpty();
    for i := 0 to |chunks|
      invariant Drained(frames, decoder.buffer, failure) == Drain(NextStep, Flatten(chunks[..i]))
    {
      assert chunks[..i + 1][..i] == chunks[..i];
      DrainMore(NextStep, Flatten(chunks[..i]), chunks[i]);
      decoder.Feed(chunks[i]);
      ghost var before, target := frames, Drain(NextStep, Flatten(chunks[..i + 1]));
      if failure.Some? {
        continue;
      }
      var more := true;
      while more
        invariant failure.None? || !more
        invariant more ==> target == Prepend(frames, Drain(NextStep, decoder.buffer))
        invariant !more ==> target == Drained(frames, decoder.buffer, failure)
        decreases more, |decoder.buffer|
      {
        ghost var held := decoder.buffer;
        var pulled := decoder.NextFrame();
        match pulled
        case Ok(Some(frame)) =>
          PrependTwice(frames, [frame], Drain(NextStep, decoder.buffer));
          frames := frames + [frame];
        case Ok(None) =>
          more := false;
          assert frames + [] == frames;
        case Err(error) =>
          failure := Some(error);
          more := false;
          assert frames + [] == frames;
      }
    }
    assert chunks[..|chunks|] == chunks;
  }

  lemma StartEmpty()
    requires Incremental(NextStep)
    ensures Drain(NextStep, []) == Drained([], [], None)
  {
  }

  function Wire(frames: seq<Frame>): seq<Byte> {
    if |frames| == 0 then [] else EncodeFramed(frames[0]) + Wire(frames[1..])
  }

  /** Frames within the limit come out whole and in order, and an unfinished tail is retained. */
  lemma {:induction false} WireDrains(frames: seq<Frame>, tail: seq<Byte>)
    requires forall k :: 0 <= k < |frames| ==> |Encode(frames[k])| <= MAX_FRAME_BYTES
    requires NextStep(tail).Wait?
    ensures Incremental(NextStep)
    ensures Drain(NextStep, Wire(frames) + tail) == Drained(frames, tail, None)
  {
    hide Encode, DecodeFramed, EncodeFramed, Incremental;
    NextStepIsIncremental();
    if |frames| == 0 {
      assert Wire(frames) + tail == tail;
    } else {
      var first, rest := EncodeFramed(frames[0]), Wire(frames[1..]) + tail;
      WireDrains(frames[1..], tail);
      FramedRoundTrip(frames[0], rest);
      assert Wire(frames) + tail == first + rest;
      assert (first + rest)[|first|..] == rest;
      assert [frames[0]] + frames[1..] == frames;
    }
  }

  /** So any cutting of the wire delivers exactly the frames that were sent. */
  lemma ChunkedWire(frames: seq<Frame>, tail: seq<Byte>, chunks: seq<seq<Byte>>)
    requires forall k :: 0 <= k < |frames| ==> |Encode(frames[k])| <= MAX_FRAME_BYTES
    requires NextStep(tail).Wait?
    requires Flatten(chunks) == Wire(frames) + tail
    ensures Incremental(NextStep)
    ensures ReceiveAll(NextStep, Drained([], [], None), chunks) == Drained(frames, tail, None)
  {
    hide Incremental, NextStep;
    WireDrains(frames, tail);
    StartEmpty();
    ChunkingIsInvisible(NextStep, chunks);
  }

  /** Any proper prefix of a frame within the limit is an unfinished tail. */
  lemma ProperPrefixWaits(f: Frame, cut: nat)
    requires |Encode(f)| <= MAX_FRAME_BYTES && cut < |EncodeFramed(f)|
    ensures NextStep(EncodeFramed(f)[..cut]).Wait?
  {
    hide Encode, Decode, FromBytes, ToBytes;
    PrefixReads(Encode(f), []);
    assert EncodeFramed(f) + [] == EncodeFramed(f);
    if cut >= 4 {
      assert EncodeFramed(f)[..cut][..4] == EncodeFramed(f)[..4];
    }
  }
}
