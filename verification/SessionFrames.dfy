/**
 The session protocol's frames and their binary form: thirteen kinds, each a
 tag byte followed by its fields. Encoding and decoding are inverse to each
 other on everything a 32-bit length can carry.
 */
module SessionFrames {
  import opened Results
  import opened Bytes

  datatype ErrorCode =
    | UnsupportedVersion | Unauthorized | Forbidden | Protocol | RateLimited
    | NotFound | GoingAway | Timeout | Internal

  datatype Frame =
    | Hello(version: U16, resume: Option<string>)
    | Welcome(session: string, resumed: bool, heartbeatSeconds: U32)
    | Ping(nonce: U64)
    | Pong(nonce: U64)
    | Subscribe(stream: string, from: U64, credit: U32)
    | Unsubscribe(stream: string)
    | Credit(stream: string, additional: U32)
    | Event(stream: string, sequence: U64, payload: seq<Byte>)
    | Lagged(stream: string, skippedTo: U64)
    | Command(id: U64, verb: string, payload: seq<Byte>)
    | Ack(id: U64, payload: seq<Byte>)
    | Error(correlation: Option<U64>, code: ErrorCode, message: string)
    | Close(code: ErrorCode, message: string)

  datatype CodecError = Incomplete | TooLarge(declared: nat) | Malformed

  const MAX_FRAME_BYTES: nat := 1024 * 1024

  function CodeTag(code: ErrorCode): U8 {
    match code
    case UnsupportedVersion => 1
    case Unauthorized => 2
    case Forbidden => 3
    case Protocol => 4
    case RateLimited => 5
    case NotFound => 6
    case GoingAway => 7
    case Timeout => 8
    case Internal => 9
  }

  function CodeFromTag(tag: U8): (r: Result<ErrorCode, CodecError>)
    ensures r.Err? ==> r.error == Malformed
  {
    match tag
    case 1 => Ok(UnsupportedVersion)
    case 2 => Ok(Unauthorized)
    case 3 => Ok(Forbidden)
    case 4 => Ok(Protocol)
    case 5 => Ok(RateLimited)
    case 6 => Ok(NotFound)
    case 7 => Ok(GoingAway)
    case 8 => Ok(Timeout)
    case 9 => Ok(Internal)
    case _ => Err(Malformed)
  }

  function FrameTag(f: Frame): U8 {
    match f
    case Hello(_, _) => 1
    case Welcome(_, _, _) => 2
    case Ping(_) => 3
    case Pong(_) => 4
    case Subscribe(_, _, _) => 5
    case Unsubscribe(_) => 6
    case Credit(_, _) => 7
    case Event(_, _, _) => 8
    case Lagged(_, _) => 9
    case Command(_, _, _) => 10
    case Ack(_, _) => 11
    case Error(_, _, _) => 12
    case Close(_, _) => 13
  }

  // ------------------------------------------------------------------
  // Writing fields
  // ------------------------------------------------------------------

  /** A length beyond 32 bits is written as the largest 32-bit number. */
  function PutBytes(value: seq<Byte>): seq<Byte> {
    ToBytes(if |value| <= U32_MAX then |value| else U32_MAX, 4) + value
  }

  function PutText(value: string): seq<Byte> {
    PutBytes(EncodeUtf8(value))
  }

  function PutOptionalText(value: Option<string>): seq<Byte> {
    match value
    case Some(text) => [1] + PutText(text)
    case None => [0]
  }

  function PutOptionalNumber(value: Option<U64>): seq<Byte> {
    match value
    case Some(n) => [1] + ToBytes(n, 8)
    case None => [0]
  }

  function EncodeFields(f: Frame): seq<Byte> {
    match f
    case Hello(version, resume) => ToBytes(version, 2) + PutOptionalText(resume)
    case Welcome(session, resumed, heartbeat) =>
      PutText(session) + ([if resumed then 1 else 0] + ToBytes(heartbeat, 4))
    case Ping(nonce) => ToBytes(nonce, 8)
    case Pong(nonce) => ToBytes(nonce, 8)
    case Subscribe(stream, from, credit) => PutText(stream) + (ToBytes(from, 8) + ToBytes(credit, 4))
    case Unsubscribe(stream) => PutText(stream)
    case Credit(stream, additional) => PutText(stream) + ToBytes(additional, 4)
    case Event(stream, sequence, payload) => PutText(stream) + (ToBytes(sequence, 8) + PutBytes(payload))
    case Lagged(stream, skippedTo) => PutText(stream) + ToBytes(skippedTo, 8)
    case Command(id, verb, payload) => ToBytes(id, 8) + (PutText(verb) + PutBytes(payload))
    case Ack(id, payload) => ToBytes(id, 8) + PutBytes(payload)
    case Error(correlation, code, message) =>
      PutOptionalNumber(correlation) + ([CodeTag(code)] + PutText(message))
    case Close(code, message) => [CodeTag(code)] + PutText(message)
  }

  function Encode(f: Frame): seq<Byte> {
    [FrameTag(f)] + EncodeFields(f)
  }

  // ------------------------------------------------------------------
  // Reading fields: each reader returns the value and the bytes after it
  // ------------------------------------------------------------------

  function Take(b: seq<Byte>, n: nat): (r: Result<(seq<Byte>, seq<Byte>), CodecError>)
    ensures r.Err? ==> r.error == Malformed
  {
    if n <= |b| then Ok((b[..n], b[n..])) else Err(Malformed)
  }

  function TakeByte(b: seq<Byte>): (r: Result<(U8, seq<Byte>), CodecError>)
    ensures r.Err? ==> r.error == Malformed
  {
    if |b| > 0 then Ok((b[0], b[1..])) else Err(Malformed)
  }

  function TakeNumber(b: seq<Byte>, width: nat): (r: Result<(nat, seq<Byte>), CodecError>)
    ensures r.Ok? ==> r.value.0 < Power256(width)
    ensures r.Err? ==> r.error == Malformed
  {
    var (raw, rest) :- Take(b, width);
    FromBytesBound(raw);
    Ok((FromBytes(raw), rest))
  }

  function TakeU16(b: seq<Byte>): (r: Result<(U16, seq<Byte>), CodecError>)
    ensures r.Err? ==> r.error == Malformed
  {
    PowerValues();
    var (n, rest) :- TakeNumber(b, 2);
    Ok((n, rest))
  }

  function TakeU32(b: seq<Byte>): (r: Result<(U32, seq<Byte>), CodecError>)
    ensures r.Err? ==> r.error == Malformed
  {
    PowerValues();
    var (n, rest) :- TakeNumber(b, 4);
    Ok((n, rest))
  }

  function TakeU64(b: seq<Byte>): (r: Result<(U64, seq<Byte>), CodecError>)
    ensures r.Err? ==> r.error == Malformed
  {
    PowerValues();
    var (n, rest) :- TakeNumber(b, 8);
    Ok((n, rest))
  }

  function TakeBytes(b: seq<Byte>): (r: Result<(seq<Byte>, seq<Byte>), CodecError>)
    ensures r.Err? ==> r.error == Malformed
  {
    var (length, rest) :- TakeU32(b);
    Take(rest, length)
  }

  function TakeText(b: seq<Byte>): (r: Result<(string, seq<Byte>), CodecError>)
    ensures r.Err? ==> r.error == Malformed
  {
    var (raw, rest) :- TakeBytes(b);
    match DecodeUtf8(raw)
    case Some(text) => Ok((text, rest))
    case None => Err(Malformed)
  }

  function TakeOptionalText(b: seq<Byte>): (r: Result<(Option<string>, seq<Byte>), CodecError>)
    ensures r.Err? ==> r.error == Malformed
  {
    var (flag, rest) :- TakeByte(b);
    if flag == 0 then Ok((None, rest))
    else if flag == 1 then
      var (text, rest') :- TakeText(rest);
      Ok((Some(text), rest'))
    else Err(Malformed)
  }

  function TakeOptionalNumber(b: seq<Byte>): (r: Result<(Option<U64>, seq<Byte>), CodecError>)
    ensures r.Err? ==> r.error == Malformed
  {
    var (flag, rest) :- TakeByte(b);
    if flag == 0 then Ok((None, rest))
    else if flag == 1 then
      var (n, rest') :- TakeU64(rest);
      Ok((Some(n), rest'))
    else Err(Malformed)
  }

  function TakeFlag(b: seq<Byte>): (r: Result<(bool, seq<Byte>), CodecError>)
    ensures r.Err? ==> r.error == Malformed
  {
    var (flag, rest) :- TakeByte(b);
    if flag == 0 then Ok((false, rest)) else if flag == 1 then Ok((true, rest)) else Err(Malformed)
  }

  function TakeCode(b: seq<Byte>): (r: Result<(ErrorCode, seq<Byte>), CodecError>)
    ensures r.Err? ==> r.error == Malformed
  {
    var (tag, rest) :- TakeByte(b);
    var code :- CodeFromTag(tag);
    Ok((code, rest))
  }

  function DecodeFields(tag: U8, b: seq<Byte>): (r: Result<(Frame, seq<Byte>), CodecError>)
    ensures r.Err? ==> r.error == Malformed
  {
    match tag
    case 1 =>
      var (version, b1) :- TakeU16(b);
      var (resume, b2) :- TakeOptionalText(b1);
      Ok((Hello(version, resume), b2))
    case 2 =>
      var (session, b1) :- TakeText(b);
      var (resumed, b2) :- TakeFlag(b1);
      var (heartbeat, b3) :- TakeU32(b2);
      Ok((Welcome(session, resumed, heartbeat), b3))
    case 3 =>
      var (nonce, b1) :- TakeU64(b);
      Ok((Ping(nonce), b1))
    case 4 =>
      var (nonce, b1) :- TakeU64(b);
      Ok((Pong(nonce), b1))
    case 5 =>
      var (stream, b1) :- TakeText(b);
      var (from, b2) :- TakeU64(b1);
      var (credit, b3) :- TakeU32(b2);
      Ok((Subscribe(stream, from, credit), b3))
    case 6 =>
      var (stream, b1) :- TakeText(b);
      Ok((Unsubscribe(stream), b1))
    case 7 =>
      var (stream, b1) :- TakeText(b);
      var (additional, b2) :- TakeU32(b1);
      Ok((Credit(stream, additional), b2))
    case 8 =>
      var (stream, b1) :- TakeText(b);
      var (sequence, b2) :- TakeU64(b1);
      var (payload, b3) :- TakeBytes(b2);
      Ok((Event(stream, sequence, payload), b3))
    case 9 =>
      var (stream, b1) :- TakeText(b);
      var (skippedTo, b2) :- TakeU64(b1);
      Ok((Lagged(stream, skippedTo), b2))
    case 10 =>
      var (id, b1) :- TakeU64(b);
      var (verb, b2) :- TakeText(b1);
      var (payload, b3) :- TakeBytes(b2);
      Ok((Command(id, verb, payload), b3))
    case 11 =>
      var (id, b1) :- TakeU64(b);
      var (payload, b2) :- TakeBytes(b1);
      Ok((Ack(id, payload), b2))
    case 12 =>
      var (correlation, b1) :- TakeOptionalNumber(b);
      var (code, b2) :- TakeCode(b1);
      var (message, b3) :- TakeText(b2);
      Ok((Error(correlation, code, message), b3))
    case 13 =>
      var (code, b1) :- TakeCode(b);
      var (message, b2) :- TakeText(b1);
      Ok((Close(code, message), b2))
    case _ => Err(Malformed)
  }

  /** Bytes left over are an error, not ignored. */
  function Decode(b: seq<Byte>): (r: Result<Frame, CodecError>)
    ensures r.Err? ==> r.error == Malformed
  {
    var (tag, fields) :- TakeByte(b);
    var (frame, rest) :- DecodeFields(tag, fields);
    if rest == [] then Ok(frame) else Err(Malformed)
  }

  // ------------------------------------------------------------------
  // Field by field
  // ------------------------------------------------------------------

  predicate Carried(value: seq<Byte>) {
    |value| <= U32_MAX
  }

  lemma ReadNumber(n: nat, width: nat, rest: seq<Byte>)
    requires n < Power256(width)
    ensures TakeNumber(ToBytes(n, width) + rest, width) == Ok((n, rest))
  {
    FromToBytes(n, width);
    assert (ToBytes(n, width) + rest)[..width] == ToBytes(n, width);
    assert (ToBytes(n, width) + rest)[width..] == rest;
  }

  lemma ReadNumbers(n16: U16, n32: U32, n64: U64, rest: seq<Byte>)
    ensures TakeU16(ToBytes(n16, 2) + rest) == Ok((n16, rest))
    ensures TakeU32(ToBytes(n32, 4) + rest) == Ok((n32, rest))
    ensures TakeU64(ToBytes(n64, 8) + rest) == Ok((n64, rest))
  {
    PowerValues();
    ReadNumber(n16, 2, rest);
    ReadNumber(n32, 4, rest);
    ReadNumber(n64, 8, rest);
  }

  lemma ReadBytes(value: seq<Byte>, rest: seq<Byte>)
    requires Carried(value)
    ensures TakeBytes(PutBytes(value) + rest) == Ok((value, rest))
  {
    ReadNumbers(0, |value|, 0, value + rest);
    assert PutBytes(value) + rest == ToBytes(|value|, 4) + (value + rest);
    assert (value + rest)[..|value|] == value && (value + rest)[|value|..] == rest;
  }

  lemma ReadText(value: string, rest: seq<Byte>)
    requires Carried(EncodeUtf8(value))
    ensures TakeText(PutText(value) + rest) == Ok((value, rest))
  {
    ReadBytes(EncodeUtf8(value), rest);
    DecodeEncodeUtf8(value);
  }

  lemma AfterTag(tag: Byte, rest: seq<Byte>)
    ensures ([tag] + rest)[0] == tag && ([tag] + rest)[1..] == rest
  {
  }

  lemma ReadOptionalText(text: Option<string>, rest: seq<Byte>)
    requires text.Some? ==> Carried(EncodeUtf8(text.value))
    ensures TakeOptionalText(PutOptionalText(text) + rest) == Ok((text, rest))
  {
    hide TakeText, PutText, Carried;
    if text.None? {
      AfterTag(0, rest);
    } else {
      ReadText(text.value, rest);
      AfterTag(1, PutText(text.value) + rest);
      assert PutOptionalText(text) + rest == [1] + (PutText(text.value) + rest);
    }
  }

  lemma ReadOptionalNumber(n: Option<U64>, rest: seq<Byte>)
    ensures TakeOptionalNumber(PutOptionalNumber(n) + rest) == Ok((n, rest))
  {
    hide TakeU64, ToBytes;
    AfterTag(0, rest);
    if n.Some? {
      ReadNumbers(0, 0, n.value, rest);
      AfterTag(1, ToBytes(n.value, 8) + rest);
      assert PutOptionalNumber(n) + rest == [1] + (ToBytes(n.value, 8) + rest);
    }
  }

  lemma ReadCode(code: ErrorCode, rest: seq<Byte>)
    ensures TakeCode([CodeTag(code)] + rest) == Ok((code, rest))
  {
  }

  lemma Regroup(a: seq<Byte>, b: seq<Byte>, c: seq<Byte>, d: seq<Byte>)
    ensures a + (b + d) == a + b + d
    ensures a + (b + (c + d)) == a + (b + c) + d
  {
  }

  /** Whatever number is read was written there. */
  lemma NumberWasWritten(b: seq<Byte>, width: nat)
    requires TakeNumber(b, width).Ok?
    ensures var (n, rest) := TakeNumber(b, width).value; b == ToBytes(n, width) + rest
  {
    ToFromBytes(b[..width]);
  }

  lemma BytesWereWritten(b: seq<Byte>)
    requires TakeBytes(b).Ok?
    ensures var (value, rest) := TakeBytes(b).value; Carried(value) && b == PutBytes(value) + rest
  {
    NumberWasWritten(b, 4);
    PowerValues();
  }

  lemma TextWasWritten(b: seq<Byte>)
    requires TakeText(b).Ok?
    ensures var (value, rest) := TakeText(b).value; Carried(EncodeUtf8(value)) && b == PutText(value) + rest
  {
    BytesWereWritten(b);
    EncodeDecodeUtf8(TakeBytes(b).value.0);
  }

  lemma OptionalTextWasWritten(b: seq<Byte>)
    requires TakeOptionalText(b).Ok?
    ensures
      var (value, rest) := TakeOptionalText(b).value;
      (value.Some? ==> Carried(EncodeUtf8(value.value))) && b == PutOptionalText(value) + rest
  {
    hide TakeText, PutText;
    if b[0] == 1 {
      TextWasWritten(b[1..]);
      assert b == [1] + b[1..];
      Regroup([1], PutText(TakeText(b[1..]).value.0), [], TakeText(b[1..]).value.1);
    } else {
      assert b == [0] + b[1..];
    }
  }

  lemma OptionalNumberWasWritten(b: seq<Byte>)
    requires TakeOptionalNumber(b).Ok?
    ensures var (value, rest) := TakeOptionalNumber(b).value; b == PutOptionalNumber(value) + rest
  {
    hide TakeNumber, ToBytes;
    if b[0] == 1 {
      NumberWasWritten(b[1..], 8);
      assert b == [1] + b[1..];
      Regroup([1], ToBytes(TakeU64(b[1..]).value.0, 8), [], TakeU64(b[1..]).value.1);
    } else {
      assert b == [0] + b[1..];
    }
  }

  lemma CodeWasWritten(b: seq<Byte>)
    requires TakeCode(b).Ok?
    ensures var (code, rest) := TakeCode(b).value; b == [CodeTag(code)] + rest
  {
  }

  // ------------------------------------------------------------------
  // Frame by frame
  // ------------------------------------------------------------------

  /** Every variable-length field fits a 32-bit length. */
  predicate Fits(f: Frame) {
    match f
    case Hello(_, resume) => resume.Some? ==> Carried(EncodeUtf8(resume.value))
    case Welcome(session, _, _) => Carried(EncodeUtf8(session))
    case Ping(_) => true
    case Pong(_) => true
    case Subscribe(stream, _, _) => Carried(EncodeUtf8(stream))
    case Unsubscribe(stream) => Carried(EncodeUtf8(stream))
    case Credit(stream, _) => Carried(EncodeUtf8(stream))
    case Event(stream, _, payload) => Carried(EncodeUtf8(stream)) && Carried(payload)
    case Lagged(stream, _) => Carried(EncodeUtf8(stream))
    case Command(_, verb, payload) => Carried(EncodeUtf8(verb)) && Carried(payload)
    case Ack(_, payload) => Carried(payload)
    case Error(_, _, message) => Carried(EncodeUtf8(message))
    case Close(_, message) => Carried(EncodeUtf8(message))
  }

  lemma DecodeEncodeFields(f: Frame)
    requires Fits(f)
    ensures DecodeFields(FrameTag(f), EncodeFields(f)) == Ok((f, []))
  {
    hide TakeU16, TakeU32, TakeU64, TakeText, TakeBytes, TakeOptionalText, TakeOptionalNumber, TakeCode, CodeTag,
      PutText, PutBytes, PutOptionalText, PutOptionalNumber, ToBytes, Carried;
    assert EncodeFields(f) + [] == EncodeFields(f);
    match f
    case Hello(version, resume) =>
      ReadNumbers(version, 0, 0, PutOptionalText(resume));
      ReadOptionalText(resume, []);
      assert PutOptionalText(resume) + [] == PutOptionalText(resume);
    case Welcome(session, resumed, heartbeat) =>
      ReadText(session, [if resumed then 1 else 0] + ToBytes(heartbeat, 4));
      assert ([if resumed then 1 else 0] + ToBytes(heartbeat, 4))[1..] == ToBytes(heartbeat, 4);
      ReadNumbers(0, heartbeat, 0, []);
      assert ToBytes(heartbeat, 4) + [] == ToBytes(heartbeat, 4);
    case Ping(nonce) => ReadNumbers(0, 0, nonce, []);
    case Pong(nonce) => ReadNumbers(0, 0, nonce, []);
    case Subscribe(stream, from, credit) =>
      ReadText(stream, ToBytes(from, 8) + ToBytes(credit, 4));
      ReadNumbers(0, 0, from, ToBytes(credit, 4));
      ReadNumbers(0, credit, 0, []);
      assert ToBytes(credit, 4) + [] == ToBytes(credit, 4);
    case Unsubscribe(stream) => ReadText(stream, []);
    case Credit(stream, additional) =>
      ReadText(stream, ToBytes(additional, 4));
      ReadNumbers(0, additional, 0, []);
      assert ToBytes(additional, 4) + [] == ToBytes(additional, 4);
    case Event(stream, sequence, payload) =>
      ReadText(stream, ToBytes(sequence, 8) + PutBytes(payload));
      ReadNumbers(0, 0, sequence, PutBytes(payload));
      ReadBytes(payload, []);
      assert PutBytes(payload) + [] == PutBytes(payload);
    case _ => DecodeEncodeMoreFields(f);
  }

  lemma DecodeEncodeMoreFields(f: Frame)
    requires Fits(f) && FrameTag(f) > 8
    ensures DecodeFields(FrameTag(f), EncodeFields(f)) == Ok((f, []))
  {
    hide TakeU16, TakeU32, TakeU64, TakeText, TakeBytes, TakeOptionalText, TakeOptionalNumber, TakeCode, CodeTag,
      PutText, PutBytes, PutOptionalText, PutOptionalNumber, ToBytes, Carried;
    assert EncodeFields(f) + [] == EncodeFields(f);
    match f
    case Lagged(stream, skippedTo) =>
      ReadText(stream, ToBytes(skippedTo, 8));
      ReadNumbers(0, 0, skippedTo, []);
      assert ToBytes(skippedTo, 8) + [] == ToBytes(skippedTo, 8);
    case Command(id, verb, payload) =>
      ReadNumbers(0, 0, id, PutText(verb) + PutBytes(payload));
      ReadText(verb, PutBytes(payload));
      ReadBytes(payload, []);
      assert PutBytes(payload) + [] == PutBytes(payload);
    case Ack(id, payload) =>
      ReadNumbers(0, 0, id, PutBytes(payload));
      ReadBytes(payload, []);
      assert PutBytes(payload) + [] == PutBytes(payload);
    case Error(correlation, code, message) =>
      ReadOptionalNumber(correlation, [CodeTag(code)] + PutText(message));
      ReadCode(code, PutText(message));
      ReadText(message, []);
      assert PutText(message) + [] == PutText(message);
    case Close(code, message) =>
      ReadCode(code, PutText(message));
      ReadText(message, []);
      assert PutText(message) + [] == PutText(message);
  }

  lemma EncodeDecodeFields(tag: U8, b: seq<Byte>)
    requires DecodeFields(tag, b).Ok?
    ensures
      var (f, rest) := DecodeFields(tag, b).value;
      FrameTag(f) == tag && Fits(f) && b == EncodeFields(f) + rest
  {
    hide TakeText, TakeBytes, TakeOptionalText, TakeOptionalNumber, TakeCode, TakeNumber, CodeTag,
      PutText, PutBytes, PutOptionalText, PutOptionalNumber, ToBytes, Carried;
    match tag
    case 1 =>
      NumberWasWritten(b, 2);
      var (version, b1) := TakeU16(b).value;
      OptionalTextWasWritten(b1);
      var (resume, b2) := TakeOptionalText(b1).value;
      Regroup(ToBytes(version, 2), PutOptionalText(resume), [], b2);
    case 2 =>
      TextWasWritten(b);
      var (session, b1) := TakeText(b).value;
      var (resumed, b2) := TakeFlag(b1).value;
      assert b1 == [if resumed then 1 else 0] + b2;
      NumberWasWritten(b2, 4);
      var (heartbeat, b3) := TakeU32(b2).value;
      Regroup(PutText(session), [if resumed then 1 else 0], ToBytes(heartbeat, 4), b3);
    case 3 => NumberWasWritten(b, 8);
    case 4 => NumberWasWritten(b, 8);
    case 5 =>
      TextWasWritten(b);
      var (stream, b1) := TakeText(b).value;
      NumberWasWritten(b1, 8);
      var (from, b2) := TakeU64(b1).value;
      NumberWasWritten(b2, 4);
      var (credit, b3) := TakeU32(b2).value;
      Regroup(PutText(stream), ToBytes(from, 8), ToBytes(credit, 4), b3);
    case 6 => TextWasWritten(b);
    case 7 =>
      TextWasWritten(b);
      var (stream, b1) := TakeText(b).value;
      NumberWasWritten(b1, 4);
      var (additional, b2) := TakeU32(b1).value;
      Regroup(PutText(stream), ToBytes(additional, 4), [], b2);
    case _ => EncodeDecodeMoreFields(tag, b);
  }

  lemma EncodeDecodeMoreFields(tag: U8, b: seq<Byte>)
    requires DecodeFields(tag, b).Ok? && tag > 7
    ensures
      var (f, rest) := DecodeFields(tag, b).value;
      FrameTag(f) == tag && Fits(f) && b == EncodeFields(f) + rest
  {
    hide TakeText, TakeBytes, TakeOptionalNumber, TakeCode, TakeNumber, CodeTag,
      PutText, PutBytes, PutOptionalNumber, ToBytes, Carried;
    match tag
    case 8 =>
      TextWasWritten(b);
      var (stream, b1) := TakeText(b).value;
      NumberWasWritten(b1, 8);
      var (sequence, b2) := TakeU64(b1).value;
      BytesWereWritten(b2);
      var (payload, b3) := TakeBytes(b2).value;
      Regroup(PutText(stream), ToBytes(sequence, 8), PutBytes(payload), b3);
    case 9 =>
      TextWasWritten(b);
      var (stream, b1) := TakeText(b).value;
      NumberWasWritten(b1, 8);
      var (skippedTo, b2) := TakeU64(b1).value;
      Regroup(PutText(stream), ToBytes(skippedTo, 8), [], b2);
    case 10 =>
      NumberWasWritten(b, 8);
      var (id, b1) := TakeU64(b).value;
      TextWasWritten(b1);
      var (verb, b2) := TakeText(b1).value;
      BytesWereWritten(b2);
      var (payload, b3) := TakeBytes(b2).value;
      Regroup(ToBytes(id, 8), PutText(verb), PutBytes(payload), b3);
    case 11 =>
      NumberWasWritten(b, 8);
      var (id, b1) := TakeU64(b).value;
      BytesWereWritten(b1);
      var (payload, b2) := TakeBytes(b1).value;
      Regroup(ToBytes(id, 8), PutBytes(payload), [], b2);
    case 12 =>
      OptionalNumberWasWritten(b);
      var (correlation, b1) := TakeOptionalNumber(b).value;
      CodeWasWritten(b1);
      var (code, b2) := TakeCode(b1).value;
      TextWasWritten(b2);
      var (message, b3) := TakeText(b2).value;
      Regroup(PutOptionalNumber(correlation), [CodeTag(code)], PutText(message), b3);
    case 13 =>
      CodeWasWritten(b);
      var (code, b1) := TakeCode(b).value;
      TextWasWritten(b1);
      var (message, b2) := TakeText(b1).value;
      Regroup([CodeTag(code)], PutText(message), [], b2);
    case _ =>
  }

  // ------------------------------------------------------------------
  // The codec
  // ------------------------------------------------------------------

  /** What decodes was encoded from the frame it decodes to, byte for byte. */
  lemma EncodeDecode(b: seq<Byte>)
    requires Decode(b).Ok?
    ensures Encode(Decode(b).value) == b && Fits(Decode(b).value)
  {
    hide DecodeFields, EncodeFields, Fits;
    EncodeDecodeFields(b[0], b[1..]);
    assert EncodeFields(Decode(b).value) + [] == b[1..];
    assert b == [b[0]] + b[1..];
  }

  /** A frame survives its encoding exactly when its lengths fit. */
  lemma DecodeEncode(f: Frame)
    ensures Decode(Encode(f)) == Ok(f) <==> Fits(f)
  {
    hide DecodeFields, EncodeFields, Fits;
    if Fits(f) {
      DecodeEncodeFields(f);
      assert Encode(f)[1..] == EncodeFields(f);
    }
    if Decode(Encode(f)) == Ok(f) {
      EncodeDecode(Encode(f));
    }
  }

  /** No two frames that fit share an encoding. */
  lemma EncodeInjective(f: Frame, g: Frame)
    requires Fits(f) && Fits(g) && Encode(f) == Encode(g)
    ensures f == g
  {
    hide Encode, Decode, Fits;
    DecodeEncode(f);
    DecodeEncode(g);
  }

  // ------------------------------------------------------------------
  // The numbers on the wire
  // ------------------------------------------------------------------

  lemma SmallNumbers(n: Byte)
    ensures ToBytes(n, 2) == [0, n]
    ensures ToBytes(n, 4) == [0, 0, 0, n]
    ensures ToBytes(n, 8) == [0, 0, 0, 0, 0, 0, 0, n]
  {
    assert ToBytes(0, 1) == [0];
    assert ToBytes(0, 2) == [0] + [0];
    assert ToBytes(0, 3) == [0, 0] + [0];
    assert ToBytes(0, 4) == [0, 0, 0] + [0];
    assert ToBytes(0, 5) == [0, 0, 0, 0] + [0];
    assert ToBytes(0, 6) == [0, 0, 0, 0, 0] + [0];
    assert ToBytes(0, 7) == [0, 0, 0, 0, 0, 0] + [0];
  }

  lemma ShortText(c: char)
    requires c < '\U{0080}'
    ensures PutText([c]) == [0, 0, 0, 1, c as int]
  {
    SmallNumbers(1);
    AsciiIsItself([c]);
  }

  /** Frames of every kind, byte for byte. */
  lemma SessionExamples()
    ensures Encode(Hello(7, None)) == [1, 0, 7, 0]
    ensures Encode(Hello(7, Some("a"))) == [1, 0, 7, 1, 0, 0, 0, 1, 97]
    ensures Encode(Welcome("s", true, 9)) == [2, 0, 0, 0, 1, 115, 1, 0, 0, 0, 9]
    ensures Encode(Ping(5)) == [3, 0, 0, 0, 0, 0, 0, 0, 5]
    ensures Encode(Pong(5)) == [4, 0, 0, 0, 0, 0, 0, 0, 5]
  {
    hide ToBytes, PutText;
    SmallNumbers(5);
    SmallNumbers(7);
    SmallNumbers(9);
    ShortText('a');
    ShortText('s');
  }

  lemma SubscriptionExamples()
    ensures Encode(Subscribe("s", 6, 8)) == [5, 0, 0, 0, 1, 115, 0, 0, 0, 0, 0, 0, 0, 6, 0, 0, 0, 8]
    ensures Encode(Unsubscribe("s")) == [6, 0, 0, 0, 1, 115]
    ensures Encode(Credit("s", 8)) == [7, 0, 0, 0, 1, 115, 0, 0, 0, 8]
  {
    hide ToBytes, PutText;
    SmallNumbers(6);
    SmallNumbers(8);
    ShortText('s');
  }

  lemma EventExamples()
    ensures Encode(Event("s", 6, [200])) == [8, 0, 0, 0, 1, 115, 0, 0, 0, 0, 0, 0, 0, 6, 0, 0, 0, 1, 200]
    ensures Encode(Lagged("s", 6)) == [9, 0, 0, 0, 1, 115, 0, 0, 0, 0, 0, 0, 0, 6]
  {
    hide ToBytes, PutText;
    SmallNumbers(1);
    SmallNumbers(6);
    ShortText('s');
  }

  lemma CommandExamples()
    ensures Encode(Command(6, "v", [200])) == [10, 0, 0, 0, 0, 0, 0, 0, 6, 0, 0, 0, 1, 118, 0, 0, 0, 1, 200]
    ensures Encode(Ack(6, [200])) == [11, 0, 0, 0, 0, 0, 0, 0, 6, 0, 0, 0, 1, 200]
  {
    hide ToBytes, PutText;
    SmallNumbers(1);
    SmallNumbers(6);
    ShortText('v');
  }

  lemma FailureExamples()
    ensures Encode(Error(None, NotFound, "m")) == [12, 0, 6, 0, 0, 0, 1, 109]
    ensures Encode(Error(Some(5), NotFound, "m")) == [12, 1, 0, 0, 0, 0, 0, 0, 0, 5, 6, 0, 0, 0, 1, 109]
  {
    hide ToBytes, PutText;
    SmallNumbers(5);
    ShortText('m');
  }

  lemma ClosingExample()
    ensures Encode(Close(GoingAway, "m")) == [13, 7, 0, 0, 0, 1, 109]
  {
    hide ToBytes, PutText;
    ShortText('m');
  }

  /** The error codes, in the order their numbers were given out. */
  lemma CodeExamples()
    ensures
      var codes := [UnsupportedVersion, Unauthorized, Forbidden, Protocol, RateLimited, NotFound, GoingAway, Timeout,
                    Internal];
      forall i :: 0 <= i < |codes| ==> Encode(Close(codes[i], ""))[1] == i + 1
  {
    hide ToBytes, EncodeUtf8;
  }
}
