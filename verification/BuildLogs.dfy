/**
 Admission of build-log records by sequence and byte offset, and the bounded
 producer buffer in front of it.
 */
module BuildLogs {
  import opened Bytes
  import opened Results

  datatype Cursor = Cursor(nextSequence: nat, nextOffset: nat)

  datatype Admission =
    | Accepted(nextSequence: nat, nextOffset: nat)
    | Duplicate(nextSequence: nat, nextOffset: nat)
    | Gap(expectedSequence: nat, receivedSequence: nat)
    | OffsetMismatch(expectedOffset: nat, receivedOffset: nat)

  datatype CursorError = SequenceOverflow | OffsetOverflow

  function Observe(c: Cursor, sequence: nat, offset: nat, size: nat): Result<(Cursor, Admission), CursorError> {
    if sequence < c.nextSequence then Ok((c, Duplicate(c.nextSequence, c.nextOffset)))
    else if sequence > c.nextSequence then Ok((c, Gap(c.nextSequence, sequence)))
    else if offset != c.nextOffset then Ok((c, OffsetMismatch(c.nextOffset, offset)))
    else if c.nextSequence + 1 > U64_MAX then Err(SequenceOverflow)
    else if c.nextOffset + size > U64_MAX then Err(OffsetOverflow)
    else
      var next := Cursor(c.nextSequence + 1, c.nextOffset + size);
      Ok((next, Accepted(next.nextSequence, next.nextOffset)))
  }

  // ------------------------------------------------------------------
  // Observing a stream in any order
  // ------------------------------------------------------------------

  type Body = seq<int>

  /** A presented record: what the network made of some record of the stream. */
  datatype Record = Record(sequence: nat, offset: nat, body: Body)

  datatype Reader = Reader(cursor: Cursor, taken: seq<Record>)

  const NEW_READER: Reader := Reader(Cursor(0, 0), [])

  function Read(r: Reader, record: Record): Reader {
    match Observe(r.cursor, record.sequence, record.offset, |record.body|)
    case Ok((cursor, Accepted(_, _))) => Reader(cursor, r.taken + [record])
    case _ => r
  }

  function ReadAll(r: Reader, records: seq<Record>): Reader {
    if |records| == 0 then r else Read(ReadAll(r, records[..|records| - 1]), records[|records| - 1])
  }

  function TotalSize(records: seq<Record>): nat {
    if |records| == 0 then 0 else TotalSize(records[..|records| - 1]) + |records[|records| - 1].body|
  }

  /** Record `n` has sequence `n` and starts where the ones before it end. */
  ghost predicate Contiguous(r: Reader) {
    && r.cursor == Cursor(|r.taken|, TotalSize(r.taken))
    && forall n :: 0 <= n < |r.taken| ==>
         r.taken[n].sequence == n && r.taken[n].offset == TotalSize(r.taken[..n])
  }

  /** Duplicates, losses, reorderings and wrong offsets leave an unbroken log. */
  lemma {:induction false} AcceptedIsContiguous(records: seq<Record>)
    ensures Contiguous(ReadAll(NEW_READER, records))
  {
    if |records| > 0 {
      AcceptedIsContiguous(records[..|records| - 1]);
      ReadKeeps(ReadAll(NEW_READER, records[..|records| - 1]), records[|records| - 1]);
    }
  }

  lemma ReadKeeps(r: Reader, record: Record)
    requires Contiguous(r)
    ensures Contiguous(Read(r, record))
  {
    var r' := Read(r, record);
    if r' != r {
      assert r'.taken[..|r.taken|] == r.taken;
      forall n | 0 <= n < |r'.taken|
        ensures r'.taken[n].sequence == n && r'.taken[n].offset == TotalSize(r'.taken[..n])
      {
        assert n < |r.taken| ==> r'.taken[..n] == r.taken[..n];
      }
    }
  }

  /**
   What is answered to any record: taken if it is the next one, starts where the
   log ends and the counters still hold it; else what is wrong with it, and the
   reader stays as it is.
   */
  lemma ReadExactly(r: Reader, record: Record)
    requires Contiguous(r)
    ensures
      var n, end, size := |r.taken|, TotalSize(r.taken), |record.body|;
      var answer := Observe(r.cursor, record.sequence, record.offset, size);
      var follows := record.sequence == n && record.offset == end;
      && Read(r, record).taken ==
           (if follows && n < 0xFFFF_FFFF_FFFF_FFFF && end + size <= 0xFFFF_FFFF_FFFF_FFFF then r.taken + [record]
            else r.taken)
      && (answer == Ok((r.cursor, Duplicate(n, end))) <==> record.sequence < n)
      && (answer == Ok((r.cursor, Gap(n, record.sequence))) <==> record.sequence > n)
      && (answer == Ok((r.cursor, OffsetMismatch(end, record.offset))) <==>
            record.sequence == n && record.offset != end)
      && (answer == Err(SequenceOverflow) <==> follows && n >= 0xFFFF_FFFF_FFFF_FFFF)
      && (answer == Err(OffsetOverflow) <==>
            follows && n < 0xFFFF_FFFF_FFFF_FFFF && end + size > 0xFFFF_FFFF_FFFF_FFFF)
      && (answer == Ok((Cursor(n + 1, end + size), Accepted(n + 1, end + size))) <==> Read(r, record) != r)
  {
    var r' := Read(r, record);
    assert r'.taken != r.taken <==> |r'.taken| != |r.taken|;
  }

  /** The record that carries `stream(n)` where the ones before it end. */
  function RecordOf(stream: nat -> Body, n: nat): Record
    decreases n, 1
  {
    Record(n, TotalSize(Prefix(stream, n)), stream(n))
  }

  /** The first `n` records of a stream. */
  function Prefix(stream: nat -> Body, n: nat): (p: seq<Record>)
    ensures |p| == n
    decreases n, 0
  {
    if n == 0 then [] else Prefix(stream, n - 1) + [RecordOf(stream, n - 1)]
  }

  lemma {:induction false} PrefixOfPrefix(stream: nat -> Body, n: nat, k: nat)
    requires k <= n
    ensures Prefix(stream, n)[..k] == Prefix(stream, k)
  {
    if k < n {
      PrefixOfPrefix(stream, n - 1, k);
      assert Prefix(stream, n)[..n - 1] == Prefix(stream, n - 1);
      assert Prefix(stream, n)[..k] == Prefix(stream, n - 1)[..k];
    } else {
      assert Prefix(stream, n)[..n] == Prefix(stream, n);
    }
  }

  /** Every record is the stream's record of its sequence: the network only repeats, reorders and loses. */
  ghost predicate Honest(records: seq<Record>, stream: nat -> Body) {
    forall k :: 0 <= k < |records| ==> records[k] == RecordOf(stream, records[k].sequence)
  }

  /** How many of the stream's records stand in `records` in order, the first before the second and so on. */
  function InOrder(records: seq<Record>): nat {
    if |records| == 0 then 0
    else
      var n := InOrder(records[..|records| - 1]);
      if records[|records| - 1].sequence == n then n + 1 else n
  }

  lemma TakesNext(r: Reader, stream: nat -> Body, n: nat, record: Record)
    requires Contiguous(r) && r.taken == Prefix(stream, n)
    requires record == RecordOf(stream, record.sequence)
    requires
      var m := if record.sequence == n then n + 1 else n;
      m <= 0xFFFF_FFFF_FFFF_FFFF && TotalSize(Prefix(stream, m)) <= 0xFFFF_FFFF_FFFF_FFFF
    ensures Read(r, record).taken == Prefix(stream, if record.sequence == n then n + 1 else n)
  {
    hide Contiguous, Read;
    ReadExactly(r, record);
    assert Prefix(stream, n + 1)[..n] == Prefix(stream, n);
  }

  /**
   Reading an honest stream takes exactly the records that arrive in order, as
   often as any of them is repeated in between, as long as 64 bits count them.
   */
  lemma {:induction false} TakesWhatIsInOrder(records: seq<Record>, stream: nat -> Body)
    requires Honest(records, stream)
    requires InOrder(records) <= 0xFFFF_FFFF_FFFF_FFFF
    requires TotalSize(Prefix(stream, InOrder(records))) <= 0xFFFF_FFFF_FFFF_FFFF
    ensures ReadAll(NEW_READER, records).taken == Prefix(stream, InOrder(records))
  {
    hide Contiguous, Read, RecordOf, Prefix, TotalSize;
    if |records| > 0 {
      var before, last := records[..|records| - 1], records[|records| - 1];
      var n := InOrder(before);
      ShorterFits(stream, n, InOrder(records));
      TakesWhatIsInOrder(before, stream);
      AcceptedIsContiguous(before);
      TakesNext(ReadAll(NEW_READER, before), stream, n, last);
    } else {
      NothingYet(stream);
    }
  }

  lemma NothingYet(stream: nat -> Body)
    ensures Prefix(stream, 0) == []
  {
  }

  lemma ShorterFits(stream: nat -> Body, k: nat, n: nat)
    requires k <= n <= k + 1
    ensures TotalSize(Prefix(stream, k)) <= TotalSize(Prefix(stream, n))
  {
    if k < n {
      assert Prefix(stream, n)[..k] == Prefix(stream, k);
    }
  }

  lemma {:induction false} AllInOrder(stream: nat -> Body, n: nat)
    ensures InOrder(Prefix(stream, n)) == n
    ensures Honest(Prefix(stream, n), stream)
  {
    if n > 0 {
      AllInOrder(stream, n - 1);
      assert Prefix(stream, n)[..n - 1] == Prefix(stream, n - 1);
    }
  }

  /** So a stream read from the start, in order, is taken whole. */
  lemma WholeStreamIsTaken(stream: nat -> Body, n: nat)
    requires n <= 0xFFFF_FFFF_FFFF_FFFF && TotalSize(Prefix(stream, n)) <= 0xFFFF_FFFF_FFFF_FFFF
    ensures ReadAll(NEW_READER, Prefix(stream, n)).taken == Prefix(stream, n)
  {
    AllInOrder(stream, n);
    TakesWhatIsInOrder(Prefix(stream, n), stream);
  }

  /** Every presented record carries the body the stream has at that sequence. */
  ghost predicate FromStream(records: seq<Record>, stream: nat -> Body) {
    forall k :: 0 <= k < |records| ==> records[k].body == stream(records[k].sequence)
  }

  lemma {:induction false} TakenFromStream(records: seq<Record>, stream: nat -> Body)
    requires FromStream(records, stream)
    ensures FromStream(ReadAll(NEW_READER, records).taken, stream)
  {
    if |records| > 0 {
      TakenFromStream(records[..|records| - 1], stream);
    }
  }

  lemma {:induction false} SameSizes(a: seq<Record>, b: seq<Record>, n: nat)
    requires n <= |a| && n <= |b|
    requires forall k :: 0 <= k < n ==> a[k].body == b[k].body
    ensures TotalSize(a[..n]) == TotalSize(b[..n])
  {
    if n > 0 {
      SameSizes(a, b, n - 1);
      assert a[..n][..n - 1] == a[..n - 1] && b[..n][..n - 1] == b[..n - 1];
    }
  }

  /** Two readers of one stream hold logs of which one is a prefix of the other. */
  lemma LogsAgree(a: seq<Record>, b: seq<Record>, stream: nat -> Body)
    requires FromStream(a, stream) && FromStream(b, stream)
    ensures ReadAll(NEW_READER, a).taken <= ReadAll(NEW_READER, b).taken
         || ReadAll(NEW_READER, b).taken <= ReadAll(NEW_READER, a).taken
  {
    hide ReadAll, TotalSize;
    var x, y := ReadAll(NEW_READER, a).taken, ReadAll(NEW_READER, b).taken;
    AcceptedIsContiguous(a);
    AcceptedIsContiguous(b);
    TakenFromStream(a, stream);
    TakenFromStream(b, stream);
    var n := if |x| < |y| then |x| else |y|;
    forall k | 0 <= k < n
      ensures x[k] == y[k]
    {
      SameSizes(x, y, k);
    }
    assert x[..n] == y[..n];
  }

  // ------------------------------------------------------------------
  // The producer buffer
  // ------------------------------------------------------------------

  datatype BufferPolicy = BufferPolicy(maxRecords: nat, maxBufferBytes: nat, maxRecordBytes: nat)

  datatype PolicyError = ZeroLimit | RecordLimitExceedsBuffer | CounterOverflow

  function NewPolicy(maxRecords: nat, maxBufferBytes: nat, maxRecordBytes: nat): Result<BufferPolicy, PolicyError> {
    if maxRecords == 0 || maxBufferBytes == 0 || maxRecordBytes == 0 then Err(ZeroLimit)
    else if maxRecordBytes > maxBufferBytes then Err(RecordLimitExceedsBuffer)
    else Ok(BufferPolicy(maxRecords, maxBufferBytes, maxRecordBytes))
  }

  datatype BufferAction = Enqueue | FlushThenEnqueue | RejectOversize

  function PlanBufferAction(policy: BufferPolicy, records: nat, bytes: nat, size: nat): Result<BufferAction,
                            PolicyError> {
    if size > policy.maxRecordBytes || size > policy.maxBufferBytes then Ok(RejectOversize)
    else if records + 1 > U64_MAX || bytes + size > U64_MAX then Err(CounterOverflow)
    else if records + 1 > policy.maxRecords || bytes + size > policy.maxBufferBytes then Ok(FlushThenEnqueue)
    else Ok(Enqueue)
  }

  /** `lost` counts records that an overflowing counter kept out. */
  datatype Producer = Producer(buffered: seq<Body>, flushed: seq<Body>, lost: nat)

  function BodyBytes(bodies: seq<Body>): nat {
    if |bodies| == 0 then 0 else BodyBytes(bodies[..|bodies| - 1]) + |bodies[|bodies| - 1]|
  }

  /** A producer that does what the plan says. */
  function Produce(policy: BufferPolicy, p: Producer, body: Body): Producer {
    match PlanBufferAction(policy, |p.buffered|, BodyBytes(p.buffered), |body|)
    case Ok(Enqueue) => p.(buffered := p.buffered + [body])
    case Ok(FlushThenEnqueue) => p.(buffered := [body], flushed := p.flushed + p.buffered)
    case Ok(RejectOversize) => p
    case Err(_) => p.(lost := p.lost + 1)
  }

  function ProduceAll(policy: BufferPolicy, bodies: seq<Body>): Producer {
    if |bodies| == 0 then Producer([], [], 0)
    else Produce(policy, ProduceAll(policy, bodies[..|bodies| - 1]), bodies[|bodies| - 1])
  }

  /** The records that are not oversize. */
  function Admissible(policy: BufferPolicy, bodies: seq<Body>): seq<Body> {
    if |bodies| == 0 then []
    else
      var before, last := Admissible(policy, bodies[..|bodies| - 1]), bodies[|bodies| - 1];
      if |last| > policy.maxRecordBytes || |last| > policy.maxBufferBytes then before else before + [last]
  }

  /**
   A policy that was accepted keeps the buffer within both limits. What has been
   flushed followed by what is buffered is every record that is not oversize,
   once and in order, unless a counter overflowed.
   */
  lemma {:induction false} BufferStaysBounded(policy: BufferPolicy, bodies: seq<Body>)
    requires NewPolicy(policy.maxRecords, policy.maxBufferBytes, policy.maxRecordBytes) == Ok(policy)
    ensures
      var p := ProduceAll(policy, bodies);
      && |p.buffered| <= policy.maxRecords
      && BodyBytes(p.buffered) <= policy.maxBufferBytes
      && (p.lost == 0 ==> p.flushed + p.buffered == Admissible(policy, bodies))
  {
    if |bodies| > 0 {
      var body := bodies[|bodies| - 1];
      BufferStaysBounded(policy, bodies[..|bodies| - 1]);
      ProduceKeeps(policy, ProduceAll(policy, bodies[..|bodies| - 1]), body);
    }
  }

  lemma ProduceKeeps(policy: BufferPolicy, p: Producer, body: Body)
    requires policy.maxRecords > 0
    requires |p.buffered| <= policy.maxRecords && BodyBytes(p.buffered) <= policy.maxBufferBytes
    ensures
      var p' := Produce(policy, p, body);
      && |p'.buffered| <= policy.maxRecords
      && BodyBytes(p'.buffered) <= policy.maxBufferBytes
      && p.lost <= p'.lost
      && (p'.lost == p.lost ==>
            p'.flushed + p'.buffered == p.flushed + p.buffered
              + if |body| > policy.maxRecordBytes || |body| > policy.maxBufferBytes then [] else [body])
  {
    assert (p.buffered + [body])[..|p.buffered|] == p.buffered;
    assert [body][..0] == [];
    assert p.flushed + (p.buffered + [body]) == p.flushed + p.buffered + [body];
  }

  /** The policies that are accepted, and what is wrong with the others. */
  lemma PolicyExactly(maxRecords: nat, maxBufferBytes: nat, maxRecordBytes: nat)
    ensures
      var r := NewPolicy(maxRecords, maxBufferBytes, maxRecordBytes);
      var positive := maxRecords > 0 && maxBufferBytes > 0 && maxRecordBytes > 0;
      && (r == Err(ZeroLimit) <==> !positive)
      && (r == Err(RecordLimitExceedsBuffer) <==> positive && maxRecordBytes > maxBufferBytes)
      && (r == Ok(BufferPolicy(maxRecords, maxBufferBytes, maxRecordBytes)) <==>
            positive && maxRecordBytes <= maxBufferBytes)
  {
  }

  /** The buffer is flushed only when the next record would not fit, and then whole. */
  lemma FlushedOnlyWhenFull(policy: BufferPolicy, p: Producer, body: Body)
    requires |p.buffered| < 0xFFFF_FFFF_FFFF_FFFF && BodyBytes(p.buffered) + |body| <= 0xFFFF_FFFF_FFFF_FFFF
    ensures
      var p' := Produce(policy, p, body);
      var fits := |p.buffered| < policy.maxRecords && BodyBytes(p.buffered) + |body| <= policy.maxBufferBytes;
      var oversize := |body| > policy.maxRecordBytes || |body| > policy.maxBufferBytes;
      p' == if oversize then p
            else if fits then Producer(p.buffered + [body], p.flushed, p.lost)
            else Producer([body], p.flushed + p.buffered, p.lost)
  {
  }

  /** Limits that leave the counters one step of headroom lose nothing. */
  lemma {:induction false} NothingIsLost(policy: BufferPolicy, bodies: seq<Body>)
    requires NewPolicy(policy.maxRecords, policy.maxBufferBytes, policy.maxRecordBytes) == Ok(policy)
    requires policy.maxRecords < U64_MAX && policy.maxBufferBytes + policy.maxRecordBytes <= U64_MAX
    ensures ProduceAll(policy, bodies).lost == 0
  {
    if |bodies| > 0 {
      NothingIsLost(policy, bodies[..|bodies| - 1]);
      BufferStaysBounded(policy, bodies[..|bodies| - 1]);
    }
  }
}
