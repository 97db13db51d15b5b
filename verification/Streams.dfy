/**
 Incremental decoding in general: a step function looks at the bytes held so
 far and waits, fails or yields an item. When more bytes never change a
 decision already reached, how the stream was cut into chunks cannot show.
 */
module Streams {
  import opened Results
  import opened Bytes

  datatype Step<+T, +E> = Wait | Fail(error: E) | Yield(item: T, used: nat)

  /** Every yield consumes something it was given, and decisions are final. */
  ghost predicate Incremental<T(!new), E(!new)>(next: seq<Byte> -> Step<T, E>) {
    && (forall b :: next(b).Yield? ==> 0 < next(b).used <= |b|)
    && (forall b, c :: !next(b).Wait? ==> next(b + c) == next(b))
  }

  /** Everything pulled out of a buffer: the items, the bytes left, and the error that stopped it. */
  datatype Drained<+T, +E> = Drained(items: seq<T>, rest: seq<Byte>, error: Option<E>)

  function Prepend<T, E>(items: seq<T>, d: Drained<T, E>): Drained<T, E> {
    Drained(items + d.items, d.rest, d.error)
  }

  ghost function Drain<T(!new), E(!new)>(next: seq<Byte> -> Step<T, E>, b: seq<Byte>): Drained<T, E>
    requires Incremental(next)
    decreases |b|
  {
    match next(b)
    case Wait => Drained([], b, None)
    case Fail(error) => Drained([], b, Some(error))
    case Yield(item, used) => Prepend([item], Drain(next, b[used..]))
  }

  /** One chunk arriving at what earlier chunks left. */
  ghost function Receive<T(!new), E(!new)>(next: seq<Byte> -> Step<T, E>, d: Drained<T, E>,
                           chunk: seq<Byte>): Drained<T, E>
    requires Incremental(next)
  {
    if d.error.Some? then d.(rest := d.rest + chunk) else Prepend(d.items, Drain(next, d.rest + chunk))
  }

  ghost function ReceiveAll<T(!new), E(!new)>(next: seq<Byte> -> Step<T, E>, d: Drained<T, E>,
                              chunks: seq<seq<Byte>>): Drained<T, E>
    requires Incremental(next)
  {
    if |chunks| == 0 then d
    else Receive(next, ReceiveAll(next, d, chunks[..|chunks| - 1]), chunks[|chunks| - 1])
  }

  function Flatten(chunks: seq<seq<Byte>>): seq<Byte> {
    if |chunks| == 0 then [] else Flatten(chunks[..|chunks| - 1]) + chunks[|chunks| - 1]
  }

  lemma PrependTwice<T, E>(a: seq<T>, b: seq<T>, d: Drained<T, E>)
    ensures Prepend(a, Prepend(b, d)) == Prepend(a + b, d)
  {
    assert a + (b + d.items) == a + b + d.items;
  }

  /** Draining a buffer and then what arrives is draining both at once. */
  lemma {:induction false} DrainMore<T(!new), E(!new)>(next: seq<Byte> -> Step<T, E>, b: seq<Byte>, chunk: seq<Byte>)
    requires Incremental(next)
    ensures Drain(next, b + chunk) == Receive(next, Drain(next, b), chunk)
    decreases |b|
  {
    match next(b)
    case Wait =>
      var d := Drain(next, b + chunk);
      assert [] + d.items == d.items;
    case Fail(error) =>
      assert next(b + chunk) == next(b);
    case Yield(item, used) =>
      assert next(b + chunk) == next(b);
      DrainMore(next, b[used..], chunk);
      assert (b + chunk)[used..] == b[used..] + chunk;
      var d := Drain(next, b[used..]);
      PrependTwice([item], d.items, Drain(next, d.rest + chunk));
  }

  /** However a stream is cut into chunks, the same items come out, in the same order, with the same ending. */
  lemma {:induction false} ChunkingIsInvisible<T(!new), E(!new)>(next: seq<Byte> -> Step<T, E>, chunks: seq<seq<Byte>>)
    requires Incremental(next)
    ensures ReceiveAll(next, Drain(next, []), chunks) == Drain(next, Flatten(chunks))
  {
    if |chunks| > 0 {
      ChunkingIsInvisible(next, chunks[..|chunks| - 1]);
      DrainMore(next, Flatten(chunks[..|chunks| - 1]), chunks[|chunks| - 1]);
    }
  }

  /** After a failure every later look at the buffer fails the same way. */
  lemma FailureIsFinal<T(!new), E(!new)>(next: seq<Byte> -> Step<T, E>, b: seq<Byte>, more: seq<Byte>)
    requires Incremental(next) && Drain(next, b).error.Some?
    ensures next(Drain(next, b).rest + more) == Fail(Drain(next, b).error.value)
    decreases |b|
  {
    match next(b)
    case Yield(_, used) => FailureIsFinal(next, b[used..], more);
    case _ =>
  }
}
