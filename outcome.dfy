/** Poll outcomes, I/O results and the outcome reduction shared by both
    transfer directions. */
module Outcome {

  /** An octet, as stored in the buffers and moved over the streams. */
  newtype byte = x: int | 0 <= x < 256

  /** The outcome of one non-blocking attempt: ready with a value, or not
      ready yet. */
  datatype Poll<T> = Ready(value: T) | Pending {

    /** Applies `f` to a ready value and leaves `Pending` alone. */
    function Map<U>(f: T -> U): Poll<U> {
      match this
      case Ready(v) => Ready(f(v))
      case Pending => Pending
    }
  }

  /** The result of an I/O operation; the error value `E` is opaque to the
      transfer loops, which only pass it through. */
  datatype IoResult<T, E> = Ok(value: T) | Err(error: E) {

    /** Applies `f` to a success value and leaves an error alone. */
    function Map<U>(f: T -> U): IoResult<U, E> {
      match this
      case Ok(v) => Ok(f(v))
      case Err(e) => Err(e)
    }
  }

  /** What one stream call reports: a byte count, an error, or not ready. */
  type RawPoll<E> = Poll<IoResult<nat, E>>

  /** What a transfer reports: the flag says whether a limit was reached. */
  type FlagPoll<E> = Poll<IoResult<bool, E>>

  /** The outcome of one transfer call: how many bytes moved, and the
      outcome the call yielded with. */
  datatype PollResult<E> = PollResult(delta: nat, ret: FlagPoll<E>)

  /** A stream call made progress: it is ready, successful, and moved a
      non-zero number of bytes. Every other outcome ends a transfer loop. */
  predicate Progress<E>(o: RawPoll<E>) {
    o.Ready? && o.value.Ok? && o.value.value != 0
  }

  /** The byte count of a stream call, zero unless it succeeded. */
  function Count<E>(o: RawPoll<E>): (n: nat)
    ensures n != 0 <==> Progress(o)
  {
    if o.Ready? && o.value.Ok? then o.value.value else 0
  }

  /** Normalises a raw stream outcome into the public one: the byte count
      is dropped and replaced by `reachedLimit`; `Pending` and errors pass
      through unchanged. */
  function RetReduce<E>(ret: RawPoll<E>, reachedLimit: bool): (r: FlagPoll<E>)
    ensures r.Pending? <==> ret.Pending?
    ensures ret.Ready? && ret.value.Err? ==> r == Ready(Err(ret.value.error))
    ensures ret.Ready? && ret.value.Ok? ==> r == Ready(Ok(reachedLimit))
  {
    ret.Map((x: IoResult<nat, E>) => x.Map((_: nat) => reachedLimit))
  }

  /** The outcome reduction loses exactly the byte count: two raw outcomes
      reduce to the same public outcome under the same flag iff they agree
      on everything but the count. */
  lemma RetReduceForgetsOnlyCount<E>(a: RawPoll<E>, b: RawPoll<E>, flag: bool)
    ensures RetReduce(a, flag) == RetReduce(b, flag) <==>
            (a.Pending? && b.Pending?) ||
            (a.Ready? && b.Ready? && a.value.Ok? && b.value.Ok?) ||
            (a.Ready? && b.Ready? && a.value.Err? && b.value.Err? && a.value.error == b.value.error)
  {
  }

  /** Concatenation is associative. */
  lemma AppendAssoc<T>(a: seq<T>, b: seq<T>, c: seq<T>)
    ensures (a + b) + c == a + (b + c)
  {
  }

  /** The smallest of three counts, as the read loop sizes its requests. */
  function Min3(a: nat, b: nat, c: nat): (m: nat)
    ensures m <= a && m <= b && m <= c
  {
    if a <= b && a <= c then a else if b <= c then b else c
  }

  /** `Min3` is one of its arguments, so with its bounds it is their minimum. */
  lemma Min3IsOneOf(a: nat, b: nat, c: nat)
    ensures Min3(a, b, c) == a || Min3(a, b, c) == b || Min3(a, b, c) == c
  {
  }
}
