/** The byte-stream endpoints, modelled as scripted oracles. Each call of the
    non-blocking operation answers with the next scripted outcome; once the
    script is used up the stream is never ready again. A read outcome
    carries the bytes the stream places at the front of the slice (its
    count is their number); a write outcome carries the number of leading
    bytes of the slice the stream accepts. */
module Streams {
  import opened Outcome

  /** What one read call does: deliver bytes, fail, or be not ready. */
  type ReadStep<E> = Poll<IoResult<seq<byte>, E>>

  /** The answer of the next call: the head of the script, or `Pending`
      once the script is used up. */
  function Next<T>(script: seq<Poll<T>>): Poll<T>
  {
    if script == [] then Pending else script[0]
  }

  /** The script after one call. */
  function Rest<T>(script: seq<Poll<T>>): seq<Poll<T>>
  {
    if script == [] then [] else script[1..]
  }

  /** The script after `k` calls. */
  function Drop<T>(script: seq<Poll<T>>, k: nat): seq<Poll<T>> {
    if k <= |script| then script[k..] else []
  }

  /** The bytes a read step delivers: its data when it succeeded, else none. */
  function Data<E>(o: ReadStep<E>): seq<byte>
  {
    if o.Ready? && o.value.Ok? then o.value.value else []
  }

  /** What the stream's read call returns for a step: the step with its
      bytes replaced by their count. */
  function Raw<E>(o: ReadStep<E>): (r: RawPoll<E>)
    ensures Count(r) == |Data(o)|
    ensures Progress(r) <==> Data(o) != []
    ensures r.Pending? <==> o.Pending?
    ensures o.Ready? && o.value.Err? ==> r == Ready(Err(o.value.error))
    ensures o.Ready? && o.value.Ok? ==> r.Ready? && r.value == Ok(|o.value.value|)
  {
    match o
    case Pending => Pending
    case Ready(Ok(d)) => Ready(Ok(|d|))
    case Ready(Err(e)) => Ready(Err(e))
  }

  /** The stream's contract for a call offered a slice of length `len`: a
      successful call moves at most `len` bytes. */
  predicate ReadStepFits<E>(o: ReadStep<E>, len: nat) {
    |Data(o)| <= len
  }

  predicate WriteStepFits<E>(o: RawPoll<E>, len: nat) {
    Count(o) <= len
  }

  /** A readable stream answering from a script. `requested` logs the
      length of every slice it was offered, in order. */
  class ScriptedReader<E> {
    var script: seq<ReadStep<E>>
    ghost var requested: seq<nat>

    constructor (script: seq<ReadStep<E>>)
      ensures this.script == script && requested == []
    {
      this.script := script;
      requested := [];
    }

    /** One non-blocking read into `buf[..len]`. */
    method PollRead(buf: array<byte>, len: nat) returns (r: RawPoll<E>)
      requires len <= buf.Length
      requires ReadStepFits(Next(script), len)
      modifies this, buf
      ensures r == Raw(Next(old(script)))
      ensures buf[..Count(r)] == Data(Next(old(script)))
      ensures script == Rest(old(script))
      ensures requested == old(requested) + [len]
    {
      var o := Next(script);
      var d := Data(o);
      for i := 0 to |d|
        invariant buf[..i] == d[..i]
        modifies buf
      {
        buf[i] := d[i];
      }
      r := Raw(o);
      script := Rest(script);
      requested := requested + [len];
    }
  }

  /** A writable stream answering from a script. `sink` holds every byte it
      accepted, in order; `offered` logs every slice it was offered. */
  class ScriptedWriter<E> {
    var script: seq<RawPoll<E>>
    var sink: seq<byte>
    ghost var offered: seq<seq<byte>>

    constructor (script: seq<RawPoll<E>>)
      ensures this.script == script && sink == [] && offered == []
    {
      this.script := script;
      sink := [];
      offered := [];
    }

    /** One non-blocking write of `buf`; a successful call accepts the
        leading `n` bytes. */
    method PollWrite(buf: seq<byte>) returns (r: RawPoll<E>)
      requires WriteStepFits(Next(script), |buf|)
      modifies this
      ensures r == Next(old(script))
      ensures sink == old(sink) + buf[..Count(r)]
      ensures script == Rest(old(script))
      ensures offered == old(offered) + [buf]
    {
      r := Next(script);
      sink := sink + buf[..Count(r)];
      script := Rest(script);
      offered := offered + [buf];
    }
  }
}
