/** Outbound transfer (buffer to stream): `poll_write`. The loop offers the
    source's unconsumed bytes to the stream, consumes as many as the stream
    accepted, and stops at the first call that accepts nothing.

    `WriteLoop` is that loop as a function of the stream's script, the
    unconsumed bytes `pending`, and the state built so far; `PollWrite` is
    the loop itself, proved against it. */
module Write {
  import opened Outcome
  import opened Streams
  import opened Buffers

  /** The trace of a write loop: every slice offered to the stream
      (`offers`), the bytes the stream holds (`written`), the bytes left
      unconsumed (`rest`), the outcome of the call that ended the loop, the
      script the stream has not used yet, and whether the stream kept its
      contract on every call. */
  datatype WriteRun<E> = WriteRun(offers: seq<seq<byte>>, written: seq<byte>, rest: seq<byte>,
                                  last: RawPoll<E>, unread: seq<RawPoll<E>>, fits: bool)

  /** The write loop, from the offer log `offered` and stream contents
      `sink` it starts with. A call that accepts bytes consumes them and the
      loop goes on; any other call ends it. A call that accepts more than it
      was offered breaks the stream's contract and ends the trace with
      `fits` false. */
  ghost function WriteLoop<E>(script: seq<RawPoll<E>>, pending: seq<byte>,
                              offered: seq<seq<byte>>, sink: seq<byte>): (r: WriteRun<E>)
    ensures |r.offers| > |offered|
    decreases |script|
  {
    var o := Next(script);
    var n := Count(o);
    if n != 0 && n <= |pending| then
      WriteLoop(Rest(script), pending[n..], offered + [pending], sink + pending[..n])
    else
      WriteRun(offered + [pending], sink, pending, o, Rest(script), n <= |pending|)
  }

  /** The trace of one call that starts with nothing offered or written. */
  ghost function WriteSpec<E>(script: seq<RawPoll<E>>, pending: seq<byte>): (r: WriteRun<E>)
    ensures |r.offers| >= 1
  {
    WriteLoop(script, pending, [], [])
  }

  /** The stream keeps its contract on every call the loop makes: no call
      accepts more bytes than it was offered. */
  ghost predicate WriteFits<E>(script: seq<RawPoll<E>>, pending: seq<byte>) {
    WriteSpec(script, pending).fits
  }

  /** What the call reports for a trace: the bytes moved, and the final
      outcome reduced with the flag "the source has nothing left". */
  ghost function WriteOutcome<E>(r: WriteRun<E>): (o: PollResult<E>)
    ensures o.delta == |r.written|
    ensures o.ret.Pending? <==> r.last.Pending?
    ensures r.last.Ready? && r.last.value.Ok? ==> (o.ret == Ready(Ok(true)) <==> r.rest == [])
  {
    PollResult(|r.written|, RetReduce(r.last, r.rest == []))
  }


  lemma PrefixThenRest<T>(s: seq<T>, n: nat, w: seq<T>, r: seq<T>)
    requires n <= |s| && w + r == s[n..]
    ensures (s[..n] + w) + r == s
  {
    AppendAssoc(s[..n], w, r);
    assert s[..n] + s[n..] == s;
  }

  /** The state the loop starts from only prefixes the logs: the loop adds
      the same offers and bytes whatever came before. */
  lemma {:induction false} WriteLoopAccumulates<E>(script: seq<RawPoll<E>>, pending: seq<byte>,
                                                   offered: seq<seq<byte>>, sink: seq<byte>)
    ensures var r := WriteSpec(script, pending);
            WriteLoop(script, pending, offered, sink) ==
            WriteRun(offered + r.offers, sink + r.written, r.rest, r.last, r.unread, r.fits)
    decreases |script|
  {
    var n := Count(Next(script));
    if n != 0 && n <= |pending| {
      var rest := WriteSpec(Rest(script), pending[n..]);
      WriteLoopAccumulates(Rest(script), pending[n..], offered + [pending], sink + pending[..n]);
      WriteLoopAccumulates(Rest(script), pending[n..], [pending], pending[..n]);
      assert [] + [pending] == [pending] && [] + pending[..n] == pending[..n];
      AppendAssoc(offered, [pending], rest.offers);
      AppendAssoc(sink, pending[..n], rest.written);
    } else {
      assert [] + [pending] == [pending];
    }
  }

  /** A call that accepts bytes within its slice: the whole of `pending` was
      offered, and the rest of the loop runs on what is left unconsumed. */
  lemma WriteSpecProgress<E>(script: seq<RawPoll<E>>, pending: seq<byte>)
    requires Count(Next(script)) != 0 && Count(Next(script)) <= |pending|
    ensures script != []
    ensures var n := Count(script[0]);
            var rest := WriteSpec(script[1..], pending[n..]);
            WriteSpec(script, pending) ==
            WriteRun([pending] + rest.offers, pending[..n] + rest.written, rest.rest,
                     rest.last, rest.unread, rest.fits)
  {
    var n := Count(Next(script));
    assert [] + [pending] == [pending] && [] + pending[..n] == pending[..n];
    WriteLoopAccumulates(Rest(script), pending[n..], [pending], pending[..n]);
  }

  /** Any other call ends the loop after offering `pending` once, and
      reports that call's outcome with nothing consumed. */
  lemma WriteSpecStop<E>(script: seq<RawPoll<E>>, pending: seq<byte>)
    requires !(Count(Next(script)) != 0 && Count(Next(script)) <= |pending|)
    ensures WriteSpec(script, pending) ==
            WriteRun([pending], [], pending, Next(script), Rest(script), Count(Next(script)) <= |pending|)
  {
    assert [] + [pending] == [pending];
  }

  /** The bytes accepted by the first `i` calls, counted. */
  ghost function Accepted<E>(script: seq<RawPoll<E>>, i: nat): nat
    requires i <= |script|
  {
    if i == 0 then 0 else Count(script[0]) + Accepted(script[1..], i - 1)
  }

  /** Nothing is lost or reordered: the bytes the stream holds followed by
      the bytes left unconsumed are the source's bytes, so what was written
      is a prefix of the source and the number moved is what the source
      lost. */
  lemma {:induction false} WriteConsumesPrefix<E>(script: seq<RawPoll<E>>, pending: seq<byte>)
    requires WriteFits(script, pending)
    ensures WriteSpec(script, pending).written + WriteSpec(script, pending).rest == pending
    decreases |script|
  {
    var n := Count(Next(script));
    if n != 0 && n <= |pending| {
      WriteSpecProgress(script, pending);
      WriteConsumesPrefix(script[1..], pending[n..]);
      var rest := WriteSpec(script[1..], pending[n..]);
      PrefixThenRest(pending, n, rest.written, rest.rest);
    } else {
      WriteSpecStop(script, pending);
    }
  }

  /** The number of bytes moved is the sum of the counts the stream
      accepted on the calls before the last one. */
  lemma {:induction false} WriteDeltaIsAccepted<E>(script: seq<RawPoll<E>>, pending: seq<byte>)
    requires WriteFits(script, pending)
    ensures |WriteSpec(script, pending).offers| - 1 <= |script|
    ensures WriteOutcome(WriteSpec(script, pending)).delta ==
            Accepted(script, |WriteSpec(script, pending).offers| - 1)
    decreases |script|
  {
    var n := Count(Next(script));
    if n != 0 && n <= |pending| {
      WriteSpecProgress(script, pending);
      WriteDeltaIsAccepted(script[1..], pending[n..]);
      var k := |WriteSpec(script, pending).offers| - 1;
      assert Accepted(script, k) == n + Accepted(script[1..], k - 1);
    } else {
      WriteSpecStop(script, pending);
    }
  }

  /** Every call before the last one accepted bytes: the loop goes on
      exactly while the stream makes progress. */
  lemma {:induction false} WriteEarlierCallsProgress<E>(script: seq<RawPoll<E>>, pending: seq<byte>)
    requires WriteFits(script, pending)
    ensures |WriteSpec(script, pending).offers| - 1 <= |script|
    ensures forall i :: 0 <= i < |WriteSpec(script, pending).offers| - 1 ==> Progress(script[i])
    decreases |script|
  {
    var n := Count(Next(script));
    if n != 0 && n <= |pending| {
      WriteSpecProgress(script, pending);
      WriteEarlierCallsProgress(script[1..], pending[n..]);
      forall i | 0 <= i < |WriteSpec(script, pending).offers| - 1
        ensures Progress(script[i])
      {
        if i > 0 {
          assert script[i] == script[1..][i - 1];
        }
      }
    } else {
      WriteSpecStop(script, pending);
    }
  }

  /** The loop stops at the first call that accepts nothing: the reported
      outcome is that call's, and the stream has used exactly one script
      step per call. */
  lemma {:induction false} WriteStopsAtFirstNonProgress<E>(script: seq<RawPoll<E>>, pending: seq<byte>)
    requires WriteFits(script, pending)
    ensures |WriteSpec(script, pending).offers| - 1 <= |script|
    ensures WriteSpec(script, pending).last == Next(Drop(script, |WriteSpec(script, pending).offers| - 1))
    ensures !Progress(WriteSpec(script, pending).last)
    ensures WriteSpec(script, pending).unread == Drop(script, |WriteSpec(script, pending).offers|)
    decreases |script|
  {
    var n := Count(Next(script));
    if n != 0 && n <= |pending| {
      WriteSpecProgress(script, pending);
      WriteStopsAtFirstNonProgress(script[1..], pending[n..]);
      var k' := |WriteSpec(script[1..], pending[n..]).offers|;
      assert Drop(script, k') == Drop(script[1..], k' - 1);
      assert Drop(script, k' + 1) == Drop(script[1..], k');
    } else {
      WriteSpecStop(script, pending);
    }
  }

  /** Every call is offered exactly the bytes still unconsumed: the source's
      bytes after those the earlier calls accepted. */
  lemma {:induction false} WriteOffersUnconsumed<E>(script: seq<RawPoll<E>>, pending: seq<byte>)
    requires WriteFits(script, pending)
    ensures forall i :: 0 <= i < |WriteSpec(script, pending).offers| ==>
              i <= |script| && Accepted(script, i) <= |pending| &&
              WriteSpec(script, pending).offers[i] == pending[Accepted(script, i)..]
    decreases |script|
  {
    WriteEarlierCallsProgress(script, pending);
    var n := Count(Next(script));
    if n != 0 && n <= |pending| {
      WriteSpecProgress(script, pending);
      WriteOffersUnconsumed(script[1..], pending[n..]);
      var r := WriteSpec(script, pending);
      var rest := WriteSpec(script[1..], pending[n..]);
      forall i | 0 < i < |r.offers|
        ensures i <= |script| && Accepted(script, i) <= |pending| &&
                r.offers[i] == pending[Accepted(script, i)..]
      {
        assert i <= |script|;
        assert r.offers[i] == rest.offers[i - 1];
        assert Accepted(script, i) == n + Accepted(script[1..], i - 1);
        assert pending[n..][Accepted(script[1..], i - 1)..] == pending[Accepted(script, i)..];
      }
    } else {
      WriteSpecStop(script, pending);
    }
  }

  /** Termination: each call that accepts bytes consumes at least one, so the
      loop calls the stream at most once more than there are bytes. */
  lemma {:induction false} WriteCallsBounded<E>(script: seq<RawPoll<E>>, pending: seq<byte>)
    requires WriteFits(script, pending)
    ensures |WriteSpec(script, pending).offers| <= |pending| + 1
    decreases |script|
  {
    var n := Count(Next(script));
    if n != 0 && n <= |pending| {
      WriteSpecProgress(script, pending);
      WriteCallsBounded(script[1..], pending[n..]);
    } else {
      WriteSpecStop(script, pending);
    }
  }

  /** The reported flag says the whole source was written: it is set exactly
      when what the stream holds is all of `pending`. */
  lemma WriteFlagMeansAllWritten<E>(script: seq<RawPoll<E>>, pending: seq<byte>)
    requires WriteFits(script, pending)
    ensures WriteOutcome(WriteSpec(script, pending)).ret ==
            RetReduce(WriteSpec(script, pending).last, WriteSpec(script, pending).written == pending)
    ensures WriteOutcome(WriteSpec(script, pending)).delta == |pending| - |WriteSpec(script, pending).rest|
  {
    WriteConsumesPrefix(script, pending);
  }

  /** An empty source still costs one stream call, offered the empty slice;
      its outcome is reported with the flag set and nothing is moved. */
  lemma WriteEmptySourceStillPolls<E>(script: seq<RawPoll<E>>)
    requires WriteFits(script, [])
    ensures WriteSpec(script, []).offers == [[]]
    ensures WriteSpec(script, []).written == []
    ensures WriteOutcome(WriteSpec(script, [])) == PollResult(0, RetReduce(Next(script), true))
  {
    WriteSpecStop(script, []);
  }

  /** A first step that accepts bytes, in a loop where the stream keeps its
      contract, fits its offer. */
  lemma WriteLoopAppendFits<E>(s1: seq<RawPoll<E>>, tail: seq<RawPoll<E>>, pending: seq<byte>,
                               offered: seq<seq<byte>>, sink: seq<byte>)
    requires s1 != [] && Count(s1[0]) != 0
    requires WriteLoop(s1 + tail, pending, offered, sink).fits
    ensures Count(s1[0]) <= |pending|
  {
    assert (s1 + tail)[0] == s1[0];
  }

  /** A first step that accepts bytes within its offer is followed by the
      rest of the loop, with its offer and bytes counted in the state. */
  lemma WriteLoopAppendUnfold<E>(s1: seq<RawPoll<E>>, tail: seq<RawPoll<E>>, pending: seq<byte>,
                                 offered: seq<seq<byte>>, sink: seq<byte>)
    requires s1 != [] && Count(s1[0]) != 0 && Count(s1[0]) <= |pending|
    ensures WriteLoop(s1 + tail, pending, offered, sink) ==
            WriteLoop(s1[1..] + tail, pending[Count(s1[0])..], offered + [pending],
                      sink + pending[..Count(s1[0])])
  {
    assert (s1 + tail)[0] == s1[0] && (s1 + tail)[1..] == s1[1..] + tail;
  }

  /** A call whose stream accepts bytes on every step of `s1` and is then
      not ready ends with `Pending`, provided the steps of `s1` fit their
      offers as they would in a call over `s1 + s2`. */
  lemma {:induction false} WritePendingEnds<E>(s1: seq<RawPoll<E>>, s2: seq<RawPoll<E>>, pending: seq<byte>,
                                               offered: seq<seq<byte>>, sink: seq<byte>)
    requires forall i :: 0 <= i < |s1| ==> Progress(s1[i])
    requires WriteLoop(s1 + s2, pending, offered, sink).fits
    ensures WriteLoop(s1 + [Pending], pending, offered, sink).fits
    ensures WriteLoop(s1 + [Pending], pending, offered, sink).last == Pending
    decreases |s1|
  {
    if s1 == [] {
      assert s1 + [Pending] == [Pending];
    } else {
      var n := Count(s1[0]);
      assert forall i :: 0 <= i < |s1[1..]| ==> Progress(s1[1..][i]);
      WriteLoopAppendFits(s1, s2, pending, offered, sink);
      WriteLoopAppendUnfold(s1, s2, pending, offered, sink);
      WriteLoopAppendUnfold(s1, [Pending], pending, offered, sink);
      WritePendingEnds(s1[1..], s2, pending[n..], offered + [pending], sink + pending[..n]);
    }
  }

  /** The second call over `s2` after a first call that ended as `first`:
      it starts from the bytes the first left unconsumed and the stream
      contents it left, with the offer of the `Pending` call taken out of
      the log. */
  ghost function WriteResumeAfter<E>(first: WriteRun<E>, s2: seq<RawPoll<E>>): WriteRun<E> {
    if |first.offers| >= 1 then
      WriteLoop(s2, first.rest, first.offers[..|first.offers| - 1], first.written)
    else
      first
  }

  /** Resuming after `Pending` is one continuous transfer: if the stream
      accepts bytes on every step of `s1` and is then not ready, a second
      call over the steps `s2`, started from the state the first left, ends
      exactly as one call over `s1 + s2` would have; the only trace of the
      interruption is the offer of the `Pending` call in the log. */
  lemma {:induction false} WriteResume<E>(s1: seq<RawPoll<E>>, s2: seq<RawPoll<E>>, pending: seq<byte>,
                                          offered: seq<seq<byte>>, sink: seq<byte>)
    requires forall i :: 0 <= i < |s1| ==> Progress(s1[i])
    requires WriteLoop(s1 + s2, pending, offered, sink).fits
    ensures WriteLoop(s1 + s2, pending, offered, sink) ==
            WriteResumeAfter(WriteLoop(s1 + [Pending], pending, offered, sink), s2)
    decreases |s1|
  {
    if s1 == [] {
      assert s1 + s2 == s2;
      assert s1 + [Pending] == [Pending];
      var first := WriteLoop<E>([Pending], pending, offered, sink);
      assert first == WriteRun(offered + [pending], sink, pending, Pending, [], true);
      assert first.offers[..|first.offers| - 1] == offered;
    } else {
      var n := Count(s1[0]);
      assert forall i :: 0 <= i < |s1[1..]| ==> Progress(s1[1..][i]);
      WriteLoopAppendFits(s1, s2, pending, offered, sink);
      WriteLoopAppendUnfold(s1, s2, pending, offered, sink);
      WriteLoopAppendUnfold(s1, [Pending], pending, offered, sink);
      WriteResume(s1[1..], s2, pending[n..], offered + [pending], sink + pending[..n]);
    }
  }

  /** `poll_write`: offers the unconsumed bytes of `input` to `output` until
      a call accepts nothing. */
  method PollWrite<E>(input: InBuf, output: ScriptedWriter<E>) returns (res: PollResult<E>)
    requires input.Valid()
    requires WriteFits(output.script, input.Bytes())
    modifies input, output
    ensures input.Valid()
    ensures var run := WriteSpec(old(output.script), old(input.Bytes()));
            res == WriteOutcome(run) &&
            input.Bytes() == run.rest &&
            output.sink == old(output.sink) + run.written &&
            output.offered == old(output.offered) + run.offers &&
            output.script == run.unread
  {
    var start := input.Remaining();
    ghost var spec := WriteSpec(output.script, input.Bytes());
    WriteLoopAccumulates(output.script, input.Bytes(), output.offered, output.sink);
    WriteConsumesPrefix(output.script, input.Bytes());
    ghost var run := WriteLoop(output.script, input.Bytes(), output.offered, output.sink);
    while true
      invariant input.Valid() && input.Remaining() <= start
      invariant run == WriteLoop(output.script, input.Bytes(), output.offered, output.sink)
      invariant run.fits
      decreases input.Remaining()
    {
      var r := output.PollWrite(input.Bytes());
      if Progress(r) {
        input.Advance(r.value.value);
      } else {
        res := PollResult(start - input.Remaining(), RetReduce(r, !input.HasRemaining()));
        assert run.rest == input.Bytes() && run.last == r;
        return;
      }
    }
  }
}
