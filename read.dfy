/** Inbound transfer (stream to buffer): `poll_read`. The loop reads through
    an 8192-byte staging array, appends every non-empty read to the
    destination, and stops at the first call that does not move bytes.

    `ReadLoop` is that loop as a function of the stream's script, the
    destination's remaining capacity `room`, the bytes `left` still allowed
    under the caller's limit, and the state built so far; `PollRead` is the
    loop itself, proved against it. */
module Read {
  import opened Outcome
  import opened Streams
  import opened Buffers

  /** The length of the staging array. */
  const STAGING: nat := 8192

  /** The size of the next read request: the smallest of the staging
      length, the remaining capacity and what the limit still allows. */
  function Request(room: nat, left: nat): (buflim: nat)
    ensures buflim <= STAGING && buflim <= room && buflim <= left
    ensures buflim == 0 <==> room == 0 || left == 0
  {
    Min3(STAGING, room, left)
  }

  /** The request size is the minimum of its three bounds: it is at most
      each of them and equal to one of them. */
  lemma RequestIsMinimum(room: nat, left: nat)
    ensures Request(room, left) <= STAGING && Request(room, left) <= room && Request(room, left) <= left
    ensures Request(room, left) == STAGING || Request(room, left) == room || Request(room, left) == left
  {
    Min3IsOneOf(STAGING, room, left);
  }

  /** The trace of a read loop: the length of every slice offered to the
      stream (`requests`), the destination's contents (`received`), the
      outcome of the call that ended the loop, the script the stream has
      not used yet, and whether the stream kept its contract on every call. */
  datatype ReadRun<E> = ReadRun(requests: seq<nat>, received: seq<byte>, last: RawPoll<E>,
                                unread: seq<ReadStep<E>>, fits: bool)

  /** The read loop, from the request log `log` and destination contents
      `contents` it starts with. A call that delivers bytes appends them and
      the loop goes on; any other call ends it. A call that delivers more
      than it was offered breaks the stream's contract and ends the trace
      with `fits` false. */
  ghost function ReadLoop<E>(script: seq<ReadStep<E>>, room: nat, left: nat,
                             log: seq<nat>, contents: seq<byte>): (r: ReadRun<E>)
    ensures |r.requests| > |log|
    decreases |script|
  {
    var buflim := Request(room, left);
    var o := Next(script);
    var d := Data(o);
    if d != [] && |d| <= buflim then
      ReadLoop(Rest(script), room - |d|, left - |d|, log + [buflim], contents + d)
    else
      ReadRun(log + [buflim], contents, Raw(o), Rest(script), |d| <= buflim)
  }

  /** The trace of one call that starts with nothing requested or received. */
  ghost function ReadSpec<E>(script: seq<ReadStep<E>>, room: nat, left: nat): (r: ReadRun<E>)
    ensures |r.requests| >= 1
  {
    ReadLoop(script, room, left, [], [])
  }

  /** The stream keeps its contract on every call the loop makes: no call
      offered a slice of length `buflim` delivers more than `buflim` bytes. */
  ghost predicate ReadFits<E>(script: seq<ReadStep<E>>, room: nat, left: nat) {
    ReadSpec(script, room, left).fits
  }

  /** What the call reports for a trace: the bytes moved, and the final
      outcome reduced with the flag "the final request had length zero". */
  ghost function ReadOutcome<E>(r: ReadRun<E>): (o: PollResult<E>)
    requires |r.requests| >= 1
    ensures o.delta == |r.received|
    ensures o.ret.Pending? <==> r.last.Pending?
    ensures r.last.Ready? && r.last.value.Ok? ==>
              (o.ret == Ready(Ok(true)) <==> r.requests[|r.requests| - 1] == 0)
  {
    PollResult(|r.received|, RetReduce(r.last, r.requests[|r.requests| - 1] == 0))
  }

  /** The state the loop starts from only prefixes the logs: the loop adds
      the same requests and bytes whatever came before. */
  lemma {:induction false} ReadLoopAccumulates<E>(script: seq<ReadStep<E>>, room: nat, left: nat,
                                                  log: seq<nat>, contents: seq<byte>)
    ensures var r := ReadSpec(script, room, left);
            ReadLoop(script, room, left, log, contents) ==
            ReadRun(log + r.requests, contents + r.received, r.last, r.unread, r.fits)
    decreases |script|
  {
    var buflim := Request(room, left);
    var d := Data(Next(script));
    if d != [] && |d| <= buflim {
      var rest := ReadSpec(Rest(script), room - |d|, left - |d|);
      ReadLoopAccumulates(Rest(script), room - |d|, left - |d|, log + [buflim], contents + d);
      ReadLoopAccumulates(Rest(script), room - |d|, left - |d|, [buflim], d);
      assert [] + [buflim] == [buflim] && [] + d == d;
      AppendAssoc(log, [buflim], rest.requests);
      AppendAssoc(contents, d, rest.received);
    } else {
      assert [] + [buflim] == [buflim];
    }
  }

  /** A call that delivers bytes within its slice: the first request is
      sized by `Request`, and the rest of the loop runs on the reduced
      capacity and limit. */
  lemma ReadSpecProgress<E>(script: seq<ReadStep<E>>, room: nat, left: nat)
    requires Data(Next(script)) != [] && |Data(Next(script))| <= Request(room, left)
    ensures script != []
    ensures var d := Data(script[0]);
            var rest := ReadSpec(script[1..], room - |d|, left - |d|);
            ReadSpec(script, room, left) ==
            ReadRun([Request(room, left)] + rest.requests, d + rest.received, rest.last, rest.unread, rest.fits)
  {
    var d := Data(Next(script));
    assert [] + [Request(room, left)] == [Request(room, left)] && [] + d == d;
    ReadLoopAccumulates(Rest(script), room - |d|, left - |d|, [Request(room, left)], d);
  }

  /** Any other call ends the loop after one request, sized by `Request`,
      and reports that call's outcome. */
  lemma ReadSpecStop<E>(script: seq<ReadStep<E>>, room: nat, left: nat)
    requires !(Data(Next(script)) != [] && |Data(Next(script))| <= Request(room, left))
    ensures ReadSpec(script, room, left) ==
            ReadRun([Request(room, left)], [], Raw(Next(script)), Rest(script),
                    |Data(Next(script))| <= Request(room, left))
  {
    assert [] + [Request(room, left)] == [Request(room, left)];
  }

  /** The bytes delivered by the first `i` calls, in order. */
  ghost function Delivered<E>(script: seq<ReadStep<E>>, i: nat): (d: seq<byte>)
    requires i <= |script|
  {
    if i == 0 then [] else Data(script[0]) + Delivered(script[1..], i - 1)
  }

  /** Every call before the last one delivered bytes: the loop goes on
      exactly while the stream makes progress. */
  lemma {:induction false} ReadEarlierCallsProgress<E>(script: seq<ReadStep<E>>, room: nat, left: nat)
    requires ReadFits(script, room, left)
    ensures |ReadSpec(script, room, left).requests| - 1 <= |script|
    ensures forall i :: 0 <= i < |ReadSpec(script, room, left).requests| - 1 ==> Progress(Raw(script[i]))
    decreases |script|
  {
    var d := Data(Next(script));
    if d != [] && |d| <= Request(room, left) {
      ReadSpecProgress(script, room, left);
      ReadEarlierCallsProgress(script[1..], room - |d|, left - |d|);
      forall i | 0 <= i < |ReadSpec(script, room, left).requests| - 1
        ensures Progress(Raw(script[i]))
      {
        if i > 0 {
          assert script[i] == script[1..][i - 1];
        }
      }
    } else {
      ReadSpecStop(script, room, left);
    }
  }

  /** The loop stops at the first call that moves no bytes: the reported
      outcome is that call's, and the stream has used exactly one script
      step per call. */
  lemma {:induction false} ReadStopsAtFirstNonProgress<E>(script: seq<ReadStep<E>>, room: nat, left: nat)
    requires ReadFits(script, room, left)
    ensures |ReadSpec(script, room, left).requests| - 1 <= |script|
    ensures ReadSpec(script, room, left).last == Raw(Next(Drop(script, |ReadSpec(script, room, left).requests| - 1)))
    ensures !Progress(ReadSpec(script, room, left).last)
    ensures ReadSpec(script, room, left).unread == Drop(script, |ReadSpec(script, room, left).requests|)
    decreases |script|
  {
    var d := Data(Next(script));
    if d != [] && |d| <= Request(room, left) {
      ReadSpecProgress(script, room, left);
      ReadStopsAtFirstNonProgress(script[1..], room - |d|, left - |d|);
      var k' := |ReadSpec(script[1..], room - |d|, left - |d|).requests|;
      assert Drop(script, k') == Drop(script[1..], k' - 1);
      assert Drop(script, k' + 1) == Drop(script[1..], k');
    } else {
      ReadSpecStop(script, room, left);
    }
  }

  /** The bytes appended to the destination are exactly those the calls
      before the last one delivered, in the order they were delivered. */
  lemma {:induction false} ReadReceivesDelivered<E>(script: seq<ReadStep<E>>, room: nat, left: nat)
    requires ReadFits(script, room, left)
    ensures var r := ReadSpec(script, room, left);
            |r.requests| - 1 <= |script| &&
            r.received == Delivered(script, |r.requests| - 1)
    decreases |script|
  {
    var d := Data(Next(script));
    if d != [] && |d| <= Request(room, left) {
      ReadSpecProgress(script, room, left);
      ReadReceivesDelivered(script[1..], room - |d|, left - |d|);
    } else {
      ReadSpecStop(script, room, left);
    }
  }

  /** Before each call the bytes already delivered fit in the capacity and
      the limit the call started with. */
  lemma {:induction false} ReadDeliveredWithin<E>(script: seq<ReadStep<E>>, room: nat, left: nat)
    requires ReadFits(script, room, left)
    ensures forall i :: 0 <= i < |ReadSpec(script, room, left).requests| ==>
              i <= |script| && |Delivered(script, i)| <= room && |Delivered(script, i)| <= left
    decreases |script|
  {
    ReadEarlierCallsProgress(script, room, left);
    var d := Data(Next(script));
    if d != [] && |d| <= Request(room, left) {
      ReadSpecProgress(script, room, left);
      ReadDeliveredWithin(script[1..], room - |d|, left - |d|);
      var rest := ReadSpec(script[1..], room - |d|, left - |d|);
      forall i | 0 < i < |ReadSpec(script, room, left).requests|
        ensures i <= |script| && |Delivered(script, i)| <= room && |Delivered(script, i)| <= left
      {
        assert i - 1 < |rest.requests|;
        assert |Delivered(script, i)| == |d| + |Delivered(script[1..], i - 1)|;
      }
    } else {
      ReadSpecStop(script, room, left);
    }
  }

  /** Request `i` is sized min(8192, capacity left, limit left), measured
      after the bytes the earlier calls delivered; so none exceeds the
      staging array, the destination's remaining capacity at that call, or
      what the caller's limit still allows at that call. */
  lemma {:induction false} ReadRequestsBounded<E>(script: seq<ReadStep<E>>, room: nat, left: nat, i: nat)
    requires ReadFits(script, room, left)
    requires i < |ReadSpec(script, room, left).requests|
    ensures i <= |script| && |Delivered(script, i)| <= room && |Delivered(script, i)| <= left
    ensures ReadSpec(script, room, left).requests[i] ==
            Request(room - |Delivered(script, i)|, left - |Delivered(script, i)|)
    decreases i
  {
    var d := Data(Next(script));
    if d != [] && |d| <= Request(room, left) {
      ReadSpecProgress(script, room, left);
      if i > 0 {
        ReadRequestsBounded(script[1..], room - |d|, left - |d|, i - 1);
        var before := |Delivered(script[1..], i - 1)|;
        assert |Delivered(script, i)| == |d| + before;
        assert room - |Delivered(script, i)| == (room - |d|) - before;
        assert left - |Delivered(script, i)| == (left - |d|) - before;
      }
    } else {
      ReadSpecStop(script, room, left);
    }
  }

  /** The call never moves more than the destination could take nor more
      than the caller's limit allowed. */
  lemma {:induction false} ReadDeltaBounded<E>(script: seq<ReadStep<E>>, room: nat, left: nat)
    requires ReadFits(script, room, left)
    ensures |ReadSpec(script, room, left).received| <= room
    ensures |ReadSpec(script, room, left).received| <= left
    decreases |script|
  {
    var d := Data(Next(script));
    if d != [] && |d| <= Request(room, left) {
      ReadSpecProgress(script, room, left);
      ReadDeltaBounded(script[1..], room - |d|, left - |d|);
    } else {
      ReadSpecStop(script, room, left);
    }
  }

  /** Termination: each call that moves bytes uses up at least one byte of
      capacity, and a call offered nothing cannot move bytes, so the loop
      calls the stream at most `room + 1` times whatever the stream does. */
  lemma {:induction false} ReadCallsBounded<E>(script: seq<ReadStep<E>>, room: nat, left: nat)
    requires ReadFits(script, room, left)
    ensures |ReadSpec(script, room, left).requests| <= room + 1
    decreases |script|
  {
    var d := Data(Next(script));
    if d != [] && |d| <= Request(room, left) {
      ReadSpecProgress(script, room, left);
      ReadCallsBounded(script[1..], room - |d|, left - |d|);
    } else {
      ReadSpecStop(script, room, left);
    }
  }

  /** The reported flag is "the final request had length zero", which holds
      exactly when the destination is full or the caller's limit is used up
      once the delivered bytes are counted: it does not tell the two apart. */
  lemma ReadFlagMeansFullOrLimit<E>(script: seq<ReadStep<E>>, room: nat, left: nat)
    requires ReadFits(script, room, left)
    ensures var r := ReadSpec(script, room, left);
            (r.requests[|r.requests| - 1] == 0) <==> (|r.received| == room || |r.received| == left)
  {
    ReadReceivesDelivered(script, room, left);
    ReadRequestsBounded(script, room, left, |ReadSpec(script, room, left).requests| - 1);
  }

  /** A destination that is already full, or a limit of zero, still costs one
      stream call with an empty slice; its outcome is reported with the flag
      set and nothing is moved. */
  lemma ReadWithNoRoomStillPolls<E>(script: seq<ReadStep<E>>, room: nat, left: nat)
    requires room == 0 || left == 0
    requires ReadFits(script, room, left)
    ensures ReadSpec(script, room, left).requests == [0]
    ensures ReadSpec(script, room, left).received == []
    ensures ReadOutcome(ReadSpec(script, room, left)) == PollResult(0, RetReduce(Raw(Next(script)), true))
  {
    ReadSpecStop(script, room, left);
  }

  /** A first step that delivers bytes, in a loop where the stream keeps
      its contract, fits its request. */
  lemma ReadLoopAppendFits<E>(s1: seq<ReadStep<E>>, tail: seq<ReadStep<E>>, room: nat, left: nat,
                              log: seq<nat>, contents: seq<byte>)
    requires s1 != [] && Data(s1[0]) != []
    requires ReadLoop(s1 + tail, room, left, log, contents).fits
    ensures |Data(s1[0])| <= Request(room, left)
  {
    assert (s1 + tail)[0] == s1[0];
  }

  /** A first step that delivers bytes within its request is followed by
      the rest of the loop, with its bytes and request counted in the state. */
  lemma ReadLoopAppendUnfold<E>(s1: seq<ReadStep<E>>, tail: seq<ReadStep<E>>, room: nat, left: nat,
                                log: seq<nat>, contents: seq<byte>)
    requires s1 != [] && Data(s1[0]) != [] && |Data(s1[0])| <= Request(room, left)
    ensures ReadLoop(s1 + tail, room, left, log, contents) ==
            ReadLoop(s1[1..] + tail, room - |Data(s1[0])|, left - |Data(s1[0])|,
                     log + [Request(room, left)], contents + Data(s1[0]))
  {
    assert (s1 + tail)[0] == s1[0] && (s1 + tail)[1..] == s1[1..] + tail;
  }

  /** A call whose stream delivers bytes on every step of `s1` and is then
      not ready ends with `Pending`, having kept within the capacity and the
      limit, provided the steps of `s1` fit their requests as they would in
      a call over `s1 + s2`. */
  lemma {:induction false} ReadPendingEnds<E>(s1: seq<ReadStep<E>>, s2: seq<ReadStep<E>>, room: nat, left: nat,
                                              log: seq<nat>, contents: seq<byte>)
    requires forall i :: 0 <= i < |s1| ==> Progress(Raw(s1[i]))
    requires ReadLoop(s1 + s2, room, left, log, contents).fits
    ensures ReadLoop(s1 + [Pending], room, left, log, contents).fits
    ensures ReadLoop(s1 + [Pending], room, left, log, contents).last == Pending
    ensures |contents| <= |ReadLoop(s1 + [Pending], room, left, log, contents).received|
    ensures |ReadLoop(s1 + [Pending], room, left, log, contents).received| - |contents| <= room
    ensures |ReadLoop(s1 + [Pending], room, left, log, contents).received| - |contents| <= left
    decreases |s1|
  {
    if s1 == [] {
      assert s1 + [Pending] == [Pending];
    } else {
      var d := Data(s1[0]);
      assert Progress(Raw(s1[0]));
      assert forall i :: 0 <= i < |s1[1..]| ==> Progress(Raw(s1[1..][i]));
      ReadLoopAppendFits(s1, s2, room, left, log, contents);
      ReadLoopAppendUnfold(s1, s2, room, left, log, contents);
      ReadLoopAppendUnfold(s1, [Pending], room, left, log, contents);
      ReadPendingEnds(s1[1..], s2, room - |d|, left - |d|, log + [Request(room, left)], contents + d);
    }
  }

  /** The trace of a second call over `s2` that resumes the first call over
      `s1 + [Pending]`: it starts from the destination the first left, with
      the capacity and the limit reduced by what the first moved, and with
      the request of the `Pending` call taken out of the log. */
  ghost function Resumed<E>(s1: seq<ReadStep<E>>, s2: seq<ReadStep<E>>, room: nat, left: nat,
                            log: seq<nat>, contents: seq<byte>): ReadRun<E>
  {
    ResumeAfter(ReadLoop(s1 + [Pending], room, left, log, contents), s2, room, left, contents)
  }

  /** The second call over `s2` after a first call, from capacity `room` and
      limit `left` and destination `contents`, that ended as `first`. */
  ghost function ResumeAfter<E>(first: ReadRun<E>, s2: seq<ReadStep<E>>, room: nat, left: nat,
                                contents: seq<byte>): ReadRun<E>
  {
    var moved := |first.received| - |contents|;
    if 0 <= moved <= room && moved <= left && |first.requests| >= 1 then
      ReadLoop(s2, room - moved, left - moved, first.requests[..|first.requests| - 1], first.received)
    else
      first
  }

  /** Counting delivered bytes `d` in the first call's starting state does
      not change where the second call starts. */
  lemma ResumeAfterShift<E>(first: ReadRun<E>, s2: seq<ReadStep<E>>, room: nat, left: nat,
                            contents: seq<byte>, d: seq<byte>)
    requires |d| <= room && |d| <= left
    requires |contents + d| <= |first.received|
    ensures ResumeAfter(first, s2, room, left, contents) ==
            ResumeAfter(first, s2, room - |d|, left - |d|, contents + d)
  {
    var moved := |first.received| - |contents|;
    var moved' := |first.received| - |contents + d|;
    assert moved == |d| + moved';
    assert room - moved == room - |d| - moved';
    assert left - moved == left - |d| - moved';
  }

  /** With nothing delivered before `Pending`, `Resumed` is the loop over
      `s2` from the unchanged state. */
  lemma ResumedEmpty<E>(s2: seq<ReadStep<E>>, room: nat, left: nat, log: seq<nat>, contents: seq<byte>)
    ensures Resumed([], s2, room, left, log, contents) == ReadLoop(s2, room, left, log, contents)
  {
    var empty: seq<ReadStep<E>> := [];
    assert empty + [Pending] == [Pending];
    ReadLoopPendingOnly<E>(room, left, log, contents);
    var first := ReadLoop<E>([Pending], room, left, log, contents);
    ResumeAfterNothingMoved(first, s2, room, left, contents);
    assert first.requests[..|first.requests| - 1] == log;
  }

  /** When the first call moved nothing, the second starts from the same
      capacity and limit. */
  lemma ResumeAfterNothingMoved<E>(first: ReadRun<E>, s2: seq<ReadStep<E>>, room: nat, left: nat,
                                   contents: seq<byte>)
    requires |first.received| == |contents| && |first.requests| >= 1
    ensures ResumeAfter(first, s2, room, left, contents) ==
            ReadLoop(s2, room, left, first.requests[..|first.requests| - 1], first.received)
  {
  }

  /** A call whose stream is not ready at once makes one request and
      changes nothing. */
  lemma ReadLoopPendingOnly<E>(room: nat, left: nat, log: seq<nat>, contents: seq<byte>)
    ensures ReadLoop<E>([Pending], room, left, log, contents) ==
            ReadRun(log + [Request(room, left)], contents, Pending, [], true)
  {
  }

  /** `Resumed` over `s1` is `Resumed` over its tail, once the first step's
      bytes and request are counted in the state. */
  lemma ResumedStep<E>(s1: seq<ReadStep<E>>, s2: seq<ReadStep<E>>, room: nat, left: nat,
                       log: seq<nat>, contents: seq<byte>)
    requires s1 != [] && Data(s1[0]) != [] && |Data(s1[0])| <= Request(room, left)
    requires |contents + Data(s1[0])| <=
             |ReadLoop(s1[1..] + [Pending], room - |Data(s1[0])|, left - |Data(s1[0])|,
                       log + [Request(room, left)], contents + Data(s1[0])).received|
    ensures Resumed(s1, s2, room, left, log, contents) ==
            Resumed(s1[1..], s2, room - |Data(s1[0])|, left - |Data(s1[0])|,
                    log + [Request(room, left)], contents + Data(s1[0]))
  {
    var d := Data(s1[0]);
    ReadLoopAppendUnfold(s1, [Pending], room, left, log, contents);
    var first := ReadLoop(s1[1..] + [Pending], room - |d|, left - |d|, log + [Request(room, left)], contents + d);
    ResumeAfterShift(first, s2, room, left, contents, d);
  }

  /** Resuming after `Pending` is one continuous transfer: after a call that
      ended as `ReadPendingEnds` describes, a second call over the steps
      `s2`, started from the state the first left (with the limit reduced by
      what the first moved), ends exactly as one call over `s1 + s2` would
      have; the only trace of the interruption is the request of the
      `Pending` call in the log. */
  lemma {:induction false} ReadResume<E>(s1: seq<ReadStep<E>>, s2: seq<ReadStep<E>>, room: nat, left: nat,
                                         log: seq<nat>, contents: seq<byte>)
    requires forall i :: 0 <= i < |s1| ==> Progress(Raw(s1[i]))
    requires ReadLoop(s1 + s2, room, left, log, contents).fits
    ensures ReadLoop(s1 + s2, room, left, log, contents) == Resumed(s1, s2, room, left, log, contents)
    decreases |s1|
  {
    if s1 == [] {
      assert s1 + s2 == s2;
      ResumedEmpty(s2, room, left, log, contents);
    } else {
      var d := Data(s1[0]);
      var b := Request(room, left);
      assert Progress(Raw(s1[0]));
      assert forall i :: 0 <= i < |s1[1..]| ==> Progress(Raw(s1[1..][i]));
      ReadLoopAppendFits(s1, s2, room, left, log, contents);
      ReadLoopAppendUnfold(s1, s2, room, left, log, contents);
      ReadResume(s1[1..], s2, room - |d|, left - |d|, log + [b], contents + d);
      ReadPendingEnds(s1[1..], s2, room - |d|, left - |d|, log + [b], contents + d);
      ResumedStep(s1, s2, room, left, log, contents);
    }
  }

  /** One turn of the loop: one stream read into the staging array's first
      `buflim` bytes, whose delivered bytes, if any, are appended to the
      destination. */
  method ReadAttempt<E>(input: ScriptedReader<E>, output: OutBuf, rdbuf: array<byte>, buflim: nat)
    returns (r: RawPoll<E>)
    requires output.Valid() && buflim <= rdbuf.Length && buflim <= output.RemainingMut()
    requires ReadStepFits(Next(input.script), buflim)
    modifies input, output, rdbuf
    ensures output.Valid()
    ensures r == Raw(Next(old(input.script)))
    ensures input.script == Rest(old(input.script))
    ensures input.requested == old(input.requested) + [buflim]
    ensures output.contents == old(output.contents) + Data(Next(old(input.script)))
  {
    r := input.PollRead(rdbuf, buflim);
    if Progress(r) {
      output.PutSlice(rdbuf[..r.value.value]);
    }
  }

  /** `poll_read`: moves bytes from `input` into `output`, at most
      `deltaLimit` of them, through an 8192-byte staging array. */
  method PollRead<E>(input: ScriptedReader<E>, output: OutBuf, deltaLimit: nat) returns (res: PollResult<E>)
    requires output.Valid()
    requires ReadFits(input.script, output.RemainingMut(), deltaLimit)
    modifies input, output
    ensures output.Valid()
    ensures var run := ReadSpec(old(input.script), old(output.RemainingMut()), deltaLimit);
            |run.requests| >= 1 &&
            res == ReadOutcome(run) &&
            output.contents == old(output.contents) + run.received &&
            input.requested == old(input.requested) + run.requests &&
            input.script == run.unread
  {
    var rdbuf := new byte[STAGING];
    var start := output.RemainingMut();
    ghost var spec := ReadSpec(input.script, start, deltaLimit);
    ReadLoopAccumulates(input.script, start, deltaLimit, input.requested, output.contents);
    ghost var run := ReadLoop(input.script, start, deltaLimit, input.requested, output.contents);
    while true
      invariant output.Valid() && rdbuf.Length == STAGING
      invariant output.RemainingMut() <= start && start - output.RemainingMut() <= deltaLimit
      invariant run == ReadLoop(input.script, output.RemainingMut(), deltaLimit - (start - output.RemainingMut()),
                                input.requested, output.contents)
      invariant run.fits
      decreases output.RemainingMut()
    {
      var buflim := Min3(rdbuf.Length, output.RemainingMut(), deltaLimit - (start - output.RemainingMut()));
      var r := ReadAttempt(input, output, rdbuf, buflim);
      if !Progress(r) {
        res := PollResult(start - output.RemainingMut(), RetReduce(r, buflim == 0));
        assert run.requests == input.requested && run.last == r;
        assert spec.requests[|spec.requests| - 1] == run.requests[|run.requests| - 1] == buflim;
        return;
      }
    }
  }
}
