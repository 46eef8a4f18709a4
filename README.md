# poll-buf-utils, modelled in Dafny

poll-buf-utils moves bytes in resumable steps. It moves them between `bytes` buffers and non-blocking `futures_io` streams. It has two transfer operations:

- `poll_read` reads from a stream into a destination buffer (`BufMut`). It reads through an 8192-byte staging array. It sizes every request as the smallest of three numbers: 8192, the destination's remaining capacity, and the bytes still allowed under the caller's `delta_limit`.
- `poll_write` offers the source buffer's unconsumed bytes (`Buf`) to a stream. It advances the source's cursor past whatever the stream accepted.

Each operation loops only while the stream makes progress. Progress means a ready, successful call that moved a non-zero number of bytes. The first call that does anything else ends the loop, and its outcome is reported. The report is a `PollResult`: the number of bytes moved (`delta`) and the final outcome. `ret_reduce` reduces that outcome: it drops the byte count and puts a "limit reached" flag in its place.

The project has five modules:

- `Outcome` (outcome.dfy) holds:
  - `Poll`, `IoResult` and `PollResult`
  - the progress test (`Progress`, `Count`)
  - `RetReduce`
- `Buffers` (buffers.dfy) holds two classes:
  - `OutBuf`: the destination, with its contents and a fixed capacity, plus `RemainingMut` and `PutSlice`.
  - `InBuf`: the source, with fixed data and a cursor, plus `Remaining`, `HasRemaining`, `Bytes` and `Advance`.
- `Streams` (streams.dfy) holds the two streams. Each is a class that answers every call with the next outcome of a script. A script that is used up answers `Pending`. Ghost logs record every slice each stream was offered.
  - A read outcome carries the bytes the stream delivers.
  - A write outcome carries how many leading bytes the stream accepts.
- `Read` (read.dfy) covers `poll_read`:
  - `ReadLoop`/`ReadSpec` state, as a function, what the loop does to a script.
  - `PollRead` is the loop, with its `while` loop and staging array, proved against `ReadSpec`.
  - Lemmas about `ReadSpec` state what the crate promises.
- `Write` (write.dfy) covers `poll_write` in the same way: `WriteLoop`/`WriteSpec` and `PollWrite`.

The crate's header comment (src/lib.rs:7-9) states its assumption: only `Ready(Ok(n))` with `n != 0` moves bytes, and any other outcome moves none. The model builds this assumption into the stream's contract. It adds the bound the code relies on: a call never moves more bytes than the slice it was offered. The model states this bound over a whole call as `ReadFits`/`WriteFits`, and each operation requires it.

The code behaves as follows where a natural reading of the operations would expect otherwise. The model follows the code.

- `poll_read` calls the stream even when the request size is zero (src/lib.rs:55). This happens when the destination is full or the limit is used up. The outcome of that zero-length call is what gets reported. `Read.ReadWithNoRoomStillPolls` states it.
- The read flag is `buflim == 0` (src/lib.rs:64). It is therefore true when the destination is full as well as when the caller's limit is reached, and it cannot tell the two apart. `Read.ReadFlagMeansFullOrLimit` states it.
- `poll_write` calls the stream even when the source is empty (src/lib.rs:77-78). It makes one call with an empty slice, and the reported outcome is that call's. `Write.WriteEmptySourceStillPolls` states it.

## Model

| member | source | states |
|---|---|---|
| Outcome.Progress | src/lib.rs:57 | the guard `Ready(Ok(n)) if n != 0` on which both loops continue: ready, successful and a non-zero count |
| Outcome.Count | src/lib.rs:7-9 | a call's byte count is non-zero exactly when the call made progress (ready, successful, bytes moved) |
| Outcome.RetReduce | src/lib.rs:16-21 | `Pending` stays `Pending`; an error passes through unchanged; any success becomes `Ready(Ok(flag))`, the count dropped |
| Outcome.RetReduceForgetsOnlyCount | src/lib.rs:16-21 | two raw outcomes reduce alike under the same flag iff they agree on everything except the success count |
| Buffers.OutBuf.RemainingMut | src/lib.rs:45 | remaining capacity plus current length is the buffer's capacity |
| Buffers.OutBuf.PutSlice | src/lib.rs:57 | appends the slice to the contents and lowers the remaining capacity by its length |
| Buffers.InBuf.Bytes | src/lib.rs:78 | the chunk offered to the stream is the unconsumed bytes: the data is the consumed part followed by it |
| Buffers.InBuf.Remaining | src/lib.rs:76 | the remaining count is the length of the unconsumed bytes |
| Buffers.InBuf.HasRemaining | src/lib.rs:87 | true exactly when the remaining count is non-zero |
| Buffers.InBuf.Advance | src/lib.rs:80 | moves the cursor by `n`; the unconsumed bytes lose exactly their first `n` |
| Streams.Raw | src/lib.rs:55 | a successful read call reports `Ok` with the number of bytes it delivered; an error passes through unchanged; it is pending exactly when the step is |
| Streams.ScriptedReader.PollRead | src/lib.rs:55 | one read call: reports the next scripted outcome, fills the slice's front with the delivered bytes, logs the slice length |
| Streams.ScriptedWriter.PollWrite | src/lib.rs:78 | one write call: reports the next scripted outcome, the stream takes the accepted prefix of the slice, logs the slice |
| Read.Request | src/lib.rs:47-54 | the request size is at most 8192, the remaining capacity and the limit left, and is zero exactly when capacity or limit is used up |
| Read.RequestIsMinimum | src/lib.rs:47-54 | the request size is the minimum of 8192, the remaining capacity and the limit left: at most each and equal to one of them |
| Read.ReadLoop | src/lib.rs:46-68 | the loop from a given request log and destination contents; every run makes at least one request more than the log it starts from |
| Read.ReadSpec | src/lib.rs:44-68 | one call from nothing requested or received; every call makes at least one request, even when the request size is zero |
| Read.ReadOutcome | src/lib.rs:62-65 | `delta` is the number of bytes received; `ret` is pending exactly when the last call was; on success the flag is set exactly when the last request had size zero |
| Read.ReadLoopAccumulates | src/lib.rs:46-68 | the loop only appends to the request log and the destination contents it starts from |
| Read.ReadSpecProgress | src/lib.rs:55-57 | a call that delivers bytes within its request appends them and the loop continues with capacity and limit lowered by their number |
| Read.ReadLoopPendingOnly | src/lib.rs:61-66 | a stream that is not ready at once gets one request and leaves the destination unchanged |
| Read.ReadSpecStop | src/lib.rs:61-66 | any other call ends the loop after exactly that one request, reporting that call's outcome |
| Read.ReadEarlierCallsProgress | src/lib.rs:55-57 | every call before the final one made progress |
| Read.ReadStopsAtFirstNonProgress | src/lib.rs:55-66 | the reported outcome is the first one without progress, and the stream is left with exactly the later steps |
| Read.ReadReceivesDelivered | src/lib.rs:55-63 | the destination gains exactly the bytes delivered before the final call, in order, so `delta` is their total |
| Read.ReadDeliveredWithin | src/lib.rs:45-50 | before every call the bytes moved so far are within the capacity and the limit, so `start - remaining_mut` and the limit subtraction never underflow |
| Read.ReadRequestsBounded | src/lib.rs:44-55 | for every request `i`: it is `Request` of the capacity and limit left after the bytes the first `i` calls delivered, and those bytes fit within both |
| Read.ReadDeltaBounded | src/lib.rs:63 | `delta` is at most the starting remaining capacity and at most `delta_limit` |
| Read.ReadCallsBounded | src/lib.rs:46-57 | the loop makes at most `remaining capacity + 1` calls, so it terminates |
| Read.ReadFlagMeansFullOrLimit | src/lib.rs:64 | the flag is true iff the bytes moved fill the capacity or reach `delta_limit` |
| Read.ReadWithNoRoomStillPolls | src/lib.rs:47-64 | a full destination or a zero limit still issues one zero-length read; `delta` is 0 and the flag is true |
| Read.ReadLoopAppendFits | src/lib.rs:55-57 | under the stream's contract a call that delivers bytes delivers at most its request |
| Read.ReadLoopAppendUnfold | src/lib.rs:55-57 | a progressing first call is followed by the loop over the remaining steps |
| Read.ReadPendingEnds | src/lib.rs:61-66 | a call whose stream progresses and is then not ready returns `Pending` within capacity and limit |
| Read.ReadResume | src/lib.rs:33-69 | after a `Pending`, a new call with the capacity and limit that remain ends as one uninterrupted call would have |
| Read.ReadAttempt | src/lib.rs:55-57 | one loop turn: the stream read into the staging array; delivered bytes are appended to the destination |
| Read.PollRead | src/lib.rs:34-69 | the call's `delta` and `ret`, the new destination contents, the requests issued and the stream's remaining steps are those of `ReadSpec` |
| Write.WriteLoop | src/lib.rs:77-91 | the loop from a given offer log and stream contents; every run makes at least one offer more than the log it starts from |
| Write.WriteSpec | src/lib.rs:76-91 | one call from nothing offered or written; every call offers at least once, even when the source is empty |
| Write.WriteOutcome | src/lib.rs:85-88 | `delta` is the number of bytes written; `ret` is pending exactly when the last call was; on success the flag is set exactly when nothing is left unconsumed |
| Write.WriteLoopAccumulates | src/lib.rs:77-91 | the loop only appends to the offer log and the stream contents it starts from |
| Write.WriteSpecProgress | src/lib.rs:78-80 | a call that accepts `n` bytes consumes exactly the first `n`; the loop continues on the rest |
| Write.WriteSpecStop | src/lib.rs:84-88 | any other call ends the loop after offering the unconsumed bytes once, reporting that call's outcome |
| Write.WriteConsumesPrefix | src/lib.rs:78-80 | the bytes the stream received followed by the bytes still unconsumed are the initial unconsumed bytes: a prefix is consumed in order |
| Write.WriteDeltaIsAccepted | src/lib.rs:76-86 | `delta` is the sum of the counts the stream accepted on the calls before the last one |
| Write.WriteEarlierCallsProgress | src/lib.rs:78-80 | every call before the final one made progress |
| Write.WriteStopsAtFirstNonProgress | src/lib.rs:78-88 | the reported outcome is the first one without progress, and the stream is left with exactly the later steps |
| Write.WriteOffersUnconsumed | src/lib.rs:78 | call `i` is offered exactly the bytes left after the counts accepted by the first `i` calls |
| Write.WriteCallsBounded | src/lib.rs:77-80 | the loop makes at most `remaining + 1` calls, so it terminates |
| Write.WriteFlagMeansAllWritten | src/lib.rs:86-87 | the flag is true iff everything was written; `delta` is `start` minus what remains |
| Write.WriteEmptySourceStillPolls | src/lib.rs:76-87 | an empty source still issues one write with an empty slice; `delta` is 0 and the flag is true |
| Write.WriteLoopAppendFits | src/lib.rs:78-80 | under the stream's contract a call that accepts bytes accepts at most those offered |
| Write.WriteLoopAppendUnfold | src/lib.rs:78-80 | a progressing first call is followed by the loop over the remaining steps |
| Write.WritePendingEnds | src/lib.rs:84-88 | a call whose stream progresses and is then not ready returns `Pending` |
| Write.WriteResume | src/lib.rs:71-92 | after a `Pending`, a new call on the same source ends as one uninterrupted call would have |
| Write.PollWrite | src/lib.rs:71-92 | the call's `delta` and `ret`, the source's unconsumed bytes, what the stream received, the slices offered and the stream's remaining steps are those of `WriteSpec` |

## Left out

- `Pin`, `Context` and wakers (src/lib.rs:13-14, 35-37, 71) carry no logic of the transfer loops. The stream is a scripted oracle instead, and an exhausted script answers `Pending` forever.
- The `AsyncRead`/`AsyncWrite` and `Buf`/`BufMut` traits are foreign, so the model uses concrete classes. `Buf::bytes` may return any non-empty prefix of the unconsumed bytes as its chunk; the model always offers the whole unconsumed rest.
- `std::io::Error` is the opaque type parameter `E`, passed through unchanged.
- The `Debug` derive on `PollResult` is formatting only.
- A stream that reports more bytes than its slice held is not modelled. Each operation instead requires `ReadFits`/`WriteFits`: the stream keeps that bound on every call of the transfer. Without the bound the crate behaves as follows.
  - In `poll_write`, `advance` past the end of the source may panic.
  - In `poll_read`, a count up to 8192 is still a valid index into the staging array (src/lib.rs:44, 57), so no panic occurs there. Instead, stale staging bytes are appended to the destination.
  - The overshoot may surface in the buffer's own `put_slice`. It may also surface in the limit subtraction at src/lib.rs:50, which panics in debug builds. In release builds that subtraction wraps, and the limit is silently exceeded.
- `usize` is modelled as `nat`. Every subtraction the code does is proved not to underflow (`Read.ReadDeliveredWithin`, `Read.ReadDeltaBounded`, `Write.WriteConsumesPrefix`), so no wrap-around arises.
- The bytes a read call leaves past its count in the staging array are not modelled; the code never reads them.
