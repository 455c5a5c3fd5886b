/** The resumable chunked upload, as a pure specification: one chunk step
    (size the chunk, check the read, build the range, advance the cursor,
    report progress, classify the reply) and the loop that repeats it
    until a reply ends the upload. */
module ChunkProtocol {
  import opened Wrappers
  import opened ContentRange
  import opened Decimal

  /** Bytes per chunk; every chunk but the last has exactly this size. */
  const ChunkSize: nat := 262144

  const StatusResumeIncomplete: int := 308
  const StatusOk: int := 200
  const StatusCreated: int := 201

  /** `min(size - offset, ChunkSize)`: a full chunk while that many bytes
      remain, otherwise everything that is left. */
  function NextChunkSize(size: nat, offset: nat): (c: int)
    ensures offset <= size ==> 0 <= c <= ChunkSize && offset + c <= size
    ensures size - offset >= ChunkSize ==> c == ChunkSize
    ensures size - offset < ChunkSize ==> c == size - offset
  {
    if size - offset < ChunkSize then size - offset else ChunkSize
  }

  /** How the uploader reads the status of a chunk's reply. */
  datatype ChunkStatus = Incomplete | Complete | Unexpected

  function Classify(status: int): (c: ChunkStatus)
    ensures c == Incomplete <==> status == StatusResumeIncomplete
    ensures c == Complete <==> status == StatusOk || status == StatusCreated
  {
    if status == StatusResumeIncomplete then Incomplete
    else if status == StatusOk || status == StatusCreated then Complete
    else Unexpected
  }

  /** What reading the next chunk from the file gave. */
  datatype ReadOutcome = BytesRead(count: nat) | ReadFailed

  /** What the PUT of a chunk gave: a reply (its status and, on success,
      the id of the created video) or a failed transport. */
  datatype PutOutcome = Reply(status: int, body: string) | TransportFailed

  /** Everything the outside world decides during one step. */
  datatype Response = Response(read: ReadOutcome, put: PutOutcome)

  datatype UploadError =
    | ReadError
    | ShortRead(expected: int, actual: nat)
    | TransportError
    | UnexpectedStatus(status: int)

  /** The value of one chunk upload: not done yet, done with the created
      video's id, or failed. */
  datatype ChunkResult = NotDone | Done(id: string) | Failed(error: UploadError)

  datatype Progress = Progress(uploadedBytes: nat, totalBytes: nat)

  /** One step: its result, the cursor afterwards, the range of the PUT it
      sent (if it got that far) and the progress event it emitted (if any). */
  datatype StepOutcome = StepOutcome(
    result: ChunkResult,
    offset: nat,
    put: Option<ByteRange>,
    progress: Option<Progress>)

  /** One chunk upload from cursor `offset` of a file of `size` bytes. */
  function Step(size: nat, offset: nat, r: Response): (s: StepOutcome)
    requires offset <= size
    ensures offset <= s.offset <= size
    ensures s.put.Some? ==>
      && s.put.value.first == offset
      && s.put.value.last + 1 == s.offset
      && s.put.value.completeLength == size
    ensures s.put.None? ==> s.offset == offset && s.result.Failed? && s.progress.None?
    ensures s.progress.Some? <==> s.put.Some? && r.put.Reply?
    ensures s.progress.Some? ==> s.progress.value == Progress(s.offset, size)
    ensures s.result.NotDone? ==> r.put.Reply? && r.put.status == StatusResumeIncomplete
    ensures s.result.Done? ==>
      r.put.Reply? && (r.put.status == StatusOk || r.put.status == StatusCreated) && s.result.id == r.put.body
    ensures r.read.ReadFailed? ==> s == StepOutcome(Failed(ReadError), offset, None, None)
    ensures r.read.BytesRead? && r.read.count != NextChunkSize(size, offset) ==>
      s == StepOutcome(Failed(ShortRead(NextChunkSize(size, offset), r.read.count)), offset, None, None)
    ensures r.read == BytesRead(NextChunkSize(size, offset)) ==>
      && s.offset == offset + NextChunkSize(size, offset)
      && s.put == Some(ByteRange(offset, offset + NextChunkSize(size, offset) - 1, size))
      && (r.put.TransportFailed? ==> s.result == Failed(TransportError))
      && (r.put.Reply? ==>
        && (s.result.NotDone? <==> r.put.status == StatusResumeIncomplete)
        && (s.result == Done(r.put.body) <==> r.put.status == StatusOk || r.put.status == StatusCreated)
        && (s.result == Failed(UnexpectedStatus(r.put.status)) <==>
              r.put.status != StatusResumeIncomplete && r.put.status != StatusOk && r.put.status != StatusCreated))
  {
    var chunk := NextChunkSize(size, offset);
    match r.read
    case ReadFailed => StepOutcome(Failed(ReadError), offset, None, None)
    case BytesRead(n) =>
      if n != chunk then StepOutcome(Failed(ShortRead(chunk, n)), offset, None, None)
      else
        var range := ByteRange(offset, offset + chunk - 1, size);
        var next := offset + chunk;
        match r.put
        case TransportFailed => StepOutcome(Failed(TransportError), next, Some(range), None)
        case Reply(status, body) =>
          var result := match Classify(status)
            case Incomplete => NotDone
            case Complete => Done(body)
            case Unexpected => Failed(UnexpectedStatus(status));
          StepOutcome(result, next, Some(range), Some(Progress(next, size)))
  }

  /** A run of the loop: its final result (NotDone when the responses ran
      out with the loop still going), the final cursor, every PUT range and
      progress event in order, and how many responses it consumed. */
  datatype RunOutcome = RunOutcome(
    result: ChunkResult,
    offset: nat,
    puts: seq<ByteRange>,
    progress: seq<Progress>,
    steps: nat)

  /** `o` preceded by a stretch of earlier steps. */
  function Prepend(puts: seq<ByteRange>, progress: seq<Progress>, steps: nat, o: RunOutcome): RunOutcome {
    RunOutcome(o.result, o.offset, puts + o.puts, progress + o.progress, steps + o.steps)
  }

  /** Prepending two stretches in turn is prepending them joined. */
  lemma PrependPrepend(
    puts1: seq<ByteRange>, progress1: seq<Progress>, steps1: nat,
    puts2: seq<ByteRange>, progress2: seq<Progress>, steps2: nat,
    o: RunOutcome)
    ensures Prepend(puts1, progress1, steps1, Prepend(puts2, progress2, steps2, o))
      == Prepend(puts1 + puts2, progress1 + progress2, steps1 + steps2, o)
  {
    assert puts1 + (puts2 + o.puts) == (puts1 + puts2) + o.puts;
    assert progress1 + (progress2 + o.progress) == (progress1 + progress2) + o.progress;
  }

  /** The loop: step while the result is NotDone. */
  function Run(size: nat, offset: nat, rs: seq<Response>): (o: RunOutcome)
    requires offset <= size
    ensures offset <= o.offset <= size
    ensures o.steps <= |rs|
    ensures o.result.NotDone? ==> o.steps == |rs|
    ensures !o.result.NotDone? ==> o.steps >= 1
    ensures |o.progress| <= |o.puts| <= o.steps
    decreases |rs|
  {
    if rs == [] then RunOutcome(NotDone, offset, [], [], 0)
    else
      var s := Step(size, offset, rs[0]);
      if s.result.NotDone? then Prepend(ToSeq(s.put), ToSeq(s.progress), 1, Run(size, s.offset, rs[1..]))
      else RunOutcome(s.result, s.offset, ToSeq(s.put), ToSeq(s.progress), 1)
  }

  /** What remains of a run after `steps` responses, given the result and
      cursor they left: nothing if that result ended the loop, otherwise
      the run from the cursor over the remaining responses. */
  function Remaining(size: nat, offset: nat, result: ChunkResult, rs: seq<Response>, steps: nat): RunOutcome
    requires offset <= size && steps <= |rs|
  {
    if result.NotDone? then Run(size, offset, rs[steps..]) else RunOutcome(result, offset, [], [], 0)
  }

  /** One turn of the loop: once `steps` responses are consumed and the
      upload goes on, the rest of the run is the next response's step,
      its PUT and progress event recorded, followed by what remains. */
  lemma RunAdvance(
    size: nat, offset: nat, rs: seq<Response>, steps: nat,
    puts: seq<ByteRange>, progress: seq<Progress>)
    requires offset <= size && steps < |rs|
    ensures var s := Step(size, offset, rs[steps]);
      Prepend(puts, progress, steps, Run(size, offset, rs[steps..]))
        == Prepend(puts + ToSeq(s.put), progress + ToSeq(s.progress), steps + 1,
                   Remaining(size, s.offset, s.result, rs, steps + 1))
  {
    var rest := rs[steps..];
    assert rest[0] == rs[steps] && rest[1..] == rs[steps + 1..];
    var s := Step(size, offset, rs[steps]);
    PrependPrepend(puts, progress, steps, ToSeq(s.put), ToSeq(s.progress), 1, Remaining(size, s.offset, s.result, rs, steps + 1));
    if !s.result.NotDone? {
      assert ToSeq(s.put) + [] == ToSeq(s.put) && ToSeq(s.progress) + [] == ToSeq(s.progress);
    }
  }

  // ---------------------------------------------------------------------
  // Ranges

  /** `rs` splits the positions `from .. to - 1` of a file of `size`
      bytes into consecutive ranges, in order, each starting where the
      previous one ended (a range may be empty) and each naming `size` as
      the complete length. */
  predicate Contiguous(rs: seq<ByteRange>, size: nat, from: int, to: int)
    decreases |rs|
  {
    if rs == [] then from == to
    else
      && rs[0].first == from && rs[0].Length() >= 0 && rs[0].completeLength == size
      && Contiguous(rs[1..], size, rs[0].last + 1, to)
  }

  /** Contiguous ranges: each starts one past the previous end, none has a
      negative length, all name the same file, and the last ends just
      before `to`. */
  lemma {:induction false} ContiguousShape(rs: seq<ByteRange>, size: nat, from: int, to: int)
    requires Contiguous(rs, size, from, to)
    ensures from <= to
    ensures rs != [] ==> rs[0].first == from && rs[|rs| - 1].last == to - 1
    ensures forall i | 0 <= i < |rs| :: rs[i].Length() >= 0 && rs[i].completeLength == size
    ensures forall i | 0 <= i < |rs| - 1 :: rs[i + 1].first == rs[i].last + 1
    decreases |rs|
  {
    if rs != [] {
      ContiguousShape(rs[1..], size, rs[0].last + 1, to);
      assert forall i | 1 <= i < |rs| :: rs[i] == rs[1..][i - 1];
    }
  }

  /** Adding a range that starts where the others end keeps them contiguous. */
  lemma {:induction false} ContiguousAppend(rs: seq<ByteRange>, r: ByteRange, size: nat, from: int, to: int)
    requires Contiguous(rs, size, from, to)
    requires r.first == to && r.Length() >= 0 && r.completeLength == size
    ensures Contiguous(rs + [r], size, from, r.last + 1)
    decreases |rs|
  {
    if rs == [] {
      assert ([] + [r])[1..] == [];
    } else {
      ContiguousAppend(rs[1..], r, size, rs[0].last + 1, to);
      assert (rs + [r])[1..] == rs[1..] + [r];
    }
  }

  /** Contiguous stretches joined end to start stay contiguous. */
  lemma {:induction false} ContiguousConcat(rs: seq<ByteRange>, ts: seq<ByteRange>, size: nat, from: int, mid: int, to: int)
    requires Contiguous(rs, size, from, mid) && Contiguous(ts, size, mid, to)
    ensures Contiguous(rs + ts, size, from, to)
    decreases |rs|
  {
    if rs == [] {
      assert [] + ts == ts;
    } else {
      ContiguousConcat(rs[1..], ts, size, rs[0].last + 1, mid, to);
      assert (rs + ts)[1..] == rs[1..] + ts;
    }
  }

  /** The PUTs of a run cover the bytes from the starting cursor up to
      the final cursor, in order, with no gap and no overlap, and all name
      the file's size as the complete length. */
  lemma {:induction false} RunContiguous(size: nat, offset: nat, rs: seq<Response>)
    requires offset <= size
    ensures Contiguous(Run(size, offset, rs).puts, size, offset, Run(size, offset, rs).offset)
    decreases |rs|
  {
    if rs != [] {
      var s := Step(size, offset, rs[0]);
      var head := ToSeq(s.put);
      assert Contiguous(head, size, offset, s.offset) by {
        if s.put.Some? {
          assert head[1..] == [];
        }
      }
      if s.result.NotDone? {
        RunContiguous(size, s.offset, rs[1..]);
        var rest := Run(size, s.offset, rs[1..]);
        ContiguousConcat(head, rest.puts, size, offset, s.offset, rest.offset);
      }
    }
  }

  // ---------------------------------------------------------------------
  // Requests and progress events

  /** A run sends one PUT per consumed response, except that a failed or
      short read sends none; it reports progress after every PUT that got
      a reply, i.e. after all of them unless the last one failed in
      transport; and the k-th progress event names the end of the k-th PUT. */
  lemma {:induction false} RunRequests(size: nat, offset: nat, rs: seq<Response>)
    requires offset <= size
    ensures var o := Run(size, offset, rs);
      && (o.result.Failed? && (o.result.error.ReadError? || o.result.error.ShortRead?)
          ==> |o.puts| == o.steps - 1)
      && (!(o.result.Failed? && (o.result.error.ReadError? || o.result.error.ShortRead?))
          ==> |o.puts| == o.steps)
      && (o.result == Failed(TransportError) ==> |o.progress| + 1 == |o.puts|)
      && (o.result != Failed(TransportError) ==> |o.progress| == |o.puts|)
      && (forall k | 0 <= k < |o.progress| :: o.progress[k].uploadedBytes == o.puts[k].last + 1 && o.progress[k].totalBytes == size)
    decreases |rs|
  {
    if rs != [] {
      var s := Step(size, offset, rs[0]);
      if s.result.NotDone? {
        RunRequests(size, s.offset, rs[1..]);
        var rest := Run(size, s.offset, rs[1..]);
        var o := Run(size, offset, rs);
        assert o.puts == [s.put.value] + rest.puts;
        assert o.progress == [s.progress.value] + rest.progress;
        assert forall k | 1 <= k < |o.progress| :: o.progress[k] == rest.progress[k - 1] && o.puts[k] == rest.puts[k - 1];
      }
    }
  }

  /** Progress events never go backwards, never pass the file size, and
      all name the file size as the total. */
  predicate ProgressOrdered(ps: seq<Progress>, size: nat) {
    && (forall i, j | 0 <= i <= j < |ps| :: ps[i].uploadedBytes <= ps[j].uploadedBytes)
    && (forall i | 0 <= i < |ps| :: ps[i].uploadedBytes <= size && ps[i].totalBytes == size)
  }

  /** The same, stated event by event from the latest one back: each
      event names the file size and reports no more than `bound`, the
      next event's count (or, for the latest, the cursor). */
  predicate ReportedUpTo(ps: seq<Progress>, size: nat, bound: int)
    decreases |ps|
  {
    ps == [] ||
    var p := ps[|ps| - 1];
    p.totalBytes == size && p.uploadedBytes <= bound && ReportedUpTo(ps[..|ps| - 1], size, p.uploadedBytes)
  }

  /** Events reported up to a bound within the file are ordered and below
      the bound. */
  lemma {:induction false} ReportedUpToOrdered(ps: seq<Progress>, size: nat, bound: int)
    requires ReportedUpTo(ps, size, bound) && bound <= size
    ensures ProgressOrdered(ps, size)
    ensures forall i | 0 <= i < |ps| :: ps[i].uploadedBytes <= bound
    decreases |ps|
  {
    if ps != [] {
      var init := ps[..|ps| - 1];
      ReportedUpToOrdered(init, size, ps[|ps| - 1].uploadedBytes);
      assert forall i | 0 <= i < |init| :: ps[i] == init[i];
    }
  }

  /** The uploaded-byte counts a run reports are non-decreasing and lie
      between the starting and the final cursor. */
  lemma RunProgressOrdered(size: nat, offset: nat, rs: seq<Response>)
    requires offset <= size
    ensures ProgressOrdered(Run(size, offset, rs).progress, size)
    ensures forall i | 0 <= i < |Run(size, offset, rs).progress| ::
      offset <= Run(size, offset, rs).progress[i].uploadedBytes <= Run(size, offset, rs).offset
  {
    var o := Run(size, offset, rs);
    RunContiguous(size, offset, rs);
    RunRequests(size, offset, rs);
    ContiguousShape(o.puts, size, offset, o.offset);
    ContiguousBounds(o.puts, size, offset, o.offset);
  }

  /** Range ends of a contiguous sequence grow and stay between its ends. */
  lemma {:induction false} ContiguousBounds(rs: seq<ByteRange>, size: nat, from: int, to: int)
    requires Contiguous(rs, size, from, to)
    ensures forall i | 0 <= i < |rs| :: from <= rs[i].last + 1 <= to
    ensures forall i, j | 0 <= i <= j < |rs| :: rs[i].last <= rs[j].last
    decreases |rs|
  {
    if rs != [] {
      ContiguousBounds(rs[1..], size, rs[0].last + 1, to);
      ContiguousShape(rs[1..], size, rs[0].last + 1, to);
      assert forall i | 1 <= i < |rs| :: rs[i] == rs[1..][i - 1];
    }
  }

  // ---------------------------------------------------------------------
  // How the loop ends

  /** The loop ends successfully only on a 200 or 201 reply, after 308
      replies to every earlier chunk, and yields the id from that reply. */
  lemma {:induction false} RunDoneOnlyAfterSuccess(size: nat, offset: nat, rs: seq<Response>)
    requires offset <= size
    requires Run(size, offset, rs).result.Done?
    ensures var o := Run(size, offset, rs);
      && 1 <= o.steps <= |rs|
      && rs[o.steps - 1].put.Reply?
      && (rs[o.steps - 1].put.status == StatusOk || rs[o.steps - 1].put.status == StatusCreated)
      && o.result.id == rs[o.steps - 1].put.body
      && (forall k | 0 <= k < o.steps - 1 :: rs[k].put.Reply? && rs[k].put.status == StatusResumeIncomplete)
    decreases |rs|
  {
    var s := Step(size, offset, rs[0]);
    if s.result.NotDone? {
      RunDoneOnlyAfterSuccess(size, s.offset, rs[1..]);
      assert forall k | 1 <= k < |rs| :: rs[k] == rs[1..][k - 1];
    }
  }

  /** Once a reply ends the loop (successfully or not) no further response
      is consumed: whatever the world would have answered next changes
      nothing. */
  lemma {:induction false} RunStopsAtEnd(size: nat, offset: nat, rs: seq<Response>, more: seq<Response>)
    requires offset <= size
    requires !Run(size, offset, rs).result.NotDone?
    ensures Run(size, offset, rs + more) == Run(size, offset, rs)
    decreases |rs|
  {
    assert (rs + more)[0] == rs[0];
    var s := Step(size, offset, rs[0]);
    if s.result.NotDone? {
      assert (rs + more)[1..] == rs[1..] + more;
      RunStopsAtEnd(size, s.offset, rs[1..], more);
    }
  }

  /** A read that returns a different count than the chunk size ends the
      step in failure before any PUT: the cursor stays where it was and no
      progress is reported. */
  lemma StepShortRead(size: nat, offset: nat, n: nat, put: PutOutcome)
    requires offset <= size && n != NextChunkSize(size, offset)
    ensures var s := Step(size, offset, Response(BytesRead(n), put));
      s.result == Failed(ShortRead(NextChunkSize(size, offset), n)) && s.offset == offset && s.put.None? && s.progress.None?
  {
  }

  /** A reply with an unexpected status still advances the cursor and
      still reports progress before the step fails. */
  lemma StepUnexpectedStatus(size: nat, offset: nat, status: int, body: string)
    requires offset <= size
    requires status != StatusResumeIncomplete && status != StatusOk && status != StatusCreated
    ensures var s := Step(size, offset, Response(BytesRead(NextChunkSize(size, offset)), Reply(status, body)));
      && s.result == Failed(UnexpectedStatus(status))
      && s.offset == offset + NextChunkSize(size, offset)
      && s.progress == Some(Progress(s.offset, size))
  {
  }

  // ---------------------------------------------------------------------
  // Past the end of the file

  /** Once the cursor has reached the size, a further step sends an empty
      chunk whose range ends one before it starts, leaves the cursor where
      it is, and on a 308 the loop carries on. */
  lemma StepAtEnd(size: nat, body: string)
    ensures Step(size, size, Response(BytesRead(0), Reply(StatusResumeIncomplete, body)))
      == StepOutcome(NotDone, size, Some(ByteRange(size, size - 1, size)), Some(Progress(size, size)))
  {
  }

  /** `k` empty reads each answered with 308. */
  function Resumes(k: nat): (rs: seq<Response>)
    ensures |rs| == k
    decreases k
  {
    if k == 0 then [] else [Response(BytesRead(0), Reply(StatusResumeIncomplete, ""))] + Resumes(k - 1)
  }

  /** Termination is driven by replies, not by the cursor: a server that
      keeps answering 308 after the whole file was sent gets one more empty
      chunk per reply, for as long as it keeps answering. */
  lemma {:induction false} EmptyChunksWhileResumed(size: nat, k: nat)
    ensures var o := Run(size, size, Resumes(k));
      && o.result.NotDone? && o.offset == size && o.steps == k && |o.puts| == k
      && (forall i | 0 <= i < k :: o.puts[i] == ByteRange(size, size - 1, size))
    decreases k
  {
    if k > 0 {
      EmptyChunksWhileResumed(size, k - 1);
      assert Resumes(k)[1..] == Resumes(k - 1);
      var o := Run(size, size, Resumes(k));
      var rest := Run(size, size, Resumes(k - 1));
      assert forall i | 1 <= i < k :: o.puts[i] == rest.puts[i - 1];
    }
  }

  /** A PUT's range is a valid byte-range response in the sense of section
      4.2 of RFC 7233 exactly when bytes remain; the range sent once the
      cursor reached the size (for an empty file, `bytes 0--1/0`) is not. */
  lemma ChunkRangeValid(size: nat, offset: nat)
    requires offset <= size
    ensures ValidRangeResp(ByteRange(offset, offset + NextChunkSize(size, offset) - 1, size)) <==> offset < size
  {
  }

  // ---------------------------------------------------------------------
  // A server that accepts every chunk

  /** The chunk sizes expected for `remaining` bytes: full chunks, then
      whatever is left (a single empty chunk when nothing is). */
  function IdealChunks(remaining: nat): (cs: seq<nat>)
    ensures |cs| >= 1
    decreases remaining
  {
    if remaining <= ChunkSize then [remaining] else [ChunkSize] + IdealChunks(remaining - ChunkSize)
  }

  /** `max(1, ceil(remaining / ChunkSize))`. */
  function ChunkCount(remaining: nat): nat {
    if remaining == 0 then 1 else (remaining + ChunkSize - 1) / ChunkSize
  }

  /** There are `max(1, ceil(remaining / ChunkSize))` chunks. */
  lemma {:induction false} IdealChunkCount(remaining: nat)
    ensures |IdealChunks(remaining)| == ChunkCount(remaining)
    decreases remaining
  {
    if remaining > ChunkSize {
      IdealChunkCount(remaining - ChunkSize);
      assert (remaining + ChunkSize - 1) / ChunkSize == 1 + (remaining - ChunkSize + ChunkSize - 1) / ChunkSize;
    }
  }

  /** All chunks but the last are full, and the last holds the rest: at
      most one chunk, and at least one byte unless nothing remains. */
  lemma {:induction false} IdealChunksShape(remaining: nat)
    ensures var cs := IdealChunks(remaining);
      && (forall i | 0 <= i < |cs| - 1 :: cs[i] == ChunkSize)
      && cs[|cs| - 1] <= ChunkSize
      && (remaining > 0 ==> cs[|cs| - 1] > 0)
      && (|cs| - 1) * ChunkSize + cs[|cs| - 1] == remaining
    decreases remaining
  {
    if remaining > ChunkSize {
      var cs := IdealChunks(remaining);
      IdealChunksShape(remaining - ChunkSize);
      assert cs[1..] == IdealChunks(remaining - ChunkSize);
    }
  }

  /** The responses of a file whose reads all succeed and whose server
      answers 308 to every chunk but the last and 200 to the last. */
  function IdealResponses(chunks: seq<nat>, id: string): (rs: seq<Response>)
    ensures |rs| == |chunks|
    decreases |chunks|
  {
    if chunks == [] then []
    else
      var status := if |chunks| == 1 then StatusOk else StatusResumeIncomplete;
      [Response(BytesRead(chunks[0]), Reply(status, id))] + IdealResponses(chunks[1..], id)
  }

  /** The ranges of chunks of the given sizes sent back to back from `offset`. */
  function BackToBack(size: nat, offset: int, chunks: seq<nat>): (rs: seq<ByteRange>)
    requires offset >= 0
    ensures |rs| == |chunks|
    decreases |chunks|
  {
    if chunks == [] then []
    else [ByteRange(offset, offset + chunks[0] - 1, size)] + BackToBack(size, offset + chunks[0], chunks[1..])
  }

  /** The progress events after each of those chunks. */
  function ProgressAfter(size: nat, offset: nat, chunks: seq<nat>): (ps: seq<Progress>)
    ensures |ps| == |chunks|
    decreases |chunks|
  {
    if chunks == [] then []
    else [Progress(offset + chunks[0], size)] + ProgressAfter(size, offset + chunks[0], chunks[1..])
  }

  /** Against such a server the upload succeeds after exactly one PUT per
      expected chunk, sending the chunks back to back and reporting progress
      after each, and leaves the cursor at the size. */
  lemma {:induction false} IdealUpload(size: nat, offset: nat, id: string)
    requires offset <= size
    ensures var cs := IdealChunks(size - offset);
      Run(size, offset, IdealResponses(cs, id))
        == RunOutcome(Done(id), size, BackToBack(size, offset, cs), ProgressAfter(size, offset, cs), |cs|)
    decreases size - offset
  {
    var cs := IdealChunks(size - offset);
    if size - offset > ChunkSize {
      var next := offset + ChunkSize;
      IdealUpload(size, next, id);
      IdealFirstStep(size, offset, id);
      assert cs == [ChunkSize] + IdealChunks(size - next);
    } else {
      IdealLastStep(size, offset, id);
    }
  }

  /** Chunks sent back to back have the given sizes, and the progress
      after the last one is the end of the last range plus one. */
  lemma {:induction false} BackToBackShape(size: nat, offset: nat, chunks: seq<nat>)
    ensures Contiguous(BackToBack(size, offset, chunks), size, offset, offset + Sum(chunks))
    ensures forall k | 0 <= k < |chunks| :: BackToBack(size, offset, chunks)[k].Length() == chunks[k]
    ensures chunks != [] ==> ProgressAfter(size, offset, chunks)[|chunks| - 1] == Progress(offset + Sum(chunks), size)
    decreases |chunks|
  {
    if chunks != [] {
      var rs := BackToBack(size, offset, chunks);
      BackToBackShape(size, offset + chunks[0], chunks[1..]);
      assert rs[1..] == BackToBack(size, offset + chunks[0], chunks[1..]);
      assert forall k | 1 <= k < |chunks| :: rs[k] == rs[1..][k - 1] && chunks[k] == chunks[1..][k - 1];
    }
  }

  function Sum(xs: seq<nat>): nat
    decreases |xs|
  {
    if xs == [] then 0 else xs[0] + Sum(xs[1..])
  }

  /** The expected chunks add up to the bytes remaining. */
  lemma {:induction false} IdealChunksSum(remaining: nat)
    ensures Sum(IdealChunks(remaining)) == remaining
    decreases remaining
  {
    if remaining > ChunkSize {
      IdealChunksSum(remaining - ChunkSize);
      assert IdealChunks(remaining)[1..] == IdealChunks(remaining - ChunkSize);
    }
  }

  /** Against that server, a step with more than a chunk left sends a full
      chunk, gets 308 and goes on from one chunk further. */
  lemma IdealFirstStep(size: nat, offset: nat, id: string)
    requires offset <= size && size - offset > ChunkSize
    ensures
      var next := offset + ChunkSize;
      Run(size, offset, IdealResponses(IdealChunks(size - offset), id))
        == Prepend([ByteRange(offset, next - 1, size)], [Progress(next, size)], 1,
                   Run(size, next, IdealResponses(IdealChunks(size - next), id)))
  {
    var next := offset + ChunkSize;
    var cs := IdealChunks(size - offset);
    var rs := IdealResponses(cs, id);
    assert cs[0] == ChunkSize && cs[1..] == IdealChunks(size - next);
    assert rs[0] == Response(BytesRead(ChunkSize), Reply(StatusResumeIncomplete, id));
    assert rs[1..] == IdealResponses(cs[1..], id);
  }

  /** Against that server, a step with at most a chunk left sends the rest
      of the file, gets 200 and ends the upload. */
  lemma IdealLastStep(size: nat, offset: nat, id: string)
    requires offset <= size && size - offset <= ChunkSize
    ensures Run(size, offset, IdealResponses(IdealChunks(size - offset), id))
      == RunOutcome(Done(id), size, [ByteRange(offset, size - 1, size)], [Progress(size, size)], 1)
  {
    assert IdealResponses(IdealChunks(size - offset), id) == [Response(BytesRead(size - offset), Reply(StatusOk, id))];
  }

  /** A whole file (what `IdealUpload` sends from offset 0):
      `max(1, ceil(size / ChunkSize))` PUTs of the expected chunk sizes,
      covering bytes 0 to size - 1 in order, the last range ending at
      size - 1, and the last progress event reporting the whole file. */
  lemma WholeFileChunks(size: nat)
    ensures var cs := IdealChunks(size);
      var puts := BackToBack(size, 0, cs);
      && |puts| == ChunkCount(size)
      && (forall k | 0 <= k < |puts| :: puts[k].Length() == cs[k])
      && Contiguous(puts, size, 0, size)
      && puts[|puts| - 1].last == size - 1
      && ProgressAfter(size, 0, cs)[|cs| - 1] == Progress(size, size)
  {
    var cs := IdealChunks(size);
    IdealChunkCount(size);
    IdealChunksSum(size);
    BackToBackShape(size, 0, cs);
    ContiguousShape(BackToBack(size, 0, cs), size, 0, size);
  }

  // ---------------------------------------------------------------------
  // Worked examples

  /** A 600000-byte file goes up in chunks of 262144, 262144 and 75712
      bytes, with these three headers and progress events. */
  lemma SixHundredThousandBytes(id: string)
    ensures IdealChunks(600000) == [262144, 262144, 75712]
    ensures var o := Run(600000, 0, IdealResponses([262144, 262144, 75712], id));
      && o.result == Done(id)
      && o.steps == 3
      && |o.puts| == 3
      && o.puts == [
        ByteRange(0, 262143, 600000), ByteRange(262144, 524287, 600000), ByteRange(524288, 599999, 600000)]
      && o.progress == [Progress(262144, 600000), Progress(524288, 600000), Progress(600000, 600000)]
  {
    var rs := IdealResponses([262144, 262144, 75712], id);
    assert rs == [
      Response(BytesRead(262144), Reply(308, id)),
      Response(BytesRead(262144), Reply(308, id)),
      Response(BytesRead(75712), Reply(200, id))];
    var o3 := Run(600000, 524288, rs[2..]);
    assert o3 == RunOutcome(Done(id), 600000, [ByteRange(524288, 599999, 600000)], [Progress(600000, 600000)], 1);
    var o2 := Run(600000, 262144, rs[1..]);
    assert rs[1..][1..] == rs[2..];
    assert o2 == Prepend([ByteRange(262144, 524287, 600000)], [Progress(524288, 600000)], 1, o3);
    var o := Run(600000, 0, rs);
    assert o == Prepend([ByteRange(0, 262143, 600000)], [Progress(262144, 600000)], 1, o2);
  }

  /** The first header of that upload. */
  lemma FirstHeaderOf600000()
    ensures Format(ByteRange(0, 262143, 600000)) == "bytes 0-262143/600000"
  {
    Numeral262143(); Numeral600000();
    assert IntToString(262143) == "262143";
    FormatOfNumerals(ByteRange(0, 262143, 600000), "0", "262143", "600000");
  }

  /** The second header of that upload. */
  lemma SecondHeaderOf600000()
    ensures Format(ByteRange(262144, 524287, 600000)) == "bytes 262144-524287/600000"
  {
    Numeral262144(); Numeral524287(); Numeral600000();
    assert IntToString(524287) == "524287";
    FormatOfNumerals(ByteRange(262144, 524287, 600000), "262144", "524287", "600000");
  }

  /** The last header of that upload, ending at byte 599999. */
  lemma LastHeaderOf600000()
    ensures Format(ByteRange(524288, 599999, 600000)) == "bytes 524288-599999/600000"
  {
    Numeral524288(); Numeral599999(); Numeral600000();
    assert IntToString(599999) == "599999";
    FormatOfNumerals(ByteRange(524288, 599999, 600000), "524288", "599999", "600000");
  }

  lemma Numeral262143()
    ensures NatToString(262143) == "262143"
  {
    assert NatToString(2) == "2";
    assert NatToString(26) == "26";
    assert NatToString(262) == "262";
    assert NatToString(2621) == "2621";
    assert NatToString(26214) == "26214";
  }

  lemma Numeral600000()
    ensures NatToString(600000) == "600000"
  {
    assert NatToString(6) == "6";
    assert NatToString(60) == "60";
    assert NatToString(600) == "600";
    assert NatToString(6000) == "6000";
    assert NatToString(60000) == "60000";
  }

  lemma Numeral262144()
    ensures NatToString(262144) == "262144"
  {
    assert NatToString(2) == "2";
    assert NatToString(26) == "26";
    assert NatToString(262) == "262";
    assert NatToString(2621) == "2621";
    assert NatToString(26214) == "26214";
  }

  lemma Numeral524287()
    ensures NatToString(524287) == "524287"
  {
    assert NatToString(5) == "5";
    assert NatToString(52) == "52";
    assert NatToString(524) == "524";
    assert NatToString(5242) == "5242";
    assert NatToString(52428) == "52428";
  }

  lemma Numeral524288()
    ensures NatToString(524288) == "524288"
  {
    assert NatToString(5) == "5";
    assert NatToString(52) == "52";
    assert NatToString(524) == "524";
    assert NatToString(5242) == "5242";
    assert NatToString(52428) == "52428";
  }

  lemma Numeral599999()
    ensures NatToString(599999) == "599999"
  {
    assert NatToString(5) == "5";
    assert NatToString(59) == "59";
    assert NatToString(599) == "599";
    assert NatToString(5999) == "5999";
    assert NatToString(59999) == "59999";
  }

  /** An empty file is sent as one empty chunk with the header
      `bytes 0--1/0`, which is not a valid byte-range response. */
  lemma EmptyFile(id: string)
    ensures var o := Run(0, 0, IdealResponses(IdealChunks(0), id));
      && o.result == Done(id)
      && o.puts == [ByteRange(0, -1, 0)]
      && Format(o.puts[0]) == "bytes 0--1/0"
      && !ValidRangeResp(o.puts[0])
      && o.progress == [Progress(0, 0)]
  {
    assert IdealResponses(IdealChunks(0), id) == [Response(BytesRead(0), Reply(StatusOk, id))];
  }
}
