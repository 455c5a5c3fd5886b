/** The chunk loop of `YoutubeUploader.uploadVideo`: a cursor into the
    file that each chunk upload advances in place, and the loop that
    uploads chunks until a reply other than 308 arrives. */
module Uploader {
  import opened Wrappers
  import opened ContentRange
  import opened ChunkProtocol

  /** The state the chunk loop closes over: the file's size, the session
      URL and content type (opaque here), and the byte cursor. The PUT
      ranges sent and the progress events reported so far are kept as
      ghost history; request k carries the header `Format(sent[k])`. */
  class UploadCursor {
    const size: nat
    const location: string
    const contentType: string
    var offset: nat
    ghost var sent: seq<ByteRange>
    ghost var reported: seq<Progress>

    /** The cursor never passes the size; the ranges sent so far cover
        bytes 0 to offset - 1 in order without gap or overlap; progress
        never went backwards nor past the cursor. */
    ghost predicate Valid()
      reads this
    {
      && offset <= size
      && Contiguous(sent, size, 0, offset)
      && ReportedUpTo(reported, size, offset)
    }

    /** A fresh upload: cursor at 0, nothing sent, nothing reported. */
    constructor (size: nat, location: string, contentType: string)
      ensures Valid()
      ensures this.size == size && this.location == location && this.contentType == contentType
      ensures offset == 0 && sent == [] && reported == []
    {
      this.size := size;
      this.location := location;
      this.contentType := contentType;
      offset := 0;
      sent := [];
      reported := [];
    }

    /** Uploads the next chunk: size it, check the read, send it with its
        range, advance the cursor, report progress, classify the reply. */
    method UploadNextChunk(r: Response) returns (result: ChunkResult)
      requires Valid()
      modifies this
      ensures Valid()
      ensures var s := Step(size, old(offset), r);
        && result == s.result
        && offset == s.offset
        && sent == old(sent) + ToSeq(s.put)
        && reported == old(reported) + ToSeq(s.progress)
    {
      var chunk := NextChunkSize(size, offset);
      if r.read.ReadFailed? {
        return Failed(ReadError);
      }
      if r.read.count != chunk {
        return Failed(ShortRead(chunk, r.read.count));
      }
      var range := ByteRange(offset, offset + chunk - 1, size);
      ContiguousAppend(sent, range, size, 0, offset);
      sent := sent + [range];
      offset := offset + chunk;
      if r.put.TransportFailed? {
        return Failed(TransportError);
      }
      assert (reported + [Progress(offset, size)])[..|reported|] == reported;
      reported := reported + [Progress(offset, size)];
      match Classify(r.put.status)
      case Incomplete =>
        result := NotDone;
      case Complete =>
        result := Done(r.put.body);
      case Unexpected =>
        result := Failed(UnexpectedStatus(r.put.status));
    }

    /** Uploads chunks, one response each, while the result is NotDone;
        stops early at the first result that ends the upload. */
    method UploadUntilDone(rs: seq<Response>) returns (result: ChunkResult, steps: nat)
      requires Valid()
      modifies this
      ensures Valid()
      ensures var o := Run(size, old(offset), rs);
        && result == o.result
        && steps == o.steps
        && offset == o.offset
        && sent == old(sent) + o.puts
        && reported == old(reported) + o.progress
    {
      ghost var run := Prepend(sent, reported, 0, Run(size, offset, rs));
      result, steps := NotDone, 0;
      while result.NotDone? && steps < |rs|
        invariant Valid()
        invariant steps <= |rs|
        invariant run == Prepend(sent, reported, steps, Remaining(size, offset, result, rs, steps))
        decreases |rs| - steps
      {
        RunAdvance(size, offset, rs, steps, sent, reported);
        result := UploadNextChunk(rs[steps]);
        steps := steps + 1;
      }
      assert result.NotDone? ==> rs[steps..] == [];
      assert sent + [] == sent && reported + [] == reported;
    }
  }

  /** What the cursor's invariant says about its history: the ranges sent
      so far start at byte 0, follow each other without gap or overlap,
      end just before the cursor and all name the file's size; the
      progress reported so far never went backwards nor past the cursor. */
  lemma ValidHistory(c: UploadCursor)
    requires c.Valid()
    ensures c.sent != [] ==> c.sent[0].first == 0 && c.sent[|c.sent| - 1].last == c.offset - 1
    ensures forall i | 0 <= i < |c.sent| :: c.sent[i].Length() >= 0 && c.sent[i].completeLength == c.size
    ensures forall i | 0 <= i < |c.sent| - 1 :: c.sent[i + 1].first == c.sent[i].last + 1
    ensures ProgressOrdered(c.reported, c.size)
    ensures forall i | 0 <= i < |c.reported| :: c.reported[i].uploadedBytes <= c.offset
  {
    ContiguousShape(c.sent, c.size, 0, c.offset);
    ReportedUpToOrdered(c.reported, c.size, c.offset);
  }

  /** The chunk phase of `uploadVideo`: open the cursor at 0 and upload
      chunks until the upload ends; yields the created video's id, or the
      error that stopped it, or NotDone if the responses ran out first,
      together with the PUT ranges sent and the progress events reported. */
  method UploadVideo(size: nat, location: string, contentType: string, rs: seq<Response>)
    returns (result: ChunkResult, steps: nat, ghost puts: seq<ByteRange>, ghost progress: seq<Progress>)
    ensures var o := Run(size, 0, rs);
      result == o.result && steps == o.steps && puts == o.puts && progress == o.progress
    ensures result.Done? ==>
      1 <= steps <= |rs| && rs[steps - 1].put.Reply?
      && (rs[steps - 1].put.status == StatusOk || rs[steps - 1].put.status == StatusCreated)
  {
    var cursor := new UploadCursor(size, location, contentType);
    result, steps := cursor.UploadUntilDone(rs);
    puts, progress := cursor.sent, cursor.reported;
    if result.Done? {
      RunDoneOnlyAfterSuccess(size, 0, rs);
    }
  }
}
