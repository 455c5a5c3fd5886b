# Resumable chunked video upload (YouTube uploader)

This project models the chunk phase of `YoutubeUploader.uploadVideo` in
Streamlabs OBS. That phase runs once the resumable session exists. It
holds a byte cursor into the video file, starting at 0. Each chunk upload
does the following, in order:

- It sizes the next chunk as `min(size - cursor, 262144)`.
- It reads that many bytes and fails on a short read.
- It builds the header `Content-Range: bytes <first>-<last>/<size>` from
  the cursor before the chunk.
- It advances the cursor past the chunk.
- It sends the chunk with a PUT. If the PUT itself fails, the cursor stays
  advanced.
- It reports `{uploadedBytes: cursor, totalBytes: size}`.
- It classifies the reply: 308 means "send the next chunk", 200 or 201
  means "done, here is the video", and anything else fails.

The driver repeats chunk uploads until one of them gives something other
than "not done".

The model has four modules.

- `Decimal` renders integers as JavaScript template literals do. It reads
  numerals back.
- `ContentRange` holds the byte range of one PUT and its header value. It
  also has a parser, so the header is shown to determine the range, and the
  validity rule for byte ranges of section 4.2 of RFC 7233.
- `ChunkProtocol` is the specification.
  - `Step` is one chunk upload. It is a function of the file size, the
    cursor and a `Response`. A `Response` is what the outside world decides
    in that step: the read's outcome and the PUT's outcome.
  - `Run` is the loop over a sequence of such responses. It records every
    PUT range, every progress event, the final cursor and the result.
  - Lemmas state what the loop guarantees:
    - contiguous coverage of the file;
    - one PUT per successful read;
    - ordered progress events;
    - success only on 200/201 after 308s;
    - the behaviour against a server that accepts every chunk;
    - the behaviour once the file is exhausted.
- `Uploader` is the imperative form of the source. `UploadCursor` is a
  class whose `offset` field is the cursor that `uploadNextChunk` advances
  in place.
  - `UploadNextChunk` and `UploadUntilDone` are proved to behave exactly as
    `Step` and `Run`.
  - Their ghost history of PUT ranges and progress events keeps the class
    invariant.
  - `UploadVideo` opens a cursor at 0 and runs the driver.

The file system, the network and the progress callback are replaced by the
sequence of `Response` values. A `Response` gives one read outcome and one
PUT outcome per chunk. The model's `Run` ends with `NotDone` when that
sequence runs out while the loop would go on. The source loop would simply
wait for the next answer.

Two facts about the code that the model keeps:

- The code opens the file (app/services/platforms/youtube/uploader.ts:79-87)
  and never closes it. The model has no file handle.
- For an empty file the code sends one empty chunk with the header
  `bytes 0--1/0`. Section 4.2 of RFC 7233 does not accept that as a byte
  range. The model reproduces it (`EmptyFile`, `ChunkRangeValid`).

## Model

| member | source | states |
|---|---|---|
| ChunkProtocol.NextChunkSize | app/services/platforms/youtube/uploader.ts:78-93 | The chunk is exactly 262144 bytes while at least that many remain, otherwise exactly the bytes that remain; it never runs past the end of the file |
| ChunkProtocol.Classify | app/services/platforms/youtube/uploader.ts:137-145 | A reply means "continue" exactly when its status is 308 and "done" exactly when it is 200 or 201; every other status is unexpected |
| ChunkProtocol.Step | app/services/platforms/youtube/uploader.ts:92-146 | One chunk upload. A failed read fails with a read error, and a short read fails with both counts; neither sends, moves or reports anything. A complete read moves the cursor by exactly the chunk size and sends the range from the old cursor to one before the new one, naming the file size. After that, a failed transport fails with a transport error and reports nothing. A reply reports progress with the new cursor and the size. The result is "not done" exactly on 308, "done" with the reply's id exactly on 200/201, and fails with the status exactly on any other status |
| ChunkProtocol.Run | app/services/platforms/youtube/uploader.ts:148-152 | The loop consumes at most one response per step and never moves the cursor past the size. It ends "not done" only when it has used every response, and consumes at least one response otherwise. It sends no more PUTs than steps and reports no more progress events than PUTs |
| ChunkProtocol.RunAdvance | app/services/platforms/youtube/uploader.ts:150 | One more turn of the loop: the rest of a run that is still going is the next step's PUT and progress event followed by what remains after it |
| ChunkProtocol.RunContiguous | app/services/platforms/youtube/uploader.ts:112-120 | The PUT ranges of a run start at the starting cursor and end at the final cursor. Each starts one past the previous one's end, none is negative and all name the file size: no byte is skipped or sent twice |
| ChunkProtocol.RunRequests | app/services/platforms/youtube/uploader.ts:105-135 | A run sends one PUT per consumed response, except after a failed or short read, which ends it without a PUT. It reports one progress event per PUT, except after a PUT that failed in transport. The k-th event reports the end of the k-th PUT's range and the file size |
| ChunkProtocol.RunProgressOrdered | app/services/platforms/youtube/uploader.ts:120-135 | The uploaded-byte counts reported never decrease, name the file size as the total, and lie between the starting and the final cursor |
| ChunkProtocol.ReportedUpToOrdered | app/services/platforms/youtube/uploader.ts:132-135 | The per-event form of the progress invariant, as the cursor keeps it, implies the ordered form and the bound by the cursor |
| ChunkProtocol.RunDoneOnlyAfterSuccess | app/services/platforms/youtube/uploader.ts:137-152 | The loop ends successfully only on a 200/201 reply to its last chunk, with every earlier chunk answered 308. The id it yields is that reply's |
| ChunkProtocol.RunStopsAtEnd | app/services/platforms/youtube/uploader.ts:148-152 | Once a result other than "not done" arrives the loop stops: responses after that point change nothing |
| ChunkProtocol.StepShortRead | app/services/platforms/youtube/uploader.ts:105-110 | A read returning any count other than the chunk size fails the step with both counts. No PUT is sent, the cursor does not move and no progress is reported |
| ChunkProtocol.StepUnexpectedStatus | app/services/platforms/youtube/uploader.ts:120-144 | A reply with a status other than 308/200/201 fails the step with that status, after the cursor advanced and progress was reported |
| ChunkProtocol.StepAtEnd | app/services/platforms/youtube/uploader.ts:93-139 | With the cursor at the size, a step sends an empty chunk whose range ends one before it starts, keeps the cursor, and goes on after a 308 |
| ChunkProtocol.EmptyChunksWhileResumed | app/services/platforms/youtube/uploader.ts:148-150 | Termination depends on the replies, not the cursor: k more 308 replies after the end of the file mean k more empty PUTs and no end |
| ChunkProtocol.ChunkRangeValid | app/services/platforms/youtube/uploader.ts:114-117 | A chunk's range is a valid byte range in the sense of section 4.2 of RFC 7233 exactly when bytes remain |
| ChunkProtocol.IdealChunkCount | app/services/platforms/youtube/uploader.ts:77-93 | A file part of n bytes goes up in max(1, ceil(n / 262144)) chunks |
| ChunkProtocol.IdealChunksShape | app/services/platforms/youtube/uploader.ts:93 | Every chunk but the last is full. The last holds the rest, is not empty unless nothing remained, and the sizes add back to the remaining bytes |
| ChunkProtocol.IdealChunksSum | app/services/platforms/youtube/uploader.ts:93 | The expected chunk sizes add up to the bytes remaining |
| ChunkProtocol.IdealUpload | app/services/platforms/youtube/uploader.ts:92-152 | Against a server that answers 308 to every chunk but the last and 200 to the last, with every read complete, the upload succeeds. It uses one PUT per expected chunk, sent back to back, with progress after each, and ends with the cursor at the size |
| ChunkProtocol.BackToBackShape | app/services/platforms/youtube/uploader.ts:114-135 | Chunks sent back to back form contiguous ranges of exactly the given sizes. The last progress event reports where the last range ends |
| ChunkProtocol.WholeFileChunks | app/services/platforms/youtube/uploader.ts:92-152 | A whole file goes up in max(1, ceil(size / 262144)) PUTs of the expected sizes. They cover bytes 0 to size - 1 in order, and the last progress event reports the whole file |
| ChunkProtocol.SixHundredThousandBytes | app/services/platforms/youtube/uploader.ts:92-152 | A 600000-byte file goes up in three chunks (262144, 262144, 75712) with exactly these ranges and progress events |
| ChunkProtocol.FirstHeaderOf600000 | app/services/platforms/youtube/uploader.ts:114-117 | Its first header is `bytes 0-262143/600000` |
| ChunkProtocol.SecondHeaderOf600000 | app/services/platforms/youtube/uploader.ts:114-117 | Its second header is `bytes 262144-524287/600000` |
| ChunkProtocol.LastHeaderOf600000 | app/services/platforms/youtube/uploader.ts:114-117 | Its last header is `bytes 524288-599999/600000` |
| ChunkProtocol.EmptyFile | app/services/platforms/youtube/uploader.ts:93-135 | An empty file is sent as one empty PUT with the header `bytes 0--1/0`, an invalid range, followed by the progress event 0 of 0 |
| ContentRange.Format | app/services/platforms/youtube/uploader.ts:114-117 | The header value always starts with the unit `bytes ` |
| ContentRange.ParseFormat | app/services/platforms/youtube/uploader.ts:114-117 | Reading a header back gives the range it was written from, including a negative last position |
| ContentRange.FormatInjective | app/services/platforms/youtube/uploader.ts:114-117 | Two different ranges never produce the same header |
| Decimal.DigitsValueOfNumeral | app/services/platforms/youtube/uploader.ts:116 | A number rendered into the header reads back as that number |
| Uploader.UploadCursor.constructor | app/services/platforms/youtube/uploader.ts:74-75 | The cursor starts at byte 0 of a file of the given size, with the session URL and nothing sent or reported, and satisfies the invariant |
| Uploader.UploadCursor.UploadNextChunk | app/services/platforms/youtube/uploader.ts:92-146 | The in-place chunk upload keeps the cursor invariant. Its result, the new cursor, the PUT range appended to the history and the progress event appended to the reports are exactly those of `Step` from the old cursor |
| Uploader.UploadCursor.UploadUntilDone | app/services/platforms/youtube/uploader.ts:148-150 | The driver loop keeps the invariant. Its result, number of chunk uploads, final cursor, PUT ranges and progress events are exactly those of `Run` from the old cursor |
| Uploader.ValidHistory | app/services/platforms/youtube/uploader.ts:112-135 | At any point, the ranges sent start at byte 0, follow each other without gap or overlap, end just before the cursor and name the file size. The progress reported never went backwards nor past the cursor |
| Uploader.UploadVideo | app/services/platforms/youtube/uploader.ts:74-152 | The chunk phase yields exactly the result and chunk count of `Run` from cursor 0. It sends exactly `Run`'s PUT ranges and reports exactly its progress events. When it succeeds, the last chunk's reply was 200 or 201 |

## Left out

- The session request (app/services/platforms/youtube/uploader.ts:42-74) is not modelled. This covers the MIME lookup, the file-size lookup, the OAuth bearer token and the POST that opens the resumable session. The file size and the session URL are parameters of the model.
- Reading the file, the PUT request and `result.json()` (lines 94-103, 124-130, 142) are I/O. The model replaces them with the `Response` given for each step: a failed read, a byte count, a failed transport, or a reply with a status and the id of the created video.
- Opening the file (lines 79-87) is not modelled. If `fs.open` fails, `uploadVideo` rejects before any chunk is sent. `Response` and `UploadVideo` have nothing that stands for this case.
- The model does not represent a reply body that fails to parse as JSON, or a 200/201 body without an `id`. A `Done` result carries the reply's id as an opaque string.
- The loop at line 150 stops on a truthy chunk result, not on every 200/201 reply. A 200/201 whose JSON body is `null`, `false`, `0` or `""` makes the source send one more chunk. In the model every 200/201 reply gives `Done` and ends the loop (`RunStopsAtEnd`).
- The chunk's bytes are not modelled. Only their count matters to the control flow and the headers.
- `Content-Type` and `X-Upload-Content-Type` on each PUT (lines 113 and 118) carry the MIME type unchanged; it is an opaque field of `UploadCursor`. The model does not handle a missing type (`null`). It also does not handle a missing `Location` header: the session URL is an opaque string.
- The file is opened (lines 79-87) but never closed on any path. The model has no file handle, so this leak is not represented.
- `async`/`await` is not modelled. Each step's awaits are sequential and the loop is single-threaded. The model is a plain sequential program.
- `onProgress` is not a callback here. Each event is appended to the recorded progress sequence, in the order the callback would receive it.
- Numbers in the header are unbounded integers rendered in plain decimal. JavaScript numbers lose integer precision above 2^53 and switch to exponent notation at 10^21. The model does not capture either effect, since no file is that large.
- Uploader.UploadCursor.UploadUntilDone: stops with `NotDone` when the given responses run out. The source loop would await a further reply instead.

