# Browser stream utilities of datajs, modelled in Dafny

`datajs/src/browser-utils/utils.js` adapts browser file APIs so that the
parsers of datajs can read files in the browser. This project models two of
its functions.

- `toNodeStream` reads decoded text chunks from a reader. It prepends the
  carry-over left by the previous chunk and appends the result to
  `chunkText`. It then splits the result on `\r\n`, `\r` or `\n`. The last
  fragment becomes the new carry-over. Every other fragment is pushed with a
  `\r\n` ending until `lineCounter` reaches `size`. At the end of the input
  the stream is closed with `push(null)`.
- `readChunk` reads a file 4 MiB at a time through a `FileReader`. After each
  read it advances `offset` by the result's length and calls
  `next(result, offset, fileSize)`. It then calls `done(null)` once `offset`
  reaches the file size, or requests the next slice. On an error it calls
  `done` with the error.

The model has three modules:

- `Lines` (`lines.dfy`) defines the split on the three separators as a
  function, with its round trips and its behaviour under concatenation.
- `NodeStream` (`node_stream.dfy`) holds the loop of `toNodeStream`. The
  reader is a sequence of already decoded chunks, and its end is the
  reader's `done`. The method `ToNodeStream` runs the outer loop,
  `DecodeChunk` runs its body and `PushLines` runs the inner `for` loop. Each
  is proved against specification functions: `Carry` (`lastString`),
  `Accumulated` (`chunkText`), `CompleteLines` (the lines closed by a
  separator) and `Emitted` (the lines pushed under the cap).
- `ChunkReader` (`read_chunk.dfy`) holds `readChunk`. The callback chain
  `readNext` → `onload` → `readNext` is a loop over an oracle: `results[k]`
  is what the k-th read delivers. The calls made are recorded as a trace of
  `Slice`, `Next` and `Done` events. The method `ReadChunk` is proved to
  produce the trace that the function `Trace` defines, and the lemmas state
  what readChunk promises about that trace.

The model follows the code as written. Four points differ from what one
might expect:

- With `size = 0`, nothing is pushed. The check `lineCounter === size` at
  line 41 fires before the first push, and `cancel` is called. The loop
  itself does not stop: it keeps calling `read` until the reader reports
  `done`. `size = 0` is not "unbounded".
- `chunkText` grows by every combined string (lines 30-32). A carry-over is
  therefore counted twice: "ab" then "cd" give "ababcd"
  (`NodeStream.AccumulatedRepeatsCarry`). In general `chunkText` is longer
  than the input by the carry-overs held before each chunk
  (`NodeStream.AccumulatedLength`).
- When no chunk boundary cuts a `\r\n` pair, the lines are those of the
  whole input (`NodeStream.BoundaryInvariance`). A boundary that cuts a
  pair can change them: for example "ab\r" then "\ncd" close an extra
  empty line (`NodeStream.SplitPairAcrossChunks`).
- When `size` is positive, `lineCounter` never exceeds it. The test
  `lineCounter > size` at line 24 therefore never fires, so the loop ends
  only when the reader reports `done`. A negative `size` makes that test
  fire on the first read.

The input `chunks` is what the reader actually delivers, up to its `done`.
The loop calls `cancel` but never stops reading because of it, so the model
reads every chunk it is given. A standard browser stream reader delivers
nothing after `cancel`: its next `read` reports `done`. For such a reader,
`chunks` ends with the chunk during which `cancel` was first called, and
`chunkText` covers the input only up to that chunk.

## Model

| member | source | states |
|---|---|---|
| Lines.Split | datajs/src/browser-utils/utils.js:35 | the split of `s` on `\r\n`, `\r` or `\n` (`\r\n` taken as one separator) has at least one fragment, even for the empty string; its fragments are described by the lemmas below |
| Lines.SplitNoBreak | datajs/src/browser-utils/utils.js:35 | no fragment of the split holds `\r` or `\n` |
| Lines.SplitThenJoin | datajs/src/browser-utils/utils.js:35 | joining the fragments with `\n` gives the text with each separator (`\r\n`, `\r` or `\n`) replaced by one `\n`; nothing else is lost or reordered |
| Lines.JoinThenSplit | datajs/src/browser-utils/utils.js:35 | fragments without separators, joined with any one of `\r\n`, `\r` or `\n`, split back into exactly those fragments |
| Lines.LastFragmentEmpty | datajs/src/browser-utils/utils.js:35-38 | the last fragment, which becomes the carry-over, is empty exactly when the combined string is empty or ends with a separator |
| Lines.SplitAppend | datajs/src/browser-utils/utils.js:35 | splitting `a + b` fuses the last fragment of `a` with the first fragment of `b` and keeps every other fragment, provided the boundary does not cut a `\r\n` pair |
| NodeStream.ToNodeStream | datajs/src/browser-utils/utils.js:13-51 | the pushes are the emitted lines, each as body + `\r\n` with no separator in the body, in input order, followed by exactly one `push(null)`; the carry-over still held at the end is never pushed; `lineCounter` is `min(size, complete lines)` for positive `size` and 0 otherwise; for `size >= 0` every chunk is read (reads = chunks + 1), `chunkText` is the concatenation of the combined strings and `lastString` the last carry-over; a negative `size` stops after one read; `cancel` is called once when the loop ends and, for `size >= 0`, once more for each chunk whose lines met the counter at `size` (`Cuts`), so more than once exactly when `size >= 0` and there are more complete lines than `size` |
| NodeStream.DecodeChunk | datajs/src/browser-utils/utils.js:29-48 | one step of the loop keeps the state tied to the chunks seen: the new carry-over is the last fragment of carry-over + chunk, `chunkText` grows by that combined string, the pushes and counter are those of the capped complete lines, and `cancel` is counted once more exactly when this chunk closes a line and brings the complete lines past `size` |
| NodeStream.CutsPositive | datajs/src/browser-utils/utils.js:40-44 | for `size >= 0`, the inner loop cancels the reader during some chunk exactly when there are more complete lines than `size` |
| NodeStream.PushLines | datajs/src/browser-utils/utils.js:40-48 | the inner loop pushes the lines in order, each with `\r\n`, until the counter reaches `size`; it cancels exactly when lines remain once the counter has reached `size` |
| NodeStream.LinePushesAt | datajs/src/browser-utils/utils.js:46 | push number `k` carries line `k` followed by `\r\n` |
| NodeStream.CompleteLinesNoBreak | datajs/src/browser-utils/utils.js:35-46 | neither any complete line nor the carry-over holds `\r` or `\n` |
| NodeStream.AccumulatedWithoutCarry | datajs/src/browser-utils/utils.js:30-38 | when every chunk is empty or ends with a separator, no carry-over is held and `chunkText` is exactly the input |
| NodeStream.AccumulatedRepeatsCarry | datajs/src/browser-utils/utils.js:30-32 | a carry-over is counted twice in `chunkText`: "ab" then "cd" give "ababcd", while the input is "abcd" |
| NodeStream.AccumulatedLength | datajs/src/browser-utils/utils.js:30-38 | `chunkText` is longer than the input by exactly the total length of the carry-overs held before each chunk |
| NodeStream.BoundaryInvariance | datajs/src/browser-utils/utils.js:30-38 | when no chunk boundary cuts a `\r\n` pair, the complete lines followed by the carry-over are the split of the whole input |
| NodeStream.SplitPairAcrossChunks | datajs/src/browser-utils/utils.js:30-38 | a `\r\n` pair cut by a boundary closes an extra empty line: "ab\r" then "\ncd" close "ab" and "", while "ab\r\ncd" in one chunk closes only "ab" |
| ChunkReader.FailureOf | datajs/src/browser-utils/utils.js:80-97 | the value handed to `done` on a failed read is the error carried by the `onload` reader, or the `onerror` event, and `{}` exactly when that event is missing |
| ChunkReader.ReadChunk | datajs/src/browser-utils/utils.js:73-104 | the loop over the reads makes exactly the calls of `Trace`, and its final offset is the total length of the data handed to `next` |
| ChunkReader.TraceLinked | datajs/src/browser-utils/utils.js:75-103 | the first call is the slice `[0, 4 MiB)`; every slice is `[offset, offset + 4 MiB)`; after a slice comes a `next` whose offset is the slice's start advanced by the length of the data it carries, with the file size passed through, or `done` with a failure; after a `next` comes `done(null)` if the offset reached the file size and the next slice otherwise; `done` is called at most once, as the last call |
| ChunkReader.TraceOffsets | datajs/src/browser-utils/utils.js:76-87 | `offset` starts at 0 and grows by each result's length: every `next` receives the total length of the data delivered so far |
| ChunkReader.TraceDelivers | datajs/src/browser-utils/utils.js:84-87 | when the reads before read `k` loaded data without reaching the file size and read `k` loads too, read `k` is requested by the slice at the offset delivered so far, and its `next` hands on exactly the data it loaded, with the offset advanced by that data |
| ChunkReader.TraceFailsAt | datajs/src/browser-utils/utils.js:79-97 | when the reads before read `k` loaded data without reaching the file size and read `k` fails, readChunk ends with `done` receiving that read's failure as its last call, after exactly `k` calls of `next` |
| ChunkReader.TraceFailure | datajs/src/browser-utils/utils.js:79-97 | when readChunk ends with a failure, the failing read got no `next`, each earlier read loaded data and got one `next`, and `done` receives the failing read's error, or `{}` when that error is missing |
| ChunkReader.TraceCompletes | datajs/src/browser-utils/utils.js:84-91 | when every read loads data and together they reach the file size, readChunk ends with `done(null)` |
| ChunkReader.FileCompletes | datajs/src/browser-utils/utils.js:84-103 | a file that delivers every slice in full, read often enough, ends with a `next` whose offset is exactly the file size, followed by `done(null)` |

## Left out

- `TextDecoder` (lines 19 and 30) is a foreign call. Chunks enter the model already decoded. `decode` is called without `{stream: true}`, so a multi-byte character split across chunks is decoded wrongly; the model does not capture this.
- The asynchronous `reader.read()` and the Node `Readable` are browser and stream I/O. They become an input sequence and a list of push calls.
- `reader.cancel()` is only counted. What a cancel does to the reader is the reader's business: the model reads whatever chunks the reader delivers, and for a standard stream reader those end at the chunk during which `cancel` was first called.
- A `reader.read()` that rejects (line 22) makes toNodeStream reject at once, with no further `cancel` and no `push(null)`. The model's input always ends with the reader's `done`.
- The `returnChunk` / `return_chunk` mode selection (lines 10 and 54-58) is not modelled. Line 54 reads `return_chunk`, which is never declared, so as written every call rejects with a ReferenceError right after `push(null)`. `ToNodeStream` returns both candidate results, the pushes and `chunkText`, and chooses neither.
- A `size` that is not an integer (for example `undefined` or a fraction) is not modelled; `size` is an unbounded integer.
- `FileReader`, its `onload` and `onerror` events, `readAsBinaryString` and `file.slice` (lines 78-101) are browser I/O. They become the oracle `results`, and the data a read delivers is a string whose length is the `reader.result.length` of line 84.
- The slicing primitive clamps a slice to the end of the file. The model records the slice as requested, `[offset, offset + 4 MiB)`, and lets the oracle say what the read delivers.
- A read that never completes is modelled by the oracle running out: the trace then ends with the pending slice.
- Lines.Split: its own contract states only that there is at least one fragment; `SplitNoBreak`, `SplitThenJoin`, `JoinThenSplit`, `LastFragmentEmpty` and `SplitAppend` state the rest, because quantified facts in the function's own contract make every use of it costly.
- `isFileFromBrowser` (lines 62-64) is a host type check (`instanceof File`) and is not modelled.
