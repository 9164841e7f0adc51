/** The line loop of toNodeStream (datajs/src/browser-utils/utils.js, lines
    10-59). The browser reader is a sequence of already decoded chunks whose
    end is the reader's `done`; `nodeStream.push` calls are collected in
    order, and `reader.cancel()` calls are counted. */
module NodeStream {
  import opened Lines

  /** One call of `nodeStream.push`: a line, or `null`, which ends the stream. */
  datatype Push = Line(text: string) | End

  /** What one call of toNodeStream leaves behind. */
  datatype Outcome = Outcome(
    pushes: seq<Push>,    // the nodeStream.push calls, in order
    lineCounter: int,
    chunkText: string,
    lastString: string,   // the carry-over still held when the loop stopped
    cancels: nat,         // the reader.cancel() calls
    readCalls: nat)       // the reader.read() calls

  function Min(a: int, b: int): int {
    if a <= b then a else b
  }

  /** The whole input, as the reader delivered it. */
  function Concat(chunks: seq<string>): string
    decreases |chunks|
  {
    if chunks == [] then "" else Concat(Init(chunks)) + Last(chunks)
  }

  /** The carry-over (`lastString`) once `chunks` have been decoded: the last
      fragment of the last combined string, or "" before any chunk. */
  function Carry(chunks: seq<string>): string
    decreases |chunks|, 1
  {
    if chunks == [] then "" else Last(Split(Combined(chunks)))
  }

  /** The string split when the last of `chunks` is decoded: the carry-over
      left by the earlier chunks, followed by that chunk. */
  function Combined(chunks: seq<string>): string
    requires |chunks| > 0
    decreases |chunks|, 0
  {
    Carry(Init(chunks)) + Last(chunks)
  }

  /** Every line closed by a separator while decoding `chunks`, in order; the
      carry-over is not among them. */
  function CompleteLines(chunks: seq<string>): seq<string>
    decreases |chunks|
  {
    if chunks == [] then [] else CompleteLines(Init(chunks)) + Fragments(Combined(chunks))
  }

  /** `chunkText` once `chunks` have been decoded: every combined string, in
      order. */
  function Accumulated(chunks: seq<string>): string
    decreases |chunks|
  {
    if chunks == [] then "" else Accumulated(Init(chunks)) + Combined(chunks)
  }

  /** The number of chunks during which the inner loop met a line with the
      counter already at `size`, and so cancelled the reader: those that
      close at least one line and bring the complete lines past `size`. */
  function Cuts(chunks: seq<string>, size: int): nat
    decreases |chunks|
  {
    if chunks == [] then 0
    else
      var cut := Fragments(Combined(chunks)) != [] && |CompleteLines(chunks)| > size;
      Cuts(Init(chunks), size) + (if cut then 1 else 0)
  }

  /** The reader is cancelled during some chunk exactly when there are more
      complete lines than `size`. */
  lemma {:induction false} CutsPositive(chunks: seq<string>, size: int)
    requires size >= 0
    ensures Cuts(chunks, size) > 0 <==> |CompleteLines(chunks)| > size
    decreases |chunks|
  {
    if chunks != [] {
      CutsPositive(Init(chunks), size);
    }
  }

  /** The first `size` lines when `size` is positive; none otherwise. */
  function Cap(lines: seq<string>, size: int): seq<string> {
    if size <= 0 then [] else if |lines| <= size then lines else lines[..size]
  }

  /** The line bodies that toNodeStream pushes for `chunks`. */
  function Emitted(chunks: seq<string>, size: int): seq<string> {
    Cap(CompleteLines(chunks), size)
  }

  /** The push calls for the line bodies `lines`: each with a `\r\n` ending. */
  function LinePushes(lines: seq<string>): (r: seq<Push>)
    ensures |r| == |lines|
    decreases |lines|
  {
    if lines == [] then [] else LinePushes(Init(lines)) + [Line(Last(lines) + CRLF)]
  }

  /** Push number `k` carries line `k` with a `\r\n` ending. */
  lemma {:induction false} LinePushesAt(lines: seq<string>, k: nat)
    requires k < |lines|
    ensures LinePushes(lines)[k] == Line(lines[k] + CRLF)
    decreases |lines|
  {
    if k < |lines| - 1 {
      LinePushesAt(Init(lines), k);
    }
  }

  /** No complete line holds a `\r` or a `\n`; neither does the carry-over. */
  lemma {:induction false} CompleteLinesNoBreak(chunks: seq<string>)
    ensures AllNoBreak(CompleteLines(chunks))
    ensures NoBreak(Carry(chunks))
    decreases |chunks|
  {
    if chunks != [] {
      CompleteLinesNoBreak(Init(chunks));
      var s := Combined(chunks);
      SplitNoBreak(s);
      var before, now := CompleteLines(Init(chunks)), Fragments(s);
      assert forall k :: 0 <= k < |now| ==> now[k] == Split(s)[k];
      assert forall k :: |before| <= k < |before| + |now| ==> (before + now)[k] == now[k - |before|];
    }
  }

  lemma InitLast<T>(s: seq<T>)
    requires |s| > 0
    ensures Init(s) + [Last(s)] == s
  {
  }

  lemma CapFull(xs: seq<string>, ys: seq<string>, size: int)
    requires |Cap(xs, size)| == size
    ensures Cap(xs + ys, size) == Cap(xs, size)
  {
    if size > 0 {
      assert (xs + ys)[..size] == xs[..size];
    }
  }

  lemma CapGrow(xs: seq<string>, x: string, size: int)
    requires size >= 0 && |Cap(xs, size)| != size
    ensures |Cap(xs, size)| == |xs| < size
    ensures Cap(xs + [x], size) == Cap(xs, size) + [x]
  {
  }

  lemma LinePushesAppend(xs: seq<string>, x: string)
    ensures LinePushes(xs + [x]) == LinePushes(xs) + [Line(x + CRLF)]
  {
    assert Init(xs + [x]) == xs;
  }

  /** What decoding `value` after the chunks `seen` adds to the
      specification functions. */
  lemma DecodeStep(seen: seq<string>, value: string, size: int)
    ensures var s := Carry(seen) + value;
      && Carry(seen + [value]) == Last(Split(s))
      && Accumulated(seen + [value]) == Accumulated(seen) + s
      && CompleteLines(seen + [value]) == CompleteLines(seen) + Fragments(s)
      && Cuts(seen + [value], size) ==
           Cuts(seen, size) + (if Fragments(s) != [] && |CompleteLines(seen)| + |Fragments(s)| > size then 1 else 0)
  {
    assert Init(seen + [value]) == seen;
  }

  /** The variables of toNodeStream's loop (lines 13-17), with the number of
      reader.cancel() calls. */
  datatype LoopState = LoopState(
    pushes: seq<Push>,
    lineCounter: int,
    lastString: string,
    chunkText: string,
    cancels: nat)

  /** `st` is the loop state once the chunks `seen` have been decoded. */
  ghost predicate Tracks(st: LoopState, seen: seq<string>, size: int) {
    && st.lastString == Carry(seen)
    && st.chunkText == Accumulated(seen)
    && st.pushes == LinePushes(Emitted(seen, size))
    && st.lineCounter == |Emitted(seen, size)|
    && st.cancels == Cuts(seen, size)
  }

  /** toNodeStream's loop: read, stop on `done` (or on a counter above a
      non-zero `size`), otherwise decode the chunk; then end the stream.
      In the source the function then reads `return_chunk` (line 54), a name
      never declared (the parameter is `returnChunk`), so as written every
      call rejects with a ReferenceError right after `push(null)`. The model
      therefore returns both candidate results, the pushes and `chunkText`,
      and chooses neither. */
  method ToNodeStream(chunks: seq<string>, size: int) returns (o: Outcome)
    ensures o.pushes == LinePushes(Emitted(chunks, size)) + [End]
    ensures forall k :: 0 <= k < |o.pushes| - 1 ==>
      o.pushes[k] == Line(Emitted(chunks, size)[k] + CRLF) && NoBreak(Emitted(chunks, size)[k])
    ensures o.lineCounter == |Emitted(chunks, size)|
    ensures size > 0 ==> o.lineCounter == Min(size, |CompleteLines(chunks)|)
    ensures size <= 0 ==> o.lineCounter == 0
    ensures size >= 0 ==> o.readCalls == |chunks| + 1 && o.chunkText == Accumulated(chunks) && o.lastString == Carry(chunks)
    ensures size < 0 ==> o.readCalls == 1 && o.chunkText == "" && o.lastString == ""
    ensures o.cancels == 1 + if size >= 0 then Cuts(chunks, size) else 0
    ensures o.cancels > 1 <==> size >= 0 && |CompleteLines(chunks)| > size
  {
    var st := LoopState([], 0, "", "", 0);
    var readCalls := 0;
    var i := 0;
    while true
      invariant 0 <= i <= |chunks|
      invariant size < 0 ==> i == 0
      invariant readCalls == i
      invariant Tracks(st, chunks[..i], size)
      decreases |chunks| - i
    {
      // const { done, value } = await reader.read()
      readCalls := readCalls + 1;
      if i == |chunks| || (st.lineCounter > size && size != 0) {
        st := st.(cancels := st.cancels + 1);
        break;
      }
      st := DecodeChunk(st, chunks[..i], chunks[i], size);
      assert chunks[..i] + [chunks[i]] == chunks[..i + 1];
      i := i + 1;
    }
    if size >= 0 {
      assert i == |chunks|;
      assert chunks[..i] == chunks;
      CutsPositive(chunks, size);
    }
    var emitted := Emitted(chunks, size);
    CompleteLinesNoBreak(chunks);
    forall k | 0 <= k < |emitted|
      ensures LinePushes(emitted)[k] == Line(emitted[k] + CRLF) && NoBreak(emitted[k])
    {
      LinePushesAt(emitted, k);
      assert emitted[k] == CompleteLines(chunks)[k];
    }
    o := Outcome(st.pushes + [End], st.lineCounter, st.chunkText, st.lastString, st.cancels, readCalls);
  }

  /** One pass of the loop body after a chunk arrives (lines 29-48): prepend
      the carry-over, append the result to `chunkText`, split it, keep the
      last fragment as the new carry-over and push the others. */
  method DecodeChunk(st: LoopState, ghost seen: seq<string>, value: string, size: int) returns (st': LoopState)
    requires size >= 0 && Tracks(st, seen, size)
    ensures Tracks(st', seen + [value], size)
  {
    var s := st.lastString + value;
    var lines := Split(s);
    ghost var before, after := CompleteLines(seen), CompleteLines(seen + [value]);
    assert after == before + lines[..|lines| - 1] && |after| == |before| + |lines| - 1 by {
      DecodeStep(seen, value, size);
    }
    var pushes, lineCounter, cancelled :=
      PushLines(st.pushes, st.lineCounter, before, lines[..|lines| - 1], size);
    st' := LoopState(pushes, lineCounter, lines[|lines| - 1], st.chunkText + s,
                     if cancelled then st.cancels + 1 else st.cancels);
    assert st'.lastString == Carry(seen + [value]) && st'.chunkText == Accumulated(seen + [value]) by {
      DecodeStep(seen, value, size);
    }
  }

  /** The state of the inner loop after the first `j` of `lines`: the pushes
      and the counter are those of the capped lines so far, and once a line
      is pushed in this loop none was dropped. */
  ghost predicate PushedUpTo(pushes: seq<Push>, lineCounter: int, before: seq<string>, lines: seq<string>, j: nat, size: int) {
    && j <= |lines|
    && pushes == LinePushes(Cap(before + lines[..j], size))
    && lineCounter == |Cap(before + lines[..j], size)|
    && (j > 0 ==> lineCounter == |before| + j <= size)
  }

  lemma PushedStart(pushes: seq<Push>, lineCounter: int, before: seq<string>, lines: seq<string>, size: int)
    requires pushes == LinePushes(Cap(before, size)) && lineCounter == |Cap(before, size)|
    ensures PushedUpTo(pushes, lineCounter, before, lines, 0, size)
  {
    assert before + lines[..0] == before;
  }

  /** One line pushed below the limit grows the capped lines by that line. */
  lemma PushStep(pushes: seq<Push>, lineCounter: int, before: seq<string>, lines: seq<string>, j: nat, size: int)
    requires size >= 0 && j < |lines| && lineCounter != size
    requires PushedUpTo(pushes, lineCounter, before, lines, j, size)
    ensures PushedUpTo(pushes + [Line(lines[j] + CRLF)], lineCounter + 1, before, lines, j + 1, size)
  {
    var done := before + lines[..j];
    assert done + [lines[j]] == before + lines[..j + 1];
    CapGrow(done, lines[j], size);
    LinePushesAppend(Cap(done, size), lines[j]);
  }

  /** Once `size` lines are counted, the rest of `lines` adds nothing. */
  lemma PushStop(pushes: seq<Push>, lineCounter: int, before: seq<string>, lines: seq<string>, j: nat, size: int)
    requires size >= 0 && j < |lines| && lineCounter == size
    requires PushedUpTo(pushes, lineCounter, before, lines, j, size)
    ensures pushes == LinePushes(Cap(before + lines, size))
    ensures lineCounter == |Cap(before + lines, size)|
    ensures |before| + |lines| > size
  {
    var done := before + lines[..j];
    assert done + lines[j..] == before + lines;
    CapFull(done, lines[j..], size);
  }

  /** Every line pushed: nothing was cut off. */
  lemma PushedAll(pushes: seq<Push>, lineCounter: int, before: seq<string>, lines: seq<string>, size: int)
    requires PushedUpTo(pushes, lineCounter, before, lines, |lines|, size)
    ensures pushes == LinePushes(Cap(before + lines, size))
    ensures lineCounter == |Cap(before + lines, size)|
    ensures lines != [] ==> |before| + |lines| <= size
  {
    assert lines[..|lines|] == lines;
  }

  /** The inner `for` loop of toNodeStream (lines 40-48): push each line with
      a `\r\n` ending until the counter reaches `size`, then cancel the
      reader and leave the loop. `before` are the lines counted before. */
  method PushLines(pushes: seq<Push>, lineCounter: int, ghost before: seq<string>, lines: seq<string>, size: int)
    returns (pushes': seq<Push>, lineCounter': int, cancelled: bool)
    requires size >= 0
    requires pushes == LinePushes(Cap(before, size)) && lineCounter == |Cap(before, size)|
    ensures pushes' == LinePushes(Cap(before + lines, size))
    ensures lineCounter' == |Cap(before + lines, size)|
    ensures cancelled <==> lines != [] && |before| + |lines| > size
  {
    pushes', lineCounter', cancelled := pushes, lineCounter, false;
    var j := 0;
    PushedStart(pushes, lineCounter, before, lines, size);
    while j < |lines|
      invariant PushedUpTo(pushes', lineCounter', before, lines, j, size)
      invariant !cancelled
    {
      if lineCounter' == size {
        // reader.cancel(); break
        cancelled := true;
        PushStop(pushes', lineCounter', before, lines, j, size);
        return;
      }
      PushStep(pushes', lineCounter', before, lines, j, size);
      pushes' := pushes' + [Line(lines[j] + CRLF)];
      lineCounter' := lineCounter' + 1;
      j := j + 1;
    }
    PushedAll(pushes', lineCounter', before, lines, size);
  }

  /** When every chunk is empty or ends with a separator, no carry-over is
      ever held, so `chunkText` is exactly the input. */
  lemma {:induction false} AccumulatedWithoutCarry(chunks: seq<string>)
    requires forall k :: 0 <= k < |chunks| ==> chunks[k] == "" || EndsWithBreak(chunks[k])
    ensures Carry(chunks) == ""
    ensures Accumulated(chunks) == Concat(chunks)
    decreases |chunks|
  {
    if chunks != [] {
      var c := Init(chunks);
      assert forall k :: 0 <= k < |c| ==> c[k] == chunks[k];
      AccumulatedWithoutCarry(c);
      var s := Combined(chunks);
      assert s == Last(chunks);
      LastFragmentEmpty(s);
    }
  }

  /** The carry-over is counted twice in `chunkText`: "ab" then "cd" give
      "ab" + "abcd". */
  lemma AccumulatedRepeatsCarry()
    ensures Carry(["ab"]) == "ab"
    ensures Accumulated(["ab", "cd"]) == "ababcd"
    ensures Concat(["ab", "cd"]) == "abcd"
  {
    assert Init(["ab", "cd"]) == ["ab"];
    assert Init(["ab"]) == [];
    assert "" + "ab" == "ab";
    SplitSingle("ab");
  }

  /** The total length of the carry-overs held before each chunk was
      decoded. */
  function CarriedLength(chunks: seq<string>): nat
    decreases |chunks|
  {
    if chunks == [] then 0 else CarriedLength(Init(chunks)) + |Carry(Init(chunks))|
  }

  /** `chunkText` holds the whole input and, on top of it, every carry-over
      once more: its length exceeds the input's by exactly the carry-overs
      held before each chunk. */
  lemma {:induction false} AccumulatedLength(chunks: seq<string>)
    ensures |Accumulated(chunks)| == |Concat(chunks)| + CarriedLength(chunks)
    decreases |chunks|
  {
    if chunks != [] {
      AccumulatedLength(Init(chunks));
    }
  }

  /** No chunk boundary falls between the `\r` and the `\n` of a pair. */
  predicate CleanBoundaries(chunks: seq<string>)
    decreases |chunks|
  {
    chunks == [] ||
    (CleanBoundaries(Init(chunks)) &&
     var a, b := Concat(Init(chunks)), Last(chunks);
     !(|a| > 0 && a[|a| - 1] == '\r' && |b| > 0 && b[0] == '\n'))
  }

  /** Chunk boundaries do not change the lines as long as none of them cuts a
      `\r\n` pair: the complete lines and the carry-over are then the split
      of the whole input. */
  lemma {:induction false} BoundaryInvariance(chunks: seq<string>)
    requires CleanBoundaries(chunks)
    ensures CompleteLines(chunks) + [Carry(chunks)] == Split(Concat(chunks))
    decreases |chunks|
  {
    if chunks != [] {
      var c, x := Init(chunks), Last(chunks);
      BoundaryInvariance(c);
      SplitAppendKnown(CompleteLines(c), Carry(c), Concat(c), x);
      CarryThenChunk(c, x);
      LinesAndCarry(chunks);
    }
  }

  lemma CarryThenChunk(c: seq<string>, x: string)
    ensures Split(Carry(c) + x) == [Carry(c) + Split(x)[0]] + Split(x)[1..]
  {
    CompleteLinesNoBreak(c);
    SplitPrefix(Carry(c), x);
  }

  lemma LinesAndCarry(chunks: seq<string>)
    requires chunks != []
    ensures CompleteLines(chunks) + [Carry(chunks)] == CompleteLines(Init(chunks)) + Split(Combined(chunks))
  {
    InitLast(Split(Combined(chunks)));
  }

  /** The lines closed and the carry-over after one chunk `x`. */
  lemma OneChunk(x: string)
    ensures Combined([x]) == x
    ensures CompleteLines([x]) == Fragments(x) && Carry([x]) == Last(Split(x))
  {
    assert Init([x]) == [];
    assert "" + x == x;
  }

  /** The lines closed after two chunks `x` and `y`. */
  lemma TwoChunks(x: string, y: string)
    ensures CompleteLines([x, y]) == Fragments(x) + Fragments(Last(Split(x)) + y)
    ensures Concat([x, y]) == x + y
  {
    OneChunk(x);
    assert Init([x, y]) == [x];
    assert Concat([x]) == x by {
      assert Init([x]) == [];
      assert "" + x == x;
    }
  }

  /** The fragments of the sample strings used below. */
  lemma SplitSampleCR()
    ensures Split("ab\r") == ["ab", ""] && Fragments("ab\r") == ["ab"]
  {
    SplitAfterSeparator("\r", "");
    assert "\r" + "" == "\r" && "ab" + "\r" == "ab\r";
    SplitBeforeSeparator("ab", "\r", [""]);
  }

  lemma SplitSampleLF()
    ensures Split("\ncd") == ["", "cd"] && Fragments("\ncd") == [""]
  {
    SplitSingle("cd");
    SplitAfterSeparator("\n", "cd");
  }

  lemma SplitSampleCRLF()
    ensures Split("ab\r\ncd") == ["ab", "cd"] && Fragments("ab\r\ncd") == ["ab"]
  {
    SplitSingle("cd");
    SplitAfterSeparator("\r\n", "cd");
    assert "ab" + "\r\ncd" == "ab\r\ncd";
    SplitBeforeSeparator("ab", "\r\ncd", ["cd"]);
  }

  /** A `\r\n` pair cut by a chunk boundary yields an extra empty line: "ab\r"
      then "\ncd" close the lines "ab" and "", while the same text in one
      chunk closes only "ab". */
  lemma SplitPairAcrossChunks()
    ensures CompleteLines(["ab\r", "\ncd"]) == ["ab", ""]
    ensures CompleteLines(["ab\r\ncd"]) == ["ab"]
    ensures Concat(["ab\r", "\ncd"]) == "ab\r\ncd"
  {
    PairCutLines();
    PairWholeLines();
  }

  lemma PairCutLines()
    ensures CompleteLines(["ab\r", "\ncd"]) == ["ab", ""]
    ensures Concat(["ab\r", "\ncd"]) == "ab\r\ncd"
  {
    SplitSampleCR();
    SplitSampleLF();
    TwoChunks("ab\r", "\ncd");
    assert "" + "\ncd" == "\ncd";
    assert "ab\r" + "\ncd" == "ab\r\ncd";
  }

  lemma PairWholeLines()
    ensures CompleteLines(["ab\r\ncd"]) == ["ab"]
  {
    SplitSampleCRLF();
    OneChunk("ab\r\ncd");
  }
}
