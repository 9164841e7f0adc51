/** readChunk (datajs/src/browser-utils/utils.js, lines 73-104): read a file
    4 MiB at a time through a FileReader, reporting every chunk to `next`
    and the end of the file, or the first error, to `done`.

    The FileReader's callback chain (`readNext` -> `onload` -> `readNext`) is
    a loop over an oracle: `results[k]` is what the k-th read delivers. The
    calls made to the outside world are recorded as a trace of events. */
module ChunkReader {

  /** `chunkSize` (line 75): 4 MiB. */
  const ChunkSize: nat := 4 * 1024 * 1024

  datatype Option<T> = None | Some(value: T)

  /** The value handed to `done` on a failure. `Blank` is the empty object
      `{}` substituted when the error value is missing (`err || {}`). */
  datatype Failure = Reported(reason: string) | Blank

  /** The outcome of one `readAsBinaryString`: the data loaded, a load whose
      reader carries an error (`onload` with `reader.error` set), or an
      `onerror` event, whose value may be missing. */
  datatype ReadResult =
    | Loaded(data: string)
    | ErrorOnLoad(reason: string)
    | ErrorEvent(event: Option<string>)

  /** A call made by readChunk: `file.slice(start, end)` for the next read,
      `next(data, offset, fileSize)`, or `done(failure)` where `None` is
      `done(null)`. */
  datatype Event =
    | Slice(start: nat, end: nat)
    | Next(data: string, offset: nat, fileSize: nat)
    | Done(failure: Option<Failure>)

  /** The value handed to `done` for a read that failed: the error it
      carries, or `{}` when an `onerror` event comes without one. */
  function FailureOf(r: ReadResult): (f: Failure)
    requires !r.Loaded?
    ensures f.Blank? <==> r.ErrorEvent? && r.event.None?
    ensures f.Reported? ==> f.reason == if r.ErrorOnLoad? then r.reason else r.event.value
  {
    match r
    case ErrorOnLoad(reason) => Reported(reason)
    case ErrorEvent(None) => Blank
    case ErrorEvent(Some(reason)) => Reported(reason)
  }

  /** The calls made after a slice at `offset` has been requested, when the
      reads deliver `results` in turn. When the results run out, a read is
      still pending and nothing more is called. */
  function Continue(fileSize: nat, results: seq<ReadResult>, offset: nat): seq<Event>
    decreases |results|
  {
    if results == [] then []
    else if !results[0].Loaded? then [Done(Some(FailureOf(results[0])))]
    else
      var o := offset + |results[0].data|;
      [Next(results[0].data, o, fileSize)] +
      if o >= fileSize then [Done(None)]
      else [Slice(o, o + ChunkSize)] + Continue(fileSize, results[1..], o)
  }

  /** Every call readChunk makes for a file of `fileSize` bytes whose reads
      deliver `results`: the first slice at offset 0, then what follows. */
  function Trace(fileSize: nat, results: seq<ReadResult>): seq<Event> {
    [Slice(0, ChunkSize)] + Continue(fileSize, results, 0)
  }

  /** One loaded read that leaves the offset below the file size: its `next`,
      the slice for the following read, then the rest. */
  lemma ContinueStep(fileSize: nat, results: seq<ReadResult>, offset: nat)
    requires results != [] && results[0].Loaded? && offset + |results[0].data| < fileSize
    ensures var d := results[0].data;
      var o := offset + |d|;
      Continue(fileSize, results, offset) == [Next(d, o, fileSize), Slice(o, o + ChunkSize)] + Continue(fileSize, results[1..], o)
  {
  }

  /** The callback chain as a loop: request a slice, take the next result,
      and stop on an error or once `offset` reaches `fileSize`. `offset` is
      the final value of the offset. */
  method ReadChunk(fileSize: nat, results: seq<ReadResult>) returns (events: seq<Event>, offset: nat)
    ensures events == Trace(fileSize, results)
    ensures offset == Delivered(events)
  {
    offset := 0;
    events := [Slice(offset, offset + ChunkSize)];
    var k := 0;
    ReadStart(fileSize, results);
    while k < |results|
      invariant Reading(events, offset, fileSize, results, k)
      decreases |results| - k
    {
      var r := results[k];
      if !r.Loaded? {
        // done(reader.error || {}) in onload, or done(err || {}) in onerror
        ReadFailed(events, offset, fileSize, results, k);
        events := events + [Done(Some(FailureOf(r)))];
        return;
      }
      ghost var before, start := events, offset;
      offset := offset + |r.data|;
      events := events + [Next(r.data, offset, fileSize)];
      if offset >= fileSize {
        events := events + [Done(None)];
        ReadFinished(before, start, fileSize, results, k);
        return;
      }
      // readNext()
      events := events + [Slice(offset, offset + ChunkSize)];
      ReadContinues(before, start, fileSize, results, k);
      k := k + 1;
    }
    ReadPending(events, offset, fileSize, results);
  }

  /** The state of the loop before the read of `results[k]`: the calls made
      so far, followed by those still to come, are the whole trace. */
  ghost predicate Reading(events: seq<Event>, offset: nat, fileSize: nat, results: seq<ReadResult>, k: nat) {
    && k <= |results|
    && events + Continue(fileSize, results[k..], offset) == Trace(fileSize, results)
    && offset == Delivered(events)
  }

  lemma ReadStart(fileSize: nat, results: seq<ReadResult>)
    ensures Reading([Slice(0, ChunkSize)], 0, fileSize, results, 0)
  {
    assert results[0..] == results;
    assert [Slice(0, ChunkSize)][..0] == [];
  }

  lemma ReadFailed(events: seq<Event>, offset: nat, fileSize: nat, results: seq<ReadResult>, k: nat)
    requires k < |results| && !results[k].Loaded?
    requires Reading(events, offset, fileSize, results, k)
    ensures var e := events + [Done(Some(FailureOf(results[k])))];
      e == Trace(fileSize, results) && offset == Delivered(e)
  {
    assert results[k..][0] == results[k];
    DeliveredAppend(events, [Done(Some(FailureOf(results[k])))]);
  }

  lemma ReadFinished(events: seq<Event>, offset: nat, fileSize: nat, results: seq<ReadResult>, k: nat)
    requires k < |results| && results[k].Loaded? && offset + |results[k].data| >= fileSize
    requires Reading(events, offset, fileSize, results, k)
    ensures var d := results[k].data;
      var o := offset + |d|;
      var e := events + [Next(d, o, fileSize)] + [Done(None)];
      e == Trace(fileSize, results) && o == Delivered(e)
  {
    assert results[k..][0] == results[k];
    ReadLast(events, results[k].data, offset, fileSize, results[k..]);
  }

  lemma ReadContinues(events: seq<Event>, offset: nat, fileSize: nat, results: seq<ReadResult>, k: nat)
    requires k < |results| && results[k].Loaded? && offset + |results[k].data| < fileSize
    requires Reading(events, offset, fileSize, results, k)
    ensures var d := results[k].data;
      var o := offset + |d|;
      Reading(events + [Next(d, o, fileSize)] + [Slice(o, o + ChunkSize)], o, fileSize, results, k + 1)
  {
    assert results[k..][0] == results[k];
    assert results[k..][1..] == results[k + 1..];
    ReadOn(events, results[k].data, offset, fileSize, results[k..]);
  }

  lemma ReadLast(events: seq<Event>, d: string, offset: nat, fileSize: nat, rest: seq<ReadResult>)
    requires rest != [] && rest[0] == Loaded(d) && offset + |d| >= fileSize
    ensures var o := offset + |d|;
      var e := events + [Next(d, o, fileSize)] + [Done(None)];
      e == events + Continue(fileSize, rest, offset) && Delivered(e) == Delivered(events) + |d|
  {
    StepDelivered(events, d, offset + |d|, fileSize, Done(None));
  }

  lemma ReadOn(events: seq<Event>, d: string, offset: nat, fileSize: nat, rest: seq<ReadResult>)
    requires rest != [] && rest[0] == Loaded(d) && offset + |d| < fileSize
    ensures var o := offset + |d|;
      var e := events + [Next(d, o, fileSize)] + [Slice(o, o + ChunkSize)];
      e + Continue(fileSize, rest[1..], o) == events + Continue(fileSize, rest, offset)
      && Delivered(e) == Delivered(events) + |d|
  {
    var o := offset + |d|;
    StepDelivered(events, d, o, fileSize, Slice(o, o + ChunkSize));
    ContinueStep(fileSize, rest, offset);
    AppendPair(events, Next(d, o, fileSize), Slice(o, o + ChunkSize), Continue(fileSize, rest[1..], o));
  }

  lemma AppendPair(events: seq<Event>, a: Event, b: Event, c: seq<Event>)
    ensures events + [a] + [b] + c == events + ([a, b] + c)
  {
  }

  lemma ReadPending(events: seq<Event>, offset: nat, fileSize: nat, results: seq<ReadResult>)
    requires Reading(events, offset, fileSize, results, |results|)
    ensures events == Trace(fileSize, results) && offset == Delivered(events)
  {
    assert results[|results|..] == [];
    assert events + [] == events;
  }

  lemma StepDelivered(before: seq<Event>, data: string, offset: nat, fileSize: nat, after: Event)
    requires !after.Next?
    ensures Delivered(before + [Next(data, offset, fileSize)] + [after]) == Delivered(before) + |data|
  {
    var e := before + [Next(data, offset, fileSize)];
    assert (e + [after])[..|e|] == e;
    assert e[..|before|] == before;
  }

  /** Total length of the data handed to `next` in `events`. */
  function Delivered(events: seq<Event>): nat
    decreases |events|
  {
    if events == [] then 0
    else Delivered(events[..|events| - 1]) + (if events[|events| - 1].Next? then |events[|events| - 1].data| else 0)
  }

  lemma {:induction false} DeliveredAppend(a: seq<Event>, b: seq<Event>)
    ensures Delivered(a + b) == Delivered(a) + Delivered(b)
    decreases |b|
  {
    if b == [] {
      assert a + b == a;
    } else {
      var c := b[..|b| - 1];
      assert (a + b)[..|a + b| - 1] == a + c;
      DeliveredAppend(a, c);
    }
  }

  /** The calls that may follow call `e`: after a slice, the `next` for
      that read with the offset advanced by its data and the file size
      passed through, or `done` with a failure; after a `next`, `done(null)`
      if the offset reached the file size and the slice at the new offset
      otherwise; after `done`, nothing. */
  predicate Follows(e: Event, f: Event, fileSize: nat) {
    match e
    case Slice(start, _) =>
      (f.Next? && f.offset == start + |f.data| && f.fileSize == fileSize) || (f.Done? && f.failure.Some?)
    case Next(_, offset, _) =>
      f == if offset >= fileSize then Done(None) else Slice(offset, offset + ChunkSize)
    case Done(_) => false
  }

  predicate FollowsAt(t: seq<Event>, i: nat, fileSize: nat)
    requires i + 1 < |t|
  {
    Follows(t[i], t[i + 1], fileSize)
  }

  /** The calls in `t` follow each other as readChunk allows, every slice is
      `ChunkSize` long, and `t` never stops right after a `next`. */
  predicate Linked(t: seq<Event>, fileSize: nat) {
    && |t| > 0
    && (forall i: nat :: i + 1 < |t| ==> FollowsAt(t, i, fileSize))
    && (forall i :: 0 <= i < |t| && t[i].Slice? ==> t[i].end == t[i].start + ChunkSize)
    && !t[|t| - 1].Next?
  }

  lemma {:induction false} ContinueLinked(fileSize: nat, results: seq<ReadResult>, offset: nat)
    ensures Linked([Slice(offset, offset + ChunkSize)] + Continue(fileSize, results, offset), fileSize)
    decreases |results|
  {
    if results != [] && results[0].Loaded? {
      var d := results[0].data;
      var o := offset + |d|;
      if o < fileSize {
        var t' := [Slice(o, o + ChunkSize)] + Continue(fileSize, results[1..], o);
        ContinueLinked(fileSize, results[1..], o);
        var t := [Slice(offset, offset + ChunkSize), Next(d, o, fileSize)] + t';
        ContinueStep(fileSize, results, offset);
        assert [Slice(offset, offset + ChunkSize)] + Continue(fileSize, results, offset) == t;
        forall i: nat | i + 1 < |t|
          ensures FollowsAt(t, i, fileSize)
        {
          if i >= 2 {
            assert FollowsAt(t', i - 2, fileSize);
            assert t[i] == t'[i - 2] && t[i + 1] == t'[i - 1];
          }
        }
        assert forall i :: 2 <= i < |t| ==> t[i] == t'[i - 2];
      }
    }
  }

  /** readChunk starts with the slice at offset 0, and its calls are linked:
      in particular `done` is called at most once, as the last call. */
  lemma TraceLinked(fileSize: nat, results: seq<ReadResult>)
    ensures var t := Trace(fileSize, results);
      && t[0] == Slice(0, ChunkSize)
      && Linked(t, fileSize)
      && forall i :: 0 <= i < |t| - 1 ==> !t[i].Done?
  {
    ContinueLinked(fileSize, results, 0);
    var t := Trace(fileSize, results);
    forall i | 0 <= i < |t| - 1
      ensures !t[i].Done?
    {
      assert FollowsAt(t, i, fileSize);
    }
  }

  /** Every `next` in `t` receives `offset` advanced by all the data
      delivered in `t` up to and including that call. */
  predicate OffsetsFrom(t: seq<Event>, offset: nat) {
    forall i: nat :: i < |t| ==> OffsetAt(t, i, offset)
  }

  predicate OffsetAt(t: seq<Event>, i: nat, offset: nat)
    requires i < |t|
  {
    t[i].Next? ==> t[i].offset == offset + Delivered(t[..i + 1])
  }

  lemma OffsetsAppend(p: seq<Event>, c: seq<Event>, offset: nat)
    requires OffsetsFrom(p, offset) && OffsetsFrom(c, offset + Delivered(p))
    ensures OffsetsFrom(p + c, offset)
  {
    var t := p + c;
    forall i: nat | i < |t|
      ensures OffsetAt(t, i, offset)
    {
      if i < |p| {
        assert OffsetAt(p, i, offset);
        assert t[..i + 1] == p[..i + 1];
      } else {
        var j := i - |p|;
        assert OffsetAt(c, j, offset + Delivered(p));
        assert t[..i + 1] == p + c[..j + 1];
        DeliveredAppend(p, c[..j + 1]);
        assert t[i] == c[j];
      }
    }
  }

  /** A `next` at `o`, then a call that is not a `next`, after the slice at
      `offset`. */
  lemma OffsetsStep(d: string, o: nat, fileSize: nat, after: Event, offset: nat)
    requires o == offset + |d| && !after.Next?
    ensures var p := [Next(d, o, fileSize), after];
      OffsetsFrom(p, offset) && Delivered(p) == |d|
  {
    var p := [Next(d, o, fileSize), after];
    assert p[..1][..0] == [];
    assert p[..2] == p;
    assert p[..1] == p[..|p| - 1];
    assert OffsetAt(p, 0, offset) && OffsetAt(p, 1, offset);
  }

  /** Each `next` after the slice at `offset` receives `offset` advanced by
      all the data delivered up to and including that call. */
  lemma {:induction false} ContinueOffsets(fileSize: nat, results: seq<ReadResult>, offset: nat)
    ensures OffsetsFrom(Continue(fileSize, results, offset), offset)
    decreases |results|
  {
    if results != [] && results[0].Loaded? {
      var d := results[0].data;
      var o := offset + |d|;
      if o >= fileSize {
        OffsetsStep(d, o, fileSize, Done(None), offset);
        assert Continue(fileSize, results, offset) == [Next(d, o, fileSize), Done(None)];
      } else {
        var c := Continue(fileSize, results[1..], o);
        ContinueOffsets(fileSize, results[1..], o);
        OffsetsStep(d, o, fileSize, Slice(o, o + ChunkSize), offset);
        OffsetsAppend([Next(d, o, fileSize), Slice(o, o + ChunkSize)], c, offset);
        ContinueStep(fileSize, results, offset);
      }
    }
  }

  /** In readChunk, `offset` starts at 0 and grows by each result's length:
      every `next` receives the total length of the data delivered so far,
      itself included. */
  lemma TraceOffsets(fileSize: nat, results: seq<ReadResult>)
    ensures OffsetsFrom(Trace(fileSize, results), 0)
  {
    ContinueOffsets(fileSize, results, 0);
    var first := [Slice(0, ChunkSize)];
    assert OffsetAt(first, 0, 0);
    assert Delivered(first) == 0 by {
      assert first[..0] == [];
    }
    OffsetsAppend(first, Continue(fileSize, results, 0), 0);
  }

  /** The number of `next` calls in `t`. */
  function Nexts(t: seq<Event>): nat
    decreases |t|
  {
    if t == [] then 0 else (if t[0].Next? then 1 else 0) + Nexts(t[1..])
  }

  /** When the calls `c` end with `done` and the failure `f`, read number
      `Nexts(c)` of `results` failed with `f` and every read before it
      loaded. */
  predicate FailureEnd(c: seq<Event>, results: seq<ReadResult>, f: Failure) {
    c != [] && c[|c| - 1] == Done(Some(f)) ==> FailsAt(results, Nexts(c), f)
  }

  lemma {:induction false} ContinueFailure(fileSize: nat, results: seq<ReadResult>, offset: nat, f: Failure)
    ensures FailureEnd(Continue(fileSize, results, offset), results, f)
    decreases |results|, 1
  {
    if results == [] {
      assert Continue(fileSize, results, offset) == [];
    } else if !results[0].Loaded? {
      FailureAtFirst(fileSize, results, offset, f);
    } else if offset + |results[0].data| < fileSize {
      FailureLater(fileSize, results, offset, f);
    } else {
      ContinueLast(fileSize, results, offset);
    }
  }

  lemma FailureAtFirst(fileSize: nat, results: seq<ReadResult>, offset: nat, f: Failure)
    requires results != [] && !results[0].Loaded?
    ensures FailureEnd(Continue(fileSize, results, offset), results, f)
  {
    ContinueFailed(fileSize, results, offset);
  }

  lemma {:induction false} FailureLater(fileSize: nat, results: seq<ReadResult>, offset: nat, f: Failure)
    requires results != [] && results[0].Loaded? && offset + |results[0].data| < fileSize
    ensures FailureEnd(Continue(fileSize, results, offset), results, f)
    decreases |results|, 0
  {
    var d := results[0].data;
    var o := offset + |d|;
    var rest := results[1..];
    var pair := [Next(d, o, fileSize), Slice(o, o + ChunkSize)];
    ContinueStep(fileSize, results, offset);
    ContinueFailure(fileSize, rest, o, f);
    FailureThrough(Continue(fileSize, results, offset), pair, Continue(fileSize, rest, o), results, f);
  }

  /** A failure in the calls `c` after the first read is a failure of the
      whole, one read later. */
  lemma FailureThrough(t: seq<Event>, pair: seq<Event>, c: seq<Event>, results: seq<ReadResult>, f: Failure)
    requires t == pair + c
    requires |pair| == 2 && pair[0].Next? && pair[1].Slice?
    requires |results| > 0 && results[0].Loaded?
    requires FailureEnd(c, results[1..], f)
    ensures FailureEnd(t, results, f)
  {
    LastOfAppend(pair, c);
    if c != [] && c[|c| - 1] == Done(Some(f)) {
      NextsPair(pair, c);
      FailureShift(results, Nexts(c), f);
    }
  }

  lemma ContinueFailed(fileSize: nat, results: seq<ReadResult>, offset: nat)
    requires results != [] && !results[0].Loaded?
    ensures var c := Continue(fileSize, results, offset);
      c == [Done(Some(FailureOf(results[0])))] && Nexts(c) == 0
  {
    var c := Continue(fileSize, results, offset);
    assert c[1..] == [];
  }

  lemma ContinueLast(fileSize: nat, results: seq<ReadResult>, offset: nat)
    requires results != [] && results[0].Loaded? && offset + |results[0].data| >= fileSize
    ensures Continue(fileSize, results, offset) == [Next(results[0].data, offset + |results[0].data|, fileSize), Done(None)]
  {
  }

  lemma NextsPair(pair: seq<Event>, c: seq<Event>)
    requires |pair| == 2 && pair[0].Next? && pair[1].Slice?
    ensures Nexts(pair + c) == 1 + Nexts(c)
  {
    var t := pair + c;
    assert t[1..] == [pair[1]] + c;
    assert t[1..][1..] == c;
  }

  /** The read `results[r]` fails with `f` and every read before it loads. */
  predicate FailsAt(results: seq<ReadResult>, r: nat, f: Failure) {
    && r < |results| && !results[r].Loaded? && FailureOf(results[r]) == f
    && forall j :: 0 <= j < r ==> results[j].Loaded?
  }

  lemma LastOfAppend(pair: seq<Event>, c: seq<Event>)
    requires |pair| == 2 && pair[1].Slice?
    ensures var t := pair + c;
      t[|t| - 1] == if c == [] then pair[1] else c[|c| - 1]
  {
  }

  lemma FailureShift(results: seq<ReadResult>, r: nat, f: Failure)
    requires |results| > 0 && results[0].Loaded?
    requires FailsAt(results[1..], r, f)
    ensures FailsAt(results, r + 1, f)
  {
    assert forall j :: 1 <= j < |results| ==> results[j] == results[1..][j - 1];
  }

  /** When readChunk ends with `done` and a failure, the reads before the
      failing one all loaded data, each handed to one `next`, and the failing
      read got no `next`: its failure is the one handed to `done`. */
  lemma TraceFailure(fileSize: nat, results: seq<ReadResult>, f: Failure)
    requires var t := Trace(fileSize, results); t[|t| - 1] == Done(Some(f))
    ensures var r := Nexts(Trace(fileSize, results));
      && r < |results| && !results[r].Loaded? && FailureOf(results[r]) == f
      && forall j :: 0 <= j < r ==> results[j].Loaded?
  {
    var t := Trace(fileSize, results);
    var c := Continue(fileSize, results, 0);
    assert t[1..] == c;
    ContinueFailure(fileSize, results, 0, f);
  }

  /** The total length of the data the reads in `results` load. */
  function Total(results: seq<ReadResult>): nat
    decreases |results|
  {
    if results == [] then 0
    else (if results[0].Loaded? then |results[0].data| else 0) + Total(results[1..])
  }

  lemma {:induction false} ContinueCompletes(fileSize: nat, results: seq<ReadResult>, offset: nat)
    requires |results| > 0 && forall j :: 0 <= j < |results| ==> results[j].Loaded?
    requires offset + Total(results) >= fileSize
    ensures var c := Continue(fileSize, results, offset); c != [] && c[|c| - 1] == Done(None)
    decreases |results|
  {
    var d := results[0].data;
    var o := offset + |d|;
    if o < fileSize {
      var rest := results[1..];
      assert forall j :: 0 <= j < |rest| ==> rest[j] == results[j + 1];
      ContinueCompletes(fileSize, rest, o);
      var c := Continue(fileSize, results, offset);
      ContinueStep(fileSize, results, offset);
    }
  }

  /** When every read loads data and together they reach the file size,
      readChunk ends with `done(null)`; with TraceLinked, that `done` is
      called exactly once. */
  lemma TraceCompletes(fileSize: nat, results: seq<ReadResult>)
    requires |results| > 0 && forall j :: 0 <= j < |results| ==> results[j].Loaded?
    requires Total(results) >= fileSize
    ensures var t := Trace(fileSize, results); t[|t| - 1] == Done(None)
  {
    ContinueCompletes(fileSize, results, 0);
  }

  /** The event that answers the read of `results[k]`: its `next`, with the
      offset `before` advanced by its data, or `done` with its failure. */
  function Answer(r: ReadResult, before: nat, fileSize: nat): Event {
    if r.Loaded? then Next(r.data, before + |r.data|, fileSize) else Done(Some(FailureOf(r)))
  }

  /** Reads `0..k-1` load data and leave the offset below the file size, so
      that the read of `results[k]` is requested. */
  predicate Reaches(fileSize: nat, results: seq<ReadResult>, offset: nat, k: nat) {
    && k < |results|
    && (forall j :: 0 <= j < k ==> results[j].Loaded?)
    && offset + Total(results[..k]) < fileSize
  }

  lemma TotalPrefix(results: seq<ReadResult>, k: nat)
    requires 0 < k <= |results|
    ensures results[..k][1..] == results[1..][..k - 1]
    ensures Total(results[..k]) == (if results[0].Loaded? then |results[0].data| else 0) + Total(results[1..][..k - 1])
  {
    assert results[..k][1..] == results[1..][..k - 1];
  }

  /** In the calls `c`, read `k` is requested by the slice at `before` (the
      first slice, for read 0, comes before `c`) and answered at position
      `2 * k`; a failing read ends `c`, after `k` calls of `next`. */
  predicate AnsweredAt(c: seq<Event>, k: nat, before: nat, r: ReadResult, fileSize: nat) {
    && |c| > 2 * k
    && (k > 0 ==> c[2 * k - 1] == Slice(before, before + ChunkSize))
    && c[2 * k] == Answer(r, before, fileSize)
    && (!r.Loaded? ==> |c| == 2 * k + 1 && Nexts(c) == k)
  }

  /** When read `k` is reached, the calls from `offset` on request it with the
      slice at the offset its predecessors delivered and answer it. */
  lemma {:induction false} ContinueReaches(fileSize: nat, results: seq<ReadResult>, offset: nat, k: nat)
    requires Reaches(fileSize, results, offset, k)
    ensures AnsweredAt(Continue(fileSize, results, offset), k, offset + Total(results[..k]), results[k], fileSize)
    decreases k
  {
    if k == 0 {
      FirstAnswered(fileSize, results, offset);
    } else {
      var d := results[0].data;
      var o := offset + |d|;
      var rest := results[1..];
      ReachesShift(fileSize, results, offset, k);
      ContinueStep(fileSize, results, offset);
      ContinueReaches(fileSize, rest, o, k - 1);
      AnsweredShift(Continue(fileSize, results, offset), [Next(d, o, fileSize), Slice(o, o + ChunkSize)],
        Continue(fileSize, rest, o), k, offset + Total(results[..k]), results[k], fileSize);
    }
  }

  lemma FirstAnswered(fileSize: nat, results: seq<ReadResult>, offset: nat)
    requires results != []
    ensures AnsweredAt(Continue(fileSize, results, offset), 0, offset + Total(results[..0]), results[0], fileSize)
  {
    assert results[..0] == [];
    if !results[0].Loaded? {
      ContinueFailed(fileSize, results, offset);
    }
  }

  lemma AnsweredShift(t: seq<Event>, pair: seq<Event>, c: seq<Event>, k: nat, before: nat, r: ReadResult, fileSize: nat)
    requires t == pair + c
    requires |pair| == 2 && pair[0].Next? && pair[1].Slice? && k > 0
    requires AnsweredAt(c, k - 1, before, r, fileSize)
    requires k == 1 ==> pair[1] == Slice(before, before + ChunkSize)
    ensures AnsweredAt(t, k, before, r, fileSize)
  {
    assert t[2 * k] == c[2 * (k - 1)];
    assert t[2 * k - 1] == if k == 1 then pair[1] else c[2 * (k - 1) - 1];
    if !r.Loaded? {
      NextsPair(pair, c);
    }
  }

  /** Reaching read `k` from `offset` is reaching read `k - 1` after the
      first read. */
  lemma ReachesShift(fileSize: nat, results: seq<ReadResult>, offset: nat, k: nat)
    requires Reaches(fileSize, results, offset, k) && k > 0
    ensures results[0].Loaded?
    ensures var o := offset + |results[0].data|;
      && o < fileSize
      && Reaches(fileSize, results[1..], o, k - 1)
      && o + Total(results[1..][..k - 1]) == offset + Total(results[..k])
      && results[1..][k - 1] == results[k]
  {
    TotalPrefix(results, k);
    var rest := results[1..];
    assert forall j :: 0 <= j < k - 1 ==> rest[j] == results[j + 1];
  }

  /** The read of `results[k]`, once reached, is requested by the slice at
      the offset delivered so far, and its `next` hands on exactly the data it
      loaded, with the offset advanced by that data. */
  lemma TraceDelivers(fileSize: nat, results: seq<ReadResult>, k: nat)
    requires k < |results| && forall j :: 0 <= j <= k ==> results[j].Loaded?
    requires Total(results[..k]) < fileSize
    ensures var t := Trace(fileSize, results);
      var before := Total(results[..k]);
      && |t| > 2 * k + 1
      && t[2 * k] == Slice(before, before + ChunkSize)
      && t[2 * k + 1] == Next(results[k].data, Total(results[..k + 1]), fileSize)
  {
    ContinueReaches(fileSize, results, 0, k);
    TotalSnoc(results, k);
  }

  /** A failing read that is reached ends readChunk: `done` receives its
      failure as the last call, and only the reads before it got a `next`. */
  lemma TraceFailsAt(fileSize: nat, results: seq<ReadResult>, k: nat)
    requires k < |results| && !results[k].Loaded?
    requires forall j :: 0 <= j < k ==> results[j].Loaded?
    requires Total(results[..k]) < fileSize
    ensures var t := Trace(fileSize, results);
      && |t| == 2 * k + 2
      && t[|t| - 1] == Done(Some(FailureOf(results[k])))
      && Nexts(t) == k
  {
    ContinueReaches(fileSize, results, 0, k);
    var t := Trace(fileSize, results);
    assert t[1..] == Continue(fileSize, results, 0);
  }

  lemma {:induction false} TotalSnoc(results: seq<ReadResult>, k: nat)
    requires k < |results|
    ensures Total(results[..k + 1]) == Total(results[..k]) + (if results[k].Loaded? then |results[k].data| else 0)
    decreases k
  {
    if k == 0 {
      assert results[..1][1..] == [];
    } else {
      TotalPrefix(results, k);
      TotalPrefix(results, k + 1);
      TotalSnoc(results[1..], k - 1);
    }
  }

  /** The length of the slice `[offset, offset + ChunkSize)` once clamped to
      the end of a file of `fileSize` characters. */
  function SliceLength(fileSize: nat, offset: nat): nat
    requires offset <= fileSize
  {
    if offset + ChunkSize <= fileSize then ChunkSize else fileSize - offset
  }

  /** A file that honours every slice: the read of the slice at `offset`
      loads the `SliceLength(fileSize, offset)` characters there. */
  predicate Faithful(fileSize: nat, results: seq<ReadResult>, offset: nat)
    decreases |results|
  {
    results == [] ||
    (&& results[0].Loaded?
     && offset <= fileSize
     && |results[0].data| == SliceLength(fileSize, offset)
     && Faithful(fileSize, results[1..], offset + |results[0].data|))
  }

  /** The number of reads needed from `offset` on: one more for the last,
      possibly short or empty, slice. */
  function Windows(fileSize: nat, offset: nat): nat
    decreases fileSize - offset
  {
    if offset + ChunkSize >= fileSize then 1 else 1 + Windows(fileSize, offset + ChunkSize)
  }

  lemma {:induction false} FaithfulCompletes(fileSize: nat, results: seq<ReadResult>, offset: nat)
    requires offset <= fileSize && Faithful(fileSize, results, offset)
    requires |results| >= Windows(fileSize, offset)
    ensures var c := Continue(fileSize, results, offset);
      && |c| >= 2 && c[|c| - 1] == Done(None)
      && c[|c| - 2].Next? && c[|c| - 2].offset == fileSize
    decreases |results|
  {
    var d := results[0].data;
    var o := offset + |d|;
    if offset + ChunkSize >= fileSize {
      ContinueLast(fileSize, results, offset);
    } else {
      FaithfulCompletes(fileSize, results[1..], o);
      ContinueStep(fileSize, results, offset);
      var pair := [Next(d, o, fileSize), Slice(o, o + ChunkSize)];
      var c' := Continue(fileSize, results[1..], o);
      assert (pair + c')[|pair + c'| - 2] == c'[|c'| - 2];
    }
  }

  /** A file that delivers what every slice asks for, read in enough reads:
      the last `next` receives exactly the file size as its offset, and
      `done(null)` follows it. */
  lemma FileCompletes(fileSize: nat, results: seq<ReadResult>)
    requires Faithful(fileSize, results, 0) && |results| >= Windows(fileSize, 0)
    ensures var t := Trace(fileSize, results);
      && t[|t| - 1] == Done(None)
      && t[|t| - 2].Next? && t[|t| - 2].offset == fileSize
  {
    FaithfulCompletes(fileSize, results, 0);
  }
}
