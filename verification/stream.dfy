/** The streaming loop of `llm_response`: each chunk of the completion
    stream either carries a non-empty delta text, which goes through one
    segmentation step, or is skipped; after the last chunk the remainder is
    flushed. The speech sink is the returned list of segments. */
module Stream {
  import opened Wrappers
  import opened Text
  import opened Cleaning
  import opened Segmenter

  /** The `delta` of a streamed choice; its `content` may be absent. */
  datatype Delta = Delta(content: Option<string>)

  /** One streamed choice; its `delta` may be absent. */
  datatype Choice = Choice(delta: Option<Delta>)

  /** One chunk of the completion stream; only its first choice is read. */
  datatype Chunk = Chunk(choices: seq<Choice>)

  /** The text a chunk contributes: `choices[0].delta.content` when the
      chunk has a choice, the choice a delta, and the delta a non-empty
      content; None when the loop skips the chunk. */
  function DeltaText(chunk: Chunk): Option<string> {
    if chunk.choices == [] then None
    else match chunk.choices[0].delta
      case None => None
      case Some(d) =>
        match d.content
        case None => None
        case Some(text) => if text == [] then None else Some(text)
  }

  /** A chunk the loop skips: no choices, no delta, or absent or empty
      content. */
  ghost predicate IsSkipped(chunk: Chunk) {
    || chunk.choices == []
    || chunk.choices[0].delta.None?
    || chunk.choices[0].delta.value.content.None?
    || chunk.choices[0].delta.value.content.value == []
  }

  /** The cleaned text a chunk adds to the logical stream. */
  function ChunkText(chunk: Chunk): string {
    match DeltaText(chunk)
    case None => []
    case Some(text) => Clean(text)
  }

  /** The cleaned text of a whole stream: the chunk texts in arrival order. */
  function StreamText(chunks: seq<Chunk>): (r: string)
    ensures NoMarkup(r)
  {
    if chunks == [] then []
    else
      NoMarkupAppend(ChunkText(chunks[0]), StreamText(chunks[1..]));
      ChunkText(chunks[0]) + StreamText(chunks[1..])
  }

  /** One iteration of the chunk loop. */
  function Feed(buf: string, chunk: Chunk): (r: StepResult)
    ensures IsSkipped(chunk) ==> r == StepResult([], buf)
    ensures !IsSkipped(chunk) ==> r == Step(buf, chunk.choices[0].delta.value.content.value)
    ensures Concat(r.segments) + r.buf == buf + ChunkText(chunk)
    ensures |buf| <= MaxBuffer ==> |r.buf| <= MaxBuffer
    ensures AllEmitted(r.segments)
    ensures NoMarkup(buf) ==> NoMarkup(r.buf) && AllNoMarkup(r.segments)
  {
    match DeltaText(chunk)
    case None => StepResult([], buf)
    case Some(text) => Step(buf, text)
  }

  /** The chunk loop from a given buffer: the segments emitted, in order, and
      the buffer left after the last chunk. */
  function Run(buf: string, chunks: seq<Chunk>): (r: StepResult)
    ensures Concat(r.segments) + r.buf == buf + StreamText(chunks)
    ensures |buf| <= MaxBuffer ==> |r.buf| <= MaxBuffer
    ensures AllEmitted(r.segments)
    ensures NoMarkup(buf) ==> NoMarkup(r.buf) && AllNoMarkup(r.segments)
    decreases |chunks|
  {
    if chunks == [] then StepResult([], buf)
    else
      var s := Feed(buf, chunks[0]);
      var rest := Run(s.buf, chunks[1..]);
      ContentChain(s.segments, rest.segments, rest.buf, s.buf, StreamText(chunks[1..]), buf, ChunkText(chunks[0]));
      AllEmittedAppend(s.segments, rest.segments);
      AllNoMarkupAppend(s.segments, rest.segments);
      StepResult(s.segments + rest.segments, rest.buf)
  }

  /** A stream of one chunk is that chunk's step. */
  lemma RunOne(buf: string, chunk: Chunk)
    ensures Run(buf, [chunk]) == Feed(buf, chunk)
  {
    var s := Feed(buf, chunk);
    assert [chunk][1..] == [];
    assert Run(s.buf, []) == StepResult([], s.buf);
    assert s.segments + [] == s.segments;
  }

  /** The run over two consecutive parts of a stream is the run over the
      first part, continued from its buffer over the second. */
  lemma {:induction false} RunAppend(buf: string, a: seq<Chunk>, b: seq<Chunk>)
    ensures Run(buf, a + b).segments == Run(buf, a).segments + Run(Run(buf, a).buf, b).segments
    ensures Run(buf, a + b).buf == Run(Run(buf, a).buf, b).buf
    decreases |a|
  {
    if a == [] {
      assert a + b == b;
      assert [] + Run(buf, b).segments == Run(buf, b).segments;
    } else {
      var step := Feed(buf, a[0]);
      var ab := a + b;
      assert ab[0] == a[0] && ab[1..] == a[1..] + b;
      RunCons(buf, ab, step.segments, step.buf);
      RunCons(buf, a, step.segments, step.buf);
      RunAppend(step.buf, a[1..], b);
      SegmentsRegroup(Run(buf, ab).segments, step.segments, Run(step.buf, ab[1..]).segments,
                      Run(step.buf, a[1..]).segments, Run(Run(step.buf, a[1..]).buf, b).segments);
    }
  }

  /** The run over a non-empty stream is its first chunk, then the rest. */
  lemma RunCons(buf: string, xs: seq<Chunk>, segments: seq<string>, rest: string)
    requires xs != [] && Feed(buf, xs[0]) == StepResult(segments, rest)
    ensures Run(buf, xs).segments == segments + Run(rest, xs[1..]).segments
    ensures Run(buf, xs).buf == Run(rest, xs[1..]).buf
  {
  }

  lemma SegmentsEmptyPrefix(total: seq<string>, tail: seq<string>)
    requires total == [] + tail
    ensures total == tail
  {
  }

  lemma SegmentsRegroup(total: seq<string>, x: seq<string>, tail: seq<string>, y: seq<string>, z: seq<string>)
    requires total == x + tail && tail == y + z
    ensures total == (x + y) + z
  {
  }

  /** Content preservation carried across one step: what the step emitted
      and what the rest of the run emitted cover the buffer and both texts. */
  lemma ContentChain(a: seq<string>, b: seq<string>, x: string, y: string, z: string, buf: string, t: string)
    requires Concat(a) + y == buf + t
    requires Concat(b) + x == y + z
    ensures Concat(a + b) + x == buf + (t + z)
  {
    ConcatAppend(a, b);
    TextChain(Concat(a + b), Concat(a), Concat(b), x, y, z, buf, t);
  }

  /** `ContentChain` on the joined texts alone. */
  lemma TextChain(ab: string, ca: string, cb: string, x: string, y: string, z: string, buf: string, t: string)
    requires ab == ca + cb && ca + y == buf + t && cb + x == y + z
    ensures ab + x == buf + (t + z)
  {
    calc {
      ab + x;
      (ca + cb) + x;
      ca + (cb + x);
      ca + (y + z);
      (ca + y) + z;
      (buf + t) + z;
    }
  }

  /** Everything `llm_response` hands to the speech sink for one stream:
      the loop's segments followed by the final flush. */
  function Respond(chunks: seq<Chunk>): seq<string> {
    var run := Run([], chunks);
    run.segments + Finish(run.buf)
  }

  /** Content preservation over a whole stream: the segments, joined, are
      the cleaned stream text, less a trailing blank remainder that the
      flush drops. */
  lemma RespondPreservesContent(chunks: seq<Chunk>)
    ensures Concat(Respond(chunks)) <= StreamText(chunks)
    ensures IsBlank(StreamText(chunks)[|Concat(Respond(chunks))|..])
  {
    var run := Run([], chunks);
    FlushContent(run.segments, run.buf, StreamText(chunks));
  }

  /** No segment of a stream is empty or carries markup, and only a
      size-fallback segment can be blank. */
  lemma RespondSegments(chunks: seq<Chunk>)
    ensures forall k :: 0 <= k < |Respond(chunks)| ==> Respond(chunks)[k] != [] && NoMarkup(Respond(chunks)[k])
    ensures forall k :: 0 <= k < |Respond(chunks)| ==>
              !IsBlank(Respond(chunks)[k]) || IsOverflowSegment(Respond(chunks)[k])
  {
    var run := Run([], chunks);
    FlushSegments(run.segments, run.buf);
  }

  /** Appending the flush to the loop's segments: the text they cover is the
      whole stream text, or all of it but a blank remainder. */
  lemma FlushContent(segments: seq<string>, buf: string, text: string)
    requires NoMarkup(buf) && Concat(segments) + buf == text
    ensures Concat(segments + Finish(buf)) <= text
    ensures IsBlank(text[|Concat(segments + Finish(buf))|..])
  {
    FinishExact(buf);
    ConcatAppend(segments, Finish(buf));
    var out := Concat(segments + Finish(buf));
    if Finish(buf) == [] {
      assert out == Concat(segments);
      assert text[|out|..] == buf;
    } else {
      assert out == text;
      assert text[|out|..] == [];
    }
  }

  /** Every loop segment is a boundary or an overflow segment; with the
      flush appended, no segment is empty or carries markup, and only an
      overflow segment can be blank. */
  lemma FlushSegments(segments: seq<string>, buf: string)
    requires NoMarkup(buf)
    requires AllNoMarkup(segments) && AllEmitted(segments)
    ensures forall k :: 0 <= k < |segments + Finish(buf)| ==>
              (segments + Finish(buf))[k] != [] && NoMarkup((segments + Finish(buf))[k])
    ensures forall k :: 0 <= k < |segments + Finish(buf)| ==>
              !IsBlank((segments + Finish(buf))[k]) || IsOverflowSegment((segments + Finish(buf))[k])
  {
    FinishExact(buf);
    var all := segments + Finish(buf);
    forall k | 0 <= k < |all|
      ensures all[k] != [] && NoMarkup(all[k])
      ensures !IsBlank(all[k]) || IsOverflowSegment(all[k])
    {
      if k < |segments| {
        assert all[k] == segments[k];
        if IsBoundarySegment(segments[k]) {
          BoundarySegmentNotBlank(segments[k]);
        }
      } else {
        assert all[k] == buf;
      }
    }
  }

  /** One delta through `llm_response`'s statements: clean, append, scan with
      an early exit, then the size check. */
  method Absorb(buf: string, delta: string) returns (segments: seq<string>, rest: string)
    ensures StepResult(segments, rest) == Step(buf, delta)
  {
    var msg := Clean(delta);
    rest := buf + msg;
    segments := [];
    var cut := ScanBoundary(rest);
    if cut.Some? {
      segments := segments + [rest[..cut.value + 1]];
      rest := rest[cut.value + 1..];
    }
    if |rest| > MaxBuffer {
      segments := segments + [rest];
      rest := [];
    }
  }

  /** One chunk through `llm_response`'s loop body: skipped when it carries no
      text, otherwise absorbed. */
  method Process(buf: string, chunk: Chunk) returns (segments: seq<string>, rest: string)
    ensures StepResult(segments, rest) == Feed(buf, chunk)
  {
    if chunk.choices == [] {
      return [], buf;
    }
    var delta := chunk.choices[0].delta;
    if delta.None? || delta.value.content.None? || delta.value.content.value == [] {
      return [], buf;
    }
    segments, rest := Absorb(buf, delta.value.content.value);
  }

  /** The flush after the loop: clean again, emit if `strip()` is non-empty. */
  method Flush(buf: string) returns (segments: seq<string>)
    ensures segments == Finish(buf)
  {
    segments := [];
    if buf != [] {
      var rest := Clean(buf);
      if Strip(rest) != [] {
        segments := [rest];
      }
    }
  }

  /** The loop invariant of `StreamSegments` survives one chunk: the
      segments sent so far plus what the rest of the stream emits is what the
      whole run emits (`total`), and the rest of the stream leaves the
      run's final buffer (`final`). */
  lemma RunAdvance(chunks: seq<Chunk>, i: nat, sent: seq<string>, buf: string,
                   segments: seq<string>, rest: string, total: seq<string>, final: string)
    requires i < |chunks|
    requires total == sent + Run(buf, chunks[i..]).segments
    requires final == Run(buf, chunks[i..]).buf
    requires Feed(buf, chunks[i]) == StepResult(segments, rest)
    ensures total == (sent + segments) + Run(rest, chunks[i + 1..]).segments
    ensures final == Run(rest, chunks[i + 1..]).buf
  {
    var later := Run(rest, chunks[i + 1..]);
    RunUnfold(buf, chunks, i, segments, rest);
    assert sent + (segments + later.segments) == (sent + segments) + later.segments;
  }

  /** One unfolding of the run at position `i` of the stream. */
  lemma RunUnfold(buf: string, chunks: seq<Chunk>, i: nat, segments: seq<string>, rest: string)
    requires i < |chunks|
    requires Feed(buf, chunks[i]) == StepResult(segments, rest)
    ensures Run(buf, chunks[i..]).segments == segments + Run(rest, chunks[i + 1..]).segments
    ensures Run(buf, chunks[i..]).buf == Run(rest, chunks[i + 1..]).buf
  {
    var xs := chunks[i..];
    assert xs[0] == chunks[i];
    assert xs[1..] == chunks[i + 1..];
  }

  /** The loop of `StreamSegments` starts with the whole run ahead of it. */
  lemma RunEntry(chunks: seq<Chunk>, total: seq<string>, final: string)
    requires total == Run([], chunks).segments && final == Run([], chunks).buf
    ensures total == [] + Run([], chunks[0..]).segments
    ensures final == Run([], chunks[0..]).buf
  {
    assert chunks[0..] == chunks;
  }

  /** When the loop of `StreamSegments` ends, the flush completes the
      response. */
  lemma RunExit(chunks: seq<Chunk>, sent: seq<string>, buf: string, last: seq<string>)
    requires Run([], chunks).segments == sent + Run(buf, chunks[|chunks|..]).segments
    requires Run([], chunks).buf == Run(buf, chunks[|chunks|..]).buf
    requires last == Finish(buf)
    ensures sent + last == Respond(chunks)
  {
    assert chunks[|chunks|..] == [];
    assert sent + [] == sent;
  }

  /** `llm_response`'s loop, statement for statement, with the sink as an
      accumulated list; it emits exactly what the functional model does. */
  method StreamSegments(chunks: seq<Chunk>) returns (sent: seq<string>)
    ensures sent == Respond(chunks)
  {
    sent := [];
    var buf: string := [];
    var i := 0;
    ghost var total := Run([], chunks).segments;
    ghost var final := Run([], chunks).buf;
    RunEntry(chunks, total, final);
    while i < |chunks|
      invariant 0 <= i <= |chunks|
      invariant total == sent + Run(buf, chunks[i..]).segments
      invariant final == Run(buf, chunks[i..]).buf
    {
      var segments, rest := Process(buf, chunks[i]);
      RunAdvance(chunks, i, sent, buf, segments, rest, total, final);
      sent := sent + segments;
      buf := rest;
      i := i + 1;
    }
    var last := Flush(buf);
    RunExit(chunks, sent, buf, last);
    sent := sent + last;
  }
}
