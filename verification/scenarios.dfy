/** Worked streams: concrete inputs and the segments the model emits for
    them, covering the early-boundary floor, a boundary split, markup
    removal, the size fallback, skipped chunks and a blank remainder. */
module Scenarios {
  import opened Wrappers
  import opened Text
  import opened Cleaning
  import opened Segmenter
  import opened Stream

  /** A chunk whose first choice carries `text` as its delta content. */
  function TextChunk(text: string): Chunk {
    Chunk([Choice(Some(Delta(Some(text))))])
  }

  /** A text chunk is one step on its text. */
  lemma FeedText(buf: string, text: string)
    requires text != []
    ensures Feed(buf, TextChunk(text)) == Step(buf, text)
  {
    assert DeltaText(TextChunk(text)) == Some(text);
  }

  /** A stream of one text chunk: its step from an empty buffer, then the
      flush. */
  lemma RespondOneChunk(text: string, segments: seq<string>, buf: string, flushed: seq<string>,
                        all: seq<string>)
    requires text != [] && Step([], text) == StepResult(segments, buf) && Finish(buf) == flushed
    requires all == segments + flushed
    ensures Respond([TextChunk(text)]) == all
  {
    FeedText([], text);
    RunOne([], TextChunk(text));
  }

  /** A first delta from an empty buffer is split on its cleaned text alone. */
  lemma FirstStep(text: string)
    ensures Step([], text) == Split(Clean(text))
  {
    assert [] + Clean(text) == Clean(text);
  }

  /** A chunk whose cleaned text neither splits nor overflows stays
      buffered, and the flush emits it when it is not blank. */
  lemma QuietStep(text: string, c: string)
    requires c == Clean(text) && IsQuiet(c) && !IsBlank(c)
    ensures Step([], text) == StepResult([], c) && Finish(c) == [c]
  {
    FirstStep(text);
    FinishExact(c);
  }

  /** A first delta whose cleaned text has a boundary at index `i` and a
      remainder within the threshold emits the boundary segment only. */
  lemma FirstStepSplits(text: string, c: string, i: nat, head: string, rest: string)
    requires c == Clean(text) && FirstBoundary(c) == Some(i)
    requires head == c[..i + 1] && rest == c[i + 1..] && |rest| <= MaxBuffer
    ensures Step([], text) == StepResult([head], rest)
  {
    FirstStep(text);
    SplitAtBoundary(c, i);
  }

  /** A non-blank suffix of markup-free text is flushed as it is. */
  lemma FlushSuffix(c: string, k: nat, rest: string)
    requires NoMarkup(c) && k <= |c| && rest == c[k..] && !IsBlank(rest)
    ensures Finish(rest) == [rest]
  {
    NoMarkupSlice(c, k, |c|);
    FinishExact(rest);
  }

  /** A one-chunk stream whose step emits one segment and whose flush
      emits the rest. */
  lemma SplitThenFlush(text: string, head: string, rest: string)
    requires text != [] && Step([], text) == StepResult([head], rest) && Finish(rest) == [rest]
    ensures Respond([TextChunk(text)]) == [head, rest]
  {
    PairAppend(head, rest);
    RespondOneChunk(text, [head], rest, [rest], [head, rest]);
  }

  lemma PairAppend(a: string, b: string)
    ensures [a] + [b] == [a, b]
  {
  }

  lemma SingleAppend(a: string)
    ensures [] + [a] == [a] && [a] + [] == [a]
  {
  }

  /** A comma at index 3 is below the floor: nothing is split, and the
      flush emits the whole text. */
  lemma EarlyCommaWaitsForFlush(s: string)
    requires s == "你好呀，"
    ensures Respond([TextChunk(s)]) == [s]
  {
    EarlyStep(s);
    SingleAppend(s);
    RespondOneChunk(s, [], s, [s], [s]);
  }

  lemma EarlyStep(s: string)
    requires s == "你好呀，"
    ensures Step([], s) == StepResult([], s) && Finish(s) == [s]
  {
    EarlyText(s);
    QuietStep(s, s);
  }

  lemma EarlyText(s: string)
    requires s == "你好呀，"
    ensures Clean(s) == s && IsQuiet(s) && !IsBlank(s)
  {
    NoMarkupByIndex(s);
    CleanNoMarkupIsIdentity(s);
    assert FirstBoundary(s).None?;
    assert !IsSpace(s[0]) && s[0] in s;
  }

  /** A comma past the floor splits the buffer once; the rest, although it
      ends in a full stop past the floor too, waits for the flush. */
  lemma CommaSplitsThenFlush(s: string, head: string, rest: string)
    requires s == "今天天气真好呢，我们出去走走吧。"
    requires head == "今天天气真好呢，" && rest == "我们出去走走吧。"
    ensures Respond([TextChunk(s)]) == [head, rest]
  {
    CommaStep(s, head, rest);
    CommaFlush(s, head, rest);
    SplitThenFlush(s, head, rest);
  }

  lemma CommaStep(s: string, head: string, rest: string)
    requires s == "今天天气真好呢，我们出去走走吧。"
    requires head == "今天天气真好呢，" && rest == "我们出去走走吧。"
    ensures Step([], s) == StepResult([head], rest)
  {
    CommaText(s, head, rest);
    FirstStepSplits(s, s, 7, head, rest);
  }

  lemma CommaFlush(s: string, head: string, rest: string)
    requires s == "今天天气真好呢，我们出去走走吧。"
    requires head == "今天天气真好呢，" && rest == "我们出去走走吧。"
    ensures Finish(rest) == [rest]
  {
    CommaText(s, head, rest);
    FlushSuffix(s, 8, rest);
  }

  lemma CommaText(s: string, head: string, rest: string)
    requires s == "今天天气真好呢，我们出去走走吧。"
    requires head == "今天天气真好呢，" && rest == "我们出去走走吧。"
    ensures Clean(s) == s && FirstBoundary(s) == Some(7)
    ensures s[..8] == head && s[8..] == rest && !IsBlank(rest)
  {
    CommaNoMarkup(s);
    CleanNoMarkupIsIdentity(s);
    CommaBoundary(s);
    CommaHalves(s, head, rest);
  }

  lemma CommaNoMarkup(s: string)
    requires s == "今天天气真好呢，我们出去走走吧。"
    ensures NoMarkup(s)
  {
    NoMarkupByIndex(s);
  }

  lemma CommaBoundary(s: string)
    requires s == "今天天气真好呢，我们出去走走吧。"
    ensures FirstBoundary(s) == Some(7)
  {
    FirstBoundaryCharacterized(s, 7);
  }

  lemma CommaHalves(s: string, head: string, rest: string)
    requires s == "今天天气真好呢，我们出去走走吧。"
    requires head == "今天天气真好呢，" && rest == "我们出去走走吧。"
    ensures s[..8] == head && s[8..] == rest && !IsBlank(rest)
  {
    assert !IsSpace(rest[0]) && rest[0] in rest;
  }

  /** Markup is stripped before buffering: a short plain reply wrapped in
      markup, as in `**hello**`, reaches the sink as the plain text. */
  lemma MarkupStripped(m: string, h: string, text: string)
    requires forall j :: 0 <= j < |m| ==> IsMarkup(m[j])
    requires h != [] && NoMarkup(h) && IsQuiet(h) && !IsBlank(h) && text == m + h + m
    ensures Respond([TextChunk(text)]) == [h]
  {
    MarkupStep(m, h, text);
    SingleAppend(h);
    RespondOneChunk(text, [], h, [h], [h]);
  }

  lemma MarkupStep(m: string, h: string, text: string)
    requires forall j :: 0 <= j < |m| ==> IsMarkup(m[j])
    requires NoMarkup(h) && IsQuiet(h) && !IsBlank(h) && text == m + h + m
    ensures Step([], text) == StepResult([], h) && Finish(h) == [h]
  {
    CleanWrapped(m, h);
    QuietStep(text, h);
  }

  /** The instance `**hello**` meets the conditions above. */
  lemma HelloWrapped(s: string, h: string, m: string)
    requires s == "**hello**" && h == "hello" && m == "**"
    ensures s == m + h + m && forall j :: 0 <= j < |m| ==> IsMarkup(m[j])
    ensures h != [] && NoMarkup(h) && IsQuiet(h) && !IsBlank(h)
  {
    NoMarkupByIndex(h);
    assert !IsSpace(h[0]) && h[0] in h;
  }

  /** Markup wrapped around plain text, as in `**bold**`, cleans to the
      plain text. */
  lemma CleanWrapped(m: string, h: string)
    requires forall j :: 0 <= j < |m| ==> IsMarkup(m[j])
    requires NoMarkup(h)
    ensures Clean(m + h + m) == h
  {
    CleanAppend(m + h, m);
    CleanAppend(m, h);
    MarkupCleansToNothing(m);
    CleanNoMarkupIsIdentity(h);
    assert [] + h + [] == h;
  }

  /** Text made only of markup cleans to nothing. */
  lemma MarkupCleansToNothing(m: string)
    requires forall j :: 0 <= j < |m| ==> IsMarkup(m[j])
    ensures Clean(m) == []
  {
    CleanIsKeepText(m);
    MarkupKeepsNothing(m);
  }

  /** A chunk longer than 30 characters with no boundary past the floor is
      emitted at once and whole by the size fallback; nothing is left to
      flush. */
  lemma LongChunkOverflows(s: string)
    requires NoMarkup(s) && |s| > MaxBuffer
    requires forall j :: MinBoundaryIndex <= j < |s| ==> !IsBoundary(s[j])
    ensures Respond([TextChunk(s)]) == [s]
  {
    CleanNoMarkupIsIdentity(s);
    assert [] + s == s;
    assert Step([], s) == StepResult([s], []);
    assert Finish([]) == [];
    SingleAppend(s);
    RespondOneChunk(s, [s], [], [], [s]);
  }

  /** The size fallback has no whitespace check: 31 spaces are emitted as a
      segment of their own. */
  lemma BlankOverflowIsEmitted(s: string)
    requires |s| == MaxBuffer + 1 && forall j :: 0 <= j < |s| ==> s[j] == ' '
    ensures IsBlank(s) && Respond([TextChunk(s)]) == [s]
  {
    NoMarkupByIndex(s);
    LongChunkOverflows(s);
  }

  /** A short blank stream emits nothing: the flush drops a whitespace-only
      remainder. */
  lemma BlankRemainderDropped(s: string)
    requires s != [] && |s| <= MaxBuffer && IsBlank(s)
    ensures Respond([TextChunk(s)]) == []
  {
    forall j | 0 <= j < |s| ensures !IsMarkup(s[j]) && !IsBoundary(s[j]) {
      assert s[j] in s;
    }
    NoMarkupByIndex(s);
    CleanNoMarkupIsIdentity(s);
    assert [] + s == s;
    assert Step([], s) == StepResult([], s);
    FinishExact(s);
    RespondOneChunk(s, [], s, [], []);
  }

  /** A chunk without text at the head of the remaining stream changes
      nothing, from any buffer. */
  lemma SkippedChunkIsNoOp(buf: string, chunk: Chunk, rest: seq<Chunk>)
    requires IsSkipped(chunk)
    ensures Run(buf, [chunk] + rest) == Run(buf, rest)
  {
    var xs := [chunk] + rest;
    assert xs[0] == chunk && xs[1..] == rest;
    RunCons(buf, xs, [], buf);
    SegmentsEmptyPrefix(Run(buf, xs).segments, Run(buf, rest).segments);
  }

  /** A chunk without text at any position of a stream changes neither the
      segments nor the final buffer, and so neither the response. */
  lemma SkippedChunkAnywhere(buf: string, pre: seq<Chunk>, chunk: Chunk, post: seq<Chunk>)
    requires IsSkipped(chunk)
    ensures Run(buf, pre + [chunk] + post) == Run(buf, pre + post)
    ensures Respond(pre + [chunk] + post) == Respond(pre + post)
  {
    assert pre + [chunk] + post == pre + ([chunk] + post);
    RunAppend(buf, pre, [chunk] + post);
    RunAppend(buf, pre, post);
    SkippedChunkIsNoOp(Run(buf, pre).buf, chunk, post);
    RunAppend([], pre, [chunk] + post);
    RunAppend([], pre, post);
    SkippedChunkIsNoOp(Run([], pre).buf, chunk, post);
  }

  /** An empty delta skips the whole loop body, but a delta made only of
      markup still runs the boundary scan: when the buffer holds a
      qualifying boundary left over from an earlier chunk, it is emitted. */
  lemma MarkupOnlyDeltaStillScans(buf: string, m: string)
    requires m != [] && forall j :: 0 <= j < |m| ==> IsMarkup(m[j])
    requires FirstBoundary(buf).Some? && |buf| <= MaxBuffer
    ensures Feed(buf, TextChunk("")) == StepResult([], buf)
    ensures Feed(buf, TextChunk(m)).segments == [buf[..FirstBoundary(buf).value + 1]]
  {
    EmptyDeltaSkipped(buf);
    MarkupDeltaScans(buf, m);
  }

  /** An empty delta is skipped like an absent one. */
  lemma EmptyDeltaSkipped(buf: string)
    ensures Feed(buf, TextChunk("")) == StepResult([], buf)
  {
    assert IsSkipped(TextChunk(""));
  }

  /** A markup-only delta splits the buffer as it stands. */
  lemma MarkupDeltaScans(buf: string, m: string)
    requires m != [] && forall j :: 0 <= j < |m| ==> IsMarkup(m[j])
    requires FirstBoundary(buf).Some? && |buf| <= MaxBuffer
    ensures Feed(buf, TextChunk(m)).segments == [buf[..FirstBoundary(buf).value + 1]]
  {
    FeedText(buf, m);
    MarkupCleansToNothing(m);
    ScanOnly(buf, m);
    SplitAtBoundary(buf, FirstBoundary(buf).value);
  }

  /** A delta that cleans to nothing leaves the step to the buffer alone. */
  lemma ScanOnly(buf: string, m: string)
    requires Clean(m) == []
    ensures Step(buf, m) == Split(buf)
  {
    assert buf + Clean(m) == buf;
  }

  lemma {:induction false} MarkupKeepsNothing(m: string)
    requires forall j :: 0 <= j < |m| ==> IsMarkup(m[j])
    ensures KeepText(m) == []
    decreases |m|
  {
    if m != [] {
      assert forall j :: 0 <= j < |m[1..]| ==> IsMarkup(m[1..][j]) by {
        forall j | 0 <= j < |m[1..]| ensures IsMarkup(m[1..][j]) {
          assert m[1..][j] == m[j + 1];
        }
      }
      MarkupKeepsNothing(m[1..]);
    }
  }

  /** Such a buffer does arise: a first chunk with two boundaries past the
      floor leaves the second one buffered. */
  lemma LeftoverBoundary(s: string, head: string, rest: string)
    requires s == "0123456,abcdefgh,xyz" && head == "0123456," && rest == "abcdefgh,xyz"
    ensures Run([], [TextChunk(s)]) == StepResult([head], rest)
    ensures FirstBoundary(rest) == Some(8)
  {
    LeftoverText(s, head, rest);
    FirstChunkSplits(s, s, 7, head, rest);
  }

  lemma LeftoverText(s: string, head: string, rest: string)
    requires s == "0123456,abcdefgh,xyz" && head == "0123456," && rest == "abcdefgh,xyz"
    ensures Clean(s) == s && FirstBoundary(s) == Some(7) && s[..8] == head && s[8..] == rest
    ensures FirstBoundary(rest) == Some(8)
  {
    LeftoverNoMarkup(s);
    CleanNoMarkupIsIdentity(s);
    LeftoverFirst(s);
    LeftoverSecond(rest);
    LeftoverHalves(s, head, rest);
  }

  lemma LeftoverNoMarkup(s: string)
    requires s == "0123456,abcdefgh,xyz"
    ensures NoMarkup(s)
  {
    NoMarkupByIndex(s);
  }

  lemma LeftoverFirst(s: string)
    requires s == "0123456,abcdefgh,xyz"
    ensures FirstBoundary(s) == Some(7)
  {
    FirstBoundaryCharacterized(s, 7);
  }

  lemma LeftoverSecond(rest: string)
    requires rest == "abcdefgh,xyz"
    ensures FirstBoundary(rest) == Some(8)
  {
    FirstBoundaryCharacterized(rest, 8);
  }

  lemma LeftoverHalves(s: string, head: string, rest: string)
    requires s == "0123456,abcdefgh,xyz" && head == "0123456," && rest == "abcdefgh,xyz"
    ensures s[..8] == head && s[8..] == rest
  {
  }

  /** The loop after one chunk whose cleaned text splits at index `i`. */
  lemma FirstChunkSplits(text: string, c: string, i: nat, head: string, rest: string)
    requires text != [] && c == Clean(text) && FirstBoundary(c) == Some(i)
    requires head == c[..i + 1] && rest == c[i + 1..] && |rest| <= MaxBuffer
    ensures Run([], [TextChunk(text)]) == StepResult([head], rest)
  {
    FirstStepSplits(text, c, i, head, rest);
    FeedText([], text);
    RunOne([], TextChunk(text));
  }
}
