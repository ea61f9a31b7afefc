/** The per-delta segmentation of `llm_response`: clean the delta, append it
    to the buffer, emit the prefix ending at the first boundary character at
    index 5 or later, then emit the whole buffer if it has grown beyond 30
    characters; at the end of the stream, flush a non-blank remainder. */
module Segmenter {
  import opened Wrappers
  import opened Text
  import opened Cleaning

  /** A boundary at an index below this one never splits the buffer. */
  const MinBoundaryIndex: nat := 5

  /** A buffer longer than this is emitted whole after the boundary scan. */
  const MaxBuffer: nat := 30

  /** Sentence and clause ends, the set `，。！？,.`: full-width comma, full
      stop, exclamation and question marks, and the ASCII comma and full
      stop. */
  predicate IsBoundary(c: char) {
    c == '，' || c == '。' || c == '！' || c == '？' || c == ',' || c == '.'
  }

  /** The buffer and the segments one step (or a run of steps) handed to the
      speech sink, in order. */
  datatype StepResult = StepResult(segments: seq<string>, buf: string)

  /** Left-to-right scan from index `i` for the first boundary character at an
      index of at least `MinBoundaryIndex`. */
  function FirstBoundaryFrom(b: string, i: nat): (r: Option<nat>)
    requires i <= |b|
    ensures r.Some? ==> i <= r.value < |b| && MinBoundaryIndex <= r.value && IsBoundary(b[r.value])
    ensures r.Some? ==> forall j :: i <= j < r.value && MinBoundaryIndex <= j ==> !IsBoundary(b[j])
    ensures r.None? <==> forall j :: i <= j < |b| && MinBoundaryIndex <= j ==> !IsBoundary(b[j])
    decreases |b| - i
  {
    if i == |b| then None
    else if IsBoundary(b[i]) && i >= MinBoundaryIndex then Some(i)
    else FirstBoundaryFrom(b, i + 1)
  }

  /** The split index of the boundary scan over the whole buffer. */
  function FirstBoundary(b: string): (r: Option<nat>)
    ensures r.Some? ==> MinBoundaryIndex <= r.value < |b| && IsBoundary(b[r.value])
    ensures r.Some? ==> forall j :: MinBoundaryIndex <= j < r.value ==> !IsBoundary(b[j])
    ensures r.None? <==> forall j :: MinBoundaryIndex <= j < |b| ==> !IsBoundary(b[j])
  {
    FirstBoundaryFrom(b, 0)
  }

  /** The same scan written as `llm_response`'s `for`/`break` loop, stopping at the first hit. */
  method ScanBoundary(b: string) returns (r: Option<nat>)
    ensures r == FirstBoundary(b)
  {
    var i := 0;
    while i < |b|
      invariant 0 <= i <= |b|
      invariant FirstBoundaryFrom(b, i) == FirstBoundary(b)
    {
      if IsBoundary(b[i]) && i >= MinBoundaryIndex {
        return Some(i);
      }
      i := i + 1;
    }
    return None;
  }

  /** A segment emitted by the boundary scan: at least six characters long,
      ending in a boundary character, with no boundary character from index 5
      up to its last one. */
  ghost predicate IsBoundarySegment(s: string) {
    && |s| > MinBoundaryIndex
    && IsBoundary(s[|s| - 1])
    && forall j :: MinBoundaryIndex <= j < |s| - 1 ==> !IsBoundary(s[j])
  }

  /** A segment emitted by the size fallback: more than 30 characters. */
  ghost predicate IsOverflowSegment(s: string) {
    |s| > MaxBuffer
  }

  /** Every segment of the list came from the boundary scan or the size
      fallback. */
  ghost predicate AllEmitted(ss: seq<string>) {
    forall k :: 0 <= k < |ss| ==> IsBoundarySegment(ss[k]) || IsOverflowSegment(ss[k])
  }

  lemma AllEmittedAppend(a: seq<string>, b: seq<string>)
    requires AllEmitted(a) && AllEmitted(b)
    ensures AllEmitted(a + b)
  {
    forall k | 0 <= k < |a + b| ensures IsBoundarySegment((a + b)[k]) || IsOverflowSegment((a + b)[k]) {
      if k < |a| { assert (a + b)[k] == a[k]; } else { assert (a + b)[k] == b[k - |a|]; }
    }
  }

  /** The buffer a step leaves when it emits nothing: no qualifying boundary,
      and not over the size threshold. */
  ghost predicate IsQuiet(b: string) {
    FirstBoundary(b).None? && |b| <= MaxBuffer
  }

  /** The boundary scan and the size fallback on an already extended buffer. */
  function Split(b: string): (r: StepResult)
    ensures Concat(r.segments) + r.buf == b
    ensures |r.buf| <= MaxBuffer
    ensures |r.segments| <= 2
    ensures r.segments == [] <==> IsQuiet(b)
    ensures r.segments == [] ==> r.buf == b
    ensures |r.segments| == 2 ==> IsBoundarySegment(r.segments[0])
    ensures |r.segments| == 2 ==> IsOverflowSegment(r.segments[1]) && r.buf == []
    ensures |r.segments| == 1 ==>
              || (IsBoundarySegment(r.segments[0]) && r.segments[0] + r.buf == b)
              || (IsOverflowSegment(r.segments[0]) && r.segments[0] == b && r.buf == [])
    ensures FirstBoundary(b).Some? ==> |r.segments| >= 1 && IsBoundarySegment(r.segments[0])
  {
    var (first, rest) :=
      match FirstBoundary(b)
      case Some(i) => ([b[..i + 1]], b[i + 1..])
      case None => ([], b);
    if |rest| > MaxBuffer then
      ConcatAppend(first, [rest]);
      StepResult(first + [rest], [])
    else
      StepResult(first, rest)
  }

  /** One delta of the stream: cleaned, appended to the buffer, then split. */
  function Step(buf: string, delta: string): (r: StepResult)
    ensures Concat(r.segments) + r.buf == buf + Clean(delta)
    ensures |r.buf| <= MaxBuffer
    ensures |r.segments| <= 2
    ensures r.segments == [] <==> IsQuiet(buf + Clean(delta))
    ensures AllEmitted(r.segments)
    ensures NoMarkup(buf) ==> NoMarkup(r.buf) && AllNoMarkup(r.segments)
  {
    var b := buf + Clean(delta);
    AppendKeepsNoMarkup(buf, delta);
    Split(b)
  }

  /** A markup-free buffer stays markup-free, and so do the segments cut
      from it, once a cleaned delta is appended and split. */
  lemma AppendKeepsNoMarkup(buf: string, delta: string)
    ensures NoMarkup(buf) ==> NoMarkup(Split(buf + Clean(delta)).buf)
    ensures NoMarkup(buf) ==> AllNoMarkup(Split(buf + Clean(delta)).segments)
  {
    if NoMarkup(buf) {
      NoMarkupAppend(buf, Clean(delta));
      SplitKeepsNoMarkup(buf + Clean(delta));
    }
  }

  lemma SplitKeepsNoMarkup(b: string)
    requires NoMarkup(b)
    ensures NoMarkup(Split(b).buf)
    ensures AllNoMarkup(Split(b).segments)
  {
    match FirstBoundary(b)
    case Some(i) =>
      NoMarkupSlice(b, 0, i + 1);
      NoMarkupSlice(b, i + 1, |b|);
    case None =>
  }

  /** The final flush: the remainder is cleaned again and emitted when its
      `strip()` is non-empty. */
  function Finish(buf: string): (r: seq<string>)
    ensures |r| <= 1
    ensures r != [] ==> r[0] == Clean(buf) && !IsBlank(r[0])
    ensures r == [] <==> IsBlank(Clean(buf))
  {
    if buf == [] then []
    else
      var rest := Clean(buf);
      StripEmptyIffBlank(rest);
      if Strip(rest) != [] then [rest] else []
  }

  /** On a markup-free buffer (every buffer the stream builds) the flush emits
      exactly the buffer, or nothing when it is blank. */
  lemma FinishExact(buf: string)
    requires NoMarkup(buf)
    ensures Finish(buf) == [buf] <==> !IsBlank(buf)
    ensures Finish(buf) == [] <==> IsBlank(buf)
  {
    CleanNoMarkupIsIdentity(buf);
  }

  /** Boundary segments are never blank: they end in a punctuation mark. */
  lemma BoundarySegmentNotBlank(s: string)
    requires IsBoundarySegment(s)
    ensures !IsBlank(s)
  {
    assert s[|s| - 1] in s;
  }

  /** A boundary at an index below 5 never splits: a buffer whose only
      boundary characters sit below that index is left whole. */
  lemma EarlyBoundaryIgnored(b: string)
    requires |b| <= MaxBuffer
    requires forall j :: MinBoundaryIndex <= j < |b| ==> !IsBoundary(b[j])
    ensures Split(b) == StepResult([], b)
  {
  }

  /** A boundary segment cut from the front of a buffer always ends at the
      buffer's first qualifying boundary, so the boundary emission is exactly
      the prefix through that index. */
  lemma BoundaryPrefixIsFirst(p: string, b: string)
    requires IsBoundarySegment(p) && p <= b
    ensures FirstBoundary(b) == Some(|p| - 1)
  {
    assert b[|p| - 1] == p[|p| - 1];
    forall j | MinBoundaryIndex <= j < |p| - 1 ensures !IsBoundary(b[j]) {
      assert b[j] == p[j];
    }
  }

  /** The converse of the scan's contract: a boundary at index `i` (at least
      5) with none between 5 and `i` is the one the scan finds. */
  lemma FirstBoundaryCharacterized(b: string, i: nat)
    requires MinBoundaryIndex <= i < |b| && IsBoundary(b[i])
    requires forall j :: MinBoundaryIndex <= j < i ==> !IsBoundary(b[j])
    ensures FirstBoundary(b) == Some(i)
  {
    assert FirstBoundary(b).Some?;
  }

  /** A split at a boundary whose remainder fits the threshold emits just
      the boundary segment and keeps the remainder. */
  lemma SplitAtBoundary(b: string, i: nat)
    requires FirstBoundary(b) == Some(i) && |b| - (i + 1) <= MaxBuffer
    ensures Split(b) == StepResult([b[..i + 1]], b[i + 1..])
  {
  }
}
