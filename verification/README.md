# LiveTalking LLM reply segmenter, in Dafny

This project models the part of LiveTalking's `llm.py` that turns a streamed
language-model reply into speakable text segments for the digital human's
speech synthesis. It also models `resolve_env`, the environment-variable
substitution applied to the loaded LLM configuration.

**Segmentation.** `llm_response` reads the completion stream chunk by chunk.
A chunk with no choices is skipped. So is a chunk whose first choice has no
delta, or whose delta content is absent or empty. Otherwise the delta text
goes through these stages:

- it is cleaned: every `*`, `#` and backtick is deleted;
- it is appended to a buffer;
- the buffer is scanned from the left for the first index `i >= 5` holding
  one of `，。！？,.`, and `buffer[..i+1]` is handed to the sink (at most once
  per chunk);
- if the buffer is then longer than 30 characters, the whole buffer is handed
  to the sink and the buffer is cleared.

After the last chunk, the remainder is cleaned again. It is handed to the
sink when its `strip()` is non-empty.

**Model structure.** The model is functional. `Segmenter.Step` is one delta.
`Stream.Feed` is one chunk. `Stream.Run` folds the chunks. `Segmenter.Finish`
is the final flush. `Stream.Respond` is everything the sink receives for one
stream. The sink `put_msg_txt` becomes the returned list of segments.
`Stream.StreamSegments` is `llm_response`'s loop written statement by
statement, and is proved equal to `Respond`. Characters are Dafny's Unicode
`char`, so a full-width punctuation mark is one character, as it is for
Python's `enumerate` over a `str`.

**Modules.**

- `Wrappers`: the `Option` type.
- `Text`: Python's `str.isspace` set and `strip()`, and segment concatenation.
- `Cleaning`: the markup removal.
- `Segmenter`: the boundary scan, the size fallback, one step, and the flush.
- `Stream`: chunks and the loop.
- `Config`: `resolve_env`.
- `Scenarios`: concrete streams.

## Model

| member | source | states |
|---|---|---|
| `Cleaning.Remove` | llm.py:70 | one `replace(m, '')` leaves no `m`, never lengthens the text, and keeps every other character that occurs in it |
| `Cleaning.Clean` | llm.py:70 | the cleaned delta holds no `*`, `#` or backtick, is no longer than the delta, and still contains every other character of it |
| `Cleaning.CleanIsKeepText` | llm.py:70 | the three chained replacements delete exactly the markup characters and keep all other characters in their original order (equal to a one-pass filter) |
| `Cleaning.CleanAppend` | llm.py:70-73 | cleaning chunk by chunk gives the same text as cleaning the concatenated stream, so chunk boundaries do not affect what is buffered |
| `Cleaning.CleanNoMarkupIsIdentity` | llm.py:90 | the second cleaning at the final flush changes nothing on a buffer built from cleaned deltas |
| `Cleaning.CleanIdempotent` | llm.py:70 | cleaning twice is cleaning once |
| `Segmenter.FirstBoundaryFrom` | llm.py:75-76 | a scan from index `i` returns the first index of at least 5 holding a boundary character, or none exactly when no such index exists |
| `Segmenter.FirstBoundary` | llm.py:75-76 | the split index is at least 5, holds one of `，。！？,.`, and no index from 5 up to it does; the result is absent exactly when no index of at least 5 holds one |
| `Segmenter.FirstBoundaryCharacterized` | llm.py:75-76 | conversely, a boundary at index `i >= 5` with none between 5 and `i` is the index the scan reports |
| `Segmenter.ScanBoundary` | llm.py:75-81 | the `for`/`break` loop over `enumerate(result)` stops at the same index as the functional scan |
| `Segmenter.BoundaryPrefixIsFirst` | llm.py:75-78 | a prefix of the buffer that looks like a boundary segment must end at the buffer's first qualifying boundary, so the emitted prefix is determined uniquely |
| `Segmenter.EarlyBoundaryIgnored` | llm.py:76 | boundary characters at indices below 5 never cause a split, and a short buffer with no others is kept whole |
| `Segmenter.Split` | llm.py:75-86 | the emitted segments followed by the new buffer are exactly the old buffer; at most two segments; the new buffer is at most 30 long; nothing is emitted exactly when there is no boundary past the floor and the buffer is at most 30 long; a boundary segment always comes first; an overflow segment is longer than 30 and leaves the buffer empty |
| `Segmenter.SplitAtBoundary` | llm.py:75-83 | a boundary split whose remainder fits the 30-character threshold emits just the prefix through the boundary and keeps the remainder |
| `Segmenter.Step` | llm.py:70-86 | one delta: the emitted segments and the new buffer together are the old buffer plus the cleaned delta; at most two segments; the buffer stays within 30 characters; every segment is a boundary or an overflow segment; nothing is emitted exactly when the extended buffer has no boundary past the floor and is at most 30 long; no markup enters the buffer or a segment |
| `Segmenter.BoundarySegmentNotBlank` | llm.py:76-80 | a boundary segment ends in punctuation, so it is never whitespace-only even though the code does not check |
| `Segmenter.Finish` | llm.py:89-93 | the flush emits at most one segment: the cleaned remainder, only when it is not blank, and nothing exactly when it is blank (or empty) |
| `Segmenter.FinishExact` | llm.py:89-93 | on a markup-free buffer the flush emits exactly `[buffer]` if and only if it is not whitespace-only, and nothing if and only if it is |
| `Text.StripEmptyIffBlank` | llm.py:91 | `strip()` gives the empty string exactly when every character is whitespace in Python's `isspace` sense |
| `Text.TrimLeft` | llm.py:91 | the result is a suffix of the input, the characters dropped are all whitespace, and the result does not start with whitespace |
| `Text.TrimRight` | llm.py:91 | the result is a prefix of the input, the characters dropped are all whitespace, and the result does not end with whitespace |
| `Stream.Feed` | llm.py:55-86 | a chunk with no choices, no delta, or absent or empty content leaves the buffer unchanged and emits nothing; any other chunk is one step on its delta content; segments plus buffer are the old buffer plus the chunk's cleaned text |
| `Stream.StreamText` | llm.py:70-73 | the cleaned text of the whole stream never contains markup |
| `Stream.Run` | llm.py:55-86 | after any number of chunks, the emitted segments followed by the buffer are the starting buffer plus the cleaned text of all chunks, in order; starting within 30 characters, the buffer stays within 30 characters; every segment is a boundary or an overflow segment; no markup appears |
| `Stream.RunAppend` | llm.py:55-86 | the loop carries only the buffer from one chunk to the next: the run over two consecutive parts of a stream is the run over the first part, continued from its final buffer over the second |
| `Segmenter.AppendKeepsNoMarkup` | llm.py:70-86 | appending a cleaned delta to a markup-free buffer and splitting keeps both the buffer and the segments markup-free |
| `Stream.RespondPreservesContent` | llm.py:52-93 | over a whole stream, the joined segments are a prefix of the cleaned stream text, and what is missing is whitespace-only (the remainder the flush drops) |
| `Stream.RespondSegments` | llm.py:73-93 | no segment of a stream is empty or contains markup, and only a size-fallback segment can be blank |
| `Stream.FlushContent` | llm.py:88-93 | appending the flush to the loop's segments covers all of the text except a blank remainder |
| `Stream.FlushSegments` | llm.py:76-93 | with the flush appended, every segment is non-empty and markup-free, and only overflow segments can be blank |
| `Stream.Absorb` | llm.py:63-86 | the statement-by-statement loop body (clean, append, scan with early exit, size check) computes the same segments and buffer as the functional step |
| `Stream.Process` | llm.py:55-86 | the loop body including its two `continue` guards computes what `Feed` does |
| `Stream.Flush` | llm.py:89-93 | the statement-by-statement final flush emits what `Finish` does |
| `Stream.StreamSegments` | llm.py:52-93 | `llm_response`'s loop with the sink as an accumulated list emits exactly `Respond(chunks)`, the functional model |
| `Scenarios.SkippedChunkIsNoOp` | llm.py:56-61 | a chunk without text at the head of the remaining stream, from any buffer, changes neither the segments nor the final buffer |
| `Scenarios.SkippedChunkAnywhere` | llm.py:55-61 | a chunk without text at any position of a stream changes neither the segments, nor the final buffer, nor the whole response |
| `Scenarios.MarkupOnlyDeltaStillScans` | llm.py:60-81 | an empty delta skips the scan, but a delta made only of markup still scans and can emit a boundary segment left over from an earlier chunk |
| `Scenarios.EarlyCommaWaitsForFlush` | llm.py:75-93 | `你好呀，`: its comma at index 3 is below the floor, so nothing splits and the flush emits the whole text |
| `Scenarios.CommaSplitsThenFlush` | llm.py:75-93 | `今天天气真好呢，我们出去走走吧。` emits `今天天气真好呢，` at once and `我们出去走走吧。` at the flush, because only one boundary split happens per chunk |
| `Scenarios.CleanWrapped` | llm.py:70 | markup wrapped around markup-free text, as in `**bold**`, cleans to exactly that text |
| `Scenarios.MarkupStripped` | llm.py:70-93 | a short reply made of plain text wrapped in markup reaches the sink as one segment holding only the plain text, when that text is not blank and has no boundary past the floor; `**hello**` is such a reply (`Scenarios.HelloWrapped`) |
| `Scenarios.LongChunkOverflows` | llm.py:83-86 | a chunk longer than 30 characters with no boundary past index 4 is emitted at once and whole, and nothing is left to flush |
| `Scenarios.BlankOverflowIsEmitted` | llm.py:83-86 | 31 spaces are emitted as a segment: the size fallback does not check for whitespace |
| `Scenarios.BlankRemainderDropped` | llm.py:89-93 | a short whitespace-only stream emits nothing |
| `Scenarios.LeftoverBoundary` | llm.py:75-81 | `0123456,abcdefgh,xyz` emits `0123456,` and keeps `abcdefgh,xyz`, whose comma at index 8 is a qualifying boundary left for a later chunk |
| `Config.PlaceholderName` | llm.py:14-15 | the name taken out of a placeholder, put back between `${` and `}`, gives the placeholder again |
| `Config.Resolve` | llm.py:11-16 | a mapping gives a mapping with the same keys in the same order; a placeholder string gives the named variable's value, or `""` when it is unset; any other value, including a list and everything in it, is returned unchanged |
| `Config.ResolveAt` | llm.py:11-16 | resolution reaches through nested mappings: every position of the input (a path of entry indices) is a position of the result and vice versa; a placeholder string at any depth becomes its variable's value, or `""` when unset; any other non-mapping value at any depth is unchanged |
| `Config.NestedPlaceholderResolved` | llm.py:12-15 | with `X` set to `"v"`, the mapping `{k: "${X}"}` resolves to `{k: "v"}` |
| `Config.ResolveResolvedIsIdentity` | llm.py:11-16 | a value with no placeholder reachable through mappings is returned unchanged |
| `Config.ResolveLeavesNoPlaceholder` | llm.py:11-16 | when no environment value is itself a placeholder, one pass leaves no placeholder reachable through mappings |
| `Config.ResolveIdempotent` | llm.py:11-16 | under such an environment, resolving twice is resolving once |
| `Config.ResolveReadsOnlyNames` | llm.py:11-16 | only the variables the value names are read: environments that agree on them give the same result |

## Left out

- Reading the YAML file (llm.py:18-20). This is file I/O and a foreign parser. `resolve_env` is modelled on an abstract `Value` type. YAML scalars beyond null, booleans, integers, floats (as reals) and strings are not modelled.
- The provider lookup and OpenAI client construction (llm.py:28-36). The streamed request (llm.py:39-49) is left out too. These are a network client and a library that are not part of this model. The stream becomes a sequence of `Chunk` values given as input.
- The `time.perf_counter` timings, the `first` flag and every `logger.info` call (llm.py:25, 53, 65-67, 79, 84, 92, 95). They are instrumentation and do not change which segments are emitted.
- `BaseReal.put_msg_txt` (llm.py:80, 85, 93) is not part of this model. Each call becomes an append to the returned list of segments.
- Exceptions raised by the upstream stream or by the sink. These come from foreign code. A failure would end the stream early, and the model covers every prefix of a stream.
- Lone surrogate code points. A Python `str` can hold one (a JSON `\ud83d` escape decodes to one), but Dafny's `char` cannot. The segmenter treats such a character like any letter, so no property stated here depends on it.
- `Config.Resolve`: Python dict keys of any hashable type are modelled as `Value`s and are never changed. Dict key uniqueness is not stated, because the function never touches keys.

Only the final flush checks `strip()` (llm.py:91). The size fallback (llm.py:83-86) hands over a whitespace-only buffer of more than 30 characters as it is. `Scenarios.BlankOverflowIsEmitted` exhibits the case, and `Stream.RespondSegments` states the property that does hold.
