# ReplaceTextInStream, modelled in Dafny

ReplaceTextInStream replaces every occurrence of a term (`oldValue`) in a
stream with `newValue`, ignoring case, without reading the whole stream
into memory. This model covers three things:

- **The char scanners.** `UsingStreamReader` and `UsingPipes` decode the
  stream into a rented `char` buffer. Each turn reads a block, drains it
  with `FindCandidate`/`CompareSequence`/`Compare`, writes the scanned part
  and carries the unscanned tail (shorter than the term) to the front of the
  buffer. The same three scanning methods appear word for word in
  `UsingStreaming`, `UsingStreamReader` and `UsingPipes`.
- **The raw byte scanner.** `UsingRawByteStream` works on the undecoded
  bytes. Its pattern is the term encoded upper-cased and lower-cased, and a
  byte at position `i` matches if it equals either encoding's byte at `i`.
- **`Pattern.cs`.** This scanner encodes every character of the term
  separately, so the two cases of a character may differ in length. A
  scan that is not the final run stops short of a candidate when fewer than
  `MaxLength` bytes remain.

The files follow the program's structure:

| file | module | what it holds |
|---|---|---|
| `common.dfy` | `Common` | `Option`/`Result`, bytes, the case mapping, `Flatten`, the buffer operations `ReadInto` (a read into `buffer.AsMemory(at, …)`) and `ArrayCopy` |
| `scanner.dfy` | `Scanner` | the scan loop shared by `FindCandidate` and the raw `FindPattern`, as one generic function over `seq<T>`; the comparison is a parameter (a *judge*) |
| `charscanner.dfy` | `CharScanner` | `Compare`, `CompareSequence`, `FindCandidate` |
| `blockloop.dfy` | `BlockLoop` | `UsingStreamReader.Replace` and `UsingPipes.ReadIntoStream` |
| `rawbytes.dfy` | `RawByteStream` | `UsingRawByteStream`: its `Pattern` record, `CompareSequence`, `FindPattern`, `Replace` |
| `bytepattern.dfy` | `BytePattern` | `CharByteMap` and `Pattern` of `Pattern.cs` |
| `testcases.dfy` | `TestCases` | the repository's unit tests as lemmas, over an ASCII case mapping and a UTF-8 encoder |

Every driver is proved against one reference: the scan loop run once over
the whole input (`BlockLoop.Reference`, `RawByteStream.Reference`).
Whatever the buffer length, and for the raw driver however the stream
splits its bytes into reads, the output is that reference.

Where a comparison fails, each scanner goes on from wherever it left its
reader. This is a parameter of the model: `Resume.WhereLeft` is the
repository's behaviour, and `Resume.AfterCandidateStart` is the corrected
one that restarts one element after the candidate's start (see
"## Findings").

The case mapping (`char.ToUpperInvariant`/`ToLowerInvariant`) is a
parameter `Casing`, and so is the encoder (`Encoding.GetBytes`).

## Model

| member | source | states |
|---|---|---|
| Scanner.NextDelimiterIsFirst | ReplaceTextInStream/UsingStreamReader.cs:83 | `TryReadToAny(…, false)` stops at the first delimiter at or after the reader. It finds none exactly when no delimiter is left. |
| Scanner.FindFromSound | ReplaceTextInStream/UsingRawByteStream.cs:68-99 | Each way the scan loop can end means something. A match is a window the comparison accepts, starting at a delimiter. A short candidate is a delimiter fewer than `width` elements from the end. Without a delimiter the scan never reports one. |
| Scanner.FindShift | ReplaceTextInStream/UsingStreamReader.cs:73-108 | The scan only looks at what it passes. Scanning `x + y` from inside `y` is scanning `y` with every position shifted by `|x|`. |
| Scanner.FindExtend | ReplaceTextInStream/UsingStreamReader.cs:35-50 | A scan of a block decides as much about any longer input. A match found in the block is the match found in the extension. A short candidate, or the lack of a delimiter, means the scan of the extension goes on from that point. This is why carrying the tail over to the next block loses nothing. |
| Scanner.ReplaceAllAfterMatch | ReplaceTextInStream/UsingStreamReader.cs:37-44 | A match found in a prefix is replaced, and replacement goes on after it, whatever follows the prefix. |
| Scanner.ReplaceAllAfterMiss | ReplaceTextInStream/UsingStreamReader.cs:45-49 | Where the scan of a prefix stopped without a match, what precedes that point is written unchanged and replacement goes on from there. |
| Scanner.ReplaceAllShort | ReplaceTextInStream/UsingStreamReader.cs:35 | A text shorter than the term passes through unchanged. |
| Scanner.ReplaceAllIdentity | ReplaceTextInStream/UsingRawByteStream.cs:91-97 | A text with no occurrence of the term is written unchanged. |
| Scanner.NoOccurrenceNoMatch | ReplaceTextInStream/UsingRawByteStream.cs:83-89 | The scan never reports a match where there is no occurrence. |
| Scanner.RestartingFindsLeftmost | ReplaceTextInStream/UsingRawByteStream.cs:72-98 | With a judge that restarts one element after the candidate's start, no occurrence lies between the reader and the match the scan reports, or anywhere after the reader when it reports none. |
| CharScanner.CompareIsEquivalence | ReplaceTextInStream/UsingStreamReader.cs:124-127 | `Compare` (equality after upper-casing both characters) is reflexive, symmetric and transitive for every case mapping. |
| CharScanner.CompareSequence | ReplaceTextInStream/UsingStreamReader.cs:110-122 | `Matched` exactly when every character of the term compares equal to the window. `Mismatch(at)` names the first code unit that differs. `Exhausted` means the reader ran out with every code unit read so far matching. |
| CharScanner.JudgeAccepts | ReplaceTextInStream/UsingStreamReader.cs:92-98 | At a delimiter, a window is accepted exactly when it spells `oldValue`, ignoring case. |
| CharScanner.JudgeAdvances | ReplaceTextInStream/UsingStreamReader.cs:114-117 | A failed comparison leaves the reader past the delimiter and inside the window. This is what makes the loop terminate. Under the corrected policy it always restarts one code unit after the candidate's start. |
| CharScanner.FindCandidate | ReplaceTextInStream/UsingStreamReader.cs:73-108 | On a match, `before` is the text before an occurrence led by a delimiter, and `position` is the end of that occurrence. On a miss, `before` ends at `position`. That is either a delimiter fewer than `oldValue.Length` code units from the end, or the end itself. Without any delimiter it is the end. For an empty `oldValue` it finds something exactly when the haystack holds a delimiter, and `before` holds none. |
| CharScanner.CorrectedFindsLeftmost | ReplaceTextInStream/UsingPipes.cs:123-135 | Under the corrected policy, `FindCandidate` reports the leftmost occurrence led by a delimiter. When it reports a miss, there is no occurrence led by a delimiter. |
| CharScanner.CorrectedFindsEveryMatch | ReplaceTextInStream/UsingStreamReader.cs:124-127 | When every character that compares equal to the term's first character is a delimiter, the corrected search reports the leftmost window that compares equal to the term, in the sense of `Compare`, delimiter-led or not. When it reports a miss, no such window exists. |
| BlockLoop.Delimiters | ReplaceTextInStream/UsingStreamReader.cs:17-21 | The delimiters are `oldValue[0]` lower-cased and upper-cased, and there are no others. |
| BlockLoop.Drain | ReplaceTextInStream/UsingStreamReader.cs:35-50 | The inner loop leaves an unscanned tail shorter than the term, and it is a suffix of the block. |
| BlockLoop.FindIsScan | ReplaceTextInStream/UsingStreamReader.cs:73-108 | `FindCandidate`'s three outcomes are the three outcomes of the shared scan loop, with `before` and `position` read back from the hit. |
| BlockLoop.DrainExtends | ReplaceTextInStream/UsingStreamReader.cs:35-50 | The pieces the inner loop writes, followed by the replacement of its carried tail and whatever comes later, are the replacement of the block and what comes later. |
| BlockLoop.FilledBlock | ReplaceTextInStream/UsingStreamReader.cs:31-33 | The block a turn scans is the carried tail followed by the characters just read. |
| BlockLoop.LastBlock | ReplaceTextInStream/UsingStreamReader.cs:52-56 | At end of stream, the pieces and the tail written last are the replacement of the final block. |
| BlockLoop.ReadBlocksReplaces | ReplaceTextInStream/UsingStreamReader.cs:29-65 | From any turn on, the outer loop writes the replacement of the carried tail followed by the rest of the input. This holds whatever the carried tail and stale buffer contents are, and it covers the copy of the tail to the front of the buffer. |
| BlockLoop.StreamReaderReplace | ReplaceTextInStream/UsingStreamReader.cs:14-71 | It fails with `IndexOutOfRangeException` exactly when `oldValue` is empty (from `oldValue[0]`). Otherwise it writes the one-block reference replacement of the whole input. |
| BlockLoop.BufferIrrelevant | ReplaceTextInStream/UsingStreamReader.cs:16 | The output does not depend on `bufferLength` or on what the rented buffer held. |
| BlockLoop.EncodeEachFlatten | ReplaceTextInStream/UsingPipes.cs:51-58 | Encoding every written piece on its own is encoding their concatenation, for an encoder that respects concatenation. |
| BlockLoop.PipesReadIntoStream | ReplaceTextInStream/UsingPipes.cs:27-84 | It fails exactly when `oldValue` is empty. Otherwise the bytes sent into the pipe are the encoding of the reference replacement (for an encoder that respects concatenation). |
| RawByteStream.Delimiters | ReplaceTextInStream/UsingRawByteStream.cs:125 | The delimiters are the first bytes of the lower-cased and upper-cased encodings, and there are no others. |
| RawByteStream.CompareSequence | ReplaceTextInStream/UsingRawByteStream.cs:101-117 | It returns `None` exactly when every byte from the second on equals the upper-cased or the lower-cased encoding's byte at that index. Otherwise it names the first index where neither does. |
| RawByteStream.JudgeAccepts | ReplaceTextInStream/UsingRawByteStream.cs:83-89 | At a delimiter, a window is accepted exactly when each of its bytes is the upper-cased or the lower-cased byte at that index. |
| RawByteStream.JudgeAdvances | ReplaceTextInStream/UsingRawByteStream.cs:103-113 | A failed comparison leaves the reader on the mismatching byte, past the delimiter and inside the window. Under the corrected policy it restarts one byte after the candidate's start. |
| RawByteStream.ScanPatternReports | ReplaceTextInStream/UsingRawByteStream.cs:68-99 | Whatever the policy, the scan's result meets every promise of `FindPattern`'s contract. |
| RawByteStream.FindPattern | ReplaceTextInStream/UsingRawByteStream.cs:68-99 | On a match, the haystack is `inspected`, then a spelling of the pattern led by a delimiter, then the new haystack. On a miss, the haystack is `inspected` followed by a new haystack shorter than `LengthInBytes`, which if non-empty starts at a delimiter. Without a delimiter everything is inspected. |
| RawByteStream.FindPatternFrom | ReplaceTextInStream/UsingRawByteStream.cs:83-89 | `FindPattern` finds a match exactly when the scan loop does, and what it inspected ends where the match begins. |
| RawByteStream.Drain | ReplaceTextInStream/UsingRawByteStream.cs:39-51 | The inner loop leaves a tail shorter than `LengthInBytes`, and it is a suffix of the block. |
| RawByteStream.ReferenceAfterFind | ReplaceTextInStream/UsingRawByteStream.cs:41-50 | Whatever follows, the replacement of a block is what one `FindPattern` inspected, then `newValue` if it matched, then the replacement of what it left. |
| RawByteStream.DrainExtends | ReplaceTextInStream/UsingRawByteStream.cs:39-51 | The pieces the inner loop writes, followed by the replacement of its tail and what comes later, are the replacement of the block and what comes later. |
| RawByteStream.AfterRead | ReplaceTextInStream/UsingRawByteStream.cs:28-29 | A `ReadAsync` that takes `k` bytes of the next arrival leaves the rest of the stream. No bytes are lost, and the stream gets shorter. |
| RawByteStream.FilledBlock | ReplaceTextInStream/UsingRawByteStream.cs:28-36 | The block a turn scans is the carried tail followed by the bytes just read. |
| RawByteStream.ReadTurn | ReplaceTextInStream/UsingRawByteStream.cs:28-59 | One turn of the outer loop consumes input and carries fewer than `LengthInBytes` bytes into a buffer of the same length. |
| RawByteStream.ReadTurnReplaces | ReplaceTextInStream/UsingRawByteStream.cs:36-59 | A turn loses nothing. What it writes, followed by the replacement of the tail it carries (copied to the front by `Array.Copy` from `currentSequenceLength - startIndex`) and the unread stream, is the replacement of what it started with. |
| RawByteStream.TailIsFinal | ReplaceTextInStream/UsingRawByteStream.cs:30-34 | The carried tail written at end of stream is its own replacement. |
| RawByteStream.ReadLoopReplaces | ReplaceTextInStream/UsingRawByteStream.cs:26-60 | However the stream splits into reads, the loop writes the replacement of the carried tail followed by the whole rest of the stream. |
| RawByteStream.WholeStream | ReplaceTextInStream/UsingRawByteStream.cs:24-60 | Entered with an empty tail, the loop writes the replacement of the whole stream. |
| RawByteStream.Replace | ReplaceTextInStream/UsingRawByteStream.cs:15-66 | It fails with `IndexOutOfRangeException` exactly when the term encodes to no bytes (from `LowerBytes[0]`). Otherwise it writes the one-block replacement of the whole stream. |
| RawByteStream.ChunkingIrrelevant | ReplaceTextInStream/UsingRawByteStream.cs:19 | The output depends neither on how `ReadAsync` splits the stream, nor on `bufferLength`, nor on what the rented buffer held. |
| RawByteStream.NothingToReplace | ReplaceTextInStream/UsingRawByteStream.cs:76-81 | An input shorter than the pattern, or one without a delimiter, is copied unchanged. |
| RawByteStream.CorrectedFindsLeftmost | ReplaceTextInStream/UsingRawByteStream.cs:101-117 | Under the corrected policy, no spelling of the pattern at a delimiter lies in what `FindPattern` inspected, or anywhere when it found none. |
| RawByteStream.NotSpelledWhereNotOccurs | ReplaceTextInStream/UsingRawByteStream.cs:83-84 | At a delimiter, a window the scan does not accept does not spell the pattern. |
| BytePattern.AdvancePast | ReplaceTextInStream/Pattern.cs:17-20 | `IsNext(reader, true)` moves the reader exactly when the upper-cased or lower-cased encoding is next, and past exactly those bytes. Otherwise it leaves the reader in place. |
| BytePattern.Delimiters | ReplaceTextInStream/Pattern.cs:28 | The delimiters are the first bytes of the first character's two encodings, and there are no others. |
| BytePattern.NewPattern | ReplaceTextInStream/Pattern.cs:25-30 | It fails with `IndexOutOfRangeException` exactly when the term is empty or either encoding of its first character is empty. Otherwise it holds one `CharByteMap` per character, in order. |
| BytePattern.SpellsBound | ReplaceTextInStream/Pattern.cs:29 | A spelling of the term is never longer than `MaxLength`, the sum of the wider encoding of each character. |
| BytePattern.PossibleSequence | ReplaceTextInStream/Pattern.cs:94-109 | `TryAdvanceToPossibleSequence` stops only where an encoding of the first character begins. |
| BytePattern.StartsAtDelimiter | ReplaceTextInStream/Pattern.cs:97-100 | The first character can only begin at a delimiter. |
| BytePattern.NoStartWithoutDelimiter | ReplaceTextInStream/Pattern.cs:97 | The first character begins nowhere in a stretch without delimiters. |
| BytePattern.PossibleSequenceIsFirst | ReplaceTextInStream/Pattern.cs:94-109 | The position found is the first where the first character begins. When none is found, it begins nowhere after the reader. |
| BytePattern.CompareSequence | ReplaceTextInStream/Pattern.cs:121-132 | A mismatch names a character that is not next, with the reader left at its start. |
| BytePattern.CompareSequenceSpells | ReplaceTextInStream/Pattern.cs:121-132 | What the comparison consumed spells the characters it got through: all of them on a match, or those before the mismatching one. |
| BytePattern.CompareSequenceAdvances | ReplaceTextInStream/Pattern.cs:121-132 | Where the first character begins, a failed comparison still moves the reader, so the search loop cannot stall. |
| BytePattern.FindFromCursorSound | ReplaceTextInStream/Pattern.cs:57-83 | A match begins with the first character and spells the term. A short candidate happens only when this is not the final run, with fewer than `MaxLength` bytes left. When the first character begins nowhere, nothing is found. |
| BytePattern.ScanPatternReports | ReplaceTextInStream/Pattern.cs:53-84 | Whatever the policy, the scan's result meets every promise of `FindPattern`'s contract. |
| BytePattern.FindPattern | ReplaceTextInStream/Pattern.cs:53-84 | The old haystack is `inspected`, then the match (empty on a miss), then the new haystack. A match begins with the first character, spells the term and is at most `MaxLength` long. A non-empty haystack left by a miss holds a candidate start, and only when this is not the final run. |
| BytePattern.FinalRunMissEmpties | ReplaceTextInStream/Pattern.cs:76-82 | On the final run, a miss inspects the whole haystack. |
| BytePattern.MatchStarts | ReplaceTextInStream/Pattern.cs:121-132 | A match begins with the first character. |
| BytePattern.NoMatchBeforeCandidate | ReplaceTextInStream/Pattern.cs:94-109 | No match begins before the position `TryAdvanceToPossibleSequence` stops at. |
| BytePattern.CursorStep | ReplaceTextInStream/Pattern.cs:57-75 | Under the corrected policy, one step of the search either reaches the candidate or rules out a match there and goes on one byte later. |
| BytePattern.AdvancesByNext | ReplaceTextInStream/Pattern.cs:17-20 | When neither encoding of a character is a proper prefix of the other, `IsNext` moves past whichever encoding is next, whatever order it tries them in. |
| BytePattern.SpelledCompares | ReplaceTextInStream/Pattern.cs:121-132 | With prefix-free encodings, if the bytes from the reader spell the remaining characters, `CompareSequence` gets through all of them and stops where the spelling ends. |
| BytePattern.MatchesAtIffSpelled | ReplaceTextInStream/Pattern.cs:121-132 | With prefix-free encodings, `CompareSequence` matches at a position exactly when some bytes from there spell the term. |
| BytePattern.NoMatchNoSpelling | ReplaceTextInStream/Pattern.cs:36-38 | With prefix-free encodings, a stretch where no comparison matches holds no occurrence of the term at all. |
| BytePattern.CursorFindsLeftmost | ReplaceTextInStream/Pattern.cs:57-83 | Under the corrected policy, no match begins anywhere the scan moves over. With prefix-free encodings, no spelling of the term begins there either. |
| BytePattern.CorrectedFindsLeftmost | ReplaceTextInStream/Pattern.cs:36-84 | Under the corrected policy, no match begins inside what `FindPattern` reports as inspected, so the match found is the first. With prefix-free encodings, nothing inspected begins a spelling of the term, which is the first occurrence the documentation promises. |
| BytePattern.CursorKeepsShort | ReplaceTextInStream/Pattern.cs:57-83 | Under the corrected policy, when a search that is not the final run misses, no candidate (a position where the term's first character is spelled) lies in the part it moved over and within `MaxLength` of the end. A candidate that more input could still complete is kept, not consumed. |
| BytePattern.CorrectedKeepsShort | ReplaceTextInStream/Pattern.cs:53-84 | Under the corrected policy, when a run that is not final misses, no candidate (a position where the term's first character is spelled) lies in what it reports as inspected and within `MaxLength` of the end of the haystack. When it leaves nothing, there is no such candidate in the whole haystack. |
| TestCases.Utf8CharPrefixFree | ReplaceTextInStream/Pattern.cs:10-11 | No character's UTF-8 encoding is a proper prefix of another's. |
| TestCases.Utf8PatternsPrefixFree | ReplaceTextInStream/Pattern.cs:25-30 | Every `Pattern` built over UTF-8 has prefix-free encodings, whatever the case mapping, so the leftmost guarantees above cover it. |
| TestCases.Utf8IsHomomorphic | ReplaceTextInStream/UsingPipes.cs:51-58 | The UTF-8 encoder of the tests respects concatenation, so writing piece by piece is writing the whole. |
| TestCases.OverlapAsWritten | ReplaceTextInStream/UsingPipes.cs:123-135 | As written, the char scanner leaves `"***ababc***"` unchanged when replacing `"abc"`. |
| TestCases.OverlapCorrected | ReplaceTextInStream.Test/TestPipes.cs:11 | Under the corrected policy, `"***ababc***"` becomes `"***ab123***"`. |
| TestCases.TitlecaseMissed | ReplaceTextInStream/UsingStreamReader.cs:17-21 | As written, the delimiters are only the lower- and upper-case forms of the term's first character. Under a case mapping where the titlecase letter U+01C5 upper-cases to U+01C4 and lower-cases to U+01C6, the term `"ǅa"` compares equal to itself, yet its first character is not a delimiter, so `"ǅa"` is left unchanged under either policy. |
| TestCases.TitlecaseCorrected | ReplaceTextInStream/UsingStreamReader.cs:124-127 | With the delimiters widened to every character that compares equal to the first one, the corrected search finds `"ǅa"` at position 0. |
| TestCases.AsciiDelimitersCover | ReplaceTextInStream/UsingStreamReader.cs:17-21 | Under the ASCII case mapping, the two delimiters already cover every character that compares equal to the first one, so the repository's delimiters lose nothing there. |
| TestCases.ShorterNewValue | ReplaceTextInStream.Test/BaseTests.cs:28-38 | The character loop shared by `UsingStreamReader` and `UsingPipes` turns `"***abc***"` into `"***1***"`. `UsingPipes` sends its UTF-8 bytes into the pipe. |
| TestCases.LongerNewValue | ReplaceTextInStream.Test/BaseTests.cs:40-50 | The same for `"***1234***"`, through both character loops. |
| TestCases.WorldToGalaxy | ReplaceTextInStream.Test/BaseTests.cs:7-24 | In the baseline text, the reference replacement of the character loop turns every `World`, in any case, into `Galaxy`, and `Worlds` into `Galaxys`. The `w` of `how` and of `know` start no match. |
| TestCases.BaseLine | ReplaceTextInStream.Test/BaseTests.cs:14-24 | `BaseLineTest` holds through `UsingStreamReader`'s loop and through `UsingPipes`, which sends the UTF-8 bytes of the expected text. |
| TestCases.RawAbcToIsReference | ReplaceTextInStream.Test/TestRawByteStream.cs:7 | `UsingRawByteStream` with `bufferLength: 16`, replacing `"abc"` by any `newValue`, writes the reference replacement of the stream. |
| TestCases.RawShorterNewValue | ReplaceTextInStream.Test/BaseTests.cs:28-38 | Run through `UsingRawByteStream` (the `TestRawByteStream` subclass, 16-byte buffer), `"***abc***"` becomes `"***1***"`, however the stream is read. |
| TestCases.RawLongerNewValue | ReplaceTextInStream.Test/BaseTests.cs:40-50 | Run through `UsingRawByteStream`, `"***abc***"` becomes `"***1234***"`, however the stream is read. |
| TestCases.PipesExamples | ReplaceTextInStream.Test/TestPipes.cs:9-13 | `UsingPipes` holds for the empty input, `"abc"`, `"ABCabcAbcAbC"` and `"abc€"`, with the expected UTF-8 bytes. |
| TestCases.PipesOverlapAsWritten | ReplaceTextInStream.Test/TestPipes.cs:11 | As written, `UsingPipes` sends `"***ababc***"` unchanged into the pipe, not the `"***ab123***"` the test expects. |
| TestCases.PipesOverlapCorrected | ReplaceTextInStream.Test/TestPipes.cs:11 | Under the corrected policy, `UsingPipes` sends `"***ab123***"`. |
| TestCases.RawTestIsReference | ReplaceTextInStream.Test/TestRawByteStream.cs:7 | The tests' call (`bufferLength: 16`, `"abc"` to `"123"`) writes the reference replacement of the stream. |
| TestCases.RawRuns | ReplaceTextInStream.Test/TestRawByteStream.cs:11 | With matches at both ends of the buffer, however the stream is read, every `abc` becomes `123`. |
| TestCases.RawStars | ReplaceTextInStream.Test/TestRawByteStream.cs:12 | A match that crosses a buffer boundary is replaced, however the stream is read. |
| TestCases.RawMixedCase | ReplaceTextInStream.Test/TestRawByteStream.cs:13 | `"ABCabcAbcAbC"` becomes `"123123123123"`. |
| TestCases.RawEmpty | ReplaceTextInStream.Test/TestRawByteStream.cs:9 | The empty stream gives the empty output. |
| TestCases.RawSingle | ReplaceTextInStream.Test/TestRawByteStream.cs:10 | `"abc"` becomes `"123"`. |
| TestCases.RawMultiByte | ReplaceTextInStream.Test/TestRawByteStream.cs:14 | `"abc€"` becomes `"123€"`, and the three bytes of `€` pass through. |
| TestCases.RawOverlapAsWritten | ReplaceTextInStream/UsingRawByteStream.cs:101-117 | `"aab"` is spelled at offset 1 of `"aaab"`, yet as written the raw scanner copies `"aaab"` unchanged. |
| TestCases.RawOverlapCorrected | ReplaceTextInStream/UsingRawByteStream.cs:83-89 | Under the corrected policy, `"aaab"` becomes `"ax"`. |
| TestCases.RawOverlapStream | ReplaceTextInStream/UsingRawByteStream.cs:15-66 | Through the whole driver, however it is read, `"aaab"` stays unchanged as written and becomes `"ax"` under the corrected policy. |
| TestCases.PatAbcBuilt | ReplaceTextInStream/Pattern.cs:25-30 | The constructor builds the three maps of `"abc"`. |
| TestCases.PatternOverlap | ReplaceTextInStream/Pattern.cs:53-84 | `Pattern.cs` does find `"abc"` in `"***ababc***"`: a failed comparison leaves its reader at the character that did not match. |
| TestCases.PatternOverlapAsWritten | ReplaceTextInStream/Pattern.cs:121-132 | `"aab"` begins at offset 1 of `"aaab"`, yet as written `FindPattern` on the final run reports no match. |
| TestCases.PatternOverlapCorrected | ReplaceTextInStream/Pattern.cs:94-109 | Under the corrected policy, `FindPattern` finds `"aab"` in `"aaab"` after the one byte `"a"`. |

## Left out

- Cancellation (`cancellationToken`), `async`/`await` and the order of
  awaited writes: the model treats every write as completed in order.
- `ArrayPool.Rent` is modelled as any buffer at least as long as
  requested, with arbitrary stale contents. `ArrayPool.Return` has no
  effect on the output and is left out.
- `StreamReader` decoding and the `StreamWriter` encoding in
  `UsingStreamReader`: the model works on the decoded `char`s. Its output is
  the `char` sequence written.
- `StreamReader.ReadBlockAsync` is modelled as filling the free part of the
  buffer unless the input ends, and `EndOfStream` as "no input left".
- The `Pipe` wiring of `UsingPipes.Replace` (`CopyToAsync`, `Task.WhenAll`),
  `FlushAsync` and `CompleteAsync` are left out. Only the bytes
  `ReadIntoStream` sends into the pipe are modelled, and the `Failure` of
  `PipesReadIntoStream` stands only for the faulted `ReadIntoStream` task.
  By reading the code (not executed): with an empty `oldValue`,
  `oldValue[0]` throws at `UsingPipes.cs:32`, before the `try`. So the
  `writer.CompleteAsync()` of line 81 never runs, and the rented buffer is
  never returned. `pipe.Reader.CopyToAsync` (line 22) then never sees the
  end of the pipe, and `Task.WhenAll` (line 24) never completes. The whole
  `Replace` hangs rather than fails.
- The runtime's case tables and encoders are parameters (`Casing`, and
  `encode` over `seq<char>`). The tests are stated over an ASCII case
  mapping and a UTF-8 encoder.
- Surrogate code units: the model's `char` is a Unicode scalar value, where
  .NET's `char` is a UTF-16 code unit. Text containing surrogate code units
  is not modelled. A lone surrogate, which a .NET string and the `char[]`
  buffers can hold, has no counterpart. A supplementary character is one
  element of the model but two code units in .NET, which would change
  `oldValue.Length`, the rented size `Math.Max(…, oldValue.Length * 2)` and
  the `Array.Copy` offsets.
- BlockLoop.PipesReadIntoStream: the bytes are proved equal to the encoding
  of the reference replacement only for an encoder that respects
  concatenation. UTF-8 over a surrogate pair split between two written
  pieces does not, and that case is not modelled.
- RawByteStream.Replace: the term is case-mapped character by character
  (`UpperString`, `LowerString`). On text without surrogate code units this
  is what `string.ToUpperInvariant` and `ToLowerInvariant` do. Their
  mapping of a surrogate pair as one code point (U+10428 to U+10400) falls
  under the surrogate line above.
- RawByteStream.Replace: requires the upper-cased and lower-cased encodings
  to have the same length. The source states this as an assumption
  (`UsingRawByteStream.cs:131-133`). Where they differ it either indexes
  `LowerBytes` out of range or ignores its extra bytes, and that is not
  modelled.
- `Stream.ReadAsync` is modelled as returning each arrival of the stream in
  non-empty reads of at most the free space. A read of zero bytes means end
  of stream.
- BytePattern.CursorFindsLeftmost: the guarantee that no spelling of the
  term is passed over holds only for prefix-free encodings
  (`PrefixFree`). `IsNext` tries the upper-cased encoding first, so when one
  encoding of a character is a proper prefix of the other, a spelling that
  goes on with the longer one can be missed. UTF-8 is prefix-free
  (`TestCases.Utf8PatternsPrefixFree`). Other encoders are not covered.
- CharScanner.CorrectedFindsLeftmost: the leftmost guarantee covers only
  occurrences whose first character is a delimiter. `Compare`
  (`UsingStreamReader.cs:124-127`) also accepts a first character that
  upper-cases like the term's first character without being its lower- or
  upper-case form, such as U+01C5 or U+017F. Those occurrences are never
  candidates, so they are not promised, as the third row of the Findings
  table shows. `CharScanner.CorrectedFindsEveryMatch` gives the full promise
  when the delimiters cover every such character.
- BytePattern.CorrectedFindsLeftmost: the same restriction to prefix-free
  encodings applies to its statement about spellings.
- `BaseLineTest` run through `UsingRawByteStream` is not modelled. Its
  shorter and longer tests are (`TestCases.RawShorterNewValue`,
  `TestCases.RawLongerNewValue`).
- `Pattern.cs` has no caller in the repository, so no driver around it is
  modelled. Its `FindPattern` is modelled with `isFinalRun` as a
  parameter.
- `UsingStringReplace`, `UsingRegexReplace`, `IStreamingReplacer`, the web
  host and the benchmarks are not part of this model: they delegate to
  `string.Replace`, `Regex` or the replacers above.

## Findings

| source | as written | input that shows it | evidently intended | confidence | as-written member | corrected member |
|---|---|---|---|---|---|---|
| ReplaceTextInStream/UsingPipes.cs:123-135 (the same code is in UsingStreamReader.cs:110-122 and UsingStreaming.cs:47-59) | `CompareSequence` reads the mismatching character with `TryRead`. `FindCandidate` then searches on from after that character, so a term that begins at the character that failed is skipped. | `"***ababc***"`, replacing `"abc"` by `"123"`: the output is `"***ababc***"` | `"***ab123***"`, as the test at ReplaceTextInStream.Test/TestPipes.cs:11 expects | high, not executed | TestCases.OverlapAsWritten, TestCases.PipesOverlapAsWritten | TestCases.OverlapCorrected, TestCases.PipesOverlapCorrected, CharScanner.CorrectedFindsLeftmost |
| ReplaceTextInStream/UsingRawByteStream.cs:101-117 and ReplaceTextInStream/Pattern.cs:121-132 | After a failed comparison, both byte scanners search on from where the comparison stopped, not from one byte after the candidate's start. A term that begins inside a failed candidate is skipped. | `"aaab"`, replacing `"aab"` by `"x"`: the output is `"aaab"` | `"ax"` | high, not executed | TestCases.RawOverlapAsWritten, TestCases.PatternOverlapAsWritten | TestCases.RawOverlapCorrected, TestCases.PatternOverlapCorrected, RawByteStream.CorrectedFindsLeftmost, BytePattern.CorrectedFindsLeftmost |
| ReplaceTextInStream/UsingStreamReader.cs:17-21 (the same code is in UsingPipes.cs:30-34) | The delimiters are only `char.ToLowerInvariant` and `char.ToUpperInvariant` of the term's first character, while `Compare` accepts any first character that upper-cases the same way. A term whose first character is a titlecase letter is never a candidate. | `"ǅa"` (U+01C5, which upper-cases to U+01C4 and lower-cases to U+01C6), replacing `"ǅa"` by `"x"`: the output is `"ǅa"` | `"x"` | medium, not executed | TestCases.TitlecaseMissed | CharScanner.CorrectedFindsEveryMatch, TestCases.TitlecaseCorrected, TestCases.AsciiDelimitersCover |
