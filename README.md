# Whisper transcriber: chunking, timestamp stitching and transcript merging

The transcriber converts a recording to a 16 kHz WAV file. A recording longer than
30 minutes is cut into numbered 30-minute parts, and each part is transcribed separately.
The per-part transcripts are then concatenated into one final transcript. Every part's
timestamps restart at `00:00:00`, so a last pass puts them back on the recording's own
timeline. It detects each restart from a timestamp that goes backwards and adds an
accumulated offset to every later timestamp.

The project models that core:

- `timestamp.dfy` (module `Timestamp`) covers `shift_timestamp`. A stamp's fields are
  decimal digit strings. The shift adds a whole-second offset, splits the total into
  hours, minutes and seconds with floor division and modulo, keeps the milliseconds and
  renders `HH:MM:SS,mmm`.
- `scan.dfy` (module `Scan`) covers the two string operations the stitcher relies on:
  - `findall` of the pattern `\d{2}:\d{2}:\d{2}[,.]\d{3}`, as non-overlapping leftmost
    matches;
  - `str.replace`, which replaces every non-overlapping occurrence from the left;
  - rewriting each match where it was found, which the corrected pass uses instead of
    `str.replace`.
- `stitcher.dfy` (module `Stitcher`) covers `adjust_transcript_timestamps`.
  - Functions over the two counters (`offset_seconds` and `last_timestamp`) specify
    the pass.
  - A method with the source's two nested loops is proved equal to them.
  - Lemmas show that the adjusted times the pass computes, in match order, never
    decrease, and how the offset grows chunk by chunk. The text written into a line can
    still drop, because `replace` may rewrite an earlier stamp of the same line again.
  - Further lemmas give the cases where a second pass changes nothing, and a line where
    it does.
  - A corrected pass rewrites each match where it was found. The times it writes, read
    back, never decrease.
- `text_lines.dfy` (module `TextLines`) covers `readlines` and `writelines`: splitting
  a text after each `'\n'`, and concatenating lines.
- `names.dfy` (module `NameOrder`) covers `sorted()` on strings. Python orders strings
  lexicographically by code point, and a proper prefix comes first. The model sorts by
  insertion and proves the result is the unique sorted permutation.
- `chunk_plan.dfy` (module `ChunkPlan`) covers the arithmetic and naming of
  `split_audio`:
  - `os.path.splitext`;
  - the part and transcript file names;
  - the `range(0, duration, 1800)` cut plan and the pieces it covers.

  It also proves how `sorted()` orders the part transcripts.
- `merge.dfy` (module `TranscriptMerge`) covers `merge_transcripts` over a `FileSystem`
  object, whose map from names to contents the operations update in place. The merge
  runs in three phases:
  1. write each transcript followed by a newline;
  2. delete the transcripts;
  3. re-read the final file, stitch it and write it back.

  A missing file raises an exception. The model makes this an explicit outcome, and the
  files written so far stay in place.

Some behaviours of the code that the model keeps:

- At a detected reset the offset grows by the last chunk-local value seen
  (whisper_transcriber.py:170-171), not by a part's fixed 1800 seconds. So a part that
  ends at `00:29:58` moves the next part's `00:00:02` to `00:30:00`, not to `00:30:02`
  (`Stitcher.ResetAddsLastValueSeen`).
- A duration of zero or less, which `get_audio_duration` returns when it cannot read
  one (line 52), does not fail: the test at line 58 returns the converted file as the
  only part.
- Nothing checks that the number of transcripts matches the number of parts.
- Minutes or seconds of 60 or more are not rejected but carried by the arithmetic at
  lines 137-141.
- Each transcript is followed by `"\n"` (line 188). This is an empty line only when the
  transcript already ends in a newline. Otherwise it terminates the transcript's last
  line.
- `line.replace(match, adjusted_time)` (line 175) rewrites every copy of the matched
  text in the line, including text that an earlier match of the same line was just
  rewritten to (`Stitcher.ReplaceRewritesEarlierStamp`).
- The pattern at line 149 is not anchored, so a stamp of 100 hours or more is read again
  from its second digit (`Scan.HundredHoursReadFromSecondDigit`).

## Model

| member | source | states |
|---|---|---|
| Timestamp.Decimal | whisper_transcriber.py:144 | the `{n:0w}` rendering is all digits, denotes `n`, and is at least `w` long (and at least one digit); when it is longer than `w` and than one digit it has no leading zero, so the rendering is determined for values past the width (hours of 100 and more) |
| Timestamp.DecimalOfDigits | whisper_transcriber.py:144 | re-rendering a digit field's value with the field's width gives back the field, so zero padding round-trips |
| Timestamp.DigitsValueInjective | whisper_transcriber.py:137 | two digit fields of the same width that denote the same number are the same text |
| Timestamp.DecimalLength | whisper_transcriber.py:144 | the rendering is exactly `w` digits iff `n < 10^w`; otherwise it widens (hours of 100 and more) |
| Timestamp.DigitsValueBound | whisper_transcriber.py:137 | a field of `k` digits denotes less than `10^k` |
| Timestamp.NormalizeToken | whisper_transcriber.py:130-133 | replacing a matched token's separator with a comma leaves a token that agrees with the original everywhere else |
| Timestamp.HmsOfTotal | whisper_transcriber.py:139-141 | floor division and modulo split a non-negative total into minutes and seconds below 60 that add back up to the total |
| Timestamp.RenderFields | whisper_transcriber.py:139-144 | a rendered total is a comma stamp whose fields denote exactly the total and the milliseconds, and it is 12 characters iff the total is below 100 hours |
| Timestamp.ShiftCarry | whisper_transcriber.py:127-144 | shifting by a non-negative result gives a comma stamp denoting the old value plus the offset, with normalized minutes and seconds and the same millisecond digits; it is token-shaped iff the result is below 100 hours |
| Timestamp.ShiftByZero | whisper_transcriber.py:127-144 | shifting an in-range token by zero only turns its separator into a comma |
| Timestamp.ShiftCompose | whisper_transcriber.py:127-144 | shifting by `a` and then by `b` equals shifting by `a + b` (when the first result is non-negative) |
| Timestamp.TokenFieldValues | whisper_transcriber.py:129-137 | the hour, minute, second and millisecond values of a token are read from its fixed digit positions |
| Timestamp.ShiftOfToken | whisper_transcriber.py:137-144 | a token's shift is the rendering of its digit-position value plus the offset |
| Timestamp.RenderShort | whisper_transcriber.py:144 | below 100 hours the rendering is exactly the twelve characters of the two-digit fields and three-digit milliseconds |
| Timestamp.ShiftPastMidnight | whisper_transcriber.py:137-144 | `23:59:59.500` shifted by one second is `24:00:00,500`: hours do not wrap at 24 and the dot becomes a comma |
| Timestamp.ShiftPastHundredHours | whisper_transcriber.py:139-144 | `99:59:59,000` shifted by one second is the 13-character `100:00:00,000`: hours are not capped at two digits |
| Scan.HundredHoursReadFromSecondDigit | whisper_transcriber.py:149-157 | the unanchored pattern matches `100:00:00,000` only from its second character, so `findall` reads it as `00:00:00,000` and a later pass sees a reset |
| Timestamp.ShiftCarriesMinutes | whisper_transcriber.py:137-141 | `00:75:00.250` is accepted and renders as `01:15:00,250` |
| Scan.MatchPositions | whisper_transcriber.py:149-157 | every reported position starts a token, and consecutive matches do not overlap |
| Scan.FindAll | whisper_transcriber.py:149-157 | `findall` returns, for each match position in order, the 12 characters of the line that start there, each token-shaped |
| Scan.EveryTokenCovered | whisper_transcriber.py:157 | every token-shaped substring lies inside some reported match, so no timestamp is skipped |
| Scan.Replace | whisper_transcriber.py:175 | replacement by an equal-length string keeps the length, and a pattern that does not occur (or replaces itself) leaves the line unchanged |
| Scan.ReplaceHits | whisper_transcriber.py:175 | the leftmost occurrence of the pattern is overwritten by the replacement |
| Scan.TokenDotsToCommas | whisper_transcriber.py:149 | turning dots into commas in a token keeps it a token with the same time value and milliseconds |
| Scan.TokenAtDotsToCommas | whisper_transcriber.py:149 | the pattern matches at a position iff it matches there once separators are turned into commas |
| Scan.MatchPositionsDotsToCommas | whisper_transcriber.py:149-157 | separator normalisation does not move any match |
| Scan.ReplaceDotsToCommas | whisper_transcriber.py:175 | replacing a token by its normalized form only turns dots into commas in the line |
| Scan.ReplaceAppend | whisper_transcriber.py:175 | when no occurrence of the pattern straddles the join, replacing in a concatenation replaces in each part |
| Scan.ReplaceAroundSpace | whisper_transcriber.py:175 | for a pattern without spaces, replacing in two words joined by a space replaces in each word and keeps the space |
| Stitcher.StitchFrom | whisper_transcriber.py:156-178 | a line without any timestamp is copied through unchanged |
| Stitcher.AdjustTranscriptTimestamps | whisper_transcriber.py:146-180 | the nested loops produce exactly the stitched lines, and lines without timestamps are unchanged |
| Stitcher.AdjustLine | whisper_transcriber.py:157-176 | the inner loop over one line's matches updates the counters and the line exactly as one step of the specification |
| Stitcher.StitchFollowsRun | whisper_transcriber.py:150-176 | the counters after the pass depend only on the sequence of token values across all lines |
| Stitcher.StepTokensFollowRun | whisper_transcriber.py:158-176 | within a line the counters follow the token values in match order |
| Stitcher.StateRule | whisper_transcriber.py:167-176 | after a token `last` is its value; the offset changes iff the value is below the previous one, and then grows by exactly the previous value |
| Stitcher.OffsetMonotone | whisper_transcriber.py:170-171 | the offset never decreases along the run |
| Stitcher.ShiftedValuesNonDecreasing | whisper_transcriber.py:167-173 | offset plus chunk-local value never decreases from one token to a later one |
| Stitcher.RenderedTimesNonDecreasing | whisper_transcriber.py:167-173 | the adjusted times the pass computes, one per match in match order, are non-decreasing; the text left in a line can still drop, because the `replace` at line 175 can rewrite an earlier stamp of the same line (`Stitcher.ReplaceRewritesEarlierStamp`) |
| Stitcher.LineRewrite | whisper_transcriber.py:173-175 | each token is replaced in the partially rewritten line by its shift with the offset in force after that token |
| Stitcher.RunWithoutReset | whisper_transcriber.py:170-176 | while values do not drop, the offset stays put and `last` tracks the latest value |
| Stitcher.RunChunk | whisper_transcriber.py:170-176 | a non-decreasing chunk adds the previous `last` to the offset at most once, at its first token |
| Stitcher.ChunkOffsets | whisper_transcriber.py:150-176 | for chunks whose first value is below the previous chunk's last, every token of chunk `c` is shifted by the sum of the last values of the chunks before it |
| Stitcher.StitchSingleChunk | whisper_transcriber.py:156-178 | on a single chunk (no overlapping token shapes in any line, every token's minutes and seconds below 60, token values never decreasing) the offset stays 0, the pass only turns dots into commas, and the written tokens are the input's tokens with a comma separator |
| Stitcher.StitchKeepsCommaLines | whisper_transcriber.py:156-178 | a transcript whose stamps are in range, comma-separated and non-decreasing is left unchanged |
| Stitcher.StitchIdempotent | whisper_transcriber.py:146-180 | on a single chunk (no overlapping token shapes in any line, every token's minutes and seconds below 60, token values never decreasing), stitching the stitched transcript again changes nothing |
| Stitcher.FourStampsFound | whisper_transcriber.py:157 | on a line of four stamps separated by spaces, `findall` returns exactly the four stamps in order |
| Stitcher.FourStampsReplaced | whisper_transcriber.py:175 | replacing a stamp in such a line rewrites every stamp equal to it and no other |
| Stitcher.PassRewritesEarlierStamp | whisper_transcriber.py:156-178 | on a line `a b c d` where `b` reads as a reset and is shifted to the text `d`, rewriting `d` also rewrites the second stamp: the pass writes `a f e f`, not `a d e f` |
| Stitcher.PassAfterDrop | whisper_transcriber.py:156-178 | on a line `a b c b` where `c` drops below `b`, the pass shifts the third and both copies of the repeated stamp by `b`'s value |
| Stitcher.ReplaceRewritesEarlierStamp | whisper_transcriber.py:175 | such a collision leaves a drop inside the written line, so a second pass moves the line again: the pass is not idempotent on such lines |
| Stitcher.CollisionWitness | whisper_transcriber.py:167-175 | the stamps of 10, 5, 7 and 15 seconds on one line meet the collision conditions: 5 reads as a reset past 10 and is shifted to the text of the fourth stamp |
| Stitcher.DropWitness | whisper_transcriber.py:167-175 | the written line 10 25 17 25 holds a drop that a second pass reads as a reset |
| Stitcher.CollisionInstance | whisper_transcriber.py:156-178 | on that line the pass writes `00:00:10,000 00:00:25,000 00:00:17,000 00:00:25,000`, and a second pass writes 10 50 42 50 |
| Scan.MatchPositionsSameShape | whisper_transcriber.py:149-157 | two texts whose characters fall in the same classes (digit, colon, separator, other) at every position have the same match positions |
| Scan.MatchPositionsSeparated | whisper_transcriber.py:157 | the match positions lie inside the text and are at least a token's length apart |
| Scan.SpliceAllShape | whisper_transcriber.py:157-175 | rewriting each match where it was found to a token keeps the class of every character |
| Scan.SpliceAllPlaces | whisper_transcriber.py:157-175 | rewriting each match where it was found keeps the length and puts the `k`-th replacement at the `k`-th match position |
| Scan.SpliceAllFound | whisper_transcriber.py:157-175 | reading back a text whose matches were rewritten in place to tokens finds exactly those tokens, in order |
| Stitcher.AdjustedAppend | whisper_transcriber.py:158-173 | the adjusted stamps of two runs of tokens are those of the first followed by those of the second, started from the counters the first leaves |
| Stitcher.AdjustedAt | whisper_transcriber.py:167-173 | the `k`-th adjusted stamp is the `k`-th token shifted by the offset in force after it |
| Stitcher.AdjustedOrdered | whisper_transcriber.py:167-173 | the adjusted stamps read as non-decreasing seconds |
| Stitcher.StitchAtMatchesCounters | whisper_transcriber.py:156-176 | the corrected pass computes the same counters as the pass as written, and keeps one output line per input line |
| Stitcher.StitchAtMatchesTrace | whisper_transcriber.py:156-178 | when every adjusted stamp is a token, reading the corrected output back finds exactly the adjusted stamps, in order |
| Stitcher.StitchAtMatchesNonDecreasing | whisper_transcriber.py:146-180 | below 100 hours, the stamps the corrected pass writes are the adjusted stamps and, read back in order, never decrease |
| Stitcher.AdjustedOfCollision | whisper_transcriber.py:167-173 | on a line meeting the collision conditions the adjusted stamps are `a d e f` |
| Stitcher.CorrectedLine | whisper_transcriber.py:156-178 | on a line of four stamps the corrected pass writes exactly their adjusted stamps |
| Stitcher.CorrectedCollision | whisper_transcriber.py:156-178 | on a line where the pass as written leaves `a f e f`, the corrected pass leaves `a d e f` |
| Stitcher.CorrectedInstance | whisper_transcriber.py:156-178 | on the line 10 5 7 15 the corrected pass writes 10 15 17 25 |
| Stitcher.ResetAddsLastValueSeen | whisper_transcriber.py:170-173 | after a chunk ending at `00:29:58`, `00:00:02` becomes `00:30:00,000`: the offset added is the last value seen |
| TextLines.LineEnd | whisper_transcriber.py:154 | the first line ends just after the first newline, or at the end of the text |
| TextLines.SplitLines | whisper_transcriber.py:154 | joining the lines `readlines` returns gives back the file's text |
| TextLines.SplitLinesWellFormed | whisper_transcriber.py:154 | every line but the last ends with its only newline, and no line is empty |
| TextLines.SplitJoin | whisper_transcriber.py:194-196 | reading back the text written from well-formed lines returns those lines |
| TextLines.JoinAppend | whisper_transcriber.py:188 | writing two lists of lines writes their texts one after the other |
| TextLines.SplitLinesAppend | whisper_transcriber.py:188 | after a text ending in a newline, the lines of a concatenation are the lines of each part |
| NameOrder.LexLessIrreflexive | whisper_transcriber.py:186 | no name sorts before itself |
| NameOrder.LexLessAsymmetric | whisper_transcriber.py:186 | two names never sort before each other |
| NameOrder.LexLessTransitive | whisper_transcriber.py:186 | the name order is transitive |
| NameOrder.LexLessTotal | whisper_transcriber.py:186 | any two distinct names are ordered one way or the other |
| NameOrder.LexLessCommonPrefix | whisper_transcriber.py:186 | a shared prefix does not affect the order of two names |
| NameOrder.SortNames | whisper_transcriber.py:186 | `sorted()` returns a sorted permutation of its argument |
| NameOrder.SortedUnique | whisper_transcriber.py:186 | two sorted permutations of the same names are equal, so the sorted order is determined |
| NameOrder.SortOfSorted | whisper_transcriber.py:186 | sorting an already sorted list leaves it as is |
| NameOrder.SortPlacesBefore | whisper_transcriber.py:186 | a name that compares lower is placed before a higher one in the sorted list |
| ChunkPlan.LastIndex | whisper_transcriber.py:62 | the index of the last occurrence of a character, or -1 |
| ChunkPlan.StripExtension | whisper_transcriber.py:62 | `splitext(p)[0]` is a prefix of `p`, and what it removes starts with a dot and contains no other dot and no slash |
| ChunkPlan.StripKnownExtension | whisper_transcriber.py:62 | a path ending in a dotted stem and a dot-free extension loses exactly the extension |
| ChunkPlan.TranscriptList | whisper_transcriber.py:221-222 | the transcript list has one `_transcription.txt` name per part, in part order |
| ChunkPlan.PartNamesDistinct | whisper_transcriber.py:65 | different parts get different file names |
| ChunkPlan.TranscriptOfPart | whisper_transcriber.py:83 | part `i`'s transcript is named `<base>_part<i+1>_16khz_transcription.txt` |
| ChunkPlan.RangeCount | whisper_transcriber.py:64 | `range(0, d, 1800)` has the least count whose multiple of 1800 reaches `d` |
| ChunkPlan.RangeCountUnique | whisper_transcriber.py:64 | that count is the only one with the ceiling property |
| ChunkPlan.SplitAudio | whisper_transcriber.py:54-79 | up to 1800 seconds the input is the only part; beyond that each cut starts at its multiple of 1800, lasts 1800 seconds, and part `i` is named `<base>_part<i+1>_16khz.wav` |
| ChunkPlan.PlanContiguous | whisper_transcriber.py:64-70 | each piece begins where the previous one ends, the first at 0 and the last at the end of the recording |
| ChunkPlan.PlanLength | whisper_transcriber.py:64-70 | the pieces' lengths add up to the duration |
| ChunkPlan.PlanPartition | whisper_transcriber.py:64-70 | every instant of the recording lies in exactly one piece, the one numbered `t / 1800` |
| ChunkPlan.ShortSplitSortsInChunkOrder | whisper_transcriber.py:186 | with at most nine parts `sorted()` keeps the transcripts in chunk order |
| ChunkPlan.SmallPartsOrdered | whisper_transcriber.py:186 | among the first nine parts, an earlier part's transcript sorts first |
| ChunkPlan.TenthBeforeSecond | whisper_transcriber.py:186 | part 10's transcript sorts before part 2's |
| ChunkPlan.TenthBeforeFirst | whisper_transcriber.py:186 | part 10's transcript sorts before part 1's: after the shared `_part1`, its `'0'` is below the `'_'` that follows in part 1's name |
| ChunkPlan.LongSplitPutsTenthBeforeFirst | whisper_transcriber.py:186 | with ten or more parts `sorted()` places part 10's transcript before part 1's, so the merged transcript does not start with the first part |
| ChunkPlan.LongSplitSortsOutOfChunkOrder | whisper_transcriber.py:186 | with ten or more parts `sorted()` reorders the transcripts and places part 10 before part 2 |
| ChunkPlan.InvertedPair | whisper_transcriber.py:186 | a pair out of order in a list makes `sorted()` differ from it and swaps the pair |
| ChunkPlan.TenChunksPastNineHalfHours | whisper_transcriber.py:64 | there are ten or more parts iff the recording exceeds 16200 seconds |
| ChunkPlan.ConvertedShape | whisper_transcriber.py:29 | the converted file's root is the input's root followed by `_16khz` |
| ChunkPlan.PartTranscriptNotFinal | whisper_transcriber.py:226 | no part's transcript has the final transcript's name |
| ChunkPlan.SingleTranscriptNotFinal | whisper_transcriber.py:226 | an unsplit file's transcript does not have the final transcript's name |
| ChunkPlan.FinalTranscriptNotAChunk | whisper_transcriber.py:214-227 | the final transcript's name is never among the transcripts being merged |
| TranscriptMerge.FileSystem.constructor | whisper_transcriber.py:182 | the file system holds the given files |
| TranscriptMerge.FileSystem.ReadLines | whisper_transcriber.py:153-154 | reading succeeds iff the file exists, and then returns well-formed lines that join to its text |
| TranscriptMerge.FileSystem.WriteLines | whisper_transcriber.py:195-196 | opening for writing and writing lines replaces the file with the lines' text |
| TranscriptMerge.FileSystem.AppendLines | whisper_transcriber.py:188 | writing more lines to the open file appends their text |
| TranscriptMerge.FileSystem.Remove | whisper_transcriber.py:192 | removal succeeds iff the file exists, and removes it and nothing else |
| TranscriptMerge.MergeInOrder | whisper_transcriber.py:182-196 | the three phases, gathering, removal and stitching, leave the outcome and files given by the merge specification for the given order |
| TranscriptMerge.WriteGathered | whisper_transcriber.py:185-188 | the final file holds each transcript followed by a newline, up to the first transcript that cannot be opened, which is reported |
| TranscriptMerge.RemoveListed | whisper_transcriber.py:191-192 | the transcripts are deleted in list order up to the first that is missing, which is reported |
| TranscriptMerge.MergeTranscripts | whisper_transcriber.py:182-196 | the merge as written: transcripts concatenated in `sorted()` order |
| TranscriptMerge.MergeTranscriptsInChunkOrder | whisper_transcriber.py:182-196 | the corrected merge: transcripts concatenated in the order the parts were produced |
| TranscriptMerge.RemoveAllKeeps | whisper_transcriber.py:191-192 | deleting the transcripts leaves any other file exactly as it was |
| TranscriptMerge.RemoveAllSucceeds | whisper_transcriber.py:191-192 | the deletions all succeed iff every transcript exists and none is listed twice, and then exactly the transcripts are gone |
| TranscriptMerge.GatherCompletes | whisper_transcriber.py:186-188 | gathering reaches the end iff every transcript exists |
| TranscriptMerge.GatherStops | whisper_transcriber.py:186-188 | gathering stops at the first missing transcript, with the text of those before it |
| TranscriptMerge.GatherLines | whisper_transcriber.py:186-194 | the gathered file reads back as each transcript's lines followed by the appended newline's line, chunk after chunk |
| TranscriptMerge.BlankLineAfter | whisper_transcriber.py:188 | after a transcript that ends in a newline, the appended newline reads back as one empty line |
| TranscriptMerge.ChunkLinesInOrder | whisper_transcriber.py:186-188 | the lines of transcript `k` come after those of every earlier transcript and before those of every later one |
| TranscriptMerge.MergeSucceeds | whisper_transcriber.py:182-196 | the merge succeeds iff every transcript exists and no transcript is listed twice, whatever the order |
| TranscriptMerge.MergedState | whisper_transcriber.py:182-196 | after a successful merge the transcripts are gone, every other file except the final one is untouched, and the final file is the stitch of the concatenated transcripts' lines |
| TranscriptMerge.MergeStopsAtMissing | whisper_transcriber.py:185-188 | a missing transcript aborts the merge, leaving the partial final file and every transcript in place |
| TranscriptMerge.ChunkOrderMerge | whisper_transcriber.py:182-196 | merging in chunk order puts part `k`'s lines between the earlier and the later parts' lines before stitching |

## Left out

- The user interface is not modelled: the Tk dialogs, `select_file`, `main`'s prompts
  and `highlight_finder` (whisper_transcriber.py:16-25, 199-232).
- The ffmpeg calls in `convert_to_wav` and `split_audio` are not modelled. A cut is
  modelled as its start and length. Where a piece ends is stated under the assumption
  that ffmpeg stops at the end of the recording.
- `get_audio_duration` parses ffmpeg's output with floats. It becomes the `duration`
  parameter of `ChunkPlan.SplitAudio`.
- `transcribe`, `get_whisper_pids` and `is_process_running` are not modelled. They
  start processes, poll them and sleep. Only the transcript name they return is
  modelled (`ChunkPlan.TranscriptName`).
- The deletion of the converted file after splitting (line 77) is not modelled, and
  neither is the deletion of each part after transcription (line 223). These files are
  not among the files the merge touches.
- `shift_timestamp`'s third branch, for a stamp without a separator (lines 134-135), is
  not modelled. The stitcher only passes it regex matches, and every match has a
  separator.
- Seconds and milliseconds are parsed as floats. Because the pattern admits only
  digits, they are modelled as integers, and `round(ms)` is the identity.
- `\d` also matches non-ASCII decimal digits in Python. The model accepts only `0`-`9`.
- Text-mode newline translation (`\r\n`) and encodings are not modelled. A file's
  content is its characters, and `readlines` splits after `'\n'`.
- `AdjustTranscriptTimestamps` takes the file's lines rather than a file name. The merge
  reads and writes the file around it through `FileSystem`.
- `TranscriptMerge.MergeInOrder` requires the final transcript's name to differ from
  every transcript's. `ChunkPlan.FinalTranscriptNotAChunk` proves the program always
  calls it that way. Otherwise the result would depend on when Python flushes its write
  buffer.
- On the exception path the model keeps exactly the text appended before the missing
  file. Python's buffering of that partial text is not modelled.
- `Timestamp.ShiftCompose` is stated only when the first shift's total is non-negative,
  because a negative total renders with a minus sign that is not a stamp.
- `Stitcher.StitchIdempotent` and `Stitcher.StitchSingleChunk` are stated only for a
  single chunk (`Stitcher.SingleChunk`): no line holds overlapping token shapes
  (`NoOverlappingTokens`), every token's minutes and seconds are below 60
  (`AllInRange`; `00:75:00.250` is rewritten to `01:15:00,250`), and the token values
  never decrease. A stitched transcript with a reset is not covered. The pass is not
  idempotent in general:
  - a stamp shifted to 100 hours or more is read back from its second digit
    (`Scan.HundredHoursReadFromSecondDigit`), which registers as a reset;
  - on a line with several stamps, `replace` can rewrite an earlier stamp again and leave
    a drop within the line (`Stitcher.ReplaceRewritesEarlierStamp`);
  - with overlapping token shapes, `findall` and `replace` can disagree on what they
    rewrite.
- `Stitcher.Stitch`, and through it the merge, keeps the pass as written, with
  `replace` at line 175. The pass that rewrites each match where it was found
  (`Stitcher.StitchAtMatches`) is the corrected behaviour and is not used by the merge.
- `Stitcher.StitchAtMatchesNonDecreasing` is stated only while every adjusted time is
  below 100 hours, because a longer stamp is not read back as one token
  (`Scan.HundredHoursReadFromSecondDigit`).

## Findings

| source | as written | input that shows it | evidently intended | confidence | as-written member | corrected member |
|---|---|---|---|---|---|---|
| whisper_transcriber.py:186 | the transcripts are concatenated in `sorted()` order, which compares names character by character | a recording longer than 16200 seconds (ten or more parts): after the shared `x_16khz_part1`, `x_16khz_part10_16khz_transcription.txt` has `'0'` where `x_16khz_part1_16khz_transcription.txt` has `'_'`, so parts 10 and up sort, and are stitched, before part 1 (with exactly ten parts the order is 10, 1, 2, …, 9) | concatenate the transcripts in the order of the parts | not executed | TranscriptMerge.MergeTranscripts, ChunkPlan.LongSplitPutsTenthBeforeFirst, ChunkPlan.LongSplitSortsOutOfChunkOrder | TranscriptMerge.MergeTranscriptsInChunkOrder |
| whisper_transcriber.py:175 | `line.replace(match, adjusted_time)` rewrites every copy of the match in the line, including text an earlier match of the same line was just rewritten to | one line holding the comma stamps of 10, 5, 7 and 15 seconds: the pass writes 10 25 17 25 (the second stamp is rewritten twice), and a second pass writes 10 50 42 50 | rewrite each match where it was found, so the written times never decrease | not executed | Stitcher.CollisionInstance, Stitcher.ReplaceRewritesEarlierStamp | Stitcher.StitchAtMatches, Stitcher.StitchAtMatchesNonDecreasing, Stitcher.CorrectedInstance |
