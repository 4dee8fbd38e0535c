# clipify, modelled in Dafny

clipify turns a long video into short clips. `main_workflow` (main.py) runs seven stages:

1. It fetches the input: a URL is downloaded, a local file is copied into a temporary directory.
2. It extracts the audio with an ffmpeg shell command.
3. It transcribes the audio with Whisper.
4. It selects the most important transcript segments:
   - with a part-of-speech tagger, counting nouns, proper nouns and verbs;
   - or, when the tagger model cannot be loaded, by the length of the text.
5. It cuts one raw clip per selected segment with ffmpeg.
6. It converts each raw clip to the target aspect ratio by a centred crop and optionally burns in captions taken from the transcript.
7. It reports the final clip paths and cleans up.

This project models the decision logic of stages 1 to 6 and the pure routines it relies on:

- `format_time` and `convert_time_to_seconds` (clipify/core/utils.py);
- both segment selectors and the transcript windower (clipify/core/content_analysis.py);
- aspect-ratio parsing, crop planning, the ffmpeg argument list and the caption filter (clipify/core/video_processing.py);
- the `.wav` output path, the audio shell command and the transcription guard (clipify/core/audio_processing.py).

Every external tool becomes a parameter that says what the tool answers or whether it succeeds: the file system, yt-dlp, ffmpeg, Whisper, spaCy and moviepy. In the pipeline these parameters are the fields of `Pipeline.Environment`.

Times are whole seconds (`int`).

## Modules

- `wrappers.dfy` (`Wrappers`): `Option` and `Result`.
- `text.dfy` (`Text`): the Python string operations the code uses: `strip`, `lower`, `split`, `str(int)`, `int(str)`.
- `paths.dfy` (`Paths`): `os.path.join`, `basename` and `splitext`.
- `transcript.dfy` (`Transcript`): the Whisper result. A missing dictionary key is `None`.
- `time_format.dfy` (`TimeFormat`): clipify/core/utils.py.
- `ranking.dfy` (`Ranking`): the stable sort, `[:n]` slicing and top-k selection shared by both selectors.
- `content_analysis.dfy` (`ContentAnalysis`): the two selectors.
- `windowing.dfy` (`Windowing`): `split_transcript_by_timestamps`.
- `video_processing.dfy` (`VideoProcessing`) and `audio_processing.dfy` (`AudioProcessing`): the media wrappers.
- `pipeline.dfy` (`Pipeline`): `main_workflow`.

Loops in the source appear here as methods with loop invariants. Each such method is proved equal to a function, and the function's properties are proved as lemmas. Clip records are values: no other reference observes the dictionary updates in main.py.

The tests say `format_time(3600)` is `"60:00"` and `format_time(3665)` is `"61:05"`. The code gives `"1:00:00"` and `"1:01:05"`. The model follows the code, and `TimeFormat.FormatExamples` proves the code's values.

## Model

| member | source | states |
|---|---|---|
| Text.Strip | clipify/core/content_analysis.py:142 | `str.strip()`: the result is empty exactly when the input is all whitespace; otherwise it starts and ends with a non-space character |
| Text.TrimStartSpec | clipify/core/content_analysis.py:142 | trimming the front removes exactly a leading run of whitespace: the result is a suffix of the input that is empty or starts with a non-space |
| Text.TrimEndSpec | clipify/core/content_analysis.py:142 | trimming the end removes exactly a trailing run of whitespace: the result is a prefix of the input that is empty or ends with a non-space |
| Text.StripIdempotent | clipify/core/content_analysis.py:98 | stripping a stripped text changes nothing |
| Text.Split | clipify/core/utils.py:84 | `str.split(':')` gives at least one part, no part contains the separator, and joining the parts with the separator gives the input back |
| Text.SplitJoin | clipify/core/utils.py:84 | splitting parts joined by a separator they do not contain gives back exactly those parts |
| Text.ParseIntOfIntToString | clipify/core/utils.py:86 | `int(str(i)) == i` for every integer, negative ones included |
| Text.ParseDigits | clipify/core/utils.py:89 | a non-empty string of ASCII digits parses to its decimal value |
| Text.Lower | clipify/core/audio_processing.py:20 | ASCII lower-casing: maps each character and keeps the length |
| Text.StripChar | main.py:145 | `strip('_')` returns a piece of the input with no `_` at either end |
| Paths.Join | main.py:147 | `os.path.join`: the result ends with the second component, and an absolute second component replaces the first |
| Paths.Basename | main.py:30 | `os.path.basename`: the result is a suffix without `/`, and a `/` precedes it whenever it is shorter than the path |
| Paths.SplitExt | clipify/core/audio_processing.py:23 | `os.path.splitext`: root and extension concatenate to the path; the extension is empty exactly when the last component has none, and otherwise is a `.` followed by no further `.` or `/` |
| TimeFormat.Pad2 | clipify/core/utils.py:76-77 | `{n:02d}` is a digit string whose value is `n`, two digits long below 100 |
| TimeFormat.FormatTimeFields | clipify/core/utils.py:71-77 | the `:`-fields of `format_time(s)` are `[hours, MM, SS]` from 3600 s onwards and `[minutes, SS]` below; minutes and seconds come from `% 60`, so they lie in [0, 59] for every input |
| TimeFormat.ClockArithmetic | clipify/core/utils.py:71-74 | the hour, minute and second fields add back up to the input, and below 3600 the minute field is `s // 60` |
| TimeFormat.ConvertTimeToSeconds | clipify/core/utils.py:84-92 | the result is the wrong-part-count error exactly when the string does not split into two or three parts |
| TimeFormat.ConvertParts | clipify/core/utils.py:85-92 | a wrong part count is reported exactly when there are neither two nor three parts, and a result is returned only when every part is an integer |
| TimeFormat.ConvertThree | clipify/core/utils.py:85-87 | three integer parts give `h*3600 + m*60 + s` |
| TimeFormat.ConvertTwo | clipify/core/utils.py:88-90 | two integer parts give `m*60 + s` |
| TimeFormat.RoundTrip | clipify/core/utils.py:69-92 | `convert_time_to_seconds(format_time(n)) == n` for every natural `n` |
| TimeFormat.FormatShort | clipify/core/utils.py:77 | below an hour the output is `M:SS` |
| TimeFormat.FormatLong | clipify/core/utils.py:75-76 | from an hour on the output is `H:MM:SS` |
| TimeFormat.FormatExamples | clipify/core/utils.py:75-77 | 65 s gives `1:05`, 3600 s gives `1:00:00` and 3665 s gives `1:01:05` |
| TimeFormat.NoColonRejected | clipify/core/utils.py:91-92 | a string without `:` (such as `invalid`) is rejected for its part count |
| Ranking.Insert | clipify/core/content_analysis.py:105 | one insertion step of the stable sort: one more element, the same multiset plus the inserted one |
| Ranking.InsertSorted | clipify/core/content_analysis.py:105 | inserting into a sorted list keeps it sorted by the key |
| Ranking.SortBy | clipify/core/content_analysis.py:105 | `list.sort(key=…)`: a permutation of the input (same multiset) sorted by the key |
| Ranking.SortByStable | clipify/core/content_analysis.py:171 | stability: for an input in position order, equal keys stay in input order, and `reverse=True` does not reverse ties |
| Ranking.SliceTo | clipify/core/content_analysis.py:106 | Python's `s[:n]`, negative `n` included: a prefix whose length is `min(n, len)` for `n >= 0` and `max(len + n, 0)` otherwise |
| Ranking.SelectTop | clipify/core/content_analysis.py:171-177 | sort by score, slice, sort by start: the result has the sliced length, is in chronological order and is a sub-multiset of the candidates |
| Ranking.TopOptimal | clipify/core/content_analysis.py:171-174 | a candidate left out never scores higher than a selected one, and on equal scores it comes later in the input |
| Ranking.SelectTopContents | clipify/core/content_analysis.py:171-177 | the selection holds exactly the candidates of the score-ranked prefix |
| Ranking.Project | clipify/core/content_analysis.py:179-180 | the comprehension keeps only `text`, `start` and `end` of each record, in order |
| ContentAnalysis.ProjectSorted | clipify/core/content_analysis.py:177-180 | projecting a start-sorted candidate list keeps it in chronological order |
| ContentAnalysis.ProjectMember | clipify/core/content_analysis.py:180 | every projected segment is the text and times of some candidate |
| ContentAnalysis.CountBasicEligible | clipify/core/content_analysis.py:94-96 | the eligible segments are at most all of them |
| ContentAnalysis.BasicCandidates | clipify/core/content_analysis.py:93-103 | the `valid_segments` list is at most as long as the input |
| ContentAnalysis.BasicCandidatesSpec | clipify/core/content_analysis.py:93-103 | the loop raises `KeyError` exactly when a segment that passes the duration and text test lacks `start` or `end`; otherwise it holds, in input order, exactly one record per eligible segment |
| ContentAnalysis.BasicSelection | clipify/core/content_analysis.py:85-108 | the basic selector fails exactly when building `valid_segments` fails |
| ContentAnalysis.BasicSelectionSpec | clipify/core/content_analysis.py:90-108 | the basic selector raises exactly when an eligible segment lacks a time; otherwise it returns `[:num]` of the eligible segments, in chronological order, each an eligible segment's stripped text and times |
| ContentAnalysis.BasicTopOptimal | clipify/core/content_analysis.py:105-106 | an eligible segment left out has a shorter stripped text than every chosen one, or an equally long one and a later position |
| ContentAnalysis.FindImportantSegmentsBasic | clipify/core/content_analysis.py:85-108 | the loop and the sorts compute `BasicSelection` |
| ContentAnalysis.ContentTagCount | clipify/core/content_analysis.py:151 | the score counts NOUN, PROPN and VERB tags: it is 0 exactly when there are none, and it equals the tag count exactly when all are such tags |
| ContentAnalysis.CountTaggedEligible | clipify/core/content_analysis.py:141-164 | the long-enough scorable segments are at most all of them |
| ContentAnalysis.ScoredSegments | clipify/core/content_analysis.py:140-159 | the `scored_segments` list is at most as long as the input |
| ContentAnalysis.ScoredSegmentsSpec | clipify/core/content_analysis.py:140-159 | `scored_segments` holds, in input order, exactly one scored record per segment with non-blank text and both times |
| ContentAnalysis.DurationFilter | clipify/core/content_analysis.py:162-164 | the comprehension keeps exactly the records lasting at least the minimum |
| ContentAnalysis.DurationFilterIncreasing | clipify/core/content_analysis.py:162-164 | the comprehension keeps the input order |
| ContentAnalysis.TaggedCandidates | clipify/core/content_analysis.py:140-164 | one candidate per long-enough scorable segment |
| ContentAnalysis.TaggedCandidatesSpec | clipify/core/content_analysis.py:140-164 | the ranked records are exactly those of the long-enough scorable segments, in input order |
| ContentAnalysis.TaggedCount | clipify/core/content_analysis.py:140-164 | filtering the scored list leaves exactly as many records as there are long-enough scorable segments |
| ContentAnalysis.TaggedSelection | clipify/core/content_analysis.py:137-180 | the tagger path returns `min(num, eligible)` segments for `num >= 0` (Python's `[:num]` in general) |
| ContentAnalysis.TaggedSelectionSpec | clipify/core/content_analysis.py:137-180 | no eligible segment gives `[]`; the result is in chronological order, and each element is a long-enough scorable segment's stripped text and times |
| ContentAnalysis.TaggedTopOptimal | clipify/core/content_analysis.py:170-174 | a long-enough scorable segment left out has fewer content tags than every chosen one, or as many and a later position |
| ContentAnalysis.FindImportantSegments | clipify/core/content_analysis.py:111-180 | when the model fails to load (`OSError` or another exception), the result is exactly the basic selector on the same arguments; otherwise it is the tagger path |
| Windowing.StepCloses | clipify/core/content_analysis.py:48-59 | a window is emitted only when the gap or interval test fires with a non-empty buffer; it holds the buffered text; the next window starts at the fragment's start; a fragment that does not close joins the buffer |
| Windowing.WordFragments | clipify/core/content_analysis.py:39-42 | one fragment per word |
| Windowing.Windows | clipify/core/content_analysis.py:21-22 | a missing result or one without `segments` gives `[]` |
| Windowing.StepInv | clipify/core/content_analysis.py:47-72 | one step of the loop keeps the invariant: window texts followed by the buffer concatenate to all fragment texts so far; window starts and ends come from fragments; the buffer is non-empty after the first fragment |
| Windowing.CloseInv | clipify/core/content_analysis.py:48-56 | closing a window with a non-empty buffer keeps the invariant |
| Windowing.RestartInv | clipify/core/content_analysis.py:50-56 | closing with an empty buffer only restarts the window and keeps the invariant |
| Windowing.ExtendInv | clipify/core/content_analysis.py:58-59 | buffering a fragment keeps the invariant |
| Windowing.RunInv | clipify/core/content_analysis.py:24-72 | the invariant holds after any prefix of the fragments |
| Windowing.FlushInv | clipify/core/content_analysis.py:75-80 | the final flush emits the buffer: the window texts concatenate to all fragment texts, there are no windows exactly when there are no fragments, each window starts at the first time or at a fragment's start and ends at a fragment's end or start, and the last one ends at the last fragment's end |
| Windowing.SegmentWindowsSpec | clipify/core/content_analysis.py:24-80 | text conservation: the window texts concatenate to the fragment texts (words where present, else segment text) in order; there are no windows exactly when there are no fragments; each window starts at the first segment or at a fragment's start; the last ends at the last fragment's end |
| Windowing.RunAppend | clipify/core/content_analysis.py:24-72 | the fold over two consecutive fragment lists is the fold over the first, continued over the second |
| Windowing.WindowWords | clipify/core/content_analysis.py:38-59 | the inner loop over a segment's words computes the fold over its word fragments |
| Windowing.WindowSegment | clipify/core/content_analysis.py:24-72 | one iteration of the outer loop computes the fold over that segment's fragments |
| Windowing.SplitTranscriptByTimestamps | clipify/core/content_analysis.py:14-82 | the loops compute `Windows`, with `format_time` available |
| Windowing.RunAsWrittenAgrees | clipify/core/content_analysis.py:48-56 | while no window has been emitted, the as-written fold agrees with the intended one |
| Windowing.AsWrittenNeverWindows | clipify/core/content_analysis.py:50-54 | as written, the function returns no window at all, and it raises as soon as there is any fragment |
| Windowing.LabelExample | clipify/core/content_analysis.py:52 | the label of the window from 0 s to 1 s is `0:00 - 0:01` |
| Windowing.AsWrittenCounterexample | clipify/core/content_analysis.py:51-52 | one segment `hi` from 0 to 1 s: as written the call raises, while the intended function returns the window `0:00 - 0:01` / `hi` |
| VideoProcessing.ParseAspectRatio | clipify/core/video_processing.py:21-29 | the ratio is accepted exactly when the string splits on `:` into two integers that are both positive, and then it holds those integers |
| VideoProcessing.ParseAspectRatioString | clipify/core/video_processing.py:21-25 | every positive ratio written as `w:h` parses back to itself |
| VideoProcessing.CropSize | clipify/core/video_processing.py:43-48 | the crop never exceeds the frame |
| VideoProcessing.WideCropFits | clipify/core/video_processing.py:43-45 | for a wider source, `floor(h*ar_w/ar_h)` lies in [0, w] |
| VideoProcessing.TallCropFits | clipify/core/video_processing.py:46-48 | for a taller or equal source, `floor(w*ar_h/ar_w)` lies in [0, h] |
| VideoProcessing.CropSizeRatio | clipify/core/video_processing.py:43-48 | a wider source keeps its height and gets the floor of `h*ar_w/ar_h` as width; otherwise the width is kept and the height is the floor of `w*ar_h/ar_w` |
| VideoProcessing.PlanCrop | clipify/core/video_processing.py:41-55 | there is a crop exactly when the height is positive and both computed dimensions are non-zero (a zero height divides by zero, which line 71 catches), and it has those dimensions |
| VideoProcessing.CropInsideFrame | clipify/core/video_processing.py:55 | the crop is a non-empty box centred at `(w/2, h/2)` and lies inside the frame |
| VideoProcessing.CropExample | clipify/core/video_processing.py:41-55 | 1920×1080 to 9:16 crops to 607×1080 centred at (960, 540) |
| VideoProcessing.ConvertVideoAspectRatio | clipify/core/video_processing.py:20-73 | the output path is returned exactly when the ratio parses, the input exists, the clip opens, the crop is non-empty and writing it succeeds; otherwise `None` |
| VideoProcessing.ExtractCommandArguments | clipify/core/video_processing.py:102-110 | the command is the eleven words `ffmpeg -i in -ss start -to end … out` |
| VideoProcessing.ExtractCommandTimes | clipify/core/video_processing.py:105-106 | the start and end words parse back to the times |
| VideoProcessing.ExtractVideoSegments | clipify/core/video_processing.py:86-126 | ffmpeg runs exactly when the input exists and the duration is positive, with exactly that command; the result is true exactly when it runs and succeeds |
| VideoProcessing.CaptionOf | clipify/core/video_processing.py:171-192 | a caption has non-empty text and a positive duration |
| VideoProcessing.Captions | clipify/core/video_processing.py:162-193 | at most one caption per segment, each non-empty with positive duration |
| VideoProcessing.CaptionsExactly | clipify/core/video_processing.py:163-193 | the captions are exactly those of the segments with non-blank text, both times and a positive duration, each starting at its `start` and lasting `end - start` |
| VideoProcessing.CaptionsEmpty | clipify/core/video_processing.py:195-198 | there are no captions exactly when no segment qualifies |
| VideoProcessing.CaptionResult | clipify/core/video_processing.py:156-217 | a video is written only if the input exists and there are captions, and it holds exactly those captions; without captions nothing is written |
| VideoProcessing.AddCaptionsToVideo | clipify/core/video_processing.py:156-217 | the loop and the decisions after it compute `CaptionResult` |
| AudioProcessing.LowerAppend | clipify/core/audio_processing.py:20 | lower-casing distributes over concatenation |
| AudioProcessing.ForceWav | clipify/core/audio_processing.py:20-23 | the forced path always ends in `.wav`, in any letter case |
| AudioProcessing.ForceWavSpec | clipify/core/audio_processing.py:20-23 | a path ending in `.wav` in any letter case is kept exactly; any other path becomes its `splitext` root plus `.wav`; forcing twice is forcing once |
| AudioProcessing.WavKept | clipify/core/audio_processing.py:20 | a path spelled with a `.wav` ending is kept |
| AudioProcessing.EscapeQuotes | clipify/core/audio_processing.py:16-17 | `replace('"', '\\"')` never shortens the text, and the escaped text does not open with a bare quote |
| AudioProcessing.UnescapeEscapeQuotes | clipify/core/audio_processing.py:16-17 | undoing the escaping gives the path back |
| AudioProcessing.QuotesEscaped | clipify/core/audio_processing.py:16-17 | every `"` of the escaped text has a backslash before it |
| AudioProcessing.ReadDoubleQuoted | clipify/core/audio_processing.py:26 | how `sh` reads the rest of a double-quoted word: it consumes at least the closing quote and no more than the input |
| AudioProcessing.ReadQuoted | clipify/core/audio_processing.py:26 | a double-quoted word takes at least its two quotes |
| AudioProcessing.ReadEscaped | clipify/core/audio_processing.py:26 | the shell reads a shell-escaped text followed by a closing quote as exactly that text |
| AudioProcessing.QuoteRoundTrip | clipify/core/audio_processing.py:26 | the shell reads a quoted, shell-escaped path back as the path, whatever follows it |
| AudioProcessing.EscapingsAgree | clipify/core/audio_processing.py:16-17 | for a path without backslash, `$` or backquote, the code's escaping equals the shell-safe one |
| AudioProcessing.AudioCommandsAgree | clipify/core/audio_processing.py:16-26 | for video and audio paths without backslash, `$` or backquote, the command as written is the shell-safe command |
| AudioProcessing.AudioCommandWords | clipify/core/audio_processing.py:26 | the shell reads the command as the fixed `ffmpeg -i` words, the video path, the fixed options, the audio path and `-y` |
| AudioProcessing.EscapedQuoteFirst | clipify/core/audio_processing.py:26 | a quoted word opening with `\"` reads as a text starting with `"` |
| AudioProcessing.AsWrittenMisquotes | clipify/core/audio_processing.py:16-26 | as written, the video path `\` is not read back as itself: the shell sees an unclosed word or one starting with `"` |
| AudioProcessing.ExtractAudioFromVideo | clipify/core/audio_processing.py:5-37 | with shell-safe quoting: the result is the `.wav`-forced path, which ends in `.wav`, exactly when the shell command succeeds, and `None` otherwise |
| AudioProcessing.ExtractAudioFromVideoAsWritten | clipify/core/audio_processing.py:5-37 | the same decisions with the command as written |
| AudioProcessing.TranscribeAudioWithWhisper | clipify/core/audio_processing.py:39-50 | a missing file gives `None` without loading the model; otherwise the model is loaded and the result is Whisper's, `None` when it raises |
| Pipeline.HandleInput | main.py:30-62 | stage 1 ends the run exactly on a failed download (URL input) or a missing local file, and otherwise only on a failed copy or an unavailable video; on success the video path is a non-empty existing file, for a local input the copy in `.clipify_temp` |
| Pipeline.AudioPathKept | main.py:71-74 | the audio path built from the video name already ends in `.wav`, so the extractor keeps it |
| Pipeline.Selection | main.py:106-125 | no `segments` or an empty list gives no selection, and so does an exception in the basic selector |
| Pipeline.Sanitize | main.py:145 | every character is kept if alphanumeric and replaced by `_` otherwise |
| Pipeline.NamePrefixSpec | main.py:145 | the name prefix has at most 20 characters, each alphanumeric or `_`, and neither begins nor ends with `_` |
| Pipeline.NoSlashInName | main.py:145-146 | a raw clip file name `segment_{i+1}_{prefix}_{start}s-{end}s.mp4` has no `/` |
| Pipeline.BasenameOfJoin | main.py:190-192 | the base name of a file joined to a directory is the file name |
| Pipeline.SplitExtMp4 | main.py:192 | `splitext` of `stem.mp4` is `(stem, .mp4)` |
| Pipeline.ClipStemOfRawPath | main.py:192 | the stem stage 6 reads back from a raw clip path is the one stage 5 wrote |
| Pipeline.RawRecords | main.py:139-161 | the record of selection `i` carries that selected segment and its raw clip path |
| Pipeline.Successes | main.py:152-159 | the outcome of selection `i` is whether its extraction succeeds |
| Pipeline.KeepWhereSurvivors | main.py:159-161 | what is kept is an order-preserving subsequence, at exactly the positions where the test held |
| Pipeline.Extracted | main.py:139-171 | stage 5 keeps at most the selected segments |
| Pipeline.ExtractedSurvivors | main.py:139-171 | the stage-5 survivors are exactly the selected segments whose extraction returned true, in order, each tagged with its raw clip path |
| Pipeline.ExtractClips | main.py:139-171 | the stage-5 loop computes `Extracted` |
| Pipeline.Relevant | main.py:216-219 | relevant segments overlap the clip strictly and are at most all segments |
| Pipeline.RelevantExactly | main.py:216-219 | the filter raises exactly when it meets a segment missing a time it tests; otherwise it keeps exactly the segments overlapping the clip strictly |
| Pipeline.Adjusted | main.py:221-238 | at most one adjusted caption per relevant segment |
| Pipeline.RebasedWellTimed | main.py:225-238 | a kept caption has non-blank text, `start = max(0, ws.start - clip.start)`, `end = ws.end - clip.start` and `0 <= start < end` |
| Pipeline.AdjustedWellTimed | main.py:221-238 | every adjusted caption is well timed, and there are none exactly when no relevant segment has non-blank text and a positive rebased span |
| Pipeline.CaptionsKeepAll | main.py:246-250 | `add_captions_to_video` turns every adjusted caption into a caption |
| Pipeline.AdjustCaptions | main.py:221-238 | the re-basing loop computes `Adjusted` |
| Pipeline.OutputPaths | main.py:195-211 | the formatted and captioned paths of a clip differ and both end in `.mp4` |
| Pipeline.Converted | main.py:195-205 | a successful conversion returns the formatted path |
| Pipeline.FinishCases | main.py:184-270 | a record is dropped exactly when its raw path is empty or missing or conversion fails; it crashes exactly when captioning is on and the overlap filter raises; its final path is the captioned one exactly when captioning is on, captions remain and the captioned file exists, and otherwise the formatted one; a final path is a non-empty `.mp4` path |
| Pipeline.FinishRecordCases | main.py:184-270 | the same for the record's own conversion: dropped exactly on a missing raw clip or failed conversion; the final path is the formatted or the captioned one, non-empty, `.mp4` |
| Pipeline.FinishClip | main.py:184-272 | one iteration of the stage-6 loop computes `FinishRecord` |
| Pipeline.CaptionClip | main.py:209-268 | the captioning branch computes the captioned outcome |
| Pipeline.OutcomesAt | main.py:184-272 | the outcome list holds each record's own outcome at its position |
| Pipeline.OutcomesNamed | main.py:270-276 | every finished record names a non-empty path |
| Pipeline.GatherCrashes | main.py:184-271 | stage 6 yields no list exactly when some record crashes |
| Pipeline.GatherSurvivors | main.py:184-271 | what stage 6 gathers is an order-preserving subsequence of its input, at exactly the finished records, each with its final path |
| Pipeline.ProcessedCrashes | main.py:184-271 | the stage-6 loop raises exactly when some record crashes, which happens only in its caption filter |
| Pipeline.ProcessedSurvivors | main.py:184-271 | the processed records are exactly the finished ones, in order, each carrying its own final path |
| Pipeline.FormatClips | main.py:173-275 | the stage-6 loop computes `Processed` |
| Pipeline.FinalPaths | main.py:276 | the final list has at most one path per processed record |
| Pipeline.FinalPathsAll | main.py:276 | when every record has a non-empty final path, the list has exactly those paths in order |
| Pipeline.ComposeSurvivors | main.py:139-276 | composing both filters: each final path comes from a distinct kept element of the stage-5 input, in input order, whose stage-6 record finished with that path |
| Pipeline.CompletedClips | main.py:139-276 | a completed run has at most one final path per selected segment; each belongs to a distinct selection, in selection order, whose extraction succeeded and whose record finished with exactly that path |
| Pipeline.ClipStages | main.py:104-276 | after transcription the run either crashes in stage 6 or completes |
| Pipeline.AfterInput | main.py:66-276 | after stage 1 the run ends in stage 2, stage 3 or stage 6, or completes |
| Pipeline.WorkflowInput | main.py:33-62 | the run stops for a failed download exactly when the input is a URL and the download yields nothing, and for a missing file exactly when it is local and does not exist |
| Pipeline.AudioStages | main.py:66-102 | the run ends in stage 2 exactly when the audio command, built and quoted as line 26 of clipify/core/audio_processing.py writes it, fails, and in stage 3 exactly when the audio file is missing, Whisper fails or its result has no `text` |
| Pipeline.NoSegmentsCompletes | main.py:106-133 | without transcript segments nothing is selected, and the run still completes, with no clips |
| Pipeline.MainWorkflow | main.py:16-276 | the workflow computes `Workflow`, whose stage 2 sends the audio command as written |

## Left out

- Floating point: times are whole seconds. The `:.0f` and `:.2f` formats in file names and messages (main.py:146, 149) are not modelled, and neither are `format_time`'s `int()` truncation of fractional seconds and float rounding in the crop.
- `download_youtube_video` (clipify/core/utils.py:6-67): the downloader is the oracle `Environment.download`.
- spaCy, Whisper, ffmpeg and moviepy internals. Each is an oracle: the tagger is a function from text to tags, and the others answer "succeeds or not" or "returns this".
- File system effects: `makedirs`, `print` logging, the argparse front end (main.py:346-359) and the stage-7 cleanup (main.py:308-337). File existence is one predicate that does not change during the run.
- `shutil.copy` (main.py:54) is the oracle `Environment.copy`; a copy that raises ends the run.
- The removal of the intermediate `_formatted` file (main.py:253-264): it does not change any final path.
- Caption styling (font, colours, position, text width; clipify/core/video_processing.py:175-192).
- Exceptions raised by moviepy outside the `try` of `add_captions_to_video`, such as opening the clip at clipify/core/video_processing.py:160. The model assumes the clip opens.
- Lines 44-45 of clipify/core/content_analysis.py cannot run: the window start is always set at line 30 first.
- Windowing.Windows: the window label is kept as its two times; `TimeLabel` renders it.
- Windowing.Windows: a segment missing `start`, `end` or `text` raises `KeyError`; a `words` entry always has its three keys.
- Transcript.Segment: a key present with the value `None` is not distinguished from a missing key.
- AudioProcessing.ReadDoubleQuoted: an unescaped `$` or backquote inside double quotes is not expanded; such a word reads as `None`.
- Text.ParseInt: models `int()` on ASCII digits with optional sign and surrounding whitespace. Underscores and non-ASCII digits are not modelled.
- Pipeline.Selection: an exception on the tagger path can come only from the tagger, which never raises here.
- Pipeline.Environment.fileExists: file existence is one static predicate, independent of the copy and write oracles: a successful write does not make its target exist, and an existing target is used even when the write failed (as main.py:250 does).
- Pipeline.Sanitize: `isalnum` is ASCII-only (`Text.IsAlnum`), so a letter such as `é`, which Python keeps in the clip name at main.py:145, becomes `_` here.
- Text.Lower: lower-casing is ASCII-only and one character to one; Python's `str.lower()` also maps other letters, and some (`İ`) to two code points. `AudioProcessing.ForceWav` inherits this.

## Findings

| source | as written | input that shows it | evidently intended | confidence | as-written member | corrected member |
|---|---|---|---|---|---|---|
| clipify/core/content_analysis.py:52 | `format_time` is called but never imported (line 4 is a comment), so emitting any window raises `NameError` | one segment `{"text": "hi", "start": 0, "end": 1}` | the window `0:00 - 0:01` with text `hi` | high, not executed | Windowing.WindowsAsWritten, Windowing.AsWrittenNeverWindows, Windowing.AsWrittenCounterexample | Windowing.Windows, Windowing.SplitTranscriptByTimestamps, Windowing.SegmentWindowsSpec |
| clipify/core/audio_processing.py:16-17 | only `"` is escaped inside the double-quoted shell words, but `sh` also treats `\`, `$` and backquote specially there | video path `\` (a lone backslash) | the shell reads back each path exactly | medium, not executed | AudioProcessing.AudioCommandAsWritten, AudioProcessing.AsWrittenMisquotes, AudioProcessing.ExtractAudioFromVideoAsWritten | AudioProcessing.AudioCommand, AudioProcessing.AudioCommandWords, AudioProcessing.QuoteRoundTrip, AudioProcessing.ExtractAudioFromVideo |

`Pipeline.Workflow` models main.py, which calls the extractor as written, so its stage 2 sends `AudioProcessing.AudioCommandAsWritten`. The corrected command is `AudioProcessing.AudioCommand`. `AudioProcessing.AudioCommandsAgree` states that the two are equal for paths without a backslash, `$` or backquote.
