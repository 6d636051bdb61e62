# Video subtitle generator: chunking, timeline reconciliation and SRT output

A Dafny model of the three pieces of logic in the video subtitle generator:

- **Chunk splitting** (`split_audio`, app/audio_extractor.py). A `while` loop walks the audio in
  steps of `length - overlap` milliseconds. It emits one chunk per start offset, and each chunk
  covers `[start, start + length)`, clamped to the end of the audio. The audio is represented by
  its length in milliseconds.
- **Timeline reconciliation** (the body of `process_video`, app/main.py lines 53–80). This step:
  - shifts every chunk-relative segment by `offset_ms / 1000` seconds;
  - gathers the segments in chunk order;
  - reports progress after each chunk;
  - optionally rewrites every text with a translator;
  - sorts the list by start time with Python's stable `sorted`.
- **SubRip output** (`format_timestamp` and `generate_srt`, app/subtitle_generator.py).
  - `format_timestamp` turns milliseconds into `HH:MM:SS,mmm` through chained `divmod`s.
  - `generate_srt` writes, for cue numbers 1, 2, … in input order, the number, the two timestamps
    around ` --> `, the stripped text and a blank line.

Modules, one per file:

- `Wrappers` holds `Option`.
- `Segments` holds the segment record. Times are exact `real` seconds.
- `AudioChunks` is `split_audio`. `SplitAudio` is a method with the source's loop, proved equal to
  the function `Chunks`.
- `Decimal` covers Python's `str(n)` and the `0<w>` format spec, with a parser that undoes them.
- `Subtitles` covers `str.strip`, `format_timestamp` with an independent clock decomposition and a
  parser, and `generate_srt` as a loop appending the three writes of each iteration to a string.
  That string is proved equal to the recursive `SrtText`.
- `Timeline` covers the shift, the gathering, the translation and the stable sort. `Reconcile` is a
  method with the source's nested loops, its in-place translation pass and its progress calls.
- `Pipeline` holds `process_video` end to end, with the chunk length and overlap of app/config.py.
- `SrtExamples` holds the timestamps of particular inputs.

The recogniser and the translator become inputs:

- `asr[k]` is the list of segments the recogniser returned for chunk `k`.
- `translate` is `None` when no target language is given, and `Some(f)` for a text function `f`.
  The progress callback becomes an out-parameter that lists the calls made, in order.

Points where the code behaves differently from a first reading of it:

- **Chunk offsets.** Chunking does not stop once less than one chunk length remains. The loop
  continues while the start lies before the end of the audio, so several trailing chunks can start
  inside the last `length` milliseconds, each clamped at the end.
- **Hours field.** HH:MM:SS,mmm is not made of fixed two-digit fields. The `02` format spec gives
  the hours *at least* two characters: 100 hours takes three, and a negative time shows a sign.
- **Timestamp arithmetic.** The milliseconds are not an integer. The code takes `divmod` of the
  (real) milliseconds by 1000 and then divides the whole seconds. `FormatTimestampIsClock` proves
  this is the decomposition of `floor(ms)`.
- **Translation order.** The texts are translated before the sort, not after it.
  `SortCommutesWithTranslation` proves the order does not matter.

## Model

| member | source | states |
|---|---|---|
| `AudioChunks.ChunkAt` | app/audio_extractor.py:36-46 | the chunk of loop iteration k: index k, start k * (length - overlap), end min(start + length, audio end) |
| `AudioChunks.Chunks` | app/audio_extractor.py:36-46 | the whole chunk list without the loop: ceil(audio / stride) chunks, chunk k being `ChunkAt(k)`; characterised by the lemmas below |
| `Decimal.Digits` | app/subtitle_generator.py:25 | Python's `str(n)` for a natural number, most significant digit first; at least one digit |
| `Decimal.Pow10` | app/subtitle_generator.py:12 | 10^w, the bound below which the `0<w>` spec needs no more than w characters |
| `Decimal.DigitsLength` | app/subtitle_generator.py:12 | a number below 10^w has at most w digits |
| `Decimal.PadInt` | app/subtitle_generator.py:12 | the `0<w>` format spec: sign, zeros, digits, at least w characters; undone by `ParseInt` (`ParsePadInt`) |
| `Subtitles.Strip` | app/subtitle_generator.py:27 | `str.strip()` over Python's whitespace characters; characterised by `StripSpec` |
| `Subtitles.FormatTimestamp` | app/subtitle_generator.py:5-12 | the three divmods and the `02`/`02`/`02`/`03` format specs, on exact reals; characterised by `FormatTimestampIsClock` and `TimestampRoundTrip` |
| `Subtitles.Cue` | app/subtitle_generator.py:22-27 | what one iteration writes: the number line, the timing line with the two timestamps of start and end times 1000, and the stripped text followed by a blank line |
| `Subtitles.Numbered` | app/subtitle_generator.py:22 | `enumerate` from a given first number, each item rendered with its number; one output per item |
| `Subtitles.SrtText` | app/subtitle_generator.py:14-27 | the whole file: the cues numbered from 1, concatenated in input order; characterised by `CueAt` and `SrtSnoc` |
| `Timeline.Shift` | app/main.py:59-63 | one segment moved by offset_ms / 1000 seconds, text kept; characterised by `ShiftKeepsShape` |
| `Timeline.Adjusted` | app/main.py:57-64 | one chunk's segments, each shifted by the chunk's offset, in order; as many as the recogniser returned |
| `Timeline.Accumulate` | app/main.py:53-66 | the gathered list: the shifted segments of chunk 0, then chunk 1, and so on; characterised by `AccumulateAt` and `AccumulateFrom` |
| `Timeline.TranslateAll` | app/main.py:73-77 | every segment with its text replaced by its translation, in place; same length |
| `Timeline.MaybeTranslate` | app/main.py:70-77 | the translation pass when a target language is given, nothing otherwise; characterised by `TranslateChangesOnlyText` |
| `Timeline.Insert` | app/main.py:80 | one insertion step of the stable sort: x goes before the first segment not starting earlier; one segment longer |
| `Timeline.SortByStart` | app/main.py:80 | Python's stable `sorted` by start, as an insertion sort; characterised by `SortSortsAndPermutes`, `SortIsStable` and `SortIsTheStableSort` |
| `Timeline.Reconciled` | app/main.py:53-80 | the list handed to the writer: gathered, possibly translated, sorted; characterised by `ReconciledFacts` |
| `Pipeline.SrtFor` | app/main.py:45-83 | the file process_video writes: chunks of the configured length and overlap, reconciled, then written as SubRip |
| `AudioChunks.SplitAudio` | app/audio_extractor.py:24-48 | the loop's chunk list is exactly `Chunks`: chunk k for every k below ceil(audio / stride) |
| `AudioChunks.ChunkCountMeans` | app/audio_extractor.py:38-45 | chunk k exists if and only if k * stride lies before the end of the audio, so the count is ceil(audio / stride) |
| `AudioChunks.ChunkOffsets` | app/audio_extractor.py:36-46 | chunk k has index k and starts at k * (length - overlap), before the end of the audio |
| `AudioChunks.EmptyAudioNoChunks` | app/audio_extractor.py:38 | the chunk list is empty if and only if the audio is empty |
| `AudioChunks.StartsIncrease` | app/audio_extractor.py:45 | chunk starts strictly increase |
| `AudioChunks.ChunkSpans` | app/audio_extractor.py:39-43 | each chunk is non-empty, at most `length` long, within the audio; the last chunk ends exactly at the end of the audio |
| `AudioChunks.ConsecutiveChunksOverlap` | app/audio_extractor.py:38-45 | no gap between consecutive chunks; they overlap by exactly `overlap` unless the first was clamped |
| `AudioChunks.ChunksCoverAudio` | app/audio_extractor.py:38-45 | every millisecond of the audio lies in some chunk |
| `Decimal.DigitsSpec` | app/subtitle_generator.py:12 | `str(n)` writes only digits, without a leading zero |
| `Decimal.ValueOfDigits` | app/subtitle_generator.py:25 | the digits of n denote n |
| `Decimal.ValueOfZeroPad` | app/subtitle_generator.py:12 | zero padding does not change the number denoted |
| `Decimal.ParsePadInt` | app/subtitle_generator.py:12 | parsing the `0<w>`-formatted integer gives it back, sign included, for every width |
| `Decimal.PadIntWidth` | app/subtitle_generator.py:12 | for every width w >= 1, a natural number below 10^w is formatted in exactly w digits (line 12 uses widths 2 and 3) |
| `Subtitles.TrimStartSpec` | app/subtitle_generator.py:27 | leading whitespace removal keeps a suffix, drops only whitespace, and leaves no leading whitespace |
| `Subtitles.TrimEndSpec` | app/subtitle_generator.py:27 | trailing whitespace removal keeps a prefix, drops only whitespace, and leaves no trailing whitespace |
| `Subtitles.StripSpec` | app/subtitle_generator.py:27 | `strip()` returns one contiguous piece of the text, with only whitespace cut on either side, and the result neither starts nor ends with whitespace |
| `Subtitles.StripIdempotent` | app/subtitle_generator.py:27 | stripping twice is stripping once |
| `Subtitles.StripKeepsTrimmedText` | app/subtitle_generator.py:27 | text without surrounding whitespace, embedded newlines and all, is written unchanged |
| `Subtitles.ClockOf` | app/subtitle_generator.py:9-11 | every whole number of milliseconds has a clock reading with minutes, seconds below 60, millis below 1000, summing back to it |
| `Subtitles.FormatTimestampIsClock` | app/subtitle_generator.py:9-12 | the chained divmods write the clock reading of floor(ms) |
| `Subtitles.FirstDivmod` | app/subtitle_generator.py:9 | `divmod(ms, 1000)` leaves a remainder in [0, 1000) and floor(ms) = 1000 * quotient + floor(remainder) |
| `Subtitles.LaterDivmods` | app/subtitle_generator.py:10-11 | the divmods by 60 give minutes and seconds below 60 and keep the total |
| `Subtitles.ClockUnique` | app/subtitle_generator.py:9-11 | a number of milliseconds has only one normal clock reading |
| `Subtitles.TimestampOfClock` | app/subtitle_generator.py:9-12 | any normal clock reading of floor(ms) is what is written for ms |
| `Subtitles.ClockTailLayout` | app/subtitle_generator.py:12 | after the hours come ":MM:SS,mmm" with exactly 2, 2 and 3 digits |
| `Subtitles.ParseRenderClock` | app/subtitle_generator.py:12 | parsing a written clock reading gives it back |
| `Subtitles.TimestampRoundTrip` | app/subtitle_generator.py:9-12 | parsing what format_timestamp writes gives back floor(ms); hours are not wrapped at 24 |
| `Subtitles.TimestampLayout` | app/subtitle_generator.py:11-12 | the hours field is floor(ms) / 3600000 unwrapped, at least two characters, then the separators and 2, 2 and 3 digit fields |
| `Subtitles.JoinAppend` | app/subtitle_generator.py:21-27 | writing two lists of cues in turn writes their concatenation |
| `Subtitles.NumberedAppend` | app/subtitle_generator.py:22 | `enumerate` over a concatenation numbers the second part from where the first stopped |
| `Subtitles.JoinNumberedAt` | app/subtitle_generator.py:22 | item i is preceded by the items before it and numbered first + i |
| `Subtitles.CueAt` | app/subtitle_generator.py:22-27 | the file is the cues in input order: cue i + 1 for segment i, between the earlier and later cues |
| `Subtitles.SrtSnoc` | app/subtitle_generator.py:22-27 | one more segment appends exactly one more cue, numbered after the others |
| `Subtitles.SrtOfNothing` | app/subtitle_generator.py:21-22 | no segments, empty file |
| `Subtitles.GenerateSrt` | app/subtitle_generator.py:14-27 | the three writes per segment produce exactly `SrtText`: the numbered cues, in input order, times multiplied by 1000 before formatting |
| `Subtitles.CueContains` | app/subtitle_generator.py:25-27 | a cue holds " --> " and the stripped text |
| `Subtitles.SrtContainsEveryCue` | tests/test_subtitle_generator.py:16-22 | the file contains every segment's stripped text and the " --> " separator |
| `SrtExamples.ZeroTimestamp` | app/subtitle_generator.py:12 | 0 ms is written 00:00:00,000 |
| `SrtExamples.OneAndAHalfSeconds` | app/subtitle_generator.py:9-12 | 1500 ms is written 00:00:01,500 |
| `SrtExamples.HourMinuteSecond` | app/subtitle_generator.py:9-12 | 3661000 ms is written 01:01:01,000 |
| `SrtExamples.TwentyFiveHours` | app/subtitle_generator.py:11-12 | 90000000 ms is written 25:00:00,000: hours are not wrapped |
| `Timeline.ShiftKeepsShape` | app/main.py:59-63 | the shift keeps the text and the duration, never moves a segment earlier, and keeps start <= end |
| `Timeline.ShiftKeepsOrder` | app/main.py:59-61 | one offset keeps the order of two segments' starts, both ways |
| `Timeline.AccumulateLength` | app/main.py:53-64 | the gathered list has as many segments as the recogniser returned over all chunks; empty chunks add nothing |
| `Timeline.TotalCountPrefix` | app/main.py:55-64 | the segments of chunks 0..k fit within the total |
| `Timeline.AccumulateAt` | app/main.py:55-64 | segment j of chunk k lands at position (segments of earlier chunks) + j, shifted by its chunk's offset |
| `Timeline.TotalCountGrows` | app/main.py:55-64 | chunk a's segments all come before those of any later chunk b |
| `Timeline.DistinctSlots` | app/main.py:55-64 | no deduplication: different recognised segments occupy different positions, even when equal |
| `Timeline.AccumulateFrom` | app/main.py:55-64 | every gathered segment is some recognised segment shifted by its chunk's offset |
| `Timeline.AccumulateWellTimed` | app/main.py:59-61 | well-timed recognised segments give well-timed gathered segments |
| `Timeline.TranslateChangesOnlyText` | app/main.py:70-77 | translation keeps the number, order and times of the segments, replaces each text by its translation, and is the identity without a target language |
| `Timeline.InsertSorted` | app/main.py:80 | inserting into a sorted list keeps it sorted |
| `Timeline.InsertPermutes` | app/main.py:80 | inserting adds exactly the one segment |
| `Timeline.InsertStable` | app/main.py:80 | inserting puts the new segment before the segments of equal start |
| `Timeline.SortSortsAndPermutes` | app/main.py:80 | the sorted list is ordered by start and is a permutation of the input |
| `Timeline.SortIsStable` | app/main.py:80 | for every start time, the segments with that start keep their input order |
| `Timeline.SortedUnique` | app/main.py:80 | two sorted lists with the same segments at every start time, order included, are equal |
| `Timeline.SortIsTheStableSort` | app/main.py:80 | any ordering by start that keeps the input order among equal starts is the sort's result |
| `Timeline.InsertRetext` | app/main.py:75-80 | inserting commutes with translating |
| `Timeline.SortCommutesWithTranslation` | app/main.py:70-80 | translating then sorting equals sorting then translating |
| `Timeline.Reconcile` | app/main.py:53-80 | the nested loops, the in-place translation and the sort give `Reconciled`; the callback receives (k, total) for k = 1..total in order, once per chunk, and never without a callback |
| `Timeline.ReconciledFacts` | app/main.py:53-80 | the list handed to the writer has one entry per recognised segment, is sorted by start, is a permutation of the gathered (translated) list, and is stable |
| `Timeline.ReconciledWellTimed` | app/main.py:59-80 | start <= end for every recognised segment gives start <= end for every output segment |
| `Timeline.RecognisedSegmentSurvives` | app/main.py:55-80 | each recognised segment, shifted and possibly translated, is in the output |
| `Pipeline.ProcessVideo` | app/main.py:23-83 | splitting with the configured length and overlap, reconciling and writing give `SrtFor`; one progress call per chunk |
| `Pipeline.EveryRecognisedTextInSrt` | app/main.py:53-83 | every recognised segment's (translated) text, stripped, occurs in the file |
| `Pipeline.NothingRecognisedEmptyFile` | app/main.py:53-83 | empty audio, or nothing recognised, gives an empty file |
| `Pipeline.OneCuePerSegment` | app/main.py:80-83 | the file has one numbered cue per recognised segment, in start-time order |

## Left out

- Audio extraction (`extract_audio`, the ffmpeg subprocess) is not modelled. Neither are pydub's
  decoding and the export of each chunk to `temp_audio/chunk_<i>.wav`, nor the creation of that
  directory. Only the chunk index of the file name is kept.
- The recogniser (app/asr.py) and the translator (app/translator.py) are inputs.
  - The recogniser's output is given as one list per chunk. A result without a "segments" key is
    the empty list.
  - The translator is a plain function, so a model that answers differently for the same text
    is not captured.
  - Loading the models is not modelled.
- Temporary-directory creation and the `rmtree` cleanup in `process_video` are not modelled, and
  neither are the log `print`s and the tqdm progress bar.
- The FastAPI endpoint and the command-line entry point are not modelled. The command line does
  not forward `--target-lang` to `process_video`.
- flask_app.py (its thread, its global progress dict, its float percentage) and the React
  frontend are not modelled.
- Floating point is not modelled. Times are exact reals, so float effects are not captured:
  - `seg["start"] * 1000` can land just below a whole millisecond and be written one millisecond
    lower;
  - `offset_ms / 1000.0` rounds;
  - NaN and infinities are not covered.
- File output is a string: the UTF-8 encoding and write errors are not modelled. The file is opened
  in text mode, so each "\n" becomes the platform's line separator (CRLF on Windows). The model
  always writes "\n".
- AudioChunks.SplitAudio: requires `overlap < length`. The source does not check this. For a
  non-empty audio its loop would never end otherwise, while for an empty audio it returns `[]`
  whatever the values.
- The two-segment example file of the subtitle writer's test is not stated as one literal string.
  Its structure is given by `Subtitles.CueAt` and `Subtitles.SrtSnoc`, and its four timestamps
  follow from `Subtitles.TimestampOfClock` in the same way as the `SrtExamples` lemmas.
- tests/test_audio_extractor.py holds an older copy of app/main.py, without translation or
  progress reporting. Its gathering loop is the one `Reconcile` models. tests/test_asr.py exercises the real recogniser.
