# VidArabia-AI subtitle pipeline, modelled in Dafny

`translate_video.py` transcribes a video, translates the transcript into
Arabic with a Helsinki-NLP Marian model and writes a SubRip (`.srt`)
subtitle file. This project models the pure logic that sits between its
foreign calls, and proves properties of it:

- **Timestamps** (`Timestamp`): `seconds_to_srt_timestamp` from whole
  milliseconds. Three `divmod` carries and zero-padded printing give
  `HH:MM:SS,mmm`.
- **Arrow escape** (`Escape`): `text.replace("-->", "->")`, one
  left-to-right pass over non-overlapping occurrences.
- **Subtitle file** (`Srt`): `write_srt` as the string it writes. Each
  segment becomes a block holding its 1-based number, the timing line, the
  escaped text and a blank line.
- **Batched translation** (`Batch`): `batch_translate_segments`.
  - The texts are cut into slices of `batch_size`.
  - Each slice goes to a translator, passed in as a function.
  - Each answer is normalised: a record's `translation_text`, a string as
    itself, or anything else through its string conversion.
  - The results are zipped back into the segments by position.
- **Model selection and the run** (`Pipeline`):
  - the eight-entry table of `load_translator_for`;
  - the early return of `main` when there are no segments;
  - the detection sample (the first three texts at most, joined by spaces);
  - the single fallback to English;
  - the final translate-and-write.

`Strings` holds the shared character-level helpers: decimal printing and
parsing, `{n:0w}` padding, `join`/`split` on one character, and
flattening. `Segments` holds the segment record.

Inputs the program gets from the outside world become parameters of the
model:
- Transcription: the segment list itself.
- Language detection: `detect: string -> Option<string>`, where `None`
  means the detector raised.
- Model loading: `loads: string -> bool`, keyed by model id.
- Translation: `engines: string -> Translator`, the translator of a loaded
  model.

Segment instants are whole milliseconds (`nat`).

English is in the table, so as written the last code tried always has a
model, and the `SystemExit` for "no translation model available" (line 146)
can never be raised (`SelectEndsInTable`, `RunEndsInTable`). How a model
that fails to load is handled is listed under "Findings": the model gives
both the code as written (`Select`, `RunPipeline`) and the guarded loader
that the messages at lines 143 and 146 presuppose (`SelectGuarded`,
`RunGuarded`).

## Model

| member | source | states |
|---|---|---|
| Timestamp.ToClock | translate_video.py:59-61 | After the three `divmod` carries, minutes and seconds are below 60 and milliseconds below 1000. The fields recombine to the instant: `h*3600000 + m*60000 + s*1000 + ms == t`. |
| Timestamp.ToClockOfMillis | translate_video.py:59-61 | The carries are the only way to split an instant into in-range fields: a normal clock is recovered exactly from the instant it denotes. |
| Timestamp.LayoutShape | translate_video.py:62 | The printed clock is `HH:MM:SS,mmm`: `:` `:` `,` at fixed places from the end, and only digits in the hours (at least two), minutes (two), seconds (two) and milliseconds (three). It is 12 characters below 100 hours. Every character is a digit, `:` or `,`. |
| Timestamp.Format | translate_video.py:56-62 | A timestamp is at least 12 characters, each a digit, `:` or `,`. |
| Timestamp.FormatShape | translate_video.py:56-62 | A timestamp is at least 12 characters, and exactly 12 below 100 hours. `:` `:` `,` sit at fixed places from the end. The hours, minutes, seconds and milliseconds between them are all digits. There are no spaces. |
| Timestamp.ParseFormat | translate_video.py:56-62 | Reading a printed timestamp back gives the instant it was printed from. |
| Timestamp.FormatInjective | translate_video.py:56-62 | Distinct instants print differently. |
| Timestamp.FormatZero | translate_video.py:56-62 | Instant 0 prints as `00:00:00,000`. |
| Timestamp.FormatMinuteCarry | translate_video.py:56-62 | 61251 ms prints as `00:01:01,251`, carrying into the minutes. |
| Timestamp.FormatHourCarry | translate_video.py:56-62 | 3661001 ms prints as `01:01:01,001`, carrying into the hours. |
| Strings.Decimal | translate_video.py:70 | The block number `{i}` is printed as a non-empty run of digits without a leading zero, the shortest numeral. The digits inside `{h:02}` at line 62 are the same numeral. |
| Strings.ParseDecimalOfDecimal | translate_video.py:70 | The block number is printed as `str(i)`: the shortest numeral, which reads back as `i`. |
| Strings.PadZeroRoundTrip | translate_video.py:62 | A zero-padded field `{n:0w}` reads back as `n`. |
| Strings.PadZeroWidth | translate_video.py:62 | For `w ≥ 1`, `{n:0w}` is exactly `w` characters when `n < 10^w`. |
| Escape.CountArrows | translate_video.py:69 | The occurrences the single pass replaces do not overlap: each takes three characters of its own. |
| Escape.CountIsOccurrences | translate_video.py:69 | The single pass replaces every `-->` in the text. Its count equals the number of positions where an arrow starts, because two arrows can never overlap. |
| Escape.EscapeArrows | translate_video.py:69 | Each occurrence the single pass replaces shortens the text by exactly one character. |
| Escape.CountPositive | translate_video.py:69 | The pass replaces something exactly when the text contains `-->`. |
| Escape.EscapeIdentity | translate_video.py:69 | The escape leaves a text unchanged if and only if the text has no `-->`. |
| Escape.EscapeCanLeaveArrow | translate_video.py:69 | Counterexample: `--->` becomes `-->`, so one pass can leave an arrow in the written text. |
| Escape.EscapeArrowFree | translate_video.py:69 | That is the only way: a text without `--->` escapes to a text without `-->`. |
| Srt.WriteSrt | translate_video.py:64-70 | The file is the concatenation of the blocks, in segment order. No segments give the empty file, and any segment gives a non-empty one. |
| Srt.WriteSrtAppend | translate_video.py:66-70 | Writing more segments appends their blocks, numbered on from where the earlier blocks stopped. |
| Srt.WriteSrtLoop | translate_video.py:64-70 | The `enumerate(segments, start=1)` loop writes exactly the file described by `WriteSrt`. |
| Srt.TimingLineRoundTrip | translate_video.py:67-70 | A block's timing line splits on spaces into the two timestamps around a lone `-->`, and reads back as the segment's start and end. |
| Srt.BlockArrowPositions | translate_video.py:66-70 | Unless the text holds `--->`, the only `-->` in a block is the timing-line separator, right after the number, its newline, the start timestamp and a space. |
| Batch.Normalise | translate_video.py:83-88 | A record with `translation_text` gives that field. A record without it, a string or any other value gives its string conversion, and a string converts to itself. |
| Batch.NormaliseAll | translate_video.py:82-88 | One string per element the translator returned, in the order returned, each the normalisation of that element. |
| Batch.NormaliseLoop | translate_video.py:82-88 | The `for o in out` loop appends exactly the normalised elements, in order. |
| Batch.Batches | translate_video.py:78-79 | The batches concatenate back to the texts. Each holds between 1 and `batch_size` texts, and all but the last hold exactly `batch_size`. |
| Batch.BatchStart | translate_video.py:78 | Batch `k` starts at text `k * batch_size`, the `k`-th value of `range(0, n, batch_size)`. |
| Batch.BatchesAreSlices | translate_video.py:78-79 | Batch `k` is the slice `texts[k*b : k*b + b]`, clipped at the end. |
| Batch.BatchCount | translate_video.py:78-80 | The translator is called `ceil(n / b)` times: `b` times the count reaches `n`, and one call fewer would not. |
| Batch.TranslateTexts | translate_video.py:76-88 | With one result per input in every batch, the `translated` list has one string per text. |
| Batch.TranslationAt | translate_video.py:76-88 | With one result per input, the result for element `j` of batch `k` lands at the position that element held among the texts. |
| Batch.TranslateTextsAligned | translate_video.py:76-88 | With one result per input there is one translation per text. The text at `k*b + j` is translated by the call on batch `k`, at index `j`. |
| Batch.ElementwiseTranslation | translate_video.py:76-88 | For a translator that works text by text, translation `i` is the result for text `i`. |
| Batch.BatchSizeIndependent | translate_video.py:72-92 | For a translator that works text by text, the batch size does not change the translations. |
| Batch.Attach | translate_video.py:90-91 | `zip` pairs the first `min(len)` segments with their translations. Later segments keep their text. No segment is added, dropped or retimed. |
| Batch.AttachLoop | translate_video.py:90-91 | The `zip` loop writes exactly the segments described by `Attach`. |
| Batch.BatchTranslateSegments | translate_video.py:72-92 | A zero batch size fails (`range` refuses a zero step). A negative one translates nothing. Otherwise the segment count and every start and end are kept. |
| Batch.SegmentsTranslatedByPosition | translate_video.py:72-92 | With one result per input, segment `k*b + j` holds the normalised result `j` of the call on batch `k`. That batch held the segment's own text at `j`. |
| Batch.FewerResultsKeepTail | translate_video.py:72-92 | If the translator never returns more results than texts, there are at most as many translations as segments. Every segment past the last translation keeps its original text, because `zip` stops at the shorter list. |
| Batch.ElementwiseSegments | translate_video.py:72-92 | With a text-by-text translator, every segment gets the translation of its own text, with its timing unchanged. |
| Batch.IdentityTranslatorKeepsSegments | translate_video.py:72-92 | A translator that hands each text back as a string leaves the segments as they were. |
| Batch.TranslateTextsLoop | translate_video.py:76-88 | The `range` loop, with its inner loop, builds exactly the `translated` list: the normalised answers, batch after batch. |
| Batch.BatchTranslateLoop | translate_video.py:72-92 | The whole function, step by step, ends as `BatchTranslateSegments` says. |
| Pipeline.ModelFor | translate_video.py:24-34 | The table has a model for exactly en, fr, es, de, ru, pt, it and nl. It is always `Helsinki-NLP/opus-mt-<code>-ar`. |
| Pipeline.LoadTranslatorFor | translate_video.py:18-38 | Not found exactly for codes outside the table. Loaded exactly when the code is in the table and its model loads. Otherwise loading that model raises. |
| Pipeline.Select | translate_video.py:139-146 | One or two codes are tried. The detected code comes first when it is usable, and English alone otherwise. English is added as a second try exactly when the detected code is outside the table. |
| Pipeline.SelectTriesEachCodeOnce | translate_video.py:139-146 | No code is tried twice, so English is tried at most once. |
| Pipeline.SelectEndsInTable | translate_video.py:139-146 | The last code tried is always in the table, so "no model available" never happens. Selection succeeds exactly when that code's model loads, and otherwise stops while loading it. |
| Pipeline.LoadFailureAborts | translate_video.py:140-144 | A detected code in the table whose model fails to load stops the run without trying English: the model is built at line 37 outside any `try`. |
| Pipeline.UnknownCodeFallbackFails | translate_video.py:140-146 | An unknown detected code whose English fallback fails tries both codes and stops while loading the English model. |
| Pipeline.LanguageSample | translate_video.py:130 | The detection sample is empty for no segments, the first text for one, and the first two or three texts with a single space between each for two or more. |
| Pipeline.LanguageSampleParts | translate_video.py:130 | The detection sample is the first (at most three) texts separated by single spaces. Splitting it gives them back when they hold no space. |
| Pipeline.LanguageSampleFirstThree | translate_video.py:130 | Segments after the third never reach the detector. |
| Pipeline.LoadGuarded | translate_video.py:18-38 | The guarded loader gives a model exactly when the code is in the table and its model loads. That model is `opus-mt-<code>-ar`. |
| Pipeline.SelectGuarded | translate_video.py:139-146 | With the guarded loader, the detected code is tried first when there is one. English is tried next exactly when that gave no translator. Selection never stops while loading, and it has a translator exactly when the last code tried has a model that loads. |
| Pipeline.SelectGuardedFallsBack | translate_video.py:139-146 | With the guarded loader, selection ends without a translator exactly when neither the detected code's model nor the English model loads. |
| Pipeline.SelectGuardedAgrees | translate_video.py:139-146 | The guarded and unguarded selections agree unless a load raises. When loading the detected code's model raises, the guarded selection tries English instead. |
| Pipeline.EnglishFailureRetriedOnce | translate_video.py:139-146 | When English is detected and its model fails to load, the guarded selection tries English once more as the fallback, and the run ends without a translator. |
| Pipeline.FrenchWithOnlyEnglishInstalled | translate_video.py:37 | With French detected and only the English model loadable, the code as written stops while loading the French model. The guarded selection translates with the English model. |
| Pipeline.Conclude | translate_video.py:144-152 | After selection, the run ends with the missing-model exit, stops while loading, or finishes, exactly as selection ended. A finished run writes the segments translated in batches of four, as many as there were. |
| Pipeline.RunPipeline | translate_video.py:125-152 | A run returns early, without calling the detector, exactly when there are no segments. Otherwise the detector sees the sample, and the codes tried are those selection tries on its answer. |
| Pipeline.RunEndsInTable | translate_video.py:138-146 | A non-empty run finishes exactly when the model of the last code tried loads, and otherwise aborts while loading that model. The missing-model exit never happens. |
| Pipeline.RunFinished | translate_video.py:148-152 | A finished run writes, as the subtitle file, the segments translated in batches of four: as many segments as were transcribed. |
| Pipeline.RunGuarded | translate_video.py:125-152 | `main` with the guarded loader: it returns early exactly when there are no segments. Otherwise the detector sees the sample, and the codes tried are those the guarded selection tries on its answer. |
| Pipeline.RunGuardedEnds | translate_video.py:125-152 | With the guarded loader, a non-empty run never stops while loading. It takes the missing-model exit exactly when neither the detected code's model nor the English model loads, and writes the subtitle file otherwise. |
| Pipeline.RunIdentity | translate_video.py:125-152 | When every model loads and translates each text to itself, the run writes the subtitle file of the transcription unchanged. |

## Findings

| source | as written | input that shows it | evidently intended | confidence | as-written member | corrected member |
|---|---|---|---|---|---|---|
| translate_video.py:37, translate_video.py:144-146 | `pipeline(...)` is called outside any `try`, and so is the call at line 141. When a model in the table fails to load, the exception leaves `main`: English is not tried as a fallback. Since `"en"` is in the table (line 25), the missing-model exit at line 146 can never be reached. | French detected, and only the English model loadable: the run stops while loading `opus-mt-fr-ar` | The messages at lines 143 and 146 presuppose that a failed load gives `None`. So a model that fails to load counts as none, English is then tried once, and the run stops with the missing-model exit only when the English model fails too. When English itself was detected and fails, it is tried a second time as the fallback, and the run then takes the missing-model exit. | medium, not executed | Pipeline.LoadFailureAborts | Pipeline.SelectGuarded |

## Left out

- The float step `int(round(seconds * 1000))` (line 58). It is binary floating point with round-half-even. The model takes whole milliseconds as input.
- Negative instants. Python's floor `divmod` would print negative hours. Instants are `nat`.
- `extract_audio`, the burn-in `ffmpeg` command and `subprocess`. These are process I/O.
- Whisper loading and transcription, including the `.strip()` of each text. These are foreign model calls; the segment list is the model's input.
- `langdetect.detect` and `transformers.pipeline`. They are parameters. A translator that raises while translating is not modelled: translators are total functions.
- The `from transformers import pipeline` at line 23 runs before the table lookup. If that import fails, even a code outside the table raises; the model gives NotFound for such a code, because importing is not modelled.
- The default `batch_size=8` of batch_translate_segments (line 72). The only caller passes 4, so the model takes the batch size as a parameter and has no default.
- `is_cuda_available` and the device choice. They do not affect which model is chosen or what it returns.
- File opening and encoding, `tempfile`, `argparse`, the input-file existence check and every `print`. These are I/O and command-line plumbing.
- Record values other than strings under `translation_text`. Records map strings to strings.
- Determinism of the written file. Every operation is a function of its inputs, so equal segments give equal files by construction.
- Reading a whole subtitle file back. A text line may itself contain newlines or a timing-like line, so a file does not split back into blocks unambiguously. Only the timing line is read back (`Srt.TimingLineRoundTrip`).
- Batch.TranslateTextsAligned: it states the position of a text by batch and index (`k*b + j`), not by `i / b` and `i % b`. The two say the same thing for `j < b`.
- Batch.BatchCount: it states `ceil(n / b)` by its two defining inequalities, not through division.
