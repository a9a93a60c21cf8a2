# Batch transcription to SubRip, modelled in Dafny

`transcribe_final.py` turns every audio or video file of a directory into a
SubRip (`.srt`) subtitle file next to it. This project models the part of it
that decides what happens to the files:

- **Timestamps** (`Timestamp`): `format_timestamp` splits a time into hours,
  minutes, seconds and milliseconds and renders `HH:MM:SS,mmm`. Hours are
  padded to two digits and never capped. Times are whole milliseconds.
- **Subtitle files** (`Srt`): `create_srt` writes, for the i-th segment
  counting from 1, the index line, the `START --> END` line, the stripped
  text and a blank line. A reader for the same layout is its inverse.
- **Subtitle names** (`Paths`): `with_suffix('.srt')` on a file name, with
  `PurePath.suffix` and `PurePath.stem` as POSIX paths define them.
- **Discovery** (`Discovery`): the eleven case-sensitive glob patterns
  `*.mp4` … `*.WAV`, then `sorted(set(...))` in Python's string order.
- **The batch loop** (`Pipeline`): for each discovered file in order, skip it
  when its subtitle file exists. Otherwise ask the speech recognizer and write
  the subtitle file. Each file counts as a success, a skip or a failure. A
  recognizer error stays with its file; a keyboard interrupt ends the run.
  The directory is a finite map from entry names to contents. The recognizer
  is an oracle from file names to outcomes. The reference semantics `Sweep`
  takes the subtitle naming as a parameter (`Env`). The program's own loop,
  `ProcessAll`, fixes it to `with_suffix('.srt')` (`Standard`).
- **Support modules**: `Decimal` covers decimal digits and zero padding.
  `Strings` covers `str.strip`, line splitting, suffix matching and Python's
  string order. `Wrappers` holds `Option`.

## Model

| member | source | states |
|---|---|---|
| Timestamp.SplitSpec | transcribe_final.py:104-107 | about `Split`, the field split of `format_timestamp`: the four fields form a valid clock reading (minutes and seconds below 60, milliseconds below 1000) that adds back up to the input; the hours are the whole hours, with no cap |
| Timestamp.SplitUnique | transcribe_final.py:104-107 | the split is the only valid clock reading with that total |
| Timestamp.NoDayRollover | transcribe_final.py:104 | adding a day adds 24 to the hours and leaves the other fields alone: there is no wrap at 24 hours |
| Timestamp.FormatLayout | transcribe_final.py:102-108 | about `Format`, which is `format_timestamp`: a timestamp has at least 12 characters, exactly 12 below 100 hours; `:`, `:` and `,` sit at the fixed positions from the end, and every other character is a digit |
| Timestamp.FormatParse | transcribe_final.py:102-108 | reading a rendered timestamp back gives the same number of milliseconds |
| Timestamp.FormatInjective | transcribe_final.py:102-108 | distinct times never render to the same timestamp |
| Timestamp.ExampleZero | transcribe_final.py:102-108 | time zero renders as `00:00:00,000` |
| Timestamp.ExampleMinute | transcribe_final.py:102-108 | 61.25 seconds render as `00:01:01,250` |
| Timestamp.ExampleHour | transcribe_final.py:102-108 | one hour, one minute and 1.999 seconds render as `01:01:01,999` |
| Timestamp.ExampleDay | transcribe_final.py:102-108 | 24 hours and 1 second render as `24:00:01,000` |
| Srt.CreateSrt | transcribe_final.py:110-120 | the file is empty exactly when there are no segments; otherwise it starts with `1\n` and ends with a blank line |
| Srt.CreateSrtIsConcatOfBlocks | transcribe_final.py:113-120 | the file is the concatenation, in segment order, of one block per segment, numbered from 1 |
| Srt.SerializeShape | transcribe_final.py:113-120 | about `Serialize`, the blocks numbered from a given index: it is empty exactly for no segments, and otherwise starts with the first index and a line break and ends with a blank line |
| Srt.SerializeAppend | transcribe_final.py:113 | writing two segment lists one after the other continues the numbering |
| Srt.TimingLineRoundTrip | transcribe_final.py:114-119 | the `START --> END` line has no line break and reads back as the pair of times |
| Srt.ParseBlockOf | transcribe_final.py:114-120 | about `Block`, the four lines written for one segment: when the stripped text holds no blank line, the block reads back as its index, times and stripped text, whatever follows it |
| Srt.CreateSrtRoundTrip | transcribe_final.py:110-120 | a file reads back as exactly one cue per segment, indexed 1..n in order, with each segment's times and stripped text |
| Srt.CreateSrtInjective | transcribe_final.py:110-120 | two segment lists whose stripped texts hold no blank line, and that give the same file, have the same length, times and stripped texts |
| Srt.UnreadableCollision | transcribe_final.py:110-120 | the blank-line restriction is needed: the one-segment list with text `x`, blank line, `2`, a zero timing line, `y` gives the same file as the two-segment list `x`, `y` |
| Strings.StripSpec | transcribe_final.py:116 | about `Strip`, which is `str.strip()`: it keeps the longest inner slice that neither starts nor ends with white space; everything cut away is white space |
| Srt.StripKeeps | transcribe_final.py:116 | `strip()` leaves alone a text that neither starts nor ends with white space |
| Strings.StripIdempotent | transcribe_final.py:116 | stripping twice is stripping once |
| Paths.LastDotSpec | transcribe_final.py:198 | the last dot of a name is a dot with no dot after it; there is none only in a name without dots |
| Paths.SuffixSpec | transcribe_final.py:198 | about `Suffix`, which is `PurePath.suffix`: a suffix is empty, or a dot followed by at least one character and no other dot; it ends the name and is shorter than it; it is non-empty exactly when some dot, neither the first nor the last character, has no dot after it |
| Paths.StemSpec | transcribe_final.py:198 | about `Stem`, which is `PurePath.stem`: the stem followed by the suffix is the name |
| Paths.WithSuffix | transcribe_final.py:198 | `with_suffix` succeeds exactly for a non-empty name and a valid suffix, and then gives the stem followed by the new suffix |
| Paths.OutputNameShape | transcribe_final.py:198 | about `OutputName`: the subtitle name is what `with_suffix('.srt')` returns; it keeps the media file's stem, has suffix `.srt` and adds no path separator |
| Paths.SameStemSameOutput | transcribe_final.py:198 | two names with the same stem get the same subtitle name |
| Paths.NamingExamples | transcribe_final.py:198 | `talk.mp4` becomes `talk.srt`; only the last suffix is replaced, so `a.b.mp3` becomes `a.b.srt`; `.mp4` is all stem, so it becomes `.mp4.srt` |
| Discovery.Glob | transcribe_final.py:180-181 | one glob yields exactly the entries ending in its extension |
| Discovery.Discover | transcribe_final.py:178-183 | the work list is strictly increasing in Python's string order and holds exactly the entries that one of the eleven patterns matches |
| Discovery.SortNames | transcribe_final.py:183 | `sorted(set(...))` is strictly increasing and keeps exactly the names it was given |
| Discovery.SortedUnique | transcribe_final.py:183 | two strictly increasing lists with the same names are equal, so the work list does not depend on the order the directory lists its entries |
| Discovery.PatternsExclusive | transcribe_final.py:178 | no entry matches two patterns |
| Discovery.CaseSensitiveExamples | transcribe_final.py:178 | matching is case-sensitive: `clip.MOV` and `clip.Mp4` are not found, `clip.MP4` is |
| Discovery.OutputNotMedia | transcribe_final.py:178 | no subtitle name matches any pattern |
| Strings.LexLessTotal | transcribe_final.py:183 | Python's string order is total on distinct strings |
| Strings.LexLessTransitive | transcribe_final.py:183 | Python's string order is transitive |
| Pipeline.ProcessFileSpec | transcribe_final.py:198-243 | about `ProcessFile`, one file of the loop: a file is skipped exactly when its subtitle file exists; otherwise an interrupt aborts, an error is a failure and a transcript is a success; only a success changes the directory, by adding the subtitle file holding the transcript as SRT |
| Pipeline.HandleFile | transcribe_final.py:198-243 | the loop body for one file: with an existing subtitle file it appends a skip and leaves the directory and the recognizer calls alone; otherwise it records a recognizer call, and a transcript appends a success and writes the transcript as SRT under the subtitle name, an error appends a failure and leaves the directory alone, and an interrupt ends the run with statuses and directory as they were; this is one step of the reference run |
| Pipeline.ProcessAll | transcribe_final.py:193-243 | the loop computes the reference run; its counters count each handled file once; without an interrupt every file is handled; an interrupt stops at a file the recognizer interrupted |
| Pipeline.Tally | transcribe_final.py:193-195 | the three counters add up to the number of handled files |
| Pipeline.CountPositive | transcribe_final.py:193-195 | a counter is positive exactly when some file got that status |
| Pipeline.AdvanceShape | transcribe_final.py:197-243 | about `Advance`, one step of a run: one file either ends the run, when its subtitle file is missing and the user interrupts, leaving statuses and directory alone; or it appends the file's status; the directory only grows |
| Pipeline.LoopStep | transcribe_final.py:197-243 | one pass of the loop advances the reference run by one file and raises exactly that file's counter; an interrupt is the end of the run |
| Pipeline.SweepPrefix | transcribe_final.py:197-243 | a longer run keeps a shorter run's statuses and directory, and an interrupted run is final |
| Pipeline.SweepExtends | transcribe_final.py:197-243 | no entry of the directory is ever removed or overwritten |
| Pipeline.SweepShape | transcribe_final.py:197-243 | about `Sweep`, the reference run over the first n files: without an interrupt every file gets a status; an interrupt happens at a file with no subtitle file that the user interrupted, and no later file is handled |
| Pipeline.SweepInvoked | transcribe_final.py:200-221 | the recognizer is invoked exactly on the files that are not skipped, plus the interrupted one, once each and in order |
| Pipeline.AtPosition | transcribe_final.py:197-243 | a file's status is what handling it in the directory of that moment gives |
| Pipeline.SkipWhereOutputExists | transcribe_final.py:200-204 | a file whose subtitle file existed before the run is skipped and never given to the recognizer |
| Pipeline.StatusMeaning | transcribe_final.py:209-243 | a success had no subtitle file and got a transcript, and its subtitle file now holds it; a failure had no subtitle file and got an error; after a success or a skip the subtitle file exists |
| Pipeline.ErrorsDoNotStopTheRun | transcribe_final.py:240-243 | without an interrupt every file is handled, whatever errors occur |
| Pipeline.SweepWritten | transcribe_final.py:233 | the entries of the directory after a run are the initial ones plus exactly the subtitle names of the successful files |
| Pipeline.WrittenMembers | transcribe_final.py:233 | a name was written exactly when it is the subtitle name of a successful file |
| Pipeline.UnchangedWithoutSuccess | transcribe_final.py:233-243 | a run with no success leaves the directory exactly as it was |
| Pipeline.Resume | transcribe_final.py:200-204 | a rerun over the directory a run left behind skips every file the first run did not fail, without invoking the recognizer on it |
| Pipeline.RerunSkipsAll | transcribe_final.py:200-204 | after a complete run without failures, a rerun is not interrupted and skips every file |
| Pipeline.Idempotent | transcribe_final.py:193-243 | after a complete run without failures, a rerun never invokes the recognizer, leaves the directory as it is and counts every file as skipped |
| Pipeline.ClosedForm | transcribe_final.py:197-243 | with distinct subtitle names, a file's status is what handling it in the initial directory gives |
| Pipeline.StopsAtFirstHalt | transcribe_final.py:237-239 | when the files have distinct subtitle names, a run stops exactly at the first file the user interrupts whose subtitle file was missing |
| Pipeline.SameStop | transcribe_final.py:237-239 | two runs over files with distinct subtitle names (in each run's naming), whose files halt at the same places, stop at the same place |
| Pipeline.Isolation | transcribe_final.py:240-243 | an error on one file, in place of a success or a failure, changes no other file's status and not where the run stops; that file becomes a failure, or a skip if its subtitle file existed |
| Pipeline.TranscribeFiles | transcribe_final.py:178-243 | with no media file the run reports so and touches nothing; otherwise it runs the loop over the discovered list and reports either the counters or the interrupt |
| Pipeline.MediaUnchanged | transcribe_final.py:178-183 | a run adds and removes no media file |
| Pipeline.RediscoverSame | transcribe_final.py:178-183 | discovering again after a run gives the same work list |
| Pipeline.SharedOutput | transcribe_final.py:198-204 | of two files sharing a subtitle name, the first is transcribed and the second is then skipped without invoking the recognizer |
| Pipeline.CollisionExample | transcribe_final.py:198-204 | `a.mp3` and `a.mp4` both name `a.srt`: only `a.mp3` is transcribed |

## Left out

- Times are whole milliseconds, not floating-point seconds. With binary floating point the program renders 3661.999 s as `01:01:01,998`, because `3661.999 % 1` is slightly below 0.999. The model renders 3661999 ms as `01:01:01,999`. Negative times are not modelled.
- The speech recognizer (Whisper, with `torch` and `tqdm`) is an oracle. Its options (`language='pt'`, `temperature=0.0`, `fp16=False`) are not modelled. It is given the file's name, not the absolute path the program passes.
- Pipeline.Isolation: stated only for work lists whose files have distinct subtitle names. With a shared name, an error on the first file makes the second one be transcribed instead of skipped (see Pipeline.SharedOutput).
- Pipeline.ClosedForm: stated only for work lists with distinct subtitle names, for the same reason: with a shared name a file's status depends on what happened to the earlier file of that name.
- Pipeline.StopsAtFirstHalt: stated only for work lists with distinct subtitle names. With a shared name, a file that would halt in the initial directory can be skipped because an earlier file wrote its subtitle file.
- Pipeline.SameStop: stated only for work lists with distinct subtitle names in both runs, because it rests on Pipeline.StopsAtFirstHalt.
- Srt.CreateSrtRoundTrip: stated only for segments whose stripped text holds no blank line. Such a line would end the block early for any reader.
- Srt.ParseBlockOf: stated only for a segment whose stripped text holds no blank line, for the same reason.
- Srt.CreateSrtInjective: stated only for segment lists whose stripped texts hold no blank line. Without that the file does not determine the segments (Srt.UnreadableCollision).
- Paths.OutputName: the empty name, which `with_suffix` rejects, is given `.srt`, so that the naming is total. A directory never holds an entry with an empty name.
- Pipeline.TranscribeFiles: covers the part after the model is loaded. Choosing the working directory and changing into it (lines 154-161), `get_optimal_model` and `whisper.load_model` are left out. They are configuration and I/O that decide nothing about the files.
- A keyboard interrupt is modelled only while the recognizer runs, as its answer for a file. In the program it can also arrive in the skip branch (lines 201-204, outside the `try`) or inside `create_srt` (line 233). There it can come after `open(..., 'w')` has created the subtitle file, and the partial file is then skipped on the next run. The claims that an interrupt happens at a file without a subtitle file, leaves the directory alone, and does not occur in a rerun that skips every file all rest on this.
- Partial writes are not modelled. An error raised while `create_srt` writes leaves the directory as it was, although the program may leave a partial subtitle file behind. A partial file would then count as existing on the next run.
- Console output is not modelled: the progress lines, the summary and the messages of `main` (lines 256-282). Neither are the exit codes, the SSL certificate fix, dependency installation or the ffmpeg check. None of them changes which files are processed or what is written.
- The `Interrupted` report carries no counters, because on an interrupt the program re-raises and never prints the summary.
- Names are single path components in one flat directory, with `PosixPath` semantics only. The program also runs on Windows and macOS.
- On Windows, `Path.glob` matches case-insensitively, so `clip.MOV` would be found. `WindowsPath` objects also compare case-insensitively, so `a.mp4` sorts before `B.mp4`. Neither is modelled.
- On macOS's usual case-insensitive file system, glob still matches the stored names case-sensitively, but `exists()` at line 201 does not. There an existing `a.SRT` makes `a.mp4` a skip. This is not modelled.
