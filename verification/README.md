# recapp / wavstomp in Dafny

A model of the sequential logic inside the two programs of the recapp
repository, with proofs of what that logic promises.

* **The live flag recorder** (app/recapp2.py, and its earlier version
  app/recapp.py). An experimenter starts a recording for a participant and
  a condition (A, B or C). They flag the end of each spoken question and
  the end of each answer. On Stop, every event id with both a question
  time and an answer time is appended to `flagged_events.csv` as
  `participant, condition, E<id>, question, answer, answer − question`.
  A restart resumes the event id from the rows already in the file.
  recapp2 adds a question number (1 to 30, moved with the arrow keys).
  Return plays that question's audio and flags the question automatically.
* **The batch script** (scripts/wavstomp.py). It walks the recordings and
  merges loud sample indices into speech runs. It labels the runs
  Question, Answer, Question, … and pairs each Answer with the Question
  before it. It sorts all the rows by (participant, condition, event
  number).

Modules, one file each:

- wrappers.dfy, module `Wrappers`: `Option`
- strings.dfy, module `Strings`: `str.strip`, `str.split`, `'_'.join`, `os.path.basename`, Python's string `<`
- event_ids.dfy, module `EventIds`: the `E<n>` id: `f"E{n}"` and `int(text[1:])`
- records.dfy, module `Records`: spans, labelled segments, pairs, the six-column log row
- session.dfy, module `Session`: the recorder's state and every handler both versions share, `save_flagged_events`, `load_last_event_id`
- recapp.dfy, module `Recapp`: recapp.py as a sequence of presses (Start, Stop, Flag Question, Flag Answer)
- recapp2.dfy, module `Recapp2`: recapp2.py as a sequence of presses (adds Return and the arrow keys)
- segmenter.dfy, module `Segmenter`: the run-merging loop of `detect_speech_segments`, the labelling of `analyze_audio`
- pairing.dfy, module `Pairing`: the Question/Answer pairing loop of `save_segments_to_csv` and `process_directory`
- ordering.dfy, module `Ordering`: the stable sort of `process_directory` by `(x[0], x[1], int(x[2][1:]))`
- file_names.dfy, module `FileNames`: the recording's file name and `extract_info_from_filename`
- batch.dfy, module `Batch`: `analyze_audio`, `save_segments_to_csv`, `process_directory`

Units:

* Times on the live path are integer hundredths of a second. They are
  passed in as a parameter instead of `time.time() - start_time`.
* Times on the batch path are sample indices.
* Every difference is therefore exact.

The CSV file is the sequence of its data rows. A missing or unreadable
file is the empty sequence, which is also what the `except` around
`load_last_event_id` falls back to.

Behaviour of the code as written that the model keeps and proves:

* `flag_answer` is accepted as the very first flag of a session.
* `auto_flag_end_of_question` ignores `last_flagged`. It can therefore
  flag a question twice in a row, and overwrites the first time.
* Stop does not clear the two maps. A start with the same participant and
  condition keeps them too, so a second Stop appends the same rows again.
* A participant id containing `_` does not survive the round trip through
  the file name.
* In `process_directory` the remembered question time carries over from
  one file into the next. On labelled input that never reaches a row.

## Model

| member | source | states |
|---|---|---|
| Session.Init | app/recapp2.py:22-33 | The recorder starts idle at event 1 with no flag and empty maps, so the key bound and the question range hold from the start. |
| Session.FlagQuestion | app/recapp2.py:241-248 | Accepted exactly when recording and the last flag was not a question. It then stores the time under the current event id, keeps every other question time, and sets `last_flagged` to question. It leaves the event id, the answer times and the session unchanged. Otherwise nothing changes. The same code is at app/recapp.py:195-202. |
| Session.FlagAnswer | app/recapp2.py:250-258 | Accepted exactly when recording and the last flag was not an answer, so also from the initial no-flag state. It then stores the time under the current event id, advances the id by exactly one, and sets `last_flagged` to answer. It leaves the question times unchanged. Otherwise nothing changes. The same code is at app/recapp.py:204-212. |
| Session.AutoFlagEndOfQuestion | app/recapp2.py:219-226 | While recording, whatever `last_flagged` is, it stores or overwrites the question time of the current event and sets `last_flagged` to question. It never touches the event id or the answer times. When not recording nothing changes. |
| Session.PreviousQuestion | app/recapp2.py:228-231 | Moves the question number down by one unless it is at 1. Nothing else in the state changes. |
| Session.NextQuestion | app/recapp2.py:233-236 | Moves the question number up by one unless it is at 30. Nothing else in the state changes. |
| Session.NavigationInRange | app/recapp2.py:228-236 | Both arrow keys keep the question number within 1 to 30. |
| Session.NextThenPrevious | app/recapp2.py:228-236 | Right then Left returns to the same state below question 30. |
| Session.PreviousThenNext | app/recapp2.py:228-236 | Left then Right returns to the same state above question 1. |
| Session.ValidateNumericInput | app/recapp2.py:116-117 | Accepts exactly the strings in which every character is a digit. `isdigit()` rejects the empty string and the `or input == ''` admits it back, so the two disjuncts together cover every all-digit string. The same code is at app/recapp.py:106-107. |
| Session.NumericInputAcceptsNumbers | app/recapp2.py:116-117 | Every event or participant number typed in decimal passes the filter. A sign or letter before or after it is refused. |
| Session.ValidateLetterCondition | app/recapp2.py:119-120 | Accepts exactly "A", "B", "C" and the empty string. The same code is at app/recapp.py:109-110. |
| Session.StartRecording | app/recapp2.py:128-149 | An empty stripped participant or a stripped condition outside A/B/C leaves everything unchanged. Otherwise recording starts under the stripped pair. The same pair keeps the maps, the event id and `last_flagged`. A different pair empties both maps, clears `last_flagged` and resumes the id with `load_last_event_id` on the log. The log is never written. The same code is at app/recapp.py:118-140. |
| Session.StopRecording | app/recapp2.py:170-202 | When recording, it stops and appends the session's saved rows to the log, leaving the maps as they are. When not recording nothing changes. |
| Session.SortedIds | app/recapp2.py:264 | `sorted(set(...))`: every id of the set exactly once, strictly ascending. |
| Session.PairsOf | app/recapp2.py:264-271 | Over a list of ids, a pair comes from an id in the list and takes its times from the two maps, with delta = answer − question. Every listed id present in both maps gets a pair. Ascending ids give ascending pairs. |
| Session.PairTimes | app/recapp2.py:264-271 | The pairs are in strictly ascending id order. There is exactly one per id present in both maps, and ids present in only one map are dropped. Times come from the maps, with delta = answer − question. The same code is at app/recapp.py:218-225. |
| Session.SaveFlaggedEvents | app/recapp2.py:260-273 | One row per pair, in the same order. Each row carries the session's participant and condition and an id text that reads back as the pair's id. Its question and answer times are that id's entries in the two maps, and its delta is answer − question. |
| Session.SavedIdsBelowEventId | app/recapp2.py:264-271 | Under the key bound every saved id is below the current event id. The event in progress is never written. |
| Session.ScanLength | app/recapp2.py:283-291 | The scan stops at the first row of the pair whose id text has no integer after its first character, the row where `int()` raises. Every matching row before it parses. |
| Session.MaxMatching | app/recapp2.py:286-289 | The fold of `max` over the rows of the pair: an upper bound of every matching id, and, when positive, the id of some matching row. |
| Session.LoadLastEventId | app/recapp2.py:281-292 | The resumed id is at least 1. Every id of this participant and condition that the scan reads is below it, and when it is above 1 the scan read a row with exactly the previous id. So it is one more than the largest id read, or 1 when there is none. |
| Session.LoadLastEventIdLoop | app/recapp2.py:281-292 | The loop with its early exit on the exception computes one more than the largest matching id before the failing row. The same code is at app/recapp.py:235-248. |
| Session.LoadWithoutMatches | app/recapp2.py:281-292 | With no row of this participant and condition the event id restarts at 1. |
| Session.LoadExceedsScannedIds | app/recapp2.py:281-292 | In a log the scan gets through, every matching row's id is below the resumed event id. |
| Session.ScanAllParsed | app/recapp2.py:286-289 | When every matching row's id parses, the scan reads the whole log. |
| Session.LoadAfterAppend | app/recapp2.py:281-292 | After appending parseable rows of the pair to a fully readable log, the load resumes above every appended id. |
| Session.LoadAfterSave | app/recapp2.py:260-292 | After a save onto a fully readable log, a fresh start for the same pair resumes above every id just written. |
| Session.FlagsKeepKeysBounded | app/recapp2.py:219-258 | Flag Question, Flag Answer, the automatic flag and both arrow keys keep the bound: answer keys are below the event id, question keys at most the event id. |
| Session.StartStopKeepKeysBounded | app/recapp2.py:139-147 | Start, including the reset and resume path, and Stop keep the same key bound. |
| Recapp.Step | app/recapp.py:118-212 | Only Stop writes to the log, and it appends exactly the session's saved rows. No press moves a question number. |
| Recapp.EventIdChanges | app/recapp.py:130-138 | The event id changes only when an answer is accepted, by exactly one, or when a start with a new pair resumes it from the log. |
| Recapp.StepKeepsKeysBounded | app/recapp.py:130-212 | Every press keeps the key bound. |
| Recapp.RunKeepsKeysBounded | app/recapp.py:130-212 | Any sequence of presses keeps the key bound. |
| Recapp.FlagsAlternate | app/recapp.py:195-212 | In the first version, which has no automatic flag, accepted flags strictly alternate question/answer between fresh starts, and the trace ends in `last_flagged`. |
| Recapp.StopStartStopRepeatsRows | app/recapp.py:130-189 | Stop, Start with the same entries, Stop appends the session's rows twice, because the maps are never cleared. |
| Recapp.ExampleSession | app/recapp.py:118-227 | Start "12"/"B" on an empty log, flag question at 2.00 s and again at 2.50 s (ignored), answer at 5.25 s, Stop: the log is one row `12, B, E1, 200, 525, 325`. |
| Recapp2.Step | app/recapp2.py:128-258 | Only Stop writes to the log, and it appends exactly the session's rows. An arrow key changes nothing but the question number. |
| Recapp2.StepKeepsInvariant | app/recapp2.py:139-258 | Every press, the automatic flag included, keeps the key bound and the question range. |
| Recapp2.RunKeepsInvariant | app/recapp2.py:139-258 | Any sequence of presses keeps the key bound and the question range. |
| Recapp2.AnswersNeverRepeat | app/recapp2.py:219-258 | With the automatic flag, two question flags can follow each other, but an answer is never accepted right after an answer. The trace ends in `last_flagged`. |
| Recapp2.PlayAfterQuestionFlag | app/recapp2.py:208-226 | After a fresh start, a manual question flag at 2.00 s and Return at 3.50 s flag the question again, and 3.50 replaces 2.00. |
| Recapp2.PlayAfterQuestionFlagTrace | app/recapp2.py:219-248 | The same presses put two question marks side by side in the flag trace. |
| EventIds.FormatNat | scripts/wavstomp.py:62 | The decimal text of a number is canonical: only digits, with no leading zero except for 0 itself. |
| EventIds.ParseInt | app/recapp2.py:288 | `int()` on an optional sign and ASCII digits. Every non-empty digit string parses to a non-negative number. |
| EventIds.FormatEventId | scripts/wavstomp.py:62 | `f"E{n}"` is an `E` followed by the canonical decimal text of n. |
| EventIds.EventIdRoundTrip | scripts/wavstomp.py:127 | `int(f"E{n}"[1:]) == n` for every n. |
| EventIds.EventIdFormatParse | app/recapp2.py:288 | The reverse direction: a canonical `E<digits>` text is re-created by formatting its parsed number. |
| EventIds.FormatEventIdInjective | scripts/wavstomp.py:62 | Different numbers give different id texts. |
| Records.ToRow | app/recapp2.py:271 | The written row carries the participant, condition and times unchanged, and an id text that reads back as the pair's id. |
| Records.ToRows | scripts/wavstomp.py:62 | One row per pair, in order. Each row carries the given participant and condition, an id text that reads back as its pair's id, and its pair's question time, answer time and delta unchanged. |
| Strings.Strip | app/recapp2.py:129-130 | The stripped text is a slice of the entry with only whitespace before and after it. It has no whitespace at either end, and it is empty exactly when the entry is all whitespace. |
| Strings.StripIdempotent | app/recapp2.py:129-130 | Stripping twice is stripping once. |
| Strings.Split | scripts/wavstomp.py:83 | At least one piece, none containing the separator, and joining the pieces with the separator gives the input back. |
| Strings.SplitJoin | scripts/wavstomp.py:83 | The reverse direction: splitting a join of separator-free pieces gives the pieces back. |
| Strings.Basename | scripts/wavstomp.py:82 | The basename is the suffix after the last '/' and contains none. |
| Strings.BasenameOfPath | scripts/wavstomp.py:82 | The basename of `dir/name` is `name` when `name` has no '/'. |
| Strings.StrLessTransitive | scripts/wavstomp.py:127 | Python's string `<` is transitive. |
| Strings.StrLessTotal | scripts/wavstomp.py:127 | Python's string `<` orders any two different strings. |
| Segmenter.Runs | scripts/wavstomp.py:22-30 | The reference split of the active indices into runs. It lays them end to end with no run empty, no gap inside a run wider than the silence gap, and every gap between runs wider. |
| Segmenter.RunSplitUnique | scripts/wavstomp.py:22-30 | That description fixes the split: every active index belongs to exactly one determined run. |
| Segmenter.Advance | scripts/wavstomp.py:23-30 | One pass of the loop body keeps the loop's state: the runs read so far split the prefix, and the output holds the closed runs that passed the length test. |
| Segmenter.ScanFinish | scripts/wavstomp.py:33-34 | The final run is flushed under the same length test as the interior ones, which gives exactly the reference result. No active index gives no segment. |
| Segmenter.DetectSpeechSegments | scripts/wavstomp.py:18-36 | The loop computes the reference result. Every segment starts and ends on an active index and lasts at least the minimum, so start ≤ end. On increasing input each segment starts more than the gap after the previous one ends. |
| Segmenter.SpeechSegmentsShape | scripts/wavstomp.py:18-36 | The same shape for the reference result: nothing from no active index, endpoints on active indices, the minimum length, and separation by more than the gap on increasing input. |
| Segmenter.RunsOrdered | scripts/wavstomp.py:25-30 | On increasing input every run starts more than the gap after every earlier run ends. |
| Segmenter.KeepSeparated | scripts/wavstomp.py:27-30 | Dropping short runs keeps the surviving segments separated by more than the gap. |
| Segmenter.Label | scripts/wavstomp.py:43-45 | Labelling keeps the count, order and times. The first segment is a Question and the kinds alternate. |
| Segmenter.SilenceGapSamples | scripts/wavstomp.py:25 | The gap in samples is ⌊0.4 × rate⌋. For every integer distance d, the real comparison d > 0.4 × rate holds exactly when d > gap, so the loop's `i > current_end + sr * min_silence_len` is the integer test `i − end > gap`. |
| Segmenter.MinSegmentSamples | scripts/wavstomp.py:27 | The minimum in samples is ⌈0.1 × rate⌉. For a positive rate and every integer d, the real test d / rate >= 0.1 holds exactly when d >= minimum, so `(current_end - current_start) / sr >= min_segment_len` is the integer test `end − start >= minimum`. |
| Pairing.PairSegments | scripts/wavstomp.py:55-63 | At most one record per Answer, and exactly one per Answer when a question time is already remembered before the first segment. Ids are consecutive from the first id, and delta = answer end − question end. |
| Pairing.PairSegmentsSnoc | scripts/wavstomp.py:57-63 | The definition agrees with running the loop left to right, one segment at a time. A Question replaces the remembered time. An Answer pairs with the most recent Question's end. |
| Pairing.PairLabelled | scripts/wavstomp.py:43-63 | On labelled input of n segments the loop emits exactly ⌊n/2⌋ records. Record j pairs the end of segment 2j with the end of segment 2j+1, and a previously remembered question time never reaches a record. |
| Ordering.KeyOf | scripts/wavstomp.py:127 | The sort key exists exactly when the id text parses. It carries the row's participant and condition. |
| Ordering.KeyLessTransitive | scripts/wavstomp.py:127 | The tuple comparison is transitive. |
| Ordering.KeyLessTotal | scripts/wavstomp.py:127 | The tuple comparison orders any two different keys. |
| Ordering.KeyLessAsymmetric | scripts/wavstomp.py:127 | The tuple comparison is asymmetric. |
| Ordering.SortKeyed | scripts/wavstomp.py:127 | The sort returns a permutation of its input in non-decreasing key order. |
| Ordering.SortRows | scripts/wavstomp.py:127 | The sort fails exactly when some id text does not parse, where `int()` raises. Otherwise it returns a permutation of the rows in non-decreasing (participant, condition, number) order. For every key, the rows carrying it come out in the order they went in, as Python's stable `sort` keeps them. |
| Ordering.SortStable | scripts/wavstomp.py:127 | Stability of the sort on key-decorated rows: entries with equal keys keep their relative order. |
| Ordering.SortSortedIsIdentity | scripts/wavstomp.py:127 | Already sorted input comes back unchanged. |
| Ordering.SortIdempotent | scripts/wavstomp.py:127 | On key-decorated rows, sorting the result again changes nothing. |
| Ordering.SortRowsIdempotent | scripts/wavstomp.py:127 | Sorting the sorted rows again gives the same rows. |
| Ordering.StableSortRowsUnique | scripts/wavstomp.py:127 | Any rows in key order that keep every key's rows in their input order are exactly the sort's output. Order together with stability therefore fixes the result, including the order of equal-key rows. |
| Ordering.StableSortUnique | scripts/wavstomp.py:127 | Two key-sorted lists with the same rows per key in the same order are equal, so a stable sort has only one possible result. |
| Ordering.StableSortIsSortKeyed | scripts/wavstomp.py:127 | Any stable sorted rearrangement equals this sort's result, whatever algorithm produced it. |
| FileNames.ExtractInfo | scripts/wavstomp.py:81-86 | Succeeds exactly when the basename has at least three `_`-pieces and the third has at least two characters, where indexing would otherwise raise. The participant then has no `_` and the condition is one character. |
| FileNames.RecordingFileNameSpelled | app/recapp2.py:190 | The recorder's name is `recording_<participant>_C<condition>_<seconds>.wav`, character for character. |
| FileNames.RecordingFileNameIsWav | app/recapp2.py:190 | Every recording passes the `.wav` filter of the batch script. |
| FileNames.ExtractRecordingInfo | scripts/wavstomp.py:81-86 | The round trip: from any directory, the participant comes back whole and the condition as its first character, when neither contains `_` or `/`. |
| FileNames.ExtractRecordingInfoExact | scripts/wavstomp.py:81-86 | For the conditions A, B, C that Start accepts, the round trip is exact. |
| FileNames.UnderscoreInParticipant | scripts/wavstomp.py:81-86 | Participant `7_12` with condition A comes back as participant `7`, condition `2`. |
| FileNames.EmptyConditionRejected | scripts/wavstomp.py:81-86 | An empty condition leaves the third piece one character long, and extraction fails. |
| Batch.AnalyzeAudio | scripts/wavstomp.py:38-47 | The labelled segments are the detected runs in order. The first is a Question and the kinds alternate. |
| Batch.SaveSegmentsToCsv | scripts/wavstomp.py:49-63 | At most one row per Answer. Row j carries the file's participant and condition, the id `E<j+1>`, and delta = answer − question. |
| Batch.SaveAnalyzed | scripts/wavstomp.py:38-63 | On a file's analysis the rows are the ⌊n/2⌋ alternating pairs numbered from E1. |
| Batch.Collect | scripts/wavstomp.py:102-119 | The walk over the files as `os.walk` yields them, carrying the remembered question time from file to file. It aborts exactly when some `.wav` name cannot be taken apart, and every row it gathers has an id text that reads back as a number. |
| Batch.CollectIsExpected | scripts/wavstomp.py:102-119 | The walk succeeds exactly when every `.wav` name parses, and then it gathers the reference rows whatever question time it starts with. |
| Batch.ExpectedRowsKeyed | scripts/wavstomp.py:112-127 | Every gathered row has an `E<n>` id, so the sort key never fails. |
| Batch.ProcessDirectory | scripts/wavstomp.py:88-133 | The batch run up to the write-out. It fails exactly when some `.wav` name cannot be taken apart. Otherwise it outputs the gathered rows rearranged into non-decreasing (participant, condition, event number) order. Rows with equal keys keep the order the walk gathered them in; such rows come from two recordings of one participant and condition, whose ids both start at E1. |
| Batch.ProcessDirectoryCorrect | scripts/wavstomp.py:88-133 | The batch run fails exactly when some `.wav` name cannot be taken apart. Otherwise its output is the stable sort of the reference rows: a permutation in non-decreasing (participant, condition, event number) order that keeps equal-key rows in the order the walk met them. |

## Left out

- The tkinter interface: widgets, button enabling, key bindings, `update_clock`, `set_app_icon` and message boxes. The `q`/`a` keys call the same handlers as the buttons.
- Audio I/O: sounddevice streams, `audio_callback`, WAV writing, `AudioPlayer` and playback. Whether `<n>.wav` exists is the `audioExists` field of the Return event.
- `create_participant_directory`, `ensure_csv_file_exists` and the CSV header line. These are file-system effects; the header is not a data row.
- `time.time()`. Elapsed time is an event parameter in hundredths. The seconds stamp in the file name is a parameter too.
- The `.2f` text of stored times and the float arithmetic of `save_flagged_events`. Times stay integers. The check `if question_time and answer_time` is presence in both maps, since a stored time text is never empty.
- The float front half of `detect_speech_segments`: absolute value, normalising, mean, deviation, threshold and `np.where`. The model starts from the list of active indices, and the division by zero on silent audio is not modelled.
- `librosa.load` and `plot_segments`, which are foreign libraries and rendering. A recording is given by its name, rate and active indices.
- The division by the sample rate in `analyze_audio` and the `.2f` formatting when rows are written. Batch times stay in samples.
- `os.walk` order. The files come as a sequence in whatever order the walk yields.
- recapp.py has no question number. Its model shares the session record and never changes that field.
- EventIds.ParseInt: `int()` also accepts surrounding whitespace, `_` between digits and non-ASCII digits. These are not accepted here, because every id text the programs write is `E` plus ASCII digits.
- Session.ValidateNumericInput: `str.isdigit()` also accepts non-ASCII digits. This accepts the ASCII ones only.
- Segmenter.SilenceGapSamples: the equivalence is stated for exact real arithmetic. The rounding of the float product `sr * 0.4` is not modelled.
- Segmenter.MinSegmentSamples: the equivalence is stated for exact real arithmetic and a positive rate. The rounding of the float quotient is not modelled, and neither is the division by zero at rate 0.
- Strings.Split: `os.path.basename` and `split` are modelled for POSIX paths, with '/' as the only separator.
