# NEJM Image Challenge benchmark scripts, modelled in Dafny

The scripts run the NEJM Image Challenge cases past vision-language models
and collect their answers. This project models the sequential pipeline that
sits underneath the SDK calls:

- **Image encoding.** `process_and_encode_image` tries at most five sizes,
  each `int(orig * f^k)`, and returns the first JPEG below 20 MiB. Otherwise
  it raises.
- **Image selection.** `encode_images_from_paths` keeps only images larger
  than 150 × 150 pixels.
- **Provider retry loops.** The Gemini and Claude retry loops are bounded
  state machines, driven by a scripted provider. The provider maps each
  invocation index to an outcome: a reply or an exception message.
- **Result extraction.**
  - `extract_json_data` takes the brace span of the reply and passes it to
    an abstract JSON decoder.
  - Claude's script passes the whole reply to `json.loads`.
  - The integration script reads five fields with a regular expression. That
    expression is modelled by a small backtracking matcher, proved sound and
    complete against a declarative matching relation, and its search proved
    to return the leftmost accepting position.
- **Per-case steps of each runner's `main`.**
  - Skip the case when its result file exists.
  - Upsert the timing row.
  - Write the result file when the reply is truthy.
  - Append a parsed row.
  - Write the results workbook and the timing workbook at the end.
- **Summary workbooks.** The integration script writes one summary sheet per
  model folder, 272 rows each, and then combines them into one workbook.
- **PPTX preprocessor.**
  - Filter slide texts.
  - Select and number the pictures.
  - Write the image files.
  - Build the picture × text table.

Modules, in dependency order:

- `Wrappers`: `Option` and `Result`.
- `Text`: the Python string built-ins the scripts use.
- `Encoder`
- `JsonExtract`
- `Timing`: the `number, temperature, try, time` table.
- `Naming`: folder and file names.
- `Tables`: reading the timing workbook and the row fields.
- Retry loops: `GeminiRetry` and `ClaudeRetry`.
- Runners: `GeminiRunner` (both Gemini scripts; they differ in the keys of a row and in how the row's frame is built) and `ClaudeRunner`.
- `Regex`
- `Integration`
- `Slides`: the PPTX preprocessor.

What the model takes as parameters or abstracts:

- The JPEG size of a `w × h` image is a function parameter.
- The resize factor is a rational.
- The JSON decoder is a function parameter.
- The files on disk are maps from path to contents.
- Workbooks are sequences of rows.
- Elapsed times are opaque values that the provider supplies.
- A deck is a sequence of slides, and each slide is a sequence of shapes.

Deliberate modelling choices:

- **Runner state.** Each runner is imperative: a `State` value threaded
  through methods, one per loop. Each method's `ensures` equals a
  specification function, and the lemmas are stated about that function.
- **Integration and preprocessor state.** They update a `Files` or `Disk` value.
- **Crashes.** An uncaught exception ends the run in a `Crashed` status.
  `sys.exit` ends it in an `Aborted` status.

Where the scripts' own description and the code differ, the model follows the code:

- An encoding error propagates out of `main` and ends the run (`Crashed(EncodeFailed(..))`). It is not a per-case failure.
- In both Gemini scripts, `[result, execution_time] = None` raises when the retry loop returns `None`. The run ends there; the case is not logged and skipped.
- A reply that does not parse adds no row to the results workbook. No blank row is added.
- Every run rewrites the results workbook with only the rows of that run. A full resume therefore leaves it empty (`RerunEmptiesResultsBook`).
- Exceptions other than the named ones are retried as well.
- The Gemini `"SAFETY"` branch tests an upper-case word against a lower-cased message, so it never fires (`GeminiRetry.SafetyBranchUnreachable`).
- Claude's script encodes the case images, but they are commented out of the request, so the request never includes them. `ClaudeRetry` records the image list the loop holds at each invocation; it does not model the request's contents.

## Model

| member | source | states |
|---|---|---|
| Encoder.ScaleShrinks | imgonly_task/2.2.2.gemini1.5-flash-img_only.py:48-49 | with a factor of at most one, each attempt's `int(orig * f^k)` is no larger than the attempt before |
| Encoder.FirstFit | imgonly_task/2.2.2.gemini1.5-flash-img_only.py:46-54 | a found attempt is below five, at or after the starting attempt, and its encoding is under 20 MiB |
| Encoder.FirstFitFrom | imgonly_task/2.2.2.gemini1.5-flash-img_only.py:46-54 | the search returns attempt j exactly when j fits and no attempt between the start and j fits |
| Encoder.FirstFitNone | imgonly_task/2.2.2.gemini1.5-flash-img_only.py:46-61 | the search fails exactly when no attempt from the start up to four fits |
| Encoder.EncodeIsFirstFit | imgonly_task/2.2.2.gemini1.5-flash-img_only.py:35-61 | the encoder returns an encoding iff the image's mode, after the RGBA-to-RGB conversion, is one JPEG stores and the encoding is the first of the five attempts below 20 MiB |
| Encoder.EncodeBound | imgonly_task/2.2.2.gemini1.5-flash-img_only.py:53-61 | a returned encoding is below 20 MiB; the size error is raised iff the mode is storable and all five attempts are at or above the ceiling; the `OSError` of `save` is raised, naming the mode, iff the converted mode is not storable |
| Encoder.FirstAttemptIsOriginal | imgonly_task/2.2.2.gemini1.5-flash-img_only.py:41-49 | attempt 0 uses the original width and height |
| Encoder.ProcessAndEncodeImage | imgonly_task/2.2.2.gemini1.5-flash-img_only.py:35-61 | the five-attempt loop, after the RGBA conversion, returns what the first-fit specification gives, the size error, or the write error of the first `save` |
| Encoder.EncodeProduces | imgonly_task/2.2.2.gemini1.5-flash-img_only.py:46-54 | every encoding the encoder returns is one the size function could produce at its own dimensions |
| Encoder.ReencodeProducedIsIdentity | imgonly_task/2.2.2.gemini1.5-flash-img_only.py:88-92 | re-encoding an encoder output restarts at attempt 0 and gives back an encoding with the same dimensions and modelled size |
| Encoder.ReencodeAllPointwise | imgonly_task/2.2.2.gemini1.5-flash-img_only.py:88-92 | a successful re-encode of a list keeps its length and re-encodes each image in place; it fails iff some image fails |
| Encoder.ReencodeAllProduced | imgonly_task/2.2.2.gemini1.5-flash-img_only.py:88-97 | re-encoding a list of encoder outputs gives back the same dimensions and modelled sizes, in order |
| Encoder.ReencodeAllProduces | imgonly_task/2.2.2.gemini1.5-flash-img_only.py:88-92 | a re-encoded list consists of encoder outputs |
| Encoder.ReencodeAllStep | imgonly_task/2.2.2.gemini1.5-flash-img_only.py:89-92 | the re-encode of a suffix is the head's encoding put before the rest, or the first error |
| Encoder.ReencodeImages | imgonly_task/2.2.2.gemini1.5-flash-img_only.py:88-92 | the re-encoding loop computes the list re-encode |
| Encoder.EncodeFromOnePath | imgonly_task/2.2.2.gemini1.5-flash-img_only.py:148-155 | a single path gives that image's encoding when it is over 150 × 150 and the empty list when it is not |
| Encoder.EligibleImages | imgonly_task/2.2.2.gemini1.5-flash-img_only.py:151-152 | the kept images are no more than the paths and each is over 150 × 150 |
| Encoder.EncodeFromPathsOk | imgonly_task/2.2.2.gemini1.5-flash-img_only.py:144-155 | on success every path exists and the output is exactly the large-enough images, in input order, each encoded |
| Encoder.EncodeFromPathsFirstError | imgonly_task/2.2.2.gemini1.5-flash-img_only.py:144-155 | the error raised belongs to the first path that does not pass: its `FileNotFoundError` when missing, otherwise its encoder error; every earlier path exists and is too small or encodes |
| Encoder.EncodeFromPathsErr | imgonly_task/2.2.2.gemini1.5-flash-img_only.py:149-153 | an error is a missing input path, or the size or write error of a large-enough image whose converted mode the write error names |
| Encoder.EncodeFromPathsProduces | imgonly_task/2.2.2.gemini1.5-flash-img_only.py:144-155 | what `encode_images_from_paths` returns is encoder output |
| Encoder.EncodeImagesFromPaths | imgonly_task/2.2.2.gemini1.5-flash-img_only.py:144-155 | the path loop computes the filter-and-encode specification |
| GeminiRetry.SafetyBranchUnreachable | 1.2.2.gemini1.5-flash-NEJM-ImgChallenge.py:101-113 | whatever the exception text, the handler retries with the images unchanged, because `"SAFETY"` never occurs in a lower-cased string |
| GeminiRetry.StepOutcome | imgonly_task/2.2.2.gemini1.5-flash-img_only.py:82-113 | one attempt returns a long reply with its time, re-encodes all images at 0.9 after a short reply, and retries unchanged after an exception; the image list keeps its length |
| GeminiRetry.FirstAcceptedIsFirst | imgonly_task/2.2.2.gemini1.5-flash-img_only.py:71-100 | the reference search finds an accepted outcome with none accepted before it, or none among the invocations looked at |
| GeminiRetry.LoopIsFirstAccepted | imgonly_task/2.2.2.gemini1.5-flash-img_only.py:71-114 | the loop returns the first accepted reply among its remaining attempts and makes exactly up to that many invocations |
| GeminiRetry.AnalyzeIsFirstAccepted | imgonly_task/2.2.2.gemini1.5-flash-img_only.py:63-114 | the call raises nothing, makes at most ten invocations and returns the first reply that is not a short string, with its time |
| GeminiRetry.AnalyzeNoneIffAllRejected | imgonly_task/2.2.2.gemini1.5-flash-img_only.py:70-114 | `None` comes back iff all ten invocations were short replies or exceptions, after ten invocations |
| GeminiRetry.LoopSendsSameImages | imgonly_task/2.2.2.gemini1.5-flash-img_only.py:74-97 | with encoder-produced images, every invocation of the loop sends images of the same dimensions and modelled size |
| GeminiRetry.AnalyzeSendsEncoderOutput | imgonly_task/2.2.2.gemini1.5-flash-img_only.py:74-97 | when the images come from the encoder, each invocation sends images of the same dimensions and modelled size, even after a re-encode |
| GeminiRetry.HandleException | imgonly_task/2.2.2.gemini1.5-flash-img_only.py:101-113 | the `except` handler computes the handler specification |
| GeminiRetry.AnalyzeImagesWithGemini | imgonly_task/2.2.2.gemini1.5-flash-img_only.py:63-114 | the retry loop computes the retry specification |
| ClaudeRetry.IndexErrorIsOrdinary | 3_no-img_task/3.3.claude3v-opus-no-img-task.py:110-144 | the IndexError of an empty reply is neither a quota nor a parse error, so it is retried |
| ClaudeRetry.StepOutcome | 3_no-img_task/3.3.claude3v-opus-no-img-task.py:94-144 | one attempt returns an answer, quits on a quota error, re-encodes at 0.9 after a parse error before the last attempt, and otherwise retries unchanged |
| ClaudeRetry.SorryRetriesUnchanged | 3_no-img_task/3.3.claude3v-opus-no-img-task.py:110-112 | a reply starting with "I'm sorry, but" consumes an attempt and leaves the images unchanged |
| ClaudeRetry.FirstDecisive | 3_no-img_task/3.3.claude3v-opus-no-img-task.py:81-136 | the first invocation that ends the loop lies among the invocations looked at |
| ClaudeRetry.FirstDecisiveIsFirst | 3_no-img_task/3.3.claude3v-opus-no-img-task.py:81-136 | the found invocation answers or exceeds the quota, and no earlier one does; without one, none does |
| ClaudeRetry.ExpectedStep | 3_no-img_task/3.3.claude3v-opus-no-img-task.py:110-144 | an invocation that neither answers nor exceeds the quota moves the expected outcome one invocation on |
| ClaudeRetry.ExpectedDecisive | 3_no-img_task/3.3.claude3v-opus-no-img-task.py:131-136 | an answer or a quota error ends the expected outcome at that invocation |
| ClaudeRetry.LoopIsExpected | 3_no-img_task/3.3.claude3v-opus-no-img-task.py:81-146 | with encoder-produced images the loop has the expected outcome: the first decisive invocation decides, otherwise `None` |
| ClaudeRetry.AnalyzeIsExpected | 3_no-img_task/3.3.claude3v-opus-no-img-task.py:74-146 | with encoder-produced images the call has the expected outcome: the first answer is returned, the first quota error exits, and every invocation holds images of the original dimensions and modelled size |
| ClaudeRetry.AnalyzeOutcome | 3_no-img_task/3.3.claude3v-opus-no-img-task.py:74-146 | in the modelled encoding (where a re-encode of encoder output cannot fail) no exception escapes, at most ten invocations are made, `None` comes back exactly when none of ten invocations answers or exceeds the quota, and the measured time covers every invocation |
| ClaudeRetry.AnalyzeSpent | 3_no-img_task/3.3.claude3v-opus-no-img-task.py:80-146 | a call that returns took the summed time of all the invocations it made |
| ClaudeRetry.AnalyzeQuotaExits | 3_no-img_task/3.3.claude3v-opus-no-img-task.py:131-136 | a quota error before any answer exits right after that invocation |
| ClaudeRetry.AnalyzeNoDecisive | 3_no-img_task/3.3.claude3v-opus-no-img-task.py:80-146 | ten invocations without an answer or a quota error give `None` after all ten, timed with their summed time |
| ClaudeRetry.ScriptBodyDecides | 3_no-img_task/3.3.claude3v-opus-no-img-task.py:94-144 | on encoder-produced images, every attempt returns an answer, quits on a quota error, or retries with images of the same dimensions and modelled size |
| ClaudeRetry.LoopNext | 3_no-img_task/3.3.claude3v-opus-no-img-task.py:80-144 | one pass of the loop continues with the body's decision: a retry moves to the next attempt, an answer returns, a quota error exits, an escaping error leaves |
| ClaudeRetry.LoopBound | 3_no-img_task/3.3.claude3v-opus-no-img-task.py:80-81 | whatever the images, the loop makes at most its remaining number of attempts |
| ClaudeRetry.AnalyzeBound | 3_no-img_task/3.3.claude3v-opus-no-img-task.py:80-146 | the call makes at most ten invocations |
| ClaudeRetry.HandleException | 3_no-img_task/3.3.claude3v-opus-no-img-task.py:132-144 | the `except` handler computes the handler specification |
| ClaudeRetry.Attempt | 3_no-img_task/3.3.claude3v-opus-no-img-task.py:94-144 | one pass of the loop body computes the one-attempt specification |
| ClaudeRetry.AnalyzeImagesWithClaude | 3_no-img_task/3.3.claude3v-opus-no-img-task.py:74-146 | the retry loop computes the retry specification |
| JsonExtract.BraceSpan | imgonly_task/2.2.2.gemini1.5-flash-img_only.py:162-164 | there is no span iff a brace is missing; otherwise it runs from the first `{` to just past the last `}` |
| JsonExtract.BraceSpanOfParts | imgonly_task/2.2.2.gemini1.5-flash-img_only.py:162-164 | for a prefix without `{`, a span that starts with `{` and ends with `}`, and a suffix without `}`, the span is exactly that middle part |
| JsonExtract.BraceSpanParts | imgonly_task/2.2.2.gemini1.5-flash-img_only.py:162-164 | conversely, a non-empty span cuts the text into such a prefix, span and suffix |
| JsonExtract.BraceSpanEmpty | imgonly_task/2.2.2.gemini1.5-flash-img_only.py:162-164 | the span is empty iff both braces occur but the last `}` comes before the first `{` |
| JsonExtract.ExtractJsonDataSpec | imgonly_task/2.2.2.gemini1.5-flash-img_only.py:157-168 | the result is `None` iff a brace is missing, the last `}` comes before the first `{` (the `json.loads("")` that always raises), or the decoder rejects the span; otherwise it is the decoder's verdict on the non-empty span |
| JsonExtract.ExtractJsonDataOfParts | imgonly_task/2.2.2.gemini1.5-flash-img_only.py:157-165 | a text made of a prefix without `{`, a brace-delimited span and a suffix without `}` is decoded from exactly that span |
| JsonExtract.ReversedBracesGiveNone | imgonly_task/2.2.2.gemini1.5-flash-img_only.py:161-168 | example: `"} {"` gives `None` whatever the decoder |
| JsonExtract.ExtractFromProse | 1.2.2.gemini1.5-flash-NEJM-ImgChallenge.py:157-168 | example: a reply that wraps its JSON object in prose is decoded from the object alone |
| Timing.UpsertSpec | imgonly_task/2.2.2.gemini1.5-flash-img_only.py:237-254 | the table grows by one row iff the key was absent; matching rows get the new time; other rows are unchanged; the key is present afterwards |
| Timing.UpsertKeepsKeysUnique | 1.2.2.gemini1.5-flash-NEJM-ImgChallenge.py:236-253 | a table with at most one row per key keeps that after the upsert |
| Timing.UpsertOverwrites | imgonly_task/2.2.2.gemini1.5-flash-img_only.py:237-254 | upserting twice for one key is the same as upserting the later time |
| Tables.ReadFields | imgonly_task/2.2.2.gemini1.5-flash-img_only.py:266-270 | reading the keys succeeds iff all are present and gives their values in key order; otherwise the error is the first missing key in read order |
| Naming.ResultFolderShape | 1.2.2.gemini1.5-flash-NEJM-ImgChallenge.py:138-140 | the folder is the base, `_temp_`, the temperature with every `.` turned into `_`, then `_try` and the trial number |
| Naming.ResultFolderSeparatesTrials | imgonly_task/2.2.2.gemini1.5-flash-img_only.py:138-140 | different trials of one configuration get different folders |
| Naming.GeminiFolder | imgonly_task/2.2.2.gemini1.5-flash-img_only.py:172-178 | example: the one configuration run writes to `gemini_flash_result/gemini_flash_result_temp_1_try1` |
| Naming.FileNamesInjective | imgonly_task/2.2.2.gemini1.5-flash-img_only.py:193-199 | distinct cases never share an image file name or a result file name |
| GeminiRunner.SkipIsNoOp | imgonly_task/2.2.2.gemini1.5-flash-img_only.py:198-206 | a case whose result file exists leaves the whole state unchanged: no invocation, timing, file or row |
| GeminiRunner.ParsedValues | imgonly_task/2.2.2.gemini1.5-flash-img_only.py:266-281 | a parsed row has one cell per key, in key order: the decoded value for that key, or the one element of a one-element array in the image-only frame |
| GeminiRunner.RowCells | imgonly_task/2.2.2.gemini1.5-flash-img_only.py:271-281 | the image-only frame with `index=[0]` raises iff some value is an array whose length is not one, and otherwise unpacks one-element arrays; the NEJM frame of one-element lists keeps every value |
| GeminiRunner.FieldCells | imgonly_task/2.2.2.gemini1.5-flash-img_only.py:266-281 | a complete object whose values fit gives one cell per key, each its key's value as the frame stores it |
| GeminiRunner.RecordObjectSpec | imgonly_task/2.2.2.gemini1.5-flash-img_only.py:264-284 | an empty dict is skipped; a non-empty object appends its row iff complete and fitting; a missing key crashes with `KeyError` naming the first missing key in key order, an unfitting array with pandas' `ValueError`; only rows and status change |
| GeminiRunner.RecordAnswerSpec | imgonly_task/2.2.2.gemini1.5-flash-img_only.py:262-284 | a row of the decoded cells is appended iff the brace span decodes to a non-empty object with every key whose values the frame accepts; a truthy non-object, a missing key or (image-only) an array of length other than one crashes; otherwise nothing changes |
| GeminiRunner.ArrayFieldCrashesImgOnly | imgonly_task/2.2.2.gemini1.5-flash-img_only.py:271-284 | in the image-only script a complete object with an array of length other than one (as the prompt's "list all that apply" invites) ends the run with no row |
| GeminiRunner.NejmRowNeverMismatches | 1.2.2.gemini1.5-flash-NEJM-ImgChallenge.py:262-274 | the NEJM script's one-element lists never raise pandas' length error, and a non-faulty reply never ends the run |
| GeminiRunner.CaseStepTiming | imgonly_task/2.2.2.gemini1.5-flash-img_only.py:230-254 | a case makes at most ten invocations, and the timing table is upserted with the reply's time exactly when a reply came back |
| GeminiRunner.NoReplyCrashes | 1.2.2.gemini1.5-flash-NEJM-ImgChallenge.py:233 | when the retry loop returns `None`, the run crashes before the timing update, with nothing else changed |
| GeminiRunner.CaseStepOutput | imgonly_task/2.2.2.gemini1.5-flash-img_only.py:256-262 | this case's result file is added exactly when a truthy reply came back, and no other file is: a non-empty string is written and its row appended iff it parses; a non-empty list leaves the file empty and crashes at `write`; otherwise files and rows are unchanged |
| GeminiRunner.ResumeIsNoOp | imgonly_task/2.2.2.gemini1.5-flash-img_only.py:189-206 | a pass over cases whose result files all exist changes nothing |
| GeminiRunner.RunCasesKeepsTimingUnique | 1.2.2.gemini1.5-flash-NEJM-ImgChallenge.py:236-253 | a timing table with one row per key keeps one row per key over the whole case loop |
| GeminiRunner.RunCasesKeepsFiles | imgonly_task/2.2.2.gemini1.5-flash-img_only.py:189-262 | a result file, once there, keeps its text for the rest of the pass, and the pass makes at most ten invocations per case |
| GeminiRunner.RerunEmptiesResultsBook | imgonly_task/2.2.2.gemini1.5-flash-img_only.py:179-297 | a full resume keeps the texts and the timing table but writes an empty results workbook |
| GeminiRunner.CaseTwelveRecorded | 1.2.2.gemini1.5-flash-NEJM-ImgChallenge.py:262-274 | example: the reply `{"answer":"2","reason":"lesion pattern"}` yields the row `12, "2", "lesion pattern"` |
| GeminiRunner.CaseTwelveAnswered | 1.2.2.gemini1.5-flash-NEJM-ImgChallenge.py:63-155 | example: a 4000 × 3000 image that fits is sent at its original size, and a first long reply is returned with its time |
| GeminiRunner.CaseTwelve | 1.2.2.gemini1.5-flash-NEJM-ImgChallenge.py:170-274 | example: the case ends with its reply in its result file, one timing row and the parsed row |
| GeminiRunner.ProcessGeminiCase | imgonly_task/2.2.2.gemini1.5-flash-img_only.py:189-291 | one iteration of the case loop computes the case-step specification |
| GeminiRunner.RunGeminiCases | imgonly_task/2.2.2.gemini1.5-flash-img_only.py:189-291 | the case loop computes the pass specification and stops at a crash |
| GeminiRunner.RunGeminiScript | imgonly_task/2.2.2.gemini1.5-flash-img_only.py:170-297 | `main` computes the whole-run specification: the folder, the pass, the results workbook and the timing workbook |
| ClaudeRunner.SkipIsNoOp | 3_no-img_task/3.3.claude3v-opus-no-img-task.py:203-207 | a case whose result file exists leaves the whole state unchanged |
| ClaudeRunner.RecordAnswerSpec | 3_no-img_task/3.3.claude3v-opus-no-img-task.py:251-266 | `json.loads` on the whole reply: an object with `answer` and `reason` appends that row; a decode failure changes nothing; a non-object crashes as not subscriptable; a missing key crashes with `KeyError` naming the first missing of `answer`, `reason` |
| ClaudeRunner.CaseStepTiming | 3_no-img_task/3.3.claude3v-opus-no-img-task.py:231-244 | whenever the retry call returns, even with `None`, the timing row is upserted with the call's time, and a quota exit leaves it alone; at most ten invocations per case |
| ClaudeRunner.CaseRunSpent | 3_no-img_task/3.3.claude3v-opus-no-img-task.py:230-233 | the time recorded for a case is the summed time of all the invocations the retry call made |
| ClaudeRunner.AfterRunTiming | 3_no-img_task/3.3.claude3v-opus-no-img-task.py:231-244 | after the call returns, the timing row is upserted and the answer's latency appended; after an exit, neither |
| ClaudeRunner.NoAnswerStillTimed | 3_no-img_task/3.3.claude3v-opus-no-img-task.py:231-269 | ten invocations without an answer or a quota error: the case is timed, and no file and no row are written |
| ClaudeRunner.QuotaExits | 3_no-img_task/3.3.claude3v-opus-no-img-task.py:134-136 | a quota error as the first decisive invocation aborts the run, with no timing row, file or row for the case |
| ClaudeRunner.ExitEndsRun | 3_no-img_task/3.3.claude3v-opus-no-img-task.py:136 | after a quota error no further case is processed |
| ClaudeRunner.ExitSavesTiming | 3_no-img_task/3.3.claude3v-opus-no-img-task.py:134-275 | an aborted run saves the timing table but writes no results workbook |
| ClaudeRunner.CaseStepOutput | 3_no-img_task/3.3.claude3v-opus-no-img-task.py:247-250 | files are only added, and only this case's result file, which holds the answer exactly when one came back |
| ClaudeRunner.ResumeIsNoOp | 3_no-img_task/3.3.claude3v-opus-no-img-task.py:195-207 | a pass over cases whose result files all exist changes nothing |
| ClaudeRunner.RunCasesKeepsTimingUnique | 3_no-img_task/3.3.claude3v-opus-no-img-task.py:236-244 | a timing table with one row per key keeps one row per key over the whole case loop |
| ClaudeRunner.RerunEmptiesResultsBook | 3_no-img_task/3.3.claude3v-opus-no-img-task.py:191-275 | a full resume makes no invocation and keeps the texts and timing, but writes an empty results workbook |
| ClaudeRunner.ProcessClaudeCase | 3_no-img_task/3.3.claude3v-opus-no-img-task.py:195-269 | one iteration of the case loop computes the case-step specification |
| ClaudeRunner.RunClaudeCases | 3_no-img_task/3.3.claude3v-opus-no-img-task.py:195-269 | the case loop computes the pass specification and stops at a crash or an exit |
| ClaudeRunner.RunClaudeScript | 3_no-img_task/3.3.claude3v-opus-no-img-task.py:183-275 | `main` computes the whole-run specification |
| Regex.RunLength | 2_img-only_task/4.2.VLM-results-integration-img-only.py:17-21 | the longest run of class characters from a position is all in the class and is followed by the end or by a character outside it |
| Regex.RunAtMostLongest | 2_img-only_task/4.2.VLM-results-integration-img-only.py:17-21 | no run of class characters is longer than the longest run |
| Regex.MatchSound | 2_img-only_task/4.2.VLM-results-integration-img-only.py:23 | a match the backtracking matcher finds is accepted by the declarative relation, with the same end and groups |
| Regex.TryRunsSound | 2_img-only_task/4.2.VLM-results-integration-img-only.py:23 | every backtracking choice a run tries leads only to accepted matches |
| Regex.MatchComplete | 2_img-only_task/4.2.VLM-results-integration-img-only.py:23 | when the pattern accepts some text from a position, the matcher finds a match there |
| Regex.TryRunsComplete | 2_img-only_task/4.2.VLM-results-integration-img-only.py:23 | backtracking from a longer run reaches any shorter run that leads to a match |
| Regex.SearchFrom | 2_img-only_task/4.2.VLM-results-integration-img-only.py:23 | a found start lies at or after the search position, and the matcher matches there |
| Regex.SearchFromFirst | 2_img-only_task/4.2.VLM-results-integration-img-only.py:23 | the search returns the first position with a match, or none when there is none |
| Regex.SearchSpec | 2_img-only_task/4.2.VLM-results-integration-img-only.py:23-24 | `re.search` finds the leftmost position where the pattern accepts, and finds nothing iff no position accepts |
| Regex.AcceptsGroups | 2_img-only_task/4.2.VLM-results-integration-img-only.py:17-21 | a match captures one string per group of the pattern, each made only of that group's class |
| Regex.AcceptsEndsWith | 2_img-only_task/4.2.VLM-results-integration-img-only.py:21 | text matched by a pattern that ends in a literal ends with that character |
| Integration.FieldPatternGroups | 2_img-only_task/4.2.VLM-results-integration-img-only.py:17-21 | each key's part of the pattern has one group, which captures characters other than `"` |
| Integration.InfoPatternShape | 2_img-only_task/4.2.VLM-results-integration-img-only.py:17-21 | the pattern has five groups, all free of `"`, and it starts with `{` and ends with `}` |
| Integration.InfoMapValues | 2_img-only_task/4.2.VLM-results-integration-img-only.py:25-31 | the dict maps the m-th key to the m-th value |
| Integration.ExtractInfo | 2_img-only_task/4.2.VLM-results-integration-img-only.py:23-39 | the result always has exactly the five keys |
| Integration.ExtractInfoMatched | 2_img-only_task/4.2.VLM-results-integration-img-only.py:17-31 | on a match, the values are the five groups of the leftmost match in key order; they have no `"`, and the match runs from a `{` to a `}` |
| Integration.ExtractInfoUnmatched | 2_img-only_task/4.2.VLM-results-integration-img-only.py:32-39 | with no match, all five values are empty |
| Integration.SummaryRowSpec | 2_img-only_task/4.2.VLM-results-integration-img-only.py:63-82 | a case's row is six cells starting with the case number: blank for a missing file or a text without a match, otherwise the five extracted values in key order |
| Integration.SummarySheetSpec | 2_img-only_task/4.2.VLM-results-integration-img-only.py:59-82 | the sheet is the header, then the row of each case 1..272 in order |
| Integration.ProcessFilesInFolder | 2_img-only_task/4.2.VLM-results-integration-img-only.py:42-86 | the row loop writes the summary sheet, as the only sheet of the folder's `sum.xlsx`, and changes nothing else |
| Integration.CombinedLength | 2_img-only_task/4.2.VLM-results-integration-img-only.py:102-117 | the combined workbook has at most one sheet per folder |
| Integration.CombinedAllPresent | 2_img-only_task/4.2.VLM-results-integration-img-only.py:102-117 | when every summary exists, sheet k is named after folder k's last component and copies that summary's rows |
| Integration.CombinedNonePresent | 2_img-only_task/4.2.VLM-results-integration-img-only.py:102-117 | when no summary exists, the combined workbook has no sheet |
| Integration.CombineExcelFiles | 2_img-only_task/4.2.VLM-results-integration-img-only.py:90-120 | the folder loop writes the combined sheets, in folder order and skipping missing files, to the target and changes nothing else |
| Integration.ProcessAllSpec | 2_img-only_task/4.2.VLM-results-integration-img-only.py:133-134 | processing every folder keeps the reply texts and leaves each folder's `sum.xlsx` holding its summary sheet |
| Integration.RunIntegration | 2_img-only_task/4.2.VLM-results-integration-img-only.py:124-137 | `main` processes the five folders in order, then combines them into `combined_sum.xlsx` |
| Integration.FolderNames | 2_img-only_task/4.2.VLM-results-integration-img-only.py:110-131 | the last `/` component of each model folder is that model's folder name |
| Integration.ModelSummaryPathsDiffer | 2_img-only_task/4.2.VLM-results-integration-img-only.py:103-131 | different models get different summary workbooks |
| Integration.SummaryPathsDistinct | 2_img-only_task/4.2.VLM-results-integration-img-only.py:103-131 | the five folders' summary workbooks are five different files |
| Integration.IntegrationMainSheets | 2_img-only_task/4.2.VLM-results-integration-img-only.py:124-137 | the combined workbook holds five sheets, in model order, each named after its folder and holding that folder's summary |
| Integration.ReadsRunnerFolders | 2_img-only_task/4.2.VLM-results-integration-img-only.py:129 | the Gemini Flash folder it reads is the one the image-only Gemini script writes, and the five fields its pattern reads are the five keys that script asks for |
| Slides.SlideTextsSound | 0.NEJM_pptx_preproc.py:10-19 | every kept text is the stripped text of some text frame of the slide, and is neither "Image Challenge" nor "Q:" |
| Slides.SlideTextsComplete | 0.NEJM_pptx_preproc.py:10-19 | the stripped text of every text frame is kept unless it is one of those two |
| Slides.ExtractTextFromSlide | 0.NEJM_pptx_preproc.py:5-19 | the shape loop keeps the stripped texts of text frames, in shape order, without the two skipped texts |
| Slides.SavedPictures | 0.NEJM_pptx_preproc.py:40-45 | the saved pictures are no more than the shapes, and each is a picture over 300 × 60 |
| Slides.SavedPicturesSpec | 0.NEJM_pptx_preproc.py:41-45 | a shape is saved iff it is a picture of the slide wider than 300 and higher than 60 |
| Slides.ImageNameInjective | 0.NEJM_pptx_preproc.py:47 | no two (slide, index) pairs share an image name |
| Slides.ImageFileInjective | 0.NEJM_pptx_preproc.py:48 | no two (slide, index) pairs share an image file |
| Slides.FirstImageIsCaseImage | 0.NEJM_pptx_preproc.py:29-48 | the first saved picture of slide n is the file the runners open for case n |
| Slides.SlideRowsLength | 0.NEJM_pptx_preproc.py:51-52 | a slide with n saved pictures contributes n × (number of texts) rows |
| Slides.SlideRowAt | 0.NEJM_pptx_preproc.py:47-53 | row a·t+b of a slide, for every picture a and text b, pairs the name of picture a, without `.png`, with text b: rows go picture by picture and, within a picture, text by text |
| Slides.DeckRowsSpec | 0.NEJM_pptx_preproc.py:35-53 | the table is slide 1's rows, then slide 2's, and so on, slides numbered from 1 |
| Slides.WriteDeckWritten | 0.NEJM_pptx_preproc.py:35-49 | picture i of slide s ends up in `pptimages/img_page{s}_{i}.png` with its bytes |
| Slides.WriteDeckKeeps | 0.NEJM_pptx_preproc.py:46-49 | a file that is not a picture of the deck keeps its contents |
| Slides.WriteDeckOnly | 0.NEJM_pptx_preproc.py:46-49 | the deck writes no file other than its pictures |
| Slides.WriteSlideSpec | 0.NEJM_pptx_preproc.py:39-53 | one slide writes each of its first n pictures to its own file, keeps every other file, and adds no other file |
| Slides.AppendImageRows | 0.NEJM_pptx_preproc.py:51-52 | the text loop appends one row per slide text for the picture, in text order |
| Slides.SaveSlidePictures | 0.NEJM_pptx_preproc.py:39-53 | the picture loop writes the saved pictures with indices 0..k-1 and appends their rows |
| Slides.ExtractImagesFromPptx | 0.NEJM_pptx_preproc.py:21-66 | the slide loop writes every saved picture and stores the deck's rows as `NEJMImageChallenge.xlsx` |
| Text.LoweredNeverContainsUpper | 1.2.2.gemini1.5-flash-NEJM-ImgChallenge.py:103 | a lower-cased string contains no string that starts with an upper-case ASCII letter |
| Text.IndexOf | imgonly_task/2.2.2.gemini1.5-flash-img_only.py:162 | `str.index` fails iff the character is absent; otherwise it finds the first occurrence |
| Text.LastIndexOf | imgonly_task/2.2.2.gemini1.5-flash-img_only.py:163 | `str.rindex` fails iff the character is absent; otherwise it finds the last occurrence |
| Text.LastComponent | 2_img-only_task/4.2.VLM-results-integration-img-only.py:110 | `split('/')[-1]` is the slash-free suffix after the last `/`, or the whole string when it has none |
| Text.StripIsInfix | 0.NEJM_pptx_preproc.py:15 | `strip()` keeps one contiguous piece of the text and drops only whitespace around it |
| Text.NatToStringRoundTrip | imgonly_task/2.2.2.gemini1.5-flash-img_only.py:193 | the decimal digits of `str(n)` read back as n |
| Text.IntToStringInjective | 0.NEJM_pptx_preproc.py:47 | distinct integers have distinct `str` forms |

## Left out

- Encoder: the factor's floating-point powers are modelled as exact rationals. The JPEG encoder is an abstract size function: resampling, compression and base64 are not modelled. Of an image's pixels only its PIL mode is kept, for the RGBA conversion and the write error.
- Encoder.ReencodeProducedIsIdentity: holds for a deterministic size function. Re-encoding a decoded JPEG in PIL changes its bytes and can change its size, and that is not captured; the same idealisation underlies Encoder.ReencodeAllProduced, GeminiRetry.LoopSendsSameImages, GeminiRetry.AnalyzeSendsEncoderOutput, ClaudeRetry.AnalyzeIsExpected, ClaudeRetry.AnalyzeOutcome and ClaudeRetry.ScriptBodyDecides, which say "the same images" only up to dimensions and modelled size. In particular a re-encode in Claude's exception handler that raises, which would escape the function, is not modelled for encoder output.
- GeminiRetry and ClaudeRetry: the SDK calls are replaced by a scripted provider from invocation index to outcome. Prompt text, `sleep` and log output are not modelled.
- ClaudeRetry: the latency statistics (mean, maximum, minimum, standard deviation) printed after each answer are floating-point reporting only, and are left out.
- Timing: temperatures are compared by their string form, since the scripts only ever use the one value `1`.
- Text.Lower: lower-cases ASCII letters only. Python's `str.lower` also maps non-ASCII letters. That cannot create the ASCII `"SAFETY"` either, but this model does not prove it.
- JsonExtract and the runners: the JSON decoder is an abstract function. pandas' column typing of the results table is not modelled. A nested object as a field value is kept as an opaque cell; pandas would align it to the index instead.
- Integration: the image-only Claude script is not part of this model. The Claude runner modelled is the no-image one; its folder name merely coincides with the integrated `Claude_result` folder, and its `answer`/`reason` replies never match the five-field pattern.
- Runners: `NEJM_list.xlsx` is given as the sequence of case numbers. `os.makedirs` is omitted, because the folder is a prefix of the map's paths.
- Runners, `find_image_paths` and `read_text_file`: the scripts never call them, so they are left out.
- Integration: the reply files are given as a map from path to already-decoded text. A UTF-8 decoding error is left out.
- Integration: openpyxl's sheet-title rules (the 31-character limit and the renaming of duplicate titles) are not modelled.
- Integration.CombineExcelFiles: when no `sum.xlsx` exists, openpyxl raises on saving a workbook with no sheet; the model writes a book with no sheets to the target instead of raising.
- Integration: the `json.JSONDecodeError` handler is not modelled because nothing in its `try` block raises it.
- Slides: parsing the `.pptx` file is not modelled. The deck is given as a sequence of slides, each a sequence of shapes (pictures with their size and bytes, text frames and other shapes). A picture placeholder whose shape type is not 13 counts as an "other" shape.
- Slides: the column headers of `NEJMImageChallenge.xlsx`, pandas' writing of the table and the two closing messages are not modelled.
