/** `main` of the two Gemini scripts, over one configuration (temperature
    `1`, trial 1): for every case of the list, skip it when its result file
    exists, otherwise encode its image, query the model, upsert the timing
    row, write the reply and append a parsed row. The two scripts differ in
    the row: the image-only script reads five fields and builds a one-row
    frame from them as scalars with `index=[0]`, the NEJM script reads
    `answer` and `reason` and wraps each in a one-element list. */
module GeminiRunner {
  import opened Wrappers
  import opened Text
  import opened Encoder
  import opened GeminiRetry
  import opened JsonExtract
  import opened Timing
  import opened Naming
  import opened Tables

  const BaseFolder: string := "gemini_flash_result/gemini_flash_result"
  const Temperature: string := "1"
  const Trial: nat := 1
  const ImageFolder: string := "pptimages"
  const ResultsBook: string := "gemini_flash_results.xlsx"
  const TimeFile: string := "Gemini_flash_execution_times.xlsx"

  const ImgOnlyKeys: seq<string> := ["1_TypeOfMedicalImaging", "2_SpecificImagingSequence", "3_UseOfContrast",
                                     "4_ImagePlane", "5_PartOfTheBodyImaged"]
  const NejmKeys: seq<string> := ["answer", "reason"]

  /** Which of the two Gemini scripts runs. */
  datatype Script = ImgOnly | Nejm

  function Keys(script: Script): seq<string>
  {
    if script.ImgOnly? then ImgOnlyKeys else NejmKeys
  }

  /** The uncaught exception that ends the run. */
  datatype Crash =
    | EncodeFailed(error: EncodeError)   // ValueError / OSError / FileNotFoundError from the encoder
    | NoReply                            // `[result, execution_time] = None`
    | WriteOfList                        // `result_file.write(list)`
    | NotSubscriptable                   // a truthy non-object JSON value indexed by a key
    | MissingKey(key: string)            // KeyError
    | LengthMismatch                     // pandas' ValueError: a column whose length is not that of `index=[0]`

  datatype Status = Running | Crashed(crash: Crash)

  /** The script's state across cases: the result texts, the global timing
      table, `results_df`, the number of provider invocations so far, and
      whether an exception has ended the run. */
  datatype State = State(files: map<string, string>, timing: seq<Row>, results: seq<ResultRow>,
                         calls: nat, status: Status)

  /** Everything outside the script: the case images, the JPEG size
      function, the model and the JSON decoder. */
  datatype Env = Env(store: map<string, Image>, jpeg: JpegSize, provider: Provider, decode: Decoder)

  function ImagePath(caseNumber: int): string
  {
    PathJoin(ImageFolder, ImageFileName(caseNumber))
  }

  /** A value `pd.DataFrame({...}, index=[0])` accepts as a column: a
      scalar, broadcast over the one index, or an array of exactly one
      element. */
  predicate FitsIndex(v: Value)
  {
    !v.JArray? || |v.items| == 1
  }

  /** The cell a value becomes: the image-only frame unpacks a one-element
      array; the NEJM frame's one-element lists hold each value as it is. */
  function CellOf(script: Script, v: Value): Value
  {
    if script.ImgOnly? && v.JArray? && |v.items| == 1 then v.items[0] else v
  }

  /** The cells of the row built from `values`, or `None` when the
      image-only frame raises on an array of another length. */
  function RowCells(script: Script, values: seq<Value>): (r: Option<seq<Value>>)
    ensures r.None? <==> script.ImgOnly? && exists i :: 0 <= i < |values| && !FitsIndex(values[i])
    ensures r.Some? ==> |r.value| == |values| && forall i :: 0 <= i < |values| ==> r.value[i] == CellOf(script, values[i])
  {
    if script.Nejm? then Some(values)
    else if forall i :: 0 <= i < |values| ==> FitsIndex(values[i])
    then Some(seq(|values|, i requires 0 <= i < |values| => CellOf(script, values[i])))
    else None
  }

  /** A decoded object the row code reads in full: every key is present. */
  predicate Complete(fields: map<string, Value>, script: Script)
  {
    forall k :: k in Keys(script) ==> k in fields
  }

  /** The frame accepts every key's value. */
  predicate Fitting(fields: map<string, Value>, script: Script)
    requires Complete(fields, script)
  {
    script.ImgOnly? ==> forall k :: k in Keys(script) ==> FitsIndex(fields[k])
  }

  /** The body of `if result_content:` for a decoded object: an empty dict is
      falsy and skipped; otherwise the keys are read, then the frame built. */
  function RecordObject(s: State, caseNumber: int, fields: map<string, Value>, script: Script): State
  {
    if |fields| == 0 then s
    else match ReadFields(fields, Keys(script))
      case Err(k) => s.(status := Crashed(MissingKey(k)))
      case Ok(values) =>
        match RowCells(script, values)
        case None => s.(status := Crashed(LengthMismatch))
        case Some(cells) => s.(results := s.results + [ResultRow(caseNumber, cells)])
  }

  /** After the result file holds `text`: `extract_json_data`, then a row
      when the value is a non-empty dict. */
  function RecordAnswer(s: State, caseNumber: int, text: string, script: Script, decode: Decoder): State
  {
    match ExtractJsonData(text, decode)
    case None => s
    case Some(Other(truthy)) => if truthy then s.(status := Crashed(NotSubscriptable)) else s
    case Some(Object(fields)) => RecordObject(s, caseNumber, fields, script)
  }

  /** After the reply: `if result:` writes the file, then records the answer. */
  function AfterReply(s: State, caseNumber: int, path: string, content: Content, script: Script,
                      decode: Decoder): State
  {
    match content
    case Parts(parts) =>
      if |parts| == 0 then s else s.(files := s.files[path := ""], status := Crashed(WriteOfList))
    case Str(text) =>
      if |text| == 0 then s
      else RecordAnswer(s.(files := s.files[path := text]), caseNumber, text, script, decode)
  }

  /** One iteration of the case loop. */
  function CaseStep(s: State, folder: string, caseNumber: int, script: Script, env: Env): State
  {
    var path := ResultPath(folder, caseNumber);
    if path in s.files then s
    else match EncodeFromPaths([ImagePath(caseNumber)], env.store, env.jpeg)
      case Err(e) => s.(status := Crashed(EncodeFailed(e)))
      case Ok(images) =>
        match Analyze(images, env.provider, s.calls, env.jpeg)
        case Escaped(e, calls, _) => s.(calls := calls, status := Crashed(EncodeFailed(e)))
        case Run(None, calls, _) => s.(calls := calls, status := Crashed(NoReply))
        case Run(Some(reply), calls, _) =>
          var timed := s.(calls := calls, timing := Upsert(s.timing, Key(caseNumber, Temperature, Trial), reply.elapsed));
          AfterReply(timed, caseNumber, path, reply.content, script, env.decode)
  }

  /** The case loop; an exception ends it. */
  function RunCases(s: State, folder: string, cases: seq<int>, script: Script, env: Env): State
    decreases |cases|
  {
    if cases == [] || !s.status.Running? then s
    else RunCases(CaseStep(s, folder, cases[0], script, env), folder, cases[1..], script, env)
  }

  /** The folder of the one configuration the script runs. */
  const ResultDir: string := ResultFolder(BaseFolder, Temperature, Trial)

  /** What the script leaves behind. */
  datatype Final = Final(disk: Disk, calls: nat, status: Status)

  /** `main()`: one configuration, then the results workbook and the timing
      workbook are written, unless an exception ended the run first. */
  function GeminiMain(disk: Disk, cases: seq<int>, script: Script, env: Env): Final
  {
    var start := State(disk.texts, LoadTiming(disk, TimeFile), [], 0, Running);
    var s := RunCases(start, ResultDir, cases, script, env);
    if s.status.Running?
    then Final(Disk(s.files, disk.answerBooks[PathJoin(ResultDir, ResultsBook) := s.results],
                    disk.timeBooks[TimeFile := s.timing]), s.calls, Running)
    else Final(disk.(texts := s.files), s.calls, s.status)
  }

  /** A case whose result file exists changes nothing: no invocation, no
      timing change, no row, no file. */
  lemma SkipIsNoOp(s: State, folder: string, caseNumber: int, script: Script, env: Env)
    requires ResultPath(folder, caseNumber) in s.files
    ensures CaseStep(s, folder, caseNumber, script, env) == s
  {
  }

  /** The brace span of `text` decodes to a non-empty object holding every
      key, whose values the script's frame accepts. */
  predicate Parsed(text: string, script: Script, decode: Decoder)
  {
    match ExtractJsonData(text, decode)
    case Some(Object(fields)) => |fields| > 0 && Complete(fields, script) && Fitting(fields, script)
    case _ => false
  }

  /** The decoded value makes the row code raise: a truthy non-object, a
      non-empty object without some key, or, in the image-only script, a
      complete object with an array of a length other than one. */
  predicate Faulty(text: string, script: Script, decode: Decoder)
  {
    match ExtractJsonData(text, decode)
    case Some(Other(truthy)) => truthy
    case Some(Object(fields)) => |fields| > 0 && (!Complete(fields, script) || !Fitting(fields, script))
    case None => false
  }

  /** Reading the keys succeeds iff the object is complete, and the frame
      is then built iff its values fit. */
  lemma ReadCells(fields: map<string, Value>, script: Script)
    ensures ReadFields(fields, Keys(script)).Ok? <==> Complete(fields, script)
    ensures ReadFields(fields, Keys(script)).Ok? ==>
              (RowCells(script, ReadFields(fields, Keys(script)).value).Some? <==> Fitting(fields, script))
  {
    var keys := Keys(script);
    var read := ReadFields(fields, keys);
    if Complete(fields, script) {
      assert forall i :: 0 <= i < |keys| ==> keys[i] in fields by {
        forall i | 0 <= i < |keys| ensures keys[i] in fields { assert keys[i] in keys; }
      }
      if script.ImgOnly? && RowCells(script, read.value).None? {
        var i :| 0 <= i < |read.value| && !FitsIndex(read.value[i]);
        assert keys[i] in keys;
      }
    } else {
      var k :| k in keys && k !in fields;
      var i :| 0 <= i < |keys| && keys[i] == k;
    }
  }

  /** The row cells of a complete, fitting object: one per key, in key order. */
  function FieldCells(fields: map<string, Value>, script: Script): (cells: seq<Value>)
    requires Complete(fields, script) && Fitting(fields, script)
    ensures |cells| == |Keys(script)|
    ensures forall i :: 0 <= i < |Keys(script)| ==>
              Keys(script)[i] in fields && cells[i] == CellOf(script, fields[Keys(script)[i]])
  {
    ReadCells(fields, script);
    RowCells(script, ReadFields(fields, Keys(script)).value).value
  }

  /** One decoded object: a row with its cells is appended iff it is
      non-empty, complete and fitting; a non-empty object missing a key or
      holding an unfitting array ends the run instead. */
  lemma RecordObjectSpec(s: State, caseNumber: int, fields: map<string, Value>, script: Script)
    ensures var t := RecordObject(s, caseNumber, fields, script);
            t.files == s.files && t.timing == s.timing && t.calls == s.calls
            && t.results == (if |fields| > 0 && Complete(fields, script) && Fitting(fields, script)
                             then s.results + [ResultRow(caseNumber, FieldCells(fields, script))]
                             else s.results)
            && (|fields| == 0 || (Complete(fields, script) && Fitting(fields, script)) ==> t.status == s.status)
            && (|fields| > 0 && !Complete(fields, script) ==> t.status.Crashed? && t.status.crash.MissingKey?
                                                              && FirstMissing(fields, Keys(script), t.status.crash.key))
            && (|fields| > 0 && Complete(fields, script) && !Fitting(fields, script) ==> t.status == Crashed(LengthMismatch))
  {
    ReadCells(fields, script);
  }

  /** The cells of the row `text` yields, in key order. */
  function ParsedValues(text: string, script: Script, decode: Decoder): (values: seq<Value>)
    requires Parsed(text, script, decode)
    ensures |values| == |Keys(script)|
    ensures var fields := ExtractJsonData(text, decode).value.fields;
            forall i :: 0 <= i < |Keys(script)| ==>
              Keys(script)[i] in fields && values[i] == CellOf(script, fields[Keys(script)[i]])
  {
    FieldCells(ExtractJsonData(text, decode).value.fields, script)
  }

  /** Recording touches only the rows and the status: a row with the parsed
      values is appended exactly when the text parses, and the run stops
      exactly when the decoded value is faulty. */
  lemma RecordAnswerSpec(s: State, caseNumber: int, text: string, script: Script, decode: Decoder)
    ensures var t := RecordAnswer(s, caseNumber, text, script, decode);
            t.files == s.files && t.timing == s.timing && t.calls == s.calls
            && t.results == (if Parsed(text, script, decode)
                             then s.results + [ResultRow(caseNumber, ParsedValues(text, script, decode))]
                             else s.results)
            && (Faulty(text, script, decode) ==> t.status.Crashed?)
            && (!Faulty(text, script, decode) ==> t.status == s.status)
            && !(Parsed(text, script, decode) && Faulty(text, script, decode))
  {
    match ExtractJsonData(text, decode)
    case None =>
    case Some(Other(_)) =>
    case Some(Object(fields)) =>
      RecordObjectSpec(s, caseNumber, fields, script);
  }

  /** In the image-only script, a complete object with an array of a
      length other than one among its fields (`"4_ImagePlane": ["axial",
      "coronal"]`, say) makes the frame constructor raise: the run ends
      and no row is added. */
  lemma ArrayFieldCrashesImgOnly(s: State, caseNumber: int, text: string, decode: Decoder, k: string)
    requires ExtractJsonData(text, decode).Some? && ExtractJsonData(text, decode).value.Object?
    requires var fields := ExtractJsonData(text, decode).value.fields;
             (forall key :: key in ImgOnlyKeys ==> key in fields)
             && k in ImgOnlyKeys && fields[k].JArray? && |fields[k].items| != 1
    ensures RecordAnswer(s, caseNumber, text, ImgOnly, decode) == s.(status := Crashed(LengthMismatch))
  {
    var fields := ExtractJsonData(text, decode).value.fields;
    assert |fields| > 0 by { assert k in fields; }
    var values := ReadFields(fields, ImgOnlyKeys).value;
    var i :| 0 <= i < |ImgOnlyKeys| && ImgOnlyKeys[i] == k;
    assert !FitsIndex(values[i]);
  }

  /** The NEJM script wraps every value in a one-element list, so its frame
      never raises: a complete object always adds a row, arrays included. */
  lemma NejmRowNeverMismatches(s: State, caseNumber: int, text: string, decode: Decoder)
    requires s.status.Running?
    ensures RecordAnswer(s, caseNumber, text, Nejm, decode).status != Crashed(LengthMismatch)
    ensures !Faulty(text, Nejm, decode) ==> RecordAnswer(s, caseNumber, text, Nejm, decode).status.Running?
  {
    RecordAnswerSpec(s, caseNumber, text, Nejm, decode);
  }

  /** The reply `reply` that case `caseNumber` gets, or `None` when it is
      skipped, its image cannot be encoded, or the retry function fails. */
  function CaseReply(s: State, folder: string, caseNumber: int, env: Env): Option<Reply>
  {
    if ResultPath(folder, caseNumber) in s.files then None
    else match EncodeFromPaths([ImagePath(caseNumber)], env.store, env.jpeg)
      case Err(_) => None
      case Ok(images) =>
        match Analyze(images, env.provider, s.calls, env.jpeg)
        case Run(Some(reply), _, _) => Some(reply)
        case _ => None
  }

  /** A case makes at most ten invocations; the timing table is upserted with
      the reply's time exactly when a reply came back, and left alone
      otherwise. */
  lemma CaseStepTiming(s: State, folder: string, caseNumber: int, script: Script, env: Env)
    ensures var t := CaseStep(s, folder, caseNumber, script, env);
            s.calls <= t.calls <= s.calls + MaxAttempts
            && t.timing == match CaseReply(s, folder, caseNumber, env)
                           case Some(reply) => Upsert(s.timing, Key(caseNumber, Temperature, Trial), reply.elapsed)
                           case None => s.timing
  {
    var path := ResultPath(folder, caseNumber);
    if path !in s.files {
      var encoded := EncodeFromPaths([ImagePath(caseNumber)], env.store, env.jpeg);
      if encoded.Ok? {
        AnalyzeIsFirstAccepted(encoded.value, env.provider, s.calls, env.jpeg);
        var run := Analyze(encoded.value, env.provider, s.calls, env.jpeg);
        if run.answer.Some? {
          var timed := s.(calls := run.calls,
                          timing := Upsert(s.timing, Key(caseNumber, Temperature, Trial), run.answer.value.elapsed));
          assert CaseStep(s, folder, caseNumber, script, env)
              == AfterReply(timed, caseNumber, path, run.answer.value.content, script, env.decode);
          match run.answer.value.content
          case Parts(_) =>
          case Str(text) =>
            if |text| > 0 {
              RecordAnswerSpec(timed.(files := timed.files[path := text]), caseNumber, text, script, env.decode);
            }
        }
      }
    }
  }

  /** `[result, execution_time] = None` ends the run before the timing
      update: ten rejected attempts leave the state as it was, apart from the
      invocations. */
  lemma NoReplyCrashes(s: State, folder: string, caseNumber: int, script: Script, env: Env)
    requires ResultPath(folder, caseNumber) !in s.files
    requires EncodeFromPaths([ImagePath(caseNumber)], env.store, env.jpeg).Ok?
    requires forall i :: s.calls <= i < s.calls + MaxAttempts ==> !Accepted(env.provider(i))
    ensures CaseStep(s, folder, caseNumber, script, env)
            == s.(calls := s.calls + MaxAttempts, status := Crashed(NoReply))
  {
    var images := EncodeFromPaths([ImagePath(caseNumber)], env.store, env.jpeg).value;
    AnalyzeNoneIffAllRejected(images, env.provider, s.calls, env.jpeg);
    AnalyzeIsFirstAccepted(images, env.provider, s.calls, env.jpeg);
    FirstAcceptedIsFirst(env.provider, s.calls, MaxAttempts);
  }

  /** `if result:` on the reply's content: a non-empty string or list. */
  predicate Truthy(content: Content)
  {
    match content
    case Str(text) => |text| > 0
    case Parts(parts) => |parts| > 0
  }

  /** This case's result file is added exactly when a truthy reply came
      back, and no other file ever is. It then holds the reply text, with a
      row appended exactly when that text parses; a non-empty list reply
      leaves the file empty and ends the run at `write`. Otherwise files
      and rows stay as they were. */
  lemma CaseStepOutput(s: State, folder: string, caseNumber: int, script: Script, env: Env)
    ensures var t, path, r := CaseStep(s, folder, caseNumber, script, env), ResultPath(folder, caseNumber),
                             CaseReply(s, folder, caseNumber, env);
            if r.Some? && Truthy(r.value.content)
            then path !in s.files
                 && match r.value.content
                    case Str(text) =>
                      t.files == s.files[path := text]
                      && t.results == (if Parsed(text, script, env.decode)
                                       then s.results + [ResultRow(caseNumber, ParsedValues(text, script, env.decode))]
                                       else s.results)
                    case Parts(_) =>
                      t.files == s.files[path := ""] && t.results == s.results && t.status == Crashed(WriteOfList)
            else t.files == s.files && t.results == s.results
  {
    var path := ResultPath(folder, caseNumber);
    if path !in s.files {
      var encoded := EncodeFromPaths([ImagePath(caseNumber)], env.store, env.jpeg);
      if encoded.Ok? {
        var run := Analyze(encoded.value, env.provider, s.calls, env.jpeg);
        if run.Run? && run.answer.Some? {
          var timed := s.(calls := run.calls,
                          timing := Upsert(s.timing, Key(caseNumber, Temperature, Trial), run.answer.value.elapsed));
          assert CaseStep(s, folder, caseNumber, script, env)
              == AfterReply(timed, caseNumber, path, run.answer.value.content, script, env.decode);
          match run.answer.value.content
          case Parts(_) =>
          case Str(text) =>
            if |text| > 0 {
              RecordAnswerSpec(timed.(files := timed.files[path := text]), caseNumber, text, script, env.decode);
            }
        }
      }
    }
  }

  /** Re-running over cases that all have result files makes no invocation
      and changes nothing. */
  lemma {:induction false} ResumeIsNoOp(s: State, folder: string, cases: seq<int>, script: Script, env: Env)
    requires forall i :: 0 <= i < |cases| ==> ResultPath(folder, cases[i]) in s.files
    ensures RunCases(s, folder, cases, script, env) == s
    decreases |cases|
  {
    if cases != [] && s.status.Running? {
      SkipIsNoOp(s, folder, cases[0], script, env);
      assert forall i :: 0 <= i < |cases| - 1 ==> cases[1..][i] == cases[i + 1];
      ResumeIsNoOp(s, folder, cases[1..], script, env);
    }
  }

  /** A timing table with one row per key keeps one row per key over the whole pass. */
  lemma {:induction false} RunCasesKeepsTimingUnique(s: State, folder: string, cases: seq<int>,
                                                     script: Script, env: Env)
    requires UniqueKeys(s.timing)
    ensures UniqueKeys(RunCases(s, folder, cases, script, env).timing)
    decreases |cases|
  {
    if cases != [] && s.status.Running? {
      CaseStepTiming(s, folder, cases[0], script, env);
      var reply := CaseReply(s, folder, cases[0], env);
      if reply.Some? {
        UpsertKeepsKeysUnique(s.timing, Key(cases[0], Temperature, Trial), reply.value.elapsed);
      }
      var t := CaseStep(s, folder, cases[0], script, env);
      assert UniqueKeys(t.timing);
      RunCasesKeepsTimingUnique(t, folder, cases[1..], script, env);
    }
  }

  /** A result file, once there, stays with its text; the pass makes at most
      ten invocations per case. */
  lemma {:induction false} RunCasesKeepsFiles(s: State, folder: string, cases: seq<int>, script: Script, env: Env)
    ensures var t := RunCases(s, folder, cases, script, env);
            (forall p :: p in s.files ==> p in t.files && t.files[p] == s.files[p])
            && s.calls <= t.calls <= s.calls + MaxAttempts * |cases|
    decreases |cases|
  {
    if cases != [] && s.status.Running? {
      CaseStepOutput(s, folder, cases[0], script, env);
      CaseStepTiming(s, folder, cases[0], script, env);
      RunCasesKeepsFiles(CaseStep(s, folder, cases[0], script, env), folder, cases[1..], script, env);
    }
  }

  /** A full resume leaves the result texts and the timing table as they were
      and makes no invocation, but rewrites the results workbook with the rows
      of this run only, which are none. */
  lemma RerunEmptiesResultsBook(disk: Disk, cases: seq<int>, script: Script, env: Env)
    requires forall i :: 0 <= i < |cases| ==> ResultPath(ResultDir, cases[i]) in disk.texts
    ensures var f := GeminiMain(disk, cases, script, env);
            f.calls == 0 && f.status.Running?
            && f.disk.texts == disk.texts
            && f.disk.timeBooks == disk.timeBooks[TimeFile := LoadTiming(disk, TimeFile)]
            && f.disk.answerBooks == disk.answerBooks[PathJoin(ResultDir, ResultsBook) := []]
  {
    ResumeIsNoOp(State(disk.texts, LoadTiming(disk, TimeFile), [], 0, Running), ResultDir, cases, script, env);
  }

  /** The reply of the end-to-end example. */
  const CaseTwelveReply: string := "{\"answer\":\"2\",\"reason\":\"lesion pattern\"}"

  /** The reply of the end-to-end example is its own brace span. */
  lemma CaseTwelveExtracted(decode: Decoder)
    ensures ExtractJsonData(CaseTwelveReply, decode) == decode(CaseTwelveReply)
  {
    BraceSpanOfParts("", CaseTwelveReply, "");
    assert "" + CaseTwelveReply + "" == CaseTwelveReply;
  }

  /** An object with exactly the NEJM script's two keys gives the row of its two values, in key order. */
  lemma NejmFieldsRead(answer: Value, reason: Value)
    ensures ReadFields(map["answer" := answer, "reason" := reason], NejmKeys) == Ok([answer, reason])
  {
    var fields := map["answer" := answer, "reason" := reason];
    var read := ReadFields(fields, NejmKeys);
    assert NejmKeys[0] == "answer" && NejmKeys[1] == "reason";
    assert forall i :: 0 <= i < |NejmKeys| ==> NejmKeys[i] in fields;
    assert read.value == [read.value[0], read.value[1]];
  }

  /** The reply of the end-to-end example yields the row `"2", "lesion pattern"`. */
  lemma CaseTwelveRecorded(w: State, decode: Decoder)
    requires decode(CaseTwelveReply) == Some(Object(map["answer" := JString("2"), "reason" := JString("lesion pattern")]))
    ensures RecordAnswer(w, 12, CaseTwelveReply, Nejm, decode)
            == w.(results := w.results + [ResultRow(12, [JString("2"), JString("lesion pattern")])])
  {
    CaseTwelveExtracted(decode);
    NejmFieldsRead(JString("2"), JString("lesion pattern"));
    assert "answer" in map["answer" := JString("2"), "reason" := JString("lesion pattern")];
  }

  /** The image of the end-to-end example is sent at its original size and
      the first reply comes back. */
  lemma CaseTwelveAnswered(s: State, env: Env, elapsed: real)
    requires ImagePath(12) in env.store && env.store[ImagePath(12)] == Image(4000, 3000, RGB)
    requires env.jpeg(4000, 3000) < MaxSize
    requires env.provider(s.calls) == Replied(Str(CaseTwelveReply), elapsed)
    ensures var images := [Encoded(4000, 3000, env.jpeg(4000, 3000))];
            EncodeFromPaths([ImagePath(12)], env.store, env.jpeg) == Ok(images)
            && Analyze(images, env.provider, s.calls, env.jpeg)
               == Run(Some(Reply(Str(CaseTwelveReply), elapsed)), s.calls + 1, [images])
  {
    var img := Image(4000, 3000, RGB);
    var e := Encoded(4000, 3000, env.jpeg(4000, 3000));
    FirstAttemptIsOriginal(img, DefaultFactor, env.jpeg);
    assert Encode(img, DefaultFactor, env.jpeg) == Ok(e);
    EncodeFromOnePath(ImagePath(12), env.store, env.jpeg);
    AnalyzeIsFirstAccepted([e], env.provider, s.calls, env.jpeg);
  }

  /** A 4000 x 3000 image that fits at its original size and a first reply
      `{"answer":"2","reason":"lesion pattern"}` give case 12 one
      invocation, its result file with that text, its timing row and the row
      `12, "2", "lesion pattern"`. */
  lemma CaseTwelve(s: State, env: Env, elapsed: real)
    requires ResultPath(ResultDir, 12) !in s.files
    requires ImagePath(12) in env.store && env.store[ImagePath(12)] == Image(4000, 3000, RGB)
    requires env.jpeg(4000, 3000) < MaxSize
    requires env.provider(s.calls) == Replied(Str(CaseTwelveReply), elapsed)
    requires env.decode(CaseTwelveReply) == Some(Object(map["answer" := JString("2"), "reason" := JString("lesion pattern")]))
    ensures CaseStep(s, ResultDir, 12, Nejm, env)
            == s.(calls := s.calls + 1,
                  timing := Upsert(s.timing, Key(12, Temperature, Trial), elapsed),
                  files := s.files[ResultPath(ResultDir, 12) := CaseTwelveReply],
                  results := s.results + [ResultRow(12, [JString("2"), JString("lesion pattern")])])
  {
    CaseTwelveAnswered(s, env, elapsed);
    var path := ResultPath(ResultDir, 12);
    var timed := s.(calls := s.calls + 1, timing := Upsert(s.timing, Key(12, Temperature, Trial), elapsed));
    assert CaseStep(s, ResultDir, 12, Nejm, env)
        == AfterReply(timed, 12, path, Str(CaseTwelveReply), Nejm, env.decode);
    CaseTwelveRecorded(timed.(files := timed.files[path := CaseTwelveReply]), env.decode);
  }

  /** One iteration of the case loop in `main`. */
  method ProcessGeminiCase(s: State, folder: string, caseNumber: int, script: Script, env: Env)
    returns (t: State)
    ensures t == CaseStep(s, folder, caseNumber, script, env)
  {
    var path := ResultPath(folder, caseNumber);
    if path in s.files {
      return s;
    }
    var encoded := EncodeImagesFromPaths([ImagePath(caseNumber)], env.store, env.jpeg);
    if encoded.Err? {
      return s.(status := Crashed(EncodeFailed(encoded.error)));
    }
    var run := AnalyzeImagesWithGemini(encoded.value, env.provider, s.calls, env.jpeg);
    if run.Escaped? {
      return s.(calls := run.calls, status := Crashed(EncodeFailed(run.error)));
    }
    if run.answer.None? {
      return s.(calls := run.calls, status := Crashed(NoReply));
    }
    var reply := run.answer.value;
    t := s.(calls := run.calls, timing := Upsert(s.timing, Key(caseNumber, Temperature, Trial), reply.elapsed));
    match reply.content {
      case Parts(parts) =>
        if |parts| > 0 {
          t := t.(files := t.files[path := ""], status := Crashed(WriteOfList));
        }
      case Str(text) =>
        if |text| > 0 {
          t := t.(files := t.files[path := text]);
          var content := ExtractJsonData(text, env.decode);
          match content {
            case None =>
            case Some(Other(truthy)) =>
              if truthy {
                t := t.(status := Crashed(NotSubscriptable));
              }
            case Some(Object(fields)) =>
              if |fields| > 0 {
                var values := ReadFields(fields, Keys(script));
                if values.Err? {
                  t := t.(status := Crashed(MissingKey(values.error)));
                } else {
                  var cells := RowCells(script, values.value);
                  if cells.None? {
                    t := t.(status := Crashed(LengthMismatch));
                  } else {
                    t := t.(results := t.results + [ResultRow(caseNumber, cells.value)]);
                  }
                }
              }
          }
        }
    }
  }

  /** The case loop of one configuration. */
  method RunGeminiCases(s: State, folder: string, cases: seq<int>, script: Script, env: Env)
    returns (t: State)
    ensures t == RunCases(s, folder, cases, script, env)
  {
    t := s;
    var i := 0;
    while i < |cases| && t.status.Running?
      invariant 0 <= i <= |cases|
      invariant RunCases(t, folder, cases[i..], script, env) == RunCases(s, folder, cases, script, env)
    {
      assert cases[i..][1..] == cases[i + 1..];
      t := ProcessGeminiCase(t, folder, cases[i], script, env);
      i := i + 1;
    }
  }

  /** `main()` */
  method RunGeminiScript(disk: Disk, cases: seq<int>, script: Script, env: Env) returns (f: Final)
    ensures f == GeminiMain(disk, cases, script, env)
  {
    var timing := LoadTiming(disk, TimeFile);
    var s := RunGeminiCases(State(disk.texts, timing, [], 0, Running), ResultDir, cases, script, env);
    if s.status.Running? {
      var answerBooks := disk.answerBooks[PathJoin(ResultDir, ResultsBook) := s.results];
      var timeBooks := disk.timeBooks[TimeFile := s.timing];
      return Final(Disk(s.files, answerBooks, timeBooks), s.calls, Running);
    }
    return Final(disk.(texts := s.files), s.calls, s.status);
  }
}
