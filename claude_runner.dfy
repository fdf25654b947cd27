/** `main` of the Claude script over its one configuration (temperature
    `1`, trial 1). Unlike the Gemini scripts it upserts the timing row with
    the time of the whole retry call even when no answer came back, decodes
    the whole reply with `json.loads`, and stops the run, after saving the
    timing table, when the provider reports a quota error. */
module ClaudeRunner {
  import opened Wrappers
  import opened Text
  import opened Encoder
  import opened ClaudeRetry
  import opened JsonExtract
  import opened Timing
  import opened Naming
  import opened Tables

  const BaseFolder: string := "Claude_result/Claude_result"
  const Temperature: string := "1"
  const Trial: nat := 1
  const ImageFolder: string := "pptimages"
  const ResultsBook: string := "claude_results.xlsx"
  const TimeFile: string := "Claude_execution_times.xlsx"
  const AnswerKeys: seq<string> := ["answer", "reason"]

  const ResultDir: string := ResultFolder(BaseFolder, Temperature, Trial)

  datatype Crash =
    | EncodeFailed(error: EncodeError)   // ValueError / OSError / FileNotFoundError from the encoder
    | NotSubscriptable                   // a JSON value other than an object indexed by a key
    | MissingKey(key: string)            // KeyError

  /** `Aborted` is the `sys.exit()` after a quota error. */
  datatype Status = Running | Aborted | Crashed(crash: Crash)

  /** The result texts, the global timing table, `results_df`, the global
      `execution_times` list, the provider invocations so far, and the status. */
  datatype State = State(files: map<string, string>, timing: seq<Row>, results: seq<ResultRow>,
                         latencies: seq<real>, calls: nat, status: Status)

  datatype Env = Env(store: map<string, Image>, jpeg: JpegSize, provider: Provider, decode: Decoder)

  function ImagePath(caseNumber: int): string
  {
    PathJoin(ImageFolder, ImageFileName(caseNumber))
  }

  /** The `try: json.loads(result) ...` block: only `JSONDecodeError` is caught. */
  function RecordAnswer(s: State, caseNumber: int, text: string, decode: Decoder): State
  {
    match decode(text)
    case None => s
    case Some(Other(_)) => s.(status := Crashed(NotSubscriptable))
    case Some(Object(fields)) =>
      match ReadFields(fields, AnswerKeys)
      case Err(k) => s.(status := Crashed(MissingKey(k)))
      case Ok(values) => s.(results := s.results + [ResultRow(caseNumber, values)])
  }

  /** One iteration of the case loop. */
  function CaseStep(s: State, folder: string, caseNumber: int, env: Env): State
  {
    var path := ResultPath(folder, caseNumber);
    if path in s.files then s
    else match EncodeFromPaths([ImagePath(caseNumber)], env.store, env.jpeg)
      case Err(e) => s.(status := Crashed(EncodeFailed(e)))
      case Ok(images) => AfterRun(s, path, caseNumber, Analyze(images, env.provider, s.calls, env.jpeg), env.decode)
  }

  /** The rest of the iteration once the retry function returned `r` (or
      let an exception through). */
  function AfterRun(s: State, path: string, caseNumber: int, r: Run, decode: Decoder): State
  {
    match r
    case Escaped(e, calls, _) => s.(calls := calls, status := Crashed(EncodeFailed(e)))
    case Exited(calls, _) => s.(calls := calls, status := Aborted)
    case Run(answer, calls, _, spent) =>
      var timed := s.(calls := calls, timing := Upsert(s.timing, Key(caseNumber, Temperature, Trial), spent),
                      latencies := if answer.Some? then s.latencies + [answer.value.elapsed] else s.latencies);
      if answer.None? || |answer.value.text| == 0 then timed
      else RecordAnswer(timed.(files := timed.files[path := answer.value.text]), caseNumber, answer.value.text, decode)
  }

  function RunCases(s: State, folder: string, cases: seq<int>, env: Env): State
    decreases |cases|
  {
    if cases == [] || !s.status.Running? then s
    else RunCases(CaseStep(s, folder, cases[0], env), folder, cases[1..], env)
  }

  datatype Final = Final(disk: Disk, calls: nat, status: Status)

  /** `main()`; on a quota error the handler saves the timing table and exits
      before the results workbook is written. */
  function ClaudeMain(disk: Disk, cases: seq<int>, env: Env): Final
  {
    var start := State(disk.texts, LoadTiming(disk, TimeFile), [], [], 0, Running);
    var s := RunCases(start, ResultDir, cases, env);
    match s.status
    case Running =>
      Final(Disk(s.files, disk.answerBooks[PathJoin(ResultDir, ResultsBook) := s.results],
                 disk.timeBooks[TimeFile := s.timing]), s.calls, Running)
    case Aborted => Final(Disk(s.files, disk.answerBooks, disk.timeBooks[TimeFile := s.timing]), s.calls, Aborted)
    case Crashed(_) => Final(disk.(texts := s.files), s.calls, s.status)
  }

  /** The brace-free decoding of the whole reply gives an object with both keys. */
  predicate Parsed(text: string, decode: Decoder)
  {
    match decode(text)
    case Some(Object(fields)) => "answer" in fields && "reason" in fields
    case _ => false
  }

  lemma SkipIsNoOp(s: State, folder: string, caseNumber: int, env: Env)
    requires ResultPath(folder, caseNumber) in s.files
    ensures CaseStep(s, folder, caseNumber, env) == s
  {
  }

  /** The decoding step: a row with `answer` and `reason` exactly when the
      reply decodes to an object holding both; a reply that does not decode
      adds nothing and the run goes on; any other value ends the run. */
  lemma RecordAnswerSpec(s: State, caseNumber: int, text: string, decode: Decoder)
    ensures var t := RecordAnswer(s, caseNumber, text, decode);
            t.files == s.files && t.timing == s.timing && t.calls == s.calls && t.latencies == s.latencies
            && (Parsed(text, decode)
                ==> t.results == s.results + [ResultRow(caseNumber, [decode(text).value.fields["answer"],
                                                                     decode(text).value.fields["reason"]])]
                    && t.status == s.status)
            && (!Parsed(text, decode) ==> t.results == s.results)
            && (decode(text).None? ==> t.status == s.status)
            && (decode(text).Some? && !Parsed(text, decode) ==> t.status.Crashed?)
            && (decode(text).Some? && decode(text).value.Other? ==> t.status == Crashed(NotSubscriptable))
            && (decode(text).Some? && decode(text).value.Object? && !Parsed(text, decode)
                ==> t.status.Crashed? && t.status.crash.MissingKey?
                    && FirstMissing(decode(text).value.fields, AnswerKeys, t.status.crash.key))
  {
    if Parsed(text, decode) {
      var fields := decode(text).value.fields;
      var read := ReadFields(fields, AnswerKeys);
      assert forall i :: 0 <= i < |AnswerKeys| ==> AnswerKeys[i] in fields;
      assert |read.value| == 2;
      assert read.value == [read.value[0], read.value[1]];
    } else if decode(text).Some? && decode(text).value.Object? {
      assert AnswerKeys[0] == "answer" && AnswerKeys[1] == "reason";
    }
  }

  /** The retry call's result for a case that is not skipped and whose image encodes. */
  function CaseRun(s: State, folder: string, caseNumber: int, env: Env): Option<Run>
  {
    if ResultPath(folder, caseNumber) in s.files then None
    else match EncodeFromPaths([ImagePath(caseNumber)], env.store, env.jpeg)
      case Err(_) => None
      case Ok(images) => Some(Analyze(images, env.provider, s.calls, env.jpeg))
  }

  /** The timing row is upserted whenever the retry function returned,
      answer or not, with the time the call measured (all its invocations,
      by CaseRunSpent); a quota error or a crash leaves the table alone. A
      latency is recorded for each answer. At most ten invocations per case. */
  lemma CaseStepTiming(s: State, folder: string, caseNumber: int, env: Env)
    requires s.status.Running?
    ensures var t, r := CaseStep(s, folder, caseNumber, env), CaseRun(s, folder, caseNumber, env);
            s.calls <= t.calls <= s.calls + MaxAttempts
            && (if r.Some? && r.value.Run?
                then t.timing == Upsert(s.timing, Key(caseNumber, Temperature, Trial), r.value.spent)
                     && t.latencies == s.latencies + (if r.value.answer.Some? then [r.value.answer.value.elapsed] else [])
                else t.timing == s.timing && t.latencies == s.latencies)
            && (t.status.Aborted? <==> r.Some? && r.value.Exited?)
  {
    var path := ResultPath(folder, caseNumber);
    if path !in s.files {
      var encoded := EncodeFromPaths([ImagePath(caseNumber)], env.store, env.jpeg);
      if encoded.Ok? {
        AnalyzeBound(encoded.value, env.provider, s.calls, env.jpeg);
        var run := Analyze(encoded.value, env.provider, s.calls, env.jpeg);
        AfterRunTiming(s, path, caseNumber, run, env.decode);
        assert CaseRun(s, folder, caseNumber, env) == Some(run);
        assert CaseStep(s, folder, caseNumber, env) == AfterRun(s, path, caseNumber, run, env.decode);
      }
    }
  }

  /** The time recorded for a case is the summed time of all invocations
      the retry call made. */
  lemma CaseRunSpent(s: State, folder: string, caseNumber: int, env: Env)
    ensures var r := CaseRun(s, folder, caseNumber, env);
            r.Some? && r.value.Run? ==>
              s.calls < r.value.calls && r.value.spent == TimeSpent(env.provider, s.calls, r.value.calls - s.calls)
  {
    var encoded := EncodeFromPaths([ImagePath(caseNumber)], env.store, env.jpeg);
    if ResultPath(folder, caseNumber) !in s.files && encoded.Ok? {
      EncodeFromPathsProduces([ImagePath(caseNumber)], env.store, env.jpeg);
      AnalyzeSpent(encoded.value, env.provider, s.calls, env.jpeg);
      var run := Analyze(encoded.value, env.provider, s.calls, env.jpeg);
      assert CaseRun(s, folder, caseNumber, env) == Some(run);
    }
  }

  /** The timing row and the latency list after the retry function returned:
      upserted with its time and extended by the answer's latency when it
      ran to the end, untouched when it exited or an exception escaped. */
  lemma AfterRunTiming(s: State, path: string, caseNumber: int, r: Run, decode: Decoder)
    requires s.status.Running?
    ensures var t := AfterRun(s, path, caseNumber, r, decode);
            t.calls == r.calls
            && (if r.Run?
                then t.timing == Upsert(s.timing, Key(caseNumber, Temperature, Trial), r.spent)
                     && t.latencies == s.latencies + (if r.answer.Some? then [r.answer.value.elapsed] else [])
                else t.timing == s.timing && t.latencies == s.latencies)
            && (t.status.Aborted? <==> r.Exited?)
  {
    if r.Run? && r.answer.Some? && |r.answer.value.text| > 0 {
      var timed := s.(calls := r.calls, timing := Upsert(s.timing, Key(caseNumber, Temperature, Trial), r.spent),
                      latencies := s.latencies + [r.answer.value.elapsed]);
      RecordAnswerSpec(timed.(files := timed.files[path := r.answer.value.text]), caseNumber, r.answer.value.text, decode);
    }
  }

  /** Ten invocations without an answer or a quota error: the case is timed
      with their summed time, and no file and no row are written. */
  lemma NoAnswerStillTimed(s: State, folder: string, caseNumber: int, env: Env)
    requires ResultPath(folder, caseNumber) !in s.files
    requires EncodeFromPaths([ImagePath(caseNumber)], env.store, env.jpeg).Ok?
    requires forall i :: s.calls <= i < s.calls + MaxAttempts ==>
               !Answers(env.provider(i)) && !QuotaExceeded(env.provider(i))
    ensures CaseStep(s, folder, caseNumber, env)
            == s.(calls := s.calls + MaxAttempts,
                  timing := Upsert(s.timing, Key(caseNumber, Temperature, Trial),
                                   TimeSpent(env.provider, s.calls, MaxAttempts)))
  {
    var images := EncodeFromPaths([ImagePath(caseNumber)], env.store, env.jpeg).value;
    EncodeFromPathsProduces([ImagePath(caseNumber)], env.store, env.jpeg);
    AnalyzeNoDecisive(images, env.provider, s.calls, env.jpeg);
  }

  /** A quota error as the first decisive invocation exits the case without
      touching the timing table, files or rows. */
  lemma QuotaExits(s: State, folder: string, caseNumber: int, env: Env, j: nat)
    requires ResultPath(folder, caseNumber) !in s.files
    requires EncodeFromPaths([ImagePath(caseNumber)], env.store, env.jpeg).Ok?
    requires s.calls <= j < s.calls + MaxAttempts && QuotaExceeded(env.provider(j))
    requires forall i :: s.calls <= i < j ==> !Answers(env.provider(i)) && !QuotaExceeded(env.provider(i))
    ensures CaseStep(s, folder, caseNumber, env) == s.(calls := j + 1, status := Aborted)
  {
    var images := EncodeFromPaths([ImagePath(caseNumber)], env.store, env.jpeg).value;
    EncodeFromPathsProduces([ImagePath(caseNumber)], env.store, env.jpeg);
    AnalyzeQuotaExits(images, env.provider, s.calls, env.jpeg, j);
  }

  /** After a quota error no further case is processed: the run stops where
      it is, the timing table so far is saved, and no results workbook is written. */
  lemma ExitEndsRun(s: State, folder: string, cases: seq<int>, env: Env)
    requires s.status.Aborted?
    ensures RunCases(s, folder, cases, env) == s
  {
  }

  lemma ExitSavesTiming(disk: Disk, cases: seq<int>, env: Env)
    ensures var f := ClaudeMain(disk, cases, env);
            var s := RunCases(State(disk.texts, LoadTiming(disk, TimeFile), [], [], 0, Running), ResultDir, cases, env);
            f.status.Aborted? ==>
              f.disk == Disk(s.files, disk.answerBooks, disk.timeBooks[TimeFile := s.timing])
  {
  }

  /** Files are only added, and only this case's file, with the answer text
      when it is non-empty; a row is appended exactly when that text parses,
      with its `answer` and `reason`. */
  lemma CaseStepOutput(s: State, folder: string, caseNumber: int, env: Env)
    ensures var t, path, r := CaseStep(s, folder, caseNumber, env), ResultPath(folder, caseNumber),
                             CaseRun(s, folder, caseNumber, env);
            if r.Some? && r.value.Run? && r.value.answer.Some? && |r.value.answer.value.text| > 0
            then var text := r.value.answer.value.text;
                 path !in s.files && t.files == s.files[path := text]
                 && t.results == (if Parsed(text, env.decode)
                                  then s.results + [ResultRow(caseNumber, [env.decode(text).value.fields["answer"],
                                                                           env.decode(text).value.fields["reason"]])]
                                  else s.results)
            else t.files == s.files && t.results == s.results
  {
    var path := ResultPath(folder, caseNumber);
    if path !in s.files {
      var encoded := EncodeFromPaths([ImagePath(caseNumber)], env.store, env.jpeg);
      if encoded.Ok? {
        var run := Analyze(encoded.value, env.provider, s.calls, env.jpeg);
        if run.Run? && run.answer.Some? && |run.answer.value.text| > 0 {
          var timed := s.(calls := run.calls, timing := Upsert(s.timing, Key(caseNumber, Temperature, Trial), run.spent),
                          latencies := s.latencies + [run.answer.value.elapsed]);
          RecordAnswerSpec(timed.(files := timed.files[path := run.answer.value.text]), caseNumber,
                           run.answer.value.text, env.decode);
        }
      }
    }
  }

  lemma {:induction false} ResumeIsNoOp(s: State, folder: string, cases: seq<int>, env: Env)
    requires forall i :: 0 <= i < |cases| ==> ResultPath(folder, cases[i]) in s.files
    ensures RunCases(s, folder, cases, env) == s
    decreases |cases|
  {
    if cases != [] && s.status.Running? {
      SkipIsNoOp(s, folder, cases[0], env);
      assert forall i :: 0 <= i < |cases| - 1 ==> cases[1..][i] == cases[i + 1];
      ResumeIsNoOp(s, folder, cases[1..], env);
    }
  }

  lemma {:induction false} RunCasesKeepsTimingUnique(s: State, folder: string, cases: seq<int>, env: Env)
    requires UniqueKeys(s.timing)
    ensures UniqueKeys(RunCases(s, folder, cases, env).timing)
    decreases |cases|
  {
    if cases != [] && s.status.Running? {
      CaseStepTiming(s, folder, cases[0], env);
      var r := CaseRun(s, folder, cases[0], env);
      if r.Some? && r.value.Run? {
        UpsertKeepsKeysUnique(s.timing, Key(cases[0], Temperature, Trial), r.value.spent);
      }
      var t := CaseStep(s, folder, cases[0], env);
      assert UniqueKeys(t.timing);
      RunCasesKeepsTimingUnique(t, folder, cases[1..], env);
    }
  }

  /** A full resume makes no invocation and keeps texts and timing, but
      rewrites the results workbook with no rows. */
  lemma RerunEmptiesResultsBook(disk: Disk, cases: seq<int>, env: Env)
    requires forall i :: 0 <= i < |cases| ==> ResultPath(ResultDir, cases[i]) in disk.texts
    ensures var f := ClaudeMain(disk, cases, env);
            f.calls == 0 && f.status.Running?
            && f.disk.texts == disk.texts
            && f.disk.timeBooks == disk.timeBooks[TimeFile := LoadTiming(disk, TimeFile)]
            && f.disk.answerBooks == disk.answerBooks[PathJoin(ResultDir, ResultsBook) := []]
  {
    ResumeIsNoOp(State(disk.texts, LoadTiming(disk, TimeFile), [], [], 0, Running), ResultDir, cases, env);
  }

  method ProcessClaudeCase(s: State, folder: string, caseNumber: int, env: Env) returns (t: State)
    ensures t == CaseStep(s, folder, caseNumber, env)
  {
    var path := ResultPath(folder, caseNumber);
    if path in s.files {
      return s;
    }
    var encoded := EncodeImagesFromPaths([ImagePath(caseNumber)], env.store, env.jpeg);
    if encoded.Err? {
      return s.(status := Crashed(EncodeFailed(encoded.error)));
    }
    var run := AnalyzeImagesWithClaude(encoded.value, env.provider, s.calls, env.jpeg);
    match run {
      case Escaped(e, calls, _) =>
        return s.(calls := calls, status := Crashed(EncodeFailed(e)));
      case Exited(calls, _) =>
        return s.(calls := calls, status := Aborted);
      case Run(answer, calls, _, spent) =>
        t := s.(calls := calls, timing := Upsert(s.timing, Key(caseNumber, Temperature, Trial), spent));
        if answer.Some? {
          t := t.(latencies := t.latencies + [answer.value.elapsed]);
          var text := answer.value.text;
          if |text| > 0 {
            t := t.(files := t.files[path := text]);
            var content := env.decode(text);
            match content {
              case None =>
              case Some(Other(_)) =>
                t := t.(status := Crashed(NotSubscriptable));
              case Some(Object(fields)) =>
                var values := ReadFields(fields, AnswerKeys);
                if values.Err? {
                  t := t.(status := Crashed(MissingKey(values.error)));
                } else {
                  t := t.(results := t.results + [ResultRow(caseNumber, values.value)]);
                }
            }
          }
        }
    }
  }

  method RunClaudeCases(s: State, folder: string, cases: seq<int>, env: Env) returns (t: State)
    ensures t == RunCases(s, folder, cases, env)
  {
    t := s;
    var i := 0;
    while i < |cases| && t.status.Running?
      invariant 0 <= i <= |cases|
      invariant RunCases(t, folder, cases[i..], env) == RunCases(s, folder, cases, env)
    {
      assert cases[i..][1..] == cases[i + 1..];
      t := ProcessClaudeCase(t, folder, cases[i], env);
      i := i + 1;
    }
  }

  /** `main()` */
  method RunClaudeScript(disk: Disk, cases: seq<int>, env: Env) returns (f: Final)
    ensures f == ClaudeMain(disk, cases, env)
  {
    var timing := LoadTiming(disk, TimeFile);
    var s := RunClaudeCases(State(disk.texts, timing, [], [], 0, Running), ResultDir, cases, env);
    match s.status {
      case Running =>
        var answerBooks := disk.answerBooks[PathJoin(ResultDir, ResultsBook) := s.results];
        return Final(Disk(s.files, answerBooks, disk.timeBooks[TimeFile := s.timing]), s.calls, Running);
      case Aborted =>
        return Final(Disk(s.files, disk.answerBooks, disk.timeBooks[TimeFile := s.timing]), s.calls, Aborted);
      case Crashed(_) =>
        return Final(disk.(texts := s.files), s.calls, s.status);
    }
  }
}
