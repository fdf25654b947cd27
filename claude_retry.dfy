/** `analyze_images_with_claude_vision`: at most ten invocations; a reply
    starting with "I'm sorry, but" retries with the same images; an exception
    whose lower-cased text contains "exceeded" saves the timing table and ends
    the run; one containing "image_parse_error" re-encodes every image at 0.9
    before the next attempt (except after the last attempt); any other
    exception retries with the same images. The images are prepared but not
    put in the request (the line that would add them is commented out). */
module ClaudeRetry {
  import opened Wrappers
  import opened Text
  import opened Encoder

  const MaxAttempts: nat := 10
  const SorryPrefix: string := "I'm sorry, but"
  const QuotaMarker: string := "exceeded"
  const ParseErrorMarker: string := "image_parse_error"
  /** `str(e)` of the `IndexError` that `response.content[0]` raises on an empty content list. */
  const IndexErrorMessage: string := "list index out of range"

  /** One invocation: the text blocks of `response.content`, or an exception
      with its text; each with the time it took. */
  datatype Outcome = Message(blocks: seq<string>, elapsed: real) | Failed(message: string, elapsed: real)

  type Provider = nat -> Outcome

  /** The returned text and the latency appended to `execution_times`. */
  datatype Answer = Answer(text: string, elapsed: real)

  /** The next state after one attempt; `Quit` is the `sys.exit()` after a quota error. */
  datatype Next = Retry(images: seq<Encoded>) | Return(answer: Answer) | Quit | Escape(error: EncodeError)

  /** `response_text.startswith("I'm sorry, but")` */
  predicate IsRefusal(text: string)
  {
    StartsWith(text, SorryPrefix)
  }

  /** `"exceeded" in str(e).lower()` */
  predicate MentionsQuota(message: string)
  {
    Contains(Lower(message), QuotaMarker)
  }

  /** `"image_parse_error" in str(e).lower()` */
  predicate MentionsParseError(message: string)
  {
    Contains(Lower(message), ParseErrorMarker)
  }

  predicate Answers(o: Outcome)
  {
    o.Message? && |o.blocks| > 0 && !IsRefusal(o.blocks[0])
  }

  predicate QuotaExceeded(o: Outcome)
  {
    o.Failed? && MentionsQuota(o.message)
  }

  /** The `except Exception as e` handler. A failing re-encode here is raised
      inside the handler and leaves the function. */
  function OnException(message: string, attempt: nat, images: seq<Encoded>, jpeg: JpegSize): Next
  {
    if MentionsQuota(message) then Quit
    else if MentionsParseError(message) && attempt < MaxAttempts - 1 then
      match ReencodeAll(images, DefaultFactor, jpeg)
      case Ok(resized) => Retry(resized)
      case Err(e) => Escape(e)
    else Retry(images)
  }

  function Step(images: seq<Encoded>, o: Outcome, attempt: nat, jpeg: JpegSize): Next
  {
    match o
    case Failed(message, _) => OnException(message, attempt, images, jpeg)
    case Message(blocks, elapsed) =>
      if |blocks| == 0 then OnException(IndexErrorMessage, attempt, images, jpeg)
      else if IsRefusal(blocks[0]) then Retry(images)
      else Return(Answer(blocks[0], elapsed))
  }

  /** The function's result with the model's bookkeeping: the index of the next
      provider invocation, the image lists prepared for each invocation, and
      the time the invocations took together. */
  datatype Run =
    | Run(answer: Option<Answer>, calls: nat, sent: seq<seq<Encoded>>, spent: real)
    | Exited(calls: nat, sent: seq<seq<Encoded>>)
    | Escaped(error: EncodeError, calls: nat, sent: seq<seq<Encoded>>)

  /** The loop body as a value: what one attempt with these images and this outcome leads to. */
  type Body = (seq<Encoded>, Outcome, nat) -> Next

  /** The body of `analyze_images_with_claude_vision` for a given JPEG size function. */
  function ScriptBody(jpeg: JpegSize): Body
  {
    (images: seq<Encoded>, o: Outcome, attempt: nat) => Step(images, o, attempt, jpeg)
  }

  /** `for attempt in range(max_attempts)` from attempt `attempt` on, with `body` as the loop body. */
  function Loop(images: seq<Encoded>, provider: Provider, calls: nat, attempt: nat,
                sent: seq<seq<Encoded>>, spent: real, body: Body): Run
    decreases MaxAttempts - attempt, 1
  {
    if attempt >= MaxAttempts then Run(None, calls, sent, spent)
    else
      var o := provider(calls);
      Continue(body(images, o, attempt), provider, calls + 1, attempt, sent + [images], spent + o.elapsed, body)
  }

  /** The rest of the loop once attempt `attempt` has led to `next`. */
  function Continue(next: Next, provider: Provider, calls: nat, attempt: nat,
                    sent: seq<seq<Encoded>>, spent: real, body: Body): Run
    requires attempt < MaxAttempts
    decreases MaxAttempts - attempt, 0
  {
    match next
    case Retry(images) => Loop(images, provider, calls, attempt + 1, sent, spent, body)
    case Return(answer) => Run(Some(answer), calls, sent, spent)
    case Quit => Exited(calls, sent)
    case Escape(e) => Escaped(e, calls, sent)
  }

  /** One pass of the script's loop, by what its body decided. */
  lemma LoopNext(images: seq<Encoded>, provider: Provider, calls: nat, attempt: nat,
                 sent: seq<seq<Encoded>>, spent: real, jpeg: JpegSize, next: Next)
    requires attempt < MaxAttempts
    requires next == Step(images, provider(calls), attempt, jpeg)
    ensures var sent', spent' := sent + [images], spent + provider(calls).elapsed;
            Loop(images, provider, calls, attempt, sent, spent, ScriptBody(jpeg))
            == match next
               case Retry(resized) => Loop(resized, provider, calls + 1, attempt + 1, sent', spent', ScriptBody(jpeg))
               case Return(answer) => Run(Some(answer), calls + 1, sent', spent')
               case Quit => Exited(calls + 1, sent')
               case Escape(e) => Escaped(e, calls + 1, sent')
  {
    assert ScriptBody(jpeg)(images, provider(calls), attempt) == next;
  }

  function Analyze(images: seq<Encoded>, provider: Provider, start: nat, jpeg: JpegSize): Run
  {
    Loop(images, provider, start, 0, [], 0.0, ScriptBody(jpeg))
  }

  /** The `IndexError` of an empty reply is neither a quota nor a parse error. */
  lemma IndexErrorIsOrdinary()
    ensures !MentionsQuota(IndexErrorMessage)
    ensures !MentionsParseError(IndexErrorMessage)
  {
    IndexErrorNoQuota();
    IndexErrorNoParseError();
  }

  /** "exceeded" has a `c`, which the lower-cased `IndexError` text lacks. */
  lemma IndexErrorNoQuota()
    ensures !MentionsQuota(IndexErrorMessage)
  {
    LowerCharsOrigin(IndexErrorMessage, 'c');
    ContainedCharsOccur(Lower(IndexErrorMessage), QuotaMarker, 'c');
  }

  /** "image_parse_error" has a `_`, which the lower-cased `IndexError` text lacks. */
  lemma IndexErrorNoParseError()
    ensures !MentionsParseError(IndexErrorMessage)
  {
    LowerCharsOrigin(IndexErrorMessage, '_');
    ContainedCharsOccur(Lower(IndexErrorMessage), ParseErrorMarker, '_');
  }

  /** One attempt: an answering reply is returned; a quota error quits; an
      `image_parse_error` before the last attempt moves to the 0.9
      re-encoding; anything else keeps the images. */
  lemma StepOutcome(images: seq<Encoded>, o: Outcome, attempt: nat, jpeg: JpegSize)
    ensures Step(images, o, attempt, jpeg) ==
            if Answers(o) then Return(Answer(o.blocks[0], o.elapsed))
            else if QuotaExceeded(o) then Quit
            else if o.Failed? && MentionsParseError(o.message) && attempt < MaxAttempts - 1
            then (match ReencodeAll(images, DefaultFactor, jpeg)
                  case Ok(resized) => Retry(resized)
                  case Err(e) => Escape(e))
            else Retry(images)
  {
    IndexErrorIsOrdinary();
  }

  /** A refusal that starts with "I'm sorry, but" costs an attempt and changes nothing. */
  lemma SorryRetriesUnchanged(images: seq<Encoded>, blocks: seq<string>, elapsed: real, attempt: nat, jpeg: JpegSize)
    requires |blocks| > 0 && IsRefusal(blocks[0])
    ensures Step(images, Message(blocks, elapsed), attempt, jpeg) == Retry(images)
  {
  }

  /** Reference definition: the first invocation that ends the loop, either
      with an answer or with a quota error. */
  function FirstDecisive(provider: Provider, from: nat, n: nat): (r: Option<nat>)
    ensures r.Some? ==> from <= r.value < from + n
    decreases n
  {
    if n == 0 then None
    else if Answers(provider(from)) || QuotaExceeded(provider(from)) then Some(from)
    else FirstDecisive(provider, from + 1, n - 1)
  }

  lemma {:induction false} FirstDecisiveIsFirst(provider: Provider, from: nat, n: nat)
    ensures match FirstDecisive(provider, from, n)
            case Some(j) => from <= j < from + n && (Answers(provider(j)) || QuotaExceeded(provider(j)))
                            && forall i :: from <= i < j ==> !Answers(provider(i)) && !QuotaExceeded(provider(i))
            case None => forall i :: from <= i < from + n ==> !Answers(provider(i)) && !QuotaExceeded(provider(i))
    decreases n
  {
    if n > 0 && !(Answers(provider(from)) || QuotaExceeded(provider(from))) {
      FirstDecisiveIsFirst(provider, from + 1, n - 1);
    }
  }

  /** The summed time of `n` invocations from `from`. */
  function TimeSpent(provider: Provider, from: nat, n: nat): real
    decreases n
  {
    if n == 0 then 0.0 else provider(from).elapsed + TimeSpent(provider, from + 1, n - 1)
  }

  /** What the loop does when its images came from the encoder. */
  function Expected(provider: Provider, calls: nat, left: nat, sent: seq<seq<Encoded>>,
                    spent: real, images: seq<Encoded>): Run
  {
    match FirstDecisive(provider, calls, left)
    case Some(j) =>
      var sent' := sent + seq(j + 1 - calls, _ => images);
      if Answers(provider(j))
      then Run(Some(Answer(provider(j).blocks[0], provider(j).elapsed)), j + 1, sent',
               spent + TimeSpent(provider, calls, j + 1 - calls))
      else Exited(j + 1, sent')
    case None =>
      Run(None, calls + left, sent + seq(left, _ => images), spent + TimeSpent(provider, calls, left))
  }

  /** A non-decisive invocation moves the expectation one invocation on. */
  lemma ExpectedStep(provider: Provider, calls: nat, left: nat, sent: seq<seq<Encoded>>,
                     spent: real, images: seq<Encoded>)
    requires left > 0
    requires !Answers(provider(calls)) && !QuotaExceeded(provider(calls))
    ensures Expected(provider, calls, left, sent, spent, images)
            == Expected(provider, calls + 1, left - 1, sent + [images], spent + provider(calls).elapsed, images)
  {
    var sent', spent' := sent + [images], spent + provider(calls).elapsed;
    match FirstDecisive(provider, calls + 1, left - 1)
    case Some(j) =>
      assert sent' + seq(j + 1 - (calls + 1), _ => images) == sent + seq(j + 1 - calls, _ => images);
      assert TimeSpent(provider, calls, j + 1 - calls)
          == provider(calls).elapsed + TimeSpent(provider, calls + 1, j + 1 - (calls + 1));
    case None =>
      assert sent' + seq(left - 1, _ => images) == sent + seq(left, _ => images);
  }

  /** A decisive invocation ends the expectation there. */
  lemma ExpectedDecisive(provider: Provider, calls: nat, left: nat, sent: seq<seq<Encoded>>,
                         spent: real, images: seq<Encoded>)
    requires left > 0
    requires Answers(provider(calls)) || QuotaExceeded(provider(calls))
    ensures Expected(provider, calls, left, sent, spent, images)
            == if Answers(provider(calls))
               then Run(Some(Answer(provider(calls).blocks[0], provider(calls).elapsed)), calls + 1,
                        sent + [images], spent + provider(calls).elapsed)
               else Exited(calls + 1, sent + [images])
  {
    assert seq(1, _ => images) == [images];
    assert TimeSpent(provider, calls, 1) == provider(calls).elapsed;
  }

  /** What the body does with images it keeps: return an answering reply,
      quit on a quota error, retry with the same images otherwise. */
  function Decision(images: seq<Encoded>, o: Outcome): Next
  {
    if Answers(o) then Return(Answer(o.blocks[0], o.elapsed))
    else if QuotaExceeded(o) then Quit
    else Retry(images)
  }

  /** A body that, for these images, decides every outcome as `Decision` does. */
  ghost predicate Decides(body: Body, images: seq<Encoded>)
  {
    forall o, attempt :: body(images, o, attempt) == Decision(images, o)
  }

  /** Encoder output survives the script's body: a 0.9 re-encode gives it back. */
  lemma ScriptBodyDecides(images: seq<Encoded>, jpeg: JpegSize)
    requires AllProduced(images, jpeg)
    ensures Decides(ScriptBody(jpeg), images)
  {
    ReencodeAllProduced(images, DefaultFactor, jpeg);
    forall o, attempt
      ensures ScriptBody(jpeg)(images, o, attempt) == Decision(images, o)
    {
      StepOutcome(images, o, attempt, jpeg);
    }
  }

  lemma {:induction false} LoopIsExpected(images: seq<Encoded>, provider: Provider, calls: nat, attempt: nat,
                                          sent: seq<seq<Encoded>>, spent: real, body: Body)
    requires attempt <= MaxAttempts
    requires Decides(body, images)
    ensures Loop(images, provider, calls, attempt, sent, spent, body)
            == Expected(provider, calls, MaxAttempts - attempt, sent, spent, images)
    decreases MaxAttempts - attempt
  {
    if attempt == MaxAttempts {
      assert sent + seq(0, _ => images) == sent;
    } else if Answers(provider(calls)) || QuotaExceeded(provider(calls)) {
      LoopDecisive(images, provider, calls, attempt, sent, spent, body);
    } else {
      var sent', spent' := sent + [images], spent + provider(calls).elapsed;
      LoopPasses(images, provider, calls, attempt, sent, spent, body);
      LoopIsExpected(images, provider, calls + 1, attempt + 1, sent', spent', body);
      ExpectedStep(provider, calls, MaxAttempts - attempt, sent, spent, images);
    }
  }

  /** A decisive invocation ends the loop as the expectation says. */
  lemma LoopDecisive(images: seq<Encoded>, provider: Provider, calls: nat, attempt: nat,
                     sent: seq<seq<Encoded>>, spent: real, body: Body)
    requires attempt < MaxAttempts
    requires Decides(body, images)
    requires Answers(provider(calls)) || QuotaExceeded(provider(calls))
    ensures Loop(images, provider, calls, attempt, sent, spent, body)
            == Expected(provider, calls, MaxAttempts - attempt, sent, spent, images)
  {
    var o := provider(calls);
    var r := Loop(images, provider, calls, attempt, sent, spent, body);
    var sent', spent' := sent + [images], spent + o.elapsed;
    assert body(images, o, attempt) == Decision(images, o);
    assert r == Continue(Decision(images, o), provider, calls + 1, attempt, sent', spent', body);
    ExpectedDecisive(provider, calls, MaxAttempts - attempt, sent, spent, images);
  }

  /** A non-decisive invocation passes the same images on to the next attempt. */
  lemma LoopPasses(images: seq<Encoded>, provider: Provider, calls: nat, attempt: nat,
                   sent: seq<seq<Encoded>>, spent: real, body: Body)
    requires attempt < MaxAttempts
    requires Decides(body, images)
    requires !Answers(provider(calls)) && !QuotaExceeded(provider(calls))
    ensures Loop(images, provider, calls, attempt, sent, spent, body)
            == Loop(images, provider, calls + 1, attempt + 1, sent + [images], spent + provider(calls).elapsed, body)
  {
    var o := provider(calls);
    assert body(images, o, attempt) == Retry(images);
  }

  /** With encoder-produced images the call behaves as the expectation says:
      the same images are prepared for every invocation, and the loop ends at
      the first decisive invocation or after ten. */
  lemma AnalyzeIsExpected(images: seq<Encoded>, provider: Provider, start: nat, jpeg: JpegSize)
    requires AllProduced(images, jpeg)
    ensures Analyze(images, provider, start, jpeg) == Expected(provider, start, MaxAttempts, [], 0.0, images)
  {
    ScriptBodyDecides(images, jpeg);
    LoopIsExpected(images, provider, start, 0, [], 0.0, ScriptBody(jpeg));
  }

  /** With encoder-produced images the call makes at most ten invocations,
      one image list each, and no exception escapes it; it returns `None`
      exactly when none of ten invocations answers or exceeds the quota. The
      time the caller measures covers all invocations made. */
  lemma AnalyzeOutcome(images: seq<Encoded>, provider: Provider, start: nat, jpeg: JpegSize)
    requires AllProduced(images, jpeg)
    ensures var r := Analyze(images, provider, start, jpeg);
            !r.Escaped? && start < r.calls <= start + MaxAttempts && |r.sent| == r.calls - start
            && (r.Run? && r.answer.None? <==> forall i :: start <= i < start + MaxAttempts ==>
                                                !Answers(provider(i)) && !QuotaExceeded(provider(i)))
            && (r.Run? ==> r.spent == TimeSpent(provider, start, r.calls - start))
  {
    AnalyzeIsExpected(images, provider, start, jpeg);
    FirstDecisiveIsFirst(provider, start, MaxAttempts);
  }

  /** The time the caller measures for a call that ran to the end covers
      all invocations it made. */
  lemma AnalyzeSpent(images: seq<Encoded>, provider: Provider, start: nat, jpeg: JpegSize)
    requires AllProduced(images, jpeg)
    ensures var r := Analyze(images, provider, start, jpeg);
            r.Run? ==> start < r.calls && r.spent == TimeSpent(provider, start, r.calls - start)
  {
    AnalyzeOutcome(images, provider, start, jpeg);
  }

  /** A quota error before any answer ends the call right after it, with the
      run exited. */
  lemma AnalyzeQuotaExits(images: seq<Encoded>, provider: Provider, start: nat, jpeg: JpegSize, j: nat)
    requires AllProduced(images, jpeg)
    requires start <= j < start + MaxAttempts && QuotaExceeded(provider(j))
    requires forall i :: start <= i < j ==> !Answers(provider(i)) && !QuotaExceeded(provider(i))
    ensures Analyze(images, provider, start, jpeg).Exited?
    ensures Analyze(images, provider, start, jpeg).calls == j + 1
  {
    AnalyzeIsExpected(images, provider, start, jpeg);
    FirstDecisiveIsFirst(provider, start, MaxAttempts);
    var k := FirstDecisive(provider, start, MaxAttempts);
    assert k.Some? ==> k.value >= j;
    assert k == Some(j);
    assert !Answers(provider(j));
  }

  /** Ten invocations without an answer or a quota error: the call returns
      `None` after all ten, with their summed time. */
  lemma AnalyzeNoDecisive(images: seq<Encoded>, provider: Provider, start: nat, jpeg: JpegSize)
    requires AllProduced(images, jpeg)
    requires forall i :: start <= i < start + MaxAttempts ==> !Answers(provider(i)) && !QuotaExceeded(provider(i))
    ensures Analyze(images, provider, start, jpeg).Run?
    ensures Analyze(images, provider, start, jpeg).answer.None?
    ensures Analyze(images, provider, start, jpeg).calls == start + MaxAttempts
    ensures Analyze(images, provider, start, jpeg).spent == TimeSpent(provider, start, MaxAttempts)
  {
    AnalyzeIsExpected(images, provider, start, jpeg);
    FirstDecisiveIsFirst(provider, start, MaxAttempts);
    assert FirstDecisive(provider, start, MaxAttempts).None?;
  }

  lemma {:induction false} LoopBound(images: seq<Encoded>, provider: Provider, calls: nat, attempt: nat,
                                     sent: seq<seq<Encoded>>, spent: real, body: Body)
    requires attempt <= MaxAttempts
    ensures var r := Loop(images, provider, calls, attempt, sent, spent, body);
            calls <= r.calls <= calls + (MaxAttempts - attempt)
            && (attempt < MaxAttempts ==> calls < r.calls)
            && |r.sent| == |sent| + (r.calls - calls)
    decreases MaxAttempts - attempt
  {
    if attempt < MaxAttempts {
      var o := provider(calls);
      var next := body(images, o, attempt);
      assert Loop(images, provider, calls, attempt, sent, spent, body)
          == Continue(next, provider, calls + 1, attempt, sent + [images], spent + o.elapsed, body);
      if next.Retry? {
        LoopBound(next.images, provider, calls + 1, attempt + 1, sent + [images], spent + o.elapsed, body);
      }
    }
  }

  lemma AnalyzeBound(images: seq<Encoded>, provider: Provider, start: nat, jpeg: JpegSize)
    ensures var r := Analyze(images, provider, start, jpeg);
            start < r.calls <= start + MaxAttempts && |r.sent| == r.calls - start
  {
    LoopBound(images, provider, start, 0, [], 0.0, ScriptBody(jpeg));
  }

  method HandleException(message: string, attempt: nat, images: seq<Encoded>, jpeg: JpegSize) returns (next: Next)
    ensures next == OnException(message, attempt, images, jpeg)
  {
    if MentionsQuota(message) {
      return Quit;
    }
    if MentionsParseError(message) && attempt < MaxAttempts - 1 {
      var resized := ReencodeImages(images, DefaultFactor, jpeg);
      if resized.Err? {
        return Escape(resized.error);
      }
      return Retry(resized.value);
    }
    return Retry(images);
  }

  /** One pass of the loop body: the `try` block and its handler. */
  method Attempt(images: seq<Encoded>, outcome: Outcome, attempt: nat, jpeg: JpegSize) returns (next: Next)
    ensures next == Step(images, outcome, attempt, jpeg)
  {
    match outcome {
      case Failed(message, _) =>
        next := HandleException(message, attempt, images, jpeg);
      case Message(blocks, elapsed) =>
        if |blocks| == 0 {
          next := HandleException(IndexErrorMessage, attempt, images, jpeg);
        } else if IsRefusal(blocks[0]) {
          next := Retry(images);
        } else {
          next := Return(Answer(blocks[0], elapsed));
        }
    }
  }

  /** `analyze_images_with_claude_vision(prompt_text, encoded_images, temperature)` */
  method AnalyzeImagesWithClaude(encodedImages: seq<Encoded>, provider: Provider, start: nat, jpeg: JpegSize)
    returns (run: Run)
    ensures run == Analyze(encodedImages, provider, start, jpeg)
  {
    var images := encodedImages;
    var calls := start;
    var sent: seq<seq<Encoded>> := [];
    var spent := 0.0;
    ghost var target := Analyze(encodedImages, provider, start, jpeg);
    for attempt := 0 to MaxAttempts
      invariant Loop(images, provider, calls, attempt, sent, spent, ScriptBody(jpeg)) == target
    {
      var outcome := provider(calls);
      var next := Attempt(images, outcome, attempt, jpeg);
      LoopNext(images, provider, calls, attempt, sent, spent, jpeg, next);
      sent := sent + [images];
      spent := spent + outcome.elapsed;
      calls := calls + 1;
      match next {
        case Retry(resized) => images := resized;
        case Return(answer) => return Run(Some(answer), calls, sent, spent);
        case Quit => return Exited(calls, sent);
        case Escape(e) => return Escaped(e, calls, sent);
      }
    }
    return Run(None, calls, sent, spent);
  }
}
