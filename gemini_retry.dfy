/** `analyze_images_with_gemini_vision`, identical in the image-only and the
    NEJM Gemini scripts: at most ten invocations; a reply that is a `str`
    shorter than ten characters re-encodes every image at 0.9 and retries; any
    exception retries. The provider is a scripted oracle: `provider(n)` is what
    the n-th invocation of the run returns or raises. */
module GeminiRetry {
  import opened Wrappers
  import opened Text
  import opened Encoder

  const MaxAttempts: nat := 10
  /** A `str` reply shorter than this is treated as degenerate. */
  const ShortReply: nat := 10
  /** The text the exception handler looks for in the lower-cased message. */
  const SafetyMarker: string := "SAFETY"
  /** `str(e)` of the encoder's `ValueError`. */
  const EncodeErrorMessage: string := "Unable to reduce image size within 5 attempts"

  /** `result.content`: a string, or a list of content parts. */
  datatype Content = Str(text: string) | Parts(parts: seq<string>)

  /** One invocation: a reply with its measured time, or an exception with its text. */
  datatype Outcome = Replied(content: Content, elapsed: real) | Raised(message: string)

  type Provider = nat -> Outcome

  /** `[result.content, execution_time]` */
  datatype Reply = Reply(content: Content, elapsed: real)

  predicate IsShort(c: Content)
  {
    c.Str? && |c.text| < ShortReply
  }

  /** An outcome the loop returns. */
  predicate Accepted(o: Outcome)
  {
    o.Replied? && !IsShort(o.content)
  }

  /** What one attempt leads to: another attempt with these images, a return,
      or an exception that leaves the function. */
  datatype Next = Retry(images: seq<Encoded>) | Return(reply: Reply) | Escape(error: EncodeError)

  /** `"SAFETY" in str(e).lower()` */
  predicate MentionsSafety(message: string)
  {
    Contains(Lower(message), SafetyMarker)
  }

  /** The `except Exception as e` handler at attempt `attempt`. */
  function OnException(message: string, attempt: nat, images: seq<Encoded>, jpeg: JpegSize): Next
  {
    if MentionsSafety(message) && attempt < MaxAttempts - 1 then
      match ReencodeAll(images, SafetyFactor, jpeg)
      case Ok(resized) => Retry(resized)
      case Err(e) => Escape(e)
    else Retry(images)
  }

  /** One pass of the loop body. A failing re-encode inside the `try` is
      caught by the same handler as a provider exception. */
  function Step(images: seq<Encoded>, o: Outcome, attempt: nat, jpeg: JpegSize): Next
  {
    match o
    case Raised(message) => OnException(message, attempt, images, jpeg)
    case Replied(content, elapsed) =>
      if IsShort(content) then
        match ReencodeAll(images, DefaultFactor, jpeg)
        case Ok(resized) => Retry(resized)
        case Err(_) => OnException(EncodeErrorMessage, attempt, images, jpeg)
      else Return(Reply(content, elapsed))
  }

  /** The function's result with the bookkeeping of the model: the index of the
      next provider invocation and the image lists sent, one per invocation. */
  datatype Run =
    | Run(answer: Option<Reply>, calls: nat, sent: seq<seq<Encoded>>)
    | Escaped(error: EncodeError, calls: nat, sent: seq<seq<Encoded>>)

  /** The loop body as a value: what one attempt with these images and this outcome leads to. */
  type Body = (seq<Encoded>, Outcome, nat) -> Next

  /** The body of `analyze_images_with_gemini_vision` for a given JPEG size function. */
  function ScriptBody(jpeg: JpegSize): Body
  {
    (images: seq<Encoded>, o: Outcome, attempt: nat) => Step(images, o, attempt, jpeg)
  }

  /** `for attempt in range(max_attempts)` from attempt `attempt` on, with `body` as the loop body. */
  function Loop(images: seq<Encoded>, provider: Provider, calls: nat, attempt: nat,
                sent: seq<seq<Encoded>>, body: Body): Run
    decreases MaxAttempts - attempt
  {
    if attempt >= MaxAttempts then Run(None, calls, sent)
    else
      var sent' := sent + [images];
      match body(images, provider(calls), attempt)
      case Retry(next) => Loop(next, provider, calls + 1, attempt + 1, sent', body)
      case Return(reply) => Run(Some(reply), calls + 1, sent')
      case Escape(e) => Escaped(e, calls + 1, sent')
  }

  /** The whole call, starting at provider invocation `start`. */
  function Analyze(images: seq<Encoded>, provider: Provider, start: nat, jpeg: JpegSize): Run
  {
    Loop(images, provider, start, 0, [], ScriptBody(jpeg))
  }

  /** `"SAFETY" in str(e).lower()` never holds, so the 0.7 re-encode never
      happens and an exception retries with the same images. */
  lemma SafetyBranchUnreachable(message: string, attempt: nat, images: seq<Encoded>, jpeg: JpegSize)
    ensures OnException(message, attempt, images, jpeg) == Retry(images)
  {
    LoweredNeverContainsUpper(message, SafetyMarker);
  }

  /** One attempt: an accepted reply is returned; a short reply moves to the
      0.9 re-encoding of all images (or keeps them when that re-encoding
      fails); an exception keeps the images. Images keep their count. */
  lemma StepOutcome(images: seq<Encoded>, o: Outcome, attempt: nat, jpeg: JpegSize)
    ensures Step(images, o, attempt, jpeg) ==
            if Accepted(o) then Return(Reply(o.content, o.elapsed))
            else if o.Replied? && ReencodeAll(images, DefaultFactor, jpeg).Ok?
            then Retry(ReencodeAll(images, DefaultFactor, jpeg).value)
            else Retry(images)
    ensures Step(images, o, attempt, jpeg).Retry? ==> |Step(images, o, attempt, jpeg).images| == |images|
  {
    SafetyBranchUnreachable(EncodeErrorMessage, attempt, images, jpeg);
    if o.Raised? {
      SafetyBranchUnreachable(o.message, attempt, images, jpeg);
    }
    ReencodeAllPointwise(images, DefaultFactor, jpeg);
  }

  /** Reference definition: the first accepted outcome among `n` invocations from `from`. */
  function FirstAccepted(provider: Provider, from: nat, n: nat): (r: Option<nat>)
    ensures r.Some? ==> from <= r.value < from + n && Accepted(provider(r.value))
    decreases n
  {
    if n == 0 then None
    else if Accepted(provider(from)) then Some(from)
    else FirstAccepted(provider, from + 1, n - 1)
  }

  lemma {:induction false} FirstAcceptedIsFirst(provider: Provider, from: nat, n: nat)
    ensures match FirstAccepted(provider, from, n)
            case Some(j) => from <= j < from + n && Accepted(provider(j))
                            && forall i :: from <= i < j ==> !Accepted(provider(i))
            case None => forall i :: from <= i < from + n ==> !Accepted(provider(i))
    decreases n
  {
    if n > 0 && !Accepted(provider(from)) {
      FirstAcceptedIsFirst(provider, from + 1, n - 1);
    }
  }

  /** A body that returns exactly the accepted outcomes, as they are, and otherwise retries. */
  ghost predicate ReturnsAccepted(body: Body)
  {
    forall images, o, attempt ::
      if Accepted(o) then body(images, o, attempt) == Return(Reply(o.content, o.elapsed))
      else body(images, o, attempt).Retry?
  }

  /** The script's body returns the accepted replies and retries on everything else. */
  lemma ScriptBodyReturnsAccepted(jpeg: JpegSize)
    ensures ReturnsAccepted(ScriptBody(jpeg))
  {
    forall images, o, attempt
      ensures if Accepted(o) then ScriptBody(jpeg)(images, o, attempt) == Return(Reply(o.content, o.elapsed))
              else ScriptBody(jpeg)(images, o, attempt).Retry?
    {
      StepOutcome(images, o, attempt, jpeg);
    }
  }

  /** The loop logs one image list per invocation. */
  lemma {:induction false} LoopLogsEachInvocation(images: seq<Encoded>, provider: Provider, calls: nat,
                                                  attempt: nat, sent: seq<seq<Encoded>>, body: Body)
    ensures var r := Loop(images, provider, calls, attempt, sent, body);
            calls <= r.calls && |r.sent| == |sent| + (r.calls - calls)
    decreases MaxAttempts - attempt
  {
    if attempt < MaxAttempts {
      var next := body(images, provider(calls), attempt);
      if next.Retry? {
        LoopLogsEachInvocation(next.images, provider, calls + 1, attempt + 1, sent + [images], body);
      }
    }
  }

  /** The loop never lets an exception out and returns the first accepted
      reply among its remaining attempts, after exactly the invocations up to it. */
  lemma {:induction false} LoopIsFirstAccepted(images: seq<Encoded>, provider: Provider, calls: nat,
                                               attempt: nat, sent: seq<seq<Encoded>>, body: Body)
    requires attempt <= MaxAttempts
    requires ReturnsAccepted(body)
    ensures var r, left := Loop(images, provider, calls, attempt, sent, body), MaxAttempts - attempt;
            r.Run?
            && r.answer == (match FirstAccepted(provider, calls, left)
                            case Some(j) => Some(Reply(provider(j).content, provider(j).elapsed))
                            case None => None)
            && r.calls == (match FirstAccepted(provider, calls, left)
                           case Some(j) => j + 1
                           case None => calls + left)
    decreases MaxAttempts - attempt
  {
    if attempt < MaxAttempts {
      var o := provider(calls);
      var next := body(images, o, attempt);
      if !Accepted(o) {
        LoopIsFirstAccepted(next.images, provider, calls + 1, attempt + 1, sent + [images], body);
      }
    }
  }

  /** The call never lets an exception out, makes at most ten invocations, and
      returns exactly the first accepted reply among its invocations, or `None`
      when all ten are rejected. */
  lemma AnalyzeIsFirstAccepted(images: seq<Encoded>, provider: Provider, start: nat, jpeg: JpegSize)
    ensures var r := Analyze(images, provider, start, jpeg);
            r.Run? && start < r.calls <= start + MaxAttempts && |r.sent| == r.calls - start
            && match FirstAccepted(provider, start, MaxAttempts)
               case Some(j) => r.answer == Some(Reply(provider(j).content, provider(j).elapsed)) && r.calls == j + 1
               case None => r.answer.None? && r.calls == start + MaxAttempts
  {
    ScriptBodyReturnsAccepted(jpeg);
    LoopIsFirstAccepted(images, provider, start, 0, [], ScriptBody(jpeg));
    LoopLogsEachInvocation(images, provider, start, 0, [], ScriptBody(jpeg));
    FirstAcceptedIsFirst(provider, start, MaxAttempts);
  }

  /** `None` comes back exactly when all ten invocations were short replies or exceptions. */
  lemma AnalyzeNoneIffAllRejected(images: seq<Encoded>, provider: Provider, start: nat, jpeg: JpegSize)
    ensures var r := Analyze(images, provider, start, jpeg);
            r.Run? && (r.answer.None? <==> forall i :: start <= i < start + MaxAttempts ==> !Accepted(provider(i)))
  {
    AnalyzeIsFirstAccepted(images, provider, start, jpeg);
    FirstAcceptedIsFirst(provider, start, MaxAttempts);
  }

  /** A body that retries with `images` unchanged whenever it does not return. */
  ghost predicate KeepsImages(body: Body, images: seq<Encoded>)
  {
    forall o, attempt :: body(images, o, attempt).Return? || body(images, o, attempt) == Retry(images)
  }

  /** Encoder output survives the script's body: a 0.9 re-encode gives it back. */
  lemma ScriptBodyKeepsProduced(images: seq<Encoded>, jpeg: JpegSize)
    requires AllProduced(images, jpeg)
    ensures KeepsImages(ScriptBody(jpeg), images)
  {
    ReencodeAllProduced(images, DefaultFactor, jpeg);
    forall o, attempt
      ensures ScriptBody(jpeg)(images, o, attempt).Return? || ScriptBody(jpeg)(images, o, attempt) == Retry(images)
    {
      StepOutcome(images, o, attempt, jpeg);
    }
  }

  /** Every logged image list is `images`. */
  predicate AllSame(log: seq<seq<Encoded>>, images: seq<Encoded>)
  {
    forall i :: 0 <= i < |log| ==> log[i] == images
  }

  lemma {:induction false} LoopSendsSameImages(images: seq<Encoded>, provider: Provider, calls: nat,
                                               attempt: nat, sent: seq<seq<Encoded>>, body: Body)
    requires KeepsImages(body, images)
    requires AllSame(sent, images)
    ensures AllSame(Loop(images, provider, calls, attempt, sent, body).sent, images)
    decreases MaxAttempts - attempt
  {
    if attempt < MaxAttempts {
      var sent' := sent + [images];
      assert AllSame(sent', images) by {
        assert forall i :: 0 <= i < |sent| ==> sent'[i] == sent[i];
      }
      var next := body(images, provider(calls), attempt);
      if next.Retry? {
        assert next == Retry(images);
        LoopSendsSameImages(images, provider, calls + 1, attempt + 1, sent', body);
      }
    }
  }

  /** When the images came from the encoder, every invocation sends them
      unchanged: a 0.9 re-encode restarts at attempt 0, which already fits. */
  lemma AnalyzeSendsEncoderOutput(images: seq<Encoded>, provider: Provider, start: nat, jpeg: JpegSize)
    requires AllProduced(images, jpeg)
    ensures var r := Analyze(images, provider, start, jpeg);
            forall i :: 0 <= i < |r.sent| ==> r.sent[i] == images
  {
    ScriptBodyKeepsProduced(images, jpeg);
    LoopSendsSameImages(images, provider, start, 0, [], ScriptBody(jpeg));
  }

  /** The `except` handler. */
  method HandleException(message: string, attempt: nat, images: seq<Encoded>, jpeg: JpegSize) returns (next: Next)
    ensures next == OnException(message, attempt, images, jpeg)
  {
    if MentionsSafety(message) && attempt < MaxAttempts - 1 {
      var resized := ReencodeImages(images, SafetyFactor, jpeg);
      if resized.Err? {
        return Escape(resized.error);
      }
      return Retry(resized.value);
    }
    return Retry(images);
  }

  /** `analyze_images_with_gemini_vision(prompt_text, encoded_images, temperature)` */
  method AnalyzeImagesWithGemini(encodedImages: seq<Encoded>, provider: Provider, start: nat, jpeg: JpegSize)
    returns (run: Run)
    ensures run == Analyze(encodedImages, provider, start, jpeg)
  {
    var images := encodedImages;
    var calls := start;
    var sent: seq<seq<Encoded>> := [];
    for attempt := 0 to MaxAttempts
      invariant Loop(images, provider, calls, attempt, sent, ScriptBody(jpeg)) == Analyze(encodedImages, provider, start, jpeg)
    {
      var outcome := provider(calls);
      ghost var before := images;
      sent := sent + [images];
      calls := calls + 1;
      var next: Next;
      match outcome {
        case Raised(message) =>
          next := HandleException(message, attempt, images, jpeg);
        case Replied(content, elapsed) =>
          if content.Str? && |content.text| < ShortReply {
            var resized := ReencodeImages(images, DefaultFactor, jpeg);
            if resized.Ok? {
              next := Retry(resized.value);
            } else {
              next := HandleException(EncodeErrorMessage, attempt, images, jpeg);
            }
          } else {
            return Run(Some(Reply(content, elapsed)), calls, sent);
          }
      }
      assert next == ScriptBody(jpeg)(before, outcome, attempt);
      match next {
        case Retry(resized) => images := resized;
        case Escape(e) => return Escaped(e, calls, sent);
      }
    }
    return Run(None, calls, sent);
  }
}
