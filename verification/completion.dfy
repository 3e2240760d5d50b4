/** The completion client of src/utils.py: one chat-completion request,
    re-issued after read timeouts and after 429/503 responses that carry no
    content, until content arrives, a fatal answer comes back, or the retry
    counter exceeds its limit. The network is a sequence of answers, the
    k-th of which is what the endpoint does with the k-th POST. */
module Completion {

  import opened Values

  const MODEL: string := "gpt-3.5-turbo-1106"

  /** The loop raises "Model is overloaded." once the counter exceeds this. */
  const RETRY_LIMIT: nat := 5

  /** The most POSTs one call can issue. */
  const MAX_ATTEMPTS: nat := RETRY_LIMIT + 1

  const TOO_MANY_REQUESTS: int := 429   // section 4 of RFC 6585
  const SERVICE_UNAVAILABLE: int := 503 // section 15.6.4 of RFC 9110

  datatype Message = Message(role: string, content: string)

  /** The JSON body of one POST. */
  datatype Request = Request(model: string, messages: seq<Message>, maxTokens: int, temperature: int)

  /** What `response.json()["choices"][0]["message"]["content"]` finds: no such
      key, a JSON null, or text. */
  datatype Content = Missing | Null | Text(text: string)

  /** What the endpoint does with one POST: the read times out, a response
      arrives, or something else is raised (a connection error, a body that is
      not JSON, an empty `choices` list). */
  datatype Answer = TimedOut | Response(status: int, content: Content) | Broken

  /** How a call ends: with the content text, or with one of the exceptions
      the function raises or lets through. */
  datatype Completion =
    | Returned(text: string)  // the content of the first choice
    | Overloaded              // ConnectionRefusedError('Model is overloaded.')
    | Refused(status: int)    // ConnectionRefusedError('Response code ...')
    | NoContent               // ConnectionError('Maximum retries reached.')
    | Raised                  // any other exception, propagated unchanged

  /** The request body every attempt sends. */
  function Body(systemPrompt: string, userPrompt: string, maxTokens: int): (r: Request)
    ensures r.model == MODEL && r.temperature == 0 && r.maxTokens == maxTokens
    ensures r.messages == [Message("system", systemPrompt), Message("user", userPrompt)]
  {
    Request(MODEL, [Message("system", systemPrompt), Message("user", userPrompt)], maxTokens, 0)
  }

  /** The answers after which the loop counts one more failure and tries again. */
  predicate Retryable(a: Answer)
  {
    a.TimedOut? || (a.Response? && a.content.Missing? && (a.status == TOO_MANY_REQUESTS || a.status == SERVICE_UNAVAILABLE))
  }

  /** How the call ends on an answer that is not retried. */
  function Verdict(a: Answer): (c: Completion)
    requires !Retryable(a)
    ensures c != Overloaded
  {
    match a
    case Broken => Raised
    case Response(status, Text(t)) => Returned(t)
    case Response(status, Null) => NoContent
    case Response(status, Missing) => Refused(status)
  }

  /** How a call ended and how many POSTs it issued. */
  datatype Trace = Trace(result: Completion, attempts: nat)

  /** The rest of a call once `acc` retryable failures have been counted. */
  function CallFrom(answers: seq<Answer>, acc: nat): Trace
    requires acc <= MAX_ATTEMPTS <= |answers|
    decreases MAX_ATTEMPTS - acc
  {
    if acc > RETRY_LIMIT then Trace(Overloaded, acc)
    else if Retryable(answers[acc]) then CallFrom(answers, acc + 1)
    else Trace(Verdict(answers[acc]), acc + 1)
  }

  /** A whole call, against the endpoint's answers to its successive POSTs. */
  function Call(answers: seq<Answer>): Trace
    requires MAX_ATTEMPTS <= |answers|
  {
    CallFrom(answers, 0)
  }

  /** Every answer before `k` was retried. */
  ghost predicate RetriedBefore(answers: seq<Answer>, k: nat)
    requires k <= |answers|
  {
    forall j :: 0 <= j < k ==> Retryable(answers[j])
  }

  lemma {:induction false} CallFromEnds(answers: seq<Answer>, acc: nat)
    requires acc <= MAX_ATTEMPTS <= |answers|
    requires RetriedBefore(answers, acc)
    ensures var t := CallFrom(answers, acc);
      && acc <= t.attempts <= MAX_ATTEMPTS
      && RetriedBefore(answers, if t.result.Overloaded? then t.attempts else t.attempts - 1)
      && (t.result.Overloaded? <==> t.attempts == MAX_ATTEMPTS && RetriedBefore(answers, MAX_ATTEMPTS))
      && (!t.result.Overloaded? ==> !Retryable(answers[t.attempts - 1]) && t.result == Verdict(answers[t.attempts - 1]))
    decreases MAX_ATTEMPTS - acc
  {
    if acc <= RETRY_LIMIT && Retryable(answers[acc]) {
      CallFromEnds(answers, acc + 1);
    }
  }

  /** A call issues between one and six POSTs. Every answer but the last was
      retried; the call ends overloaded exactly when all six were retried, and
      otherwise ends as the last answer dictates. */
  lemma CallEnds(answers: seq<Answer>)
    requires MAX_ATTEMPTS <= |answers|
    ensures var t := Call(answers);
      && 1 <= t.attempts <= MAX_ATTEMPTS
      && RetriedBefore(answers, t.attempts - 1)
      && (t.result.Overloaded? <==> RetriedBefore(answers, MAX_ATTEMPTS))
      && (!t.result.Overloaded? ==> t.result == Verdict(answers[t.attempts - 1]))
  {
    CallFromEnds(answers, 0);
  }

  lemma {:induction false} CallFromStopsAt(answers: seq<Answer>, acc: nat, k: nat)
    requires acc <= k < MAX_ATTEMPTS <= |answers|
    requires RetriedBefore(answers, k) && !Retryable(answers[k])
    ensures CallFrom(answers, acc) == Trace(Verdict(answers[k]), k + 1)
    decreases k - acc
  {
    if acc < k {
      CallFromStopsAt(answers, acc + 1, k);
    }
  }

  /** The first answer among the first six that is not retried decides the
      call, which then has issued exactly up to that POST. */
  lemma StopsAtFirstFinalAnswer(answers: seq<Answer>, k: nat)
    requires MAX_ATTEMPTS <= |answers| && k < MAX_ATTEMPTS
    requires RetriedBefore(answers, k) && !Retryable(answers[k])
    ensures Call(answers) == Trace(Verdict(answers[k]), k + 1)
  {
    CallFromStopsAt(answers, 0, k);
  }

  /** The first answer carrying content ends the call with exactly that text. */
  lemma ReturnsFirstContent(answers: seq<Answer>, k: nat, status: int, text: string)
    requires MAX_ATTEMPTS <= |answers| && k < MAX_ATTEMPTS
    requires RetriedBefore(answers, k) && answers[k] == Response(status, Text(text))
    ensures Call(answers) == Trace(Returned(text), k + 1)
  {
    StopsAtFirstFinalAnswer(answers, k);
  }

  /** A response without content whose status is neither 429 nor 503 ends the
      call at once, with no further POST. */
  lemma FatalStatusStops(answers: seq<Answer>, k: nat, status: int)
    requires MAX_ATTEMPTS <= |answers| && k < MAX_ATTEMPTS
    requires RetriedBefore(answers, k) && answers[k] == Response(status, Missing)
    requires status != TOO_MANY_REQUESTS && status != SERVICE_UNAVAILABLE
    ensures Call(answers) == Trace(Refused(status), k + 1)
  {
    StopsAtFirstFinalAnswer(answers, k);
  }

  /** Null content is never returned: the call ends in "Maximum retries reached.". */
  lemma NullContentRaises(answers: seq<Answer>, k: nat, status: int)
    requires MAX_ATTEMPTS <= |answers| && k < MAX_ATTEMPTS
    requires RetriedBefore(answers, k) && answers[k] == Response(status, Null)
    ensures Call(answers) == Trace(NoContent, k + 1)
  {
    StopsAtFirstFinalAnswer(answers, k);
  }

  /** Six timeouts in a row: six POSTs, then "Model is overloaded.". */
  lemma SixTimeoutsOverload(answers: seq<Answer>)
    requires MAX_ATTEMPTS <= |answers|
    requires forall j :: 0 <= j < MAX_ATTEMPTS ==> answers[j] == TimedOut
    ensures Call(answers) == Trace(Overloaded, MAX_ATTEMPTS)
  {
    CallEnds(answers);
  }

  /** Three 429 responses and then content: the text comes back on the fourth POST. */
  lemma ThreeRateLimitsThenText(answers: seq<Answer>, text: string)
    requires MAX_ATTEMPTS <= |answers|
    requires forall j :: 0 <= j < 3 ==> answers[j] == Response(TOO_MANY_REQUESTS, Missing)
    requires answers[3] == Response(200, Text(text))
    ensures Call(answers) == Trace(Returned(text), 4)
  {
    ReturnsFirstContent(answers, 3, 200, text);
  }

  /** `prompt_chat_gpt`: posts the same body until the endpoint gives content,
      a fatal answer, or the counter exceeds the retry limit. Returns how the
      call ended and the bodies it posted, in order. */
  method PromptChatGpt(systemPrompt: string, userPrompt: string, maxTokens: int, answers: seq<Answer>)
    returns (result: Completion, sent: seq<Request>)
    requires MAX_ATTEMPTS <= |answers|
    ensures result == Call(answers).result
    ensures |sent| == Call(answers).attempts
    ensures forall j :: 0 <= j < |sent| ==> sent[j] == Body(systemPrompt, userPrompt, maxTokens)
  {
    var acc: nat := 0;
    var response: Option<string>;
    sent := [];
    while true
      invariant acc <= MAX_ATTEMPTS
      invariant |sent| == acc
      invariant RetriedBefore(answers, acc)
      invariant CallFrom(answers, acc) == Call(answers)
      invariant forall j :: 0 <= j < |sent| ==> sent[j] == Body(systemPrompt, userPrompt, maxTokens)
      decreases MAX_ATTEMPTS - acc
    {
      if acc > RETRY_LIMIT {
        return Overloaded, sent;
      }
      var req := Body(systemPrompt, userPrompt, maxTokens);
      sent := sent + [req];
      match answers[acc] {
        case TimedOut =>
          acc := acc + 1;
        case Broken =>
          return Raised, sent;
        case Response(status, content) =>
          match content {
            case Text(t) =>
              response := Some(t);
              break;
            case Null =>
              response := None;
              break;
            case Missing =>
              if status == TOO_MANY_REQUESTS || status == SERVICE_UNAVAILABLE {
                acc := acc + 1;
              } else {
                return Refused(status), sent;
              }
          }
      }
    }
    if response.None? {
      return NoContent, sent;
    }
    return Returned(response.value), sent;
  }

}
