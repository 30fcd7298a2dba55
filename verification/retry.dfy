/**
 The retry/backoff loop that fetches one catalog search page
 (`fetch_page_with_retry` in src/tmdb/mod.rs and its copy
 `fetch_multi_page_with_retry` in src/tmdb/api.rs).

 The network is replaced by the sequence of responses the successive requests
 would receive, and the timer by the list of delays the loop sleeps. The loop
 sleeps before EVERY attempt, the first included, because its guard
 `attempt > 0` holds for every `attempt` in `1..=max_retries`.
 */
module Retry {
  import opened Common
  import opened Models
  import opened Text

  const MAX_RETRIES: u32 := 3
  const BASE_DELAY_MS: nat := 500

  /** What one request produced: an HTTP status with the body decoded when it can be, or a transport failure. */
  datatype Response =
    | Http(status: nat, decoded: Option<SearchResponse>)
    | Transport

  /** Rate limiting (429) or any server error (`StatusCode::is_server_error`, 500..=599). */
  predicate IsRetryable(status: nat) {
    status == 429 || 500 <= status <= 599
  }

  /** How the loop reacts to one response: stop with a result, or go on to the next attempt. */
  datatype Verdict = Finish(result: Result<SearchResponse, FetchError>) | Again

  function Classify(response: Response): (v: Verdict)
    ensures v.Again? <==> response.Transport? || IsRetryable(response.status)
    ensures v.Finish? && v.result.Ok? ==> response == Http(200, Some(v.result.value))
    ensures v.Finish? && v.result.Err? && v.result.error.UnrecoverableStatus? ==>
      response.Http? && response.status == v.result.error.status && response.status != 200
    ensures response.Http? && response.status == 200 ==>
      v == Finish(if response.decoded.Some? then Ok(response.decoded.value) else Err(Reqwest))
    ensures response.Http? && response.status != 200 && !IsRetryable(response.status) ==>
      v == Finish(Err(UnrecoverableStatus(response.status)))
  {
    match response
    case Transport => Again
    case Http(status, decoded) =>
      if status == 200 then
        (if decoded.Some? then Finish(Ok(decoded.value)) else Finish(Err(Reqwest)))
      else if IsRetryable(status) then Again
      else Finish(Err(UnrecoverableStatus(status)))
  }

  /** The observable run of the loop: its result, how many requests it sent, and the delays it slept. */
  datatype Run = Run(result: Result<SearchResponse, FetchError>, requests: nat, delays: seq<nat>)

  function Pow2(k: nat): (p: nat)
    ensures p >= 1
  {
    if k == 0 then 1 else 2 * Pow2(k - 1)
  }

  /** Delay slept before attempt number `attempt` (1-based). */
  function DelayBefore(attempt: nat): nat
    requires attempt >= 1
  {
    BASE_DELAY_MS * Pow2(attempt - 1)
  }

  /**
   The loop from attempt `attempt` on, having `delay` as the pending sleep;
   `responses[attempt - 1]` answers attempt `attempt`.
   */
  function Loop(responses: seq<Response>, attempt: nat, delay: nat): (run: Run)
    requires 1 <= attempt <= MAX_RETRIES + 1
    requires |responses| >= MAX_RETRIES
    requires delay == DelayBefore(attempt)
    ensures attempt + run.requests <= MAX_RETRIES + 1
    ensures |run.delays| == run.requests
    ensures forall k :: 0 <= k < run.requests ==> run.delays[k] == DelayBefore(attempt + k)
    ensures forall j :: attempt - 1 <= j < attempt + run.requests - 2 ==> Classify(responses[j]).Again?
    ensures run.requests == 0 <==> attempt == MAX_RETRIES + 1
    ensures run.requests > 0 && Classify(responses[attempt + run.requests - 2]).Finish? ==>
      run.result == Classify(responses[attempt + run.requests - 2]).result
    ensures (run.requests > 0 ==> Classify(responses[attempt + run.requests - 2]).Again?) ==>
      attempt + run.requests == MAX_RETRIES + 1 && run.result == Err(MaxRetriesExceeded(MAX_RETRIES))
    decreases MAX_RETRIES + 1 - attempt
  {
    if attempt > MAX_RETRIES then
      Run(Err(MaxRetriesExceeded(MAX_RETRIES)), 0, [])
    else
      match Classify(responses[attempt - 1])
      case Finish(result) => Run(result, 1, [delay])
      case Again =>
        var rest := Loop(responses, attempt + 1, delay * 2);
        Run(rest.result, rest.requests + 1, [delay] + rest.delays)
  }

  /**
   `fetch_page_with_retry`: at most three requests; the first response that
   is not retryable decides the result, and three retryable ones in a row give
   `MaxRetriesExceeded { max_retries: 3 }`.
   */
  function FetchPageWithRetry(responses: seq<Response>): (run: Run)
    requires |responses| >= MAX_RETRIES
    ensures 1 <= run.requests <= MAX_RETRIES
    ensures |run.delays| == run.requests
    ensures forall k :: 0 <= k < run.requests ==> run.delays[k] == BASE_DELAY_MS * Pow2(k)
    ensures forall k :: 0 <= k < run.requests - 1 ==> Classify(responses[k]).Again?
    ensures Classify(responses[run.requests - 1]).Finish? ==>
      run.result == Classify(responses[run.requests - 1]).result
    ensures Classify(responses[run.requests - 1]).Again? ==>
      run.requests == MAX_RETRIES && run.result == Err(MaxRetriesExceeded(MAX_RETRIES))
  {
    Loop(responses, 1, BASE_DELAY_MS)
  }

  /** A 200 with a decodable body is returned after one request and the initial 500 ms sleep. */
  lemma OkReturnsImmediately(responses: seq<Response>, page: SearchResponse)
    requires |responses| >= MAX_RETRIES
    requires responses[0] == Http(200, Some(page))
    ensures FetchPageWithRetry(responses) == Run(Ok(page), 1, [500])
  {
    var run := FetchPageWithRetry(responses);
    assert run.requests == 1;
    assert run.delays == [run.delays[0]];
  }

  /** A 200 whose body does not decode fails at once; the decoding error is not retried. */
  lemma DecodeFailureIsNotRetried(responses: seq<Response>)
    requires |responses| >= MAX_RETRIES
    requires responses[0] == Http(200, None)
    ensures FetchPageWithRetry(responses).result == Err(Reqwest)
    ensures FetchPageWithRetry(responses).requests == 1
  {
  }

  /**
   After `k` retryable responses, a non-200 status that is neither 429 nor 5xx
   ends the loop with that status and no further request.
   */
  lemma UnrecoverableStatusStops(responses: seq<Response>, k: nat, status: nat)
    requires |responses| >= MAX_RETRIES
    requires k < MAX_RETRIES
    requires forall j :: 0 <= j < k ==> Classify(responses[j]).Again?
    requires responses[k].Http? && responses[k].status == status
    requires status != 200 && !IsRetryable(status)
    ensures FetchPageWithRetry(responses).result == Err(UnrecoverableStatus(status))
    ensures FetchPageWithRetry(responses).requests == k + 1
  {
  }

  /** Three retryable outcomes in a row use up every attempt, sleeping 500, 1000 and 2000 ms. */
  lemma RetryableOutcomesExhaust(responses: seq<Response>)
    requires |responses| >= MAX_RETRIES
    requires forall j :: 0 <= j < MAX_RETRIES ==>
      responses[j] == Transport || (responses[j].Http? && IsRetryable(responses[j].status))
    ensures FetchPageWithRetry(responses) == Run(Err(MaxRetriesExceeded(3)), 3, [500, 1000, 2000])
  {
    var run := FetchPageWithRetry(responses);
    assert Classify(responses[run.requests - 1]).Again?;
    assert Pow2(1) == 2 && Pow2(2) == 4;
    assert run.delays == [run.delays[0], run.delays[1], run.delays[2]];
  }

  /** One turn of the loop: a deciding response ends it, any other goes on to the next attempt. */
  lemma LoopUnfold(responses: seq<Response>, attempt: nat, delay: nat)
    requires 1 <= attempt <= MAX_RETRIES
    requires |responses| >= MAX_RETRIES
    requires delay == DelayBefore(attempt)
    ensures Classify(responses[attempt - 1]).Finish? ==>
      Loop(responses, attempt, delay) == Run(Classify(responses[attempt - 1]).result, 1, [delay])
    ensures Classify(responses[attempt - 1]).Again? ==>
      var next := Loop(responses, attempt + 1, delay * 2);
      Loop(responses, attempt, delay) == Run(next.result, next.requests + 1, [delay] + next.delays)
  {
  }

  /**
   `fetch_multi_page_with_retry` in src/tmdb/api.rs, written as the loop it is.
   Whatever the responses, it behaves exactly like `FetchPageWithRetry`.
   */
  method FetchMultiPageWithRetry(responses: seq<Response>)
    returns (result: Result<SearchResponse, FetchError>, requests: nat, delays: seq<nat>)
    requires |responses| >= MAX_RETRIES
    ensures Run(result, requests, delays) == FetchPageWithRetry(responses)
  {
    var maxRetries: u32 := 3;
    var baseDelay: nat := 500;
    requests := 0;
    delays := [];
    var attempt: nat := 1;
    ghost var whole := Loop(responses, 1, BASE_DELAY_MS);
    while attempt <= maxRetries
      invariant 1 <= attempt <= maxRetries + 1
      invariant requests == attempt - 1
      invariant baseDelay == DelayBefore(attempt)
      invariant whole.result == Loop(responses, attempt, baseDelay).result
      invariant whole.requests == requests + Loop(responses, attempt, baseDelay).requests
      invariant whole.delays == delays + Loop(responses, attempt, baseDelay).delays
      decreases maxRetries + 1 - attempt
    {
      ghost var delay := baseDelay;
      ghost var before := delays;
      LoopUnfold(responses, attempt, delay);
      if attempt > 0 {
        delays := delays + [baseDelay];
        baseDelay := baseDelay * 2;
      }
      var response := responses[attempt - 1];
      requests := requests + 1;
      match response {
        case Http(status, decoded) =>
          if status == 200 {
            if decoded.Some? {
              assert Classify(response) == Finish(Ok(decoded.value));
              assert whole == Run(Ok(decoded.value), requests, delays);
              return Ok(decoded.value), requests, delays;
            }
            assert Classify(response) == Finish(Err(Reqwest));
            assert whole == Run(Err(Reqwest), requests, delays);
            return Err(Reqwest), requests, delays;
          } else if status == 429 || 500 <= status <= 599 {
          } else {
            assert Classify(response) == Finish(Err(UnrecoverableStatus(status)));
            assert whole == Run(Err(UnrecoverableStatus(status)), requests, delays);
            return Err(UnrecoverableStatus(status)), requests, delays;
          }
        case Transport =>
      }
      assert Classify(response).Again?;
      AppendAssoc(before, [delay], Loop(responses, attempt + 1, baseDelay).delays);
      attempt := attempt + 1;
    }
    result := Err(MaxRetriesExceeded(maxRetries));
    assert whole == Run(result, requests, delays);
  }
}
