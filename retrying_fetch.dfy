/**
 * The retrying fetch wrapper: an exponential backoff policy with full jitter, the
 * Retry-After header check, the retry decision, and the attempt loop that calls the
 * wrapped fetch until a response is final.
 */
module RetryingFetch {
  import opened Wrappers
  import opened JsValues
  import opened Errors
  import FetchBridge

  /** The largest Retry-After value, in milliseconds, that is honoured. */
  const MaxRetryAfterMs := 60000
  const ServiceUnavailable := 503
  const TooManyRequests := 429

  /** A draw of `Math.random()`. */
  type RandomDraw = r: real | 0.0 <= r < 1.0

  /** Milliseconds to wait before retrying after the given attempt (from 0), or `None` to stop. */
  type BackoffStrategy = nat -> Option<int>

  function Pow2(n: nat): (r: nat)
    ensures r >= 1
  {
    if n == 0 then 1 else 2 * Pow2(n - 1)
  }

  lemma AtLeastFactor(a: nat, b: nat)
    requires b >= 1
    ensures a * b >= a
  {
  }

  /** The floor of a fraction of a whole number `bound` lies in `[0, bound)`, or is 0 when `bound` is 0. */
  lemma FloorOfFraction(random: RandomDraw, bound: nat)
    ensures 0 <= (random * (bound as real)).Floor
    ensures bound > 0 ==> (random * (bound as real)).Floor < bound
    ensures bound == 0 ==> (random * (bound as real)).Floor == 0
  {
    ScaleBelow(random, bound as real);
  }

  lemma ScaleBelow(r: real, x: real)
    requires 0.0 <= r < 1.0 && x >= 0.0
    ensures 0.0 <= r * x <= x
    ensures x > 0.0 ==> r * x < x
  {
  }

  /** A full-jitter draw lies in `[0, slot * 2^attempt)`, and is 0 for a slot of 0. */
  lemma JitterBounds(random: RandomDraw, attempt: nat, slot: nat)
    ensures var d := (random * (Pow2(attempt) as real) * (slot as real)).Floor;
      0 <= d && (slot > 0 ==> d < slot * Pow2(attempt)) && (slot == 0 ==> d == 0)
  {
    var p := Pow2(attempt);
    var bound: nat := slot * p;
    AtLeastFactor(slot, p);
    assert (p as real) * (slot as real) == bound as real;
    assert random * (p as real) * (slot as real) == random * (bound as real);
    FloorOfFraction(random, bound);
  }

  /**
   * `exponentialBackoff(maxNumRetries, backoffSlotSizeMs)` applied to `attempt`, with
   * `random` the draw of `Math.random()`: no delay once `attempt + 1` reaches the
   * maximum, otherwise a whole number of milliseconds in `[0, slot * 2^attempt)`.
   */
  function ExponentialBackoffDelay(maxNumRetries: int, backoffSlotSizeMs: nat, attempt: nat, random: RandomDraw): (r: Option<int>)
    ensures r.None? <==> attempt + 1 >= maxNumRetries
    ensures r.Some? ==> r.value == (random * (Pow2(attempt) as real) * (backoffSlotSizeMs as real)).Floor
    ensures r.Some? ==> 0 <= r.value
    ensures r.Some? && backoffSlotSizeMs > 0 ==> r.value < backoffSlotSizeMs * Pow2(attempt)
    ensures r.Some? && backoffSlotSizeMs == 0 ==> r.value == 0
  {
    if attempt + 1 >= maxNumRetries then None
    else
      var upperBound := Pow2(attempt) as real;
      JitterBounds(random, attempt, backoffSlotSizeMs);
      Some((random * upperBound * (backoffSlotSizeMs as real)).Floor)
  }

  /** The strategy `exponentialBackoff` returns; `random(k)` is the draw made for attempt `k`. */
  function ExponentialBackoff(maxNumRetries: int, backoffSlotSizeMs: nat, random: nat -> RandomDraw): (s: BackoffStrategy)
    ensures forall attempt :: s(attempt) == ExponentialBackoffDelay(maxNumRetries, backoffSlotSizeMs, attempt, random(attempt))
  {
    (attempt: nat) => ExponentialBackoffDelay(maxNumRetries, backoffSlotSizeMs, attempt, random(attempt))
  }

  /** The Retry-After header's value, when it is present, parses as an integer and lies in `[0, 60000]`. */
  function RetryAfterHeaderValue(response: FetchBridge.FetchResponse): (r: Option<int>)
    ensures r.Some? <==> FetchBridge.HeaderValue(response, "Retry-After").Some?
                         && ParseInt(FetchBridge.HeaderValue(response, "Retry-After").value).Some?
                         && 0 <= ParseInt(FetchBridge.HeaderValue(response, "Retry-After").value).value <= MaxRetryAfterMs
    ensures r.Some? ==> r == ParseInt(FetchBridge.HeaderValue(response, "Retry-After").value)
  {
    match FetchBridge.HeaderValue(response, "Retry-After")
    case None => None
    case Some(header) =>
      match ParseInt(header)
      case None => None
      case Some(retryAfter) =>
        if retryAfter < 0 || retryAfter > MaxRetryAfterMs then None else Some(retryAfter)
  }

  predicate IsThrottled(status: int)
  {
    status == TooManyRequests || status == ServiceUnavailable
  }

  /**
   * `getRetryAfter`: only 429 and 503 are retried, and only while the strategy has a
   * delay to give; a valid Retry-After header then takes the place of that delay.
   */
  function GetRetryAfter(response: FetchBridge.FetchResponse, attempt: nat, strategy: BackoffStrategy): (r: Option<int>)
    ensures r.Some? <==> IsThrottled(response.status) && strategy(attempt).Some?
    ensures r.Some? && RetryAfterHeaderValue(response).Some? ==> r == RetryAfterHeaderValue(response)
    ensures r.Some? && RetryAfterHeaderValue(response).None? ==> r == strategy(attempt)
  {
    if IsThrottled(response.status) then
      match strategy(attempt)
      case None => None
      case Some(backoff) =>
        match RetryAfterHeaderValue(response)
        case Some(retryAfter) => Some(retryAfter)
        case None => Some(backoff)
    else None
  }

  /** What one attempt leads to: the call settles with this, or a retry after this many milliseconds. */
  datatype Decision = Finish(result: Settled<FetchBridge.FetchResponse>) | Retry(delay: int)

  /**
   * One run of `doAttempt` on how the delegate settled: an exception or an `ok`
   * response settles the fetch as it is; a failed response is retried exactly when
   * `getRetryAfter` gives a delay, and is otherwise returned unchanged.
   */
  function Step(outcome: Settled<FetchBridge.FetchResponse>, attempt: nat, strategy: BackoffStrategy): (d: Decision)
    ensures outcome.Rejected? ==> d == Finish(outcome)
    ensures outcome.Resolved? && outcome.value.ok ==> d == Finish(outcome)
    ensures d.Retry? <==> outcome.Resolved? && !outcome.value.ok && GetRetryAfter(outcome.value, attempt, strategy).Some?
    ensures d.Retry? ==> Some(d.delay) == GetRetryAfter(outcome.value, attempt, strategy)
    ensures d.Finish? ==> d.result == outcome
  {
    match outcome
    case Rejected(_) => Finish(outcome)
    case Resolved(response) =>
      if response.ok then Finish(outcome)
      else match GetRetryAfter(response, attempt, strategy)
        case Some(retryAfter) => Retry(retryAfter)
        case None => Finish(outcome)
  }

  /** A retry happens only while the strategy still has a delay to give. */
  lemma RetryNeedsBackoff(outcome: Settled<FetchBridge.FetchResponse>, attempt: nat, strategy: BackoffStrategy)
    ensures Step(outcome, attempt, strategy).Retry? ==> strategy(attempt).Some?
  {
  }

  /** The strategy eventually gives up; without that, a server that keeps answering 503 is retried forever. */
  ghost predicate GivesUp(strategy: BackoffStrategy)
  {
    exists n: nat :: strategy(n).None?
  }

  /** Some call ends the run: its outcome is final, or it is throttled and no delay is left to wait. */
  ghost predicate Settles(outcomes: nat -> Settled<FetchBridge.FetchResponse>, strategy: BackoffStrategy)
  {
    exists n: nat :: Step(outcomes(n), n, strategy).Finish?
  }

  /** A strategy that gives up ends every run, whatever the delegate does. */
  lemma GivesUpSettles(outcomes: nat -> Settled<FetchBridge.FetchResponse>, strategy: BackoffStrategy)
    requires GivesUp(strategy)
    ensures Settles(outcomes, strategy)
  {
    var n: nat :| strategy(n).None?;
    assert Step(outcomes(n), n, strategy).Finish?;
  }

  /** A delegate that eventually gives a final outcome ends the run, whatever the strategy. */
  lemma FinalOutcomeSettles(outcomes: nat -> Settled<FetchBridge.FetchResponse>, strategy: BackoffStrategy, n: nat)
    requires IsFinal(outcomes(n))
    ensures Settles(outcomes, strategy)
  {
    assert Step(outcomes(n), n, strategy).Finish?;
  }

  /**
   * A run that made `|delays| + 1` calls: call `k` (attempt `k`) was retried after
   * `delays[k]` milliseconds, and the last call settled the fetch with `result`.
   */
  ghost predicate Explains(outcomes: nat -> Settled<FetchBridge.FetchResponse>, strategy: BackoffStrategy,
                           result: Settled<FetchBridge.FetchResponse>, delays: seq<int>)
  {
    Retried(outcomes, strategy, delays) && Step(outcomes(|delays|), |delays|, strategy) == Finish(result)
  }

  /** Calls `0 .. |delays| - 1` were each retried after the recorded delay. */
  ghost predicate Retried(outcomes: nat -> Settled<FetchBridge.FetchResponse>, strategy: BackoffStrategy, delays: seq<int>)
  {
    forall k: nat :: k < |delays| ==> Step(outcomes(k), k, strategy) == Retry(delays[k])
  }

  lemma RetriedExtend(outcomes: nat -> Settled<FetchBridge.FetchResponse>, strategy: BackoffStrategy, delays: seq<int>, delay: int)
    requires Retried(outcomes, strategy, delays)
    requires Step(outcomes(|delays|), |delays|, strategy) == Retry(delay)
    ensures Retried(outcomes, strategy, delays + [delay])
  {
    var more := delays + [delay];
    forall k: nat | k < |more| ensures Step(outcomes(k), k, strategy) == Retry(more[k]) {
      if k < |delays| {
        assert more[k] == delays[k];
      }
    }
  }

  /**
   * `fetchInternal` and `doAttempt`: `outcomes(k)` is how the delegate settles on its
   * `k`-th call. Attempts are numbered from 0 and each retry adds one.
   */
  method Fetch(outcomes: nat -> Settled<FetchBridge.FetchResponse>, strategy: BackoffStrategy)
    returns (result: Settled<FetchBridge.FetchResponse>, delays: seq<int>)
    requires Settles(outcomes, strategy)
    ensures Explains(outcomes, strategy, result, delays)
  {
    ghost var last: nat :| Step(outcomes(last), last, strategy).Finish?;
    var attempt: nat := 0;
    delays := [];
    while true
      invariant attempt == |delays| <= last
      invariant Retried(outcomes, strategy, delays)
      decreases last - attempt
    {
      var outcome := outcomes(attempt);
      var decision := Step(outcome, attempt, strategy);
      if decision.Finish? {
        return decision.result, delays;
      }
      RetryNeedsBackoff(outcome, attempt, strategy);
      RetriedExtend(outcomes, strategy, delays, decision.delay);
      delays := delays + [decision.delay];
      attempt := attempt + 1;
    }
  }

  /** A run is determined by the delegate's outcomes and the strategy. */
  lemma ExplainsUnique(outcomes: nat -> Settled<FetchBridge.FetchResponse>, strategy: BackoffStrategy,
                       result1: Settled<FetchBridge.FetchResponse>, delays1: seq<int>,
                       result2: Settled<FetchBridge.FetchResponse>, delays2: seq<int>)
    requires Explains(outcomes, strategy, result1, delays1)
    requires Explains(outcomes, strategy, result2, delays2)
    ensures result1 == result2 && delays1 == delays2
  {
    forall k | 0 <= k < |delays1| ensures delays1[k] == delays2[k] {
      var n: nat := k;
      assert Step(outcomes(n), n, strategy) == Retry(delays1[n]);
    }
  }

  /** `exponentialBackoff(n, slot)` gives up at attempt `max(n - 1, 0)`, so a fetch with it always settles. */
  lemma ExponentialBackoffGivesUp(maxNumRetries: int, backoffSlotSizeMs: nat, random: nat -> RandomDraw)
    ensures GivesUp(ExponentialBackoff(maxNumRetries, backoffSlotSizeMs, random))
  {
    var last: nat := if maxNumRetries > 0 then maxNumRetries - 1 else 0;
    assert ExponentialBackoff(maxNumRetries, backoffSlotSizeMs, random)(last).None?;
  }

  predicate IsFinal(outcome: Settled<FetchBridge.FetchResponse>)
  {
    outcome.Rejected? || outcome.value.ok || !IsThrottled(outcome.value.status)
  }

  /**
   * An exception, an `ok` response or a failure other than 429/503 on the first call
   * settles the fetch with exactly that outcome, after one call.
   */
  lemma FirstOutcomeFinal(outcomes: nat -> Settled<FetchBridge.FetchResponse>, strategy: BackoffStrategy,
                          result: Settled<FetchBridge.FetchResponse>, delays: seq<int>)
    requires Explains(outcomes, strategy, result, delays)
    requires IsFinal(outcomes(0))
    ensures delays == [] && result == outcomes(0)
  {
    assert Step(outcomes(0), 0, strategy).Finish?;
  }

  /**
   * With `exponentialBackoff(n, slot)` and a delegate that keeps answering 429 or 503,
   * the delegate is called `n` times (once when `n <= 1`) and the last response is
   * what the fetch resolves with.
   */
  lemma AlwaysThrottledCallCount(outcomes: nat -> Settled<FetchBridge.FetchResponse>, maxNumRetries: int,
                                 backoffSlotSizeMs: nat, random: nat -> RandomDraw,
                                 result: Settled<FetchBridge.FetchResponse>, delays: seq<int>)
    requires forall k: nat :: outcomes(k).Resolved? && !outcomes(k).value.ok && IsThrottled(outcomes(k).value.status)
    requires Explains(outcomes, ExponentialBackoff(maxNumRetries, backoffSlotSizeMs, random), result, delays)
    ensures |delays| + 1 == if maxNumRetries >= 1 then maxNumRetries else 1
    ensures result == outcomes(|delays|)
  {
    var strategy := ExponentialBackoff(maxNumRetries, backoffSlotSizeMs, random);
    var m: nat := |delays|;
    assert outcomes(m).Resolved? && IsThrottled(outcomes(m).value.status);
    assert strategy(m).None?;
    if m > 0 {
      var k: nat := m - 1;
      assert Step(outcomes(k), k, strategy) == Retry(delays[k]);
      assert strategy(k).Some?;
    }
  }

  /**
   * Each delay is the response's valid Retry-After value when it has one and the
   * strategy's delay otherwise; so under `exponentialBackoff(n, slot)` a delay is a
   * header value in `[0, 60000]` or a jittered value in `[0, slot * 2^k)`.
   */
  lemma DelaysExplained(outcomes: nat -> Settled<FetchBridge.FetchResponse>, strategy: BackoffStrategy,
                        result: Settled<FetchBridge.FetchResponse>, delays: seq<int>, k: nat)
    requires Explains(outcomes, strategy, result, delays)
    requires k < |delays|
    ensures outcomes(k).Resolved? && !outcomes(k).value.ok && IsThrottled(outcomes(k).value.status) && strategy(k).Some?
    ensures delays[k] == match RetryAfterHeaderValue(outcomes(k).value)
                         case Some(retryAfter) => retryAfter
                         case None => strategy(k).value
  {
    assert Step(outcomes(k), k, strategy) == Retry(delays[k]);
  }

  lemma ExponentialDelaysBounded(outcomes: nat -> Settled<FetchBridge.FetchResponse>, maxNumRetries: int,
                                 backoffSlotSizeMs: nat, random: nat -> RandomDraw,
                                 result: Settled<FetchBridge.FetchResponse>, delays: seq<int>, k: nat)
    requires Explains(outcomes, ExponentialBackoff(maxNumRetries, backoffSlotSizeMs, random), result, delays)
    requires k < |delays|
    ensures 0 <= delays[k]
    ensures delays[k] <= MaxRetryAfterMs || delays[k] < backoffSlotSizeMs * Pow2(k)
  {
    DelaysExplained(outcomes, ExponentialBackoff(maxNumRetries, backoffSlotSizeMs, random), result, delays, k);
  }

  /** When every response carries the same valid Retry-After value, every delay is that value. */
  lemma RetryAfterOverridesBackoff(outcomes: nat -> Settled<FetchBridge.FetchResponse>, strategy: BackoffStrategy,
                                   result: Settled<FetchBridge.FetchResponse>, delays: seq<int>, retryAfter: int)
    requires Explains(outcomes, strategy, result, delays)
    requires forall k: nat :: outcomes(k).Resolved? ==> RetryAfterHeaderValue(outcomes(k).value) == Some(retryAfter)
    ensures forall k :: 0 <= k < |delays| ==> delays[k] == retryAfter
  {
    forall k | 0 <= k < |delays| ensures delays[k] == retryAfter {
      DelaysExplained(outcomes, strategy, result, delays, k);
    }
  }

  /** "Retry-After: 123" is read as a delay of 123 milliseconds. */
  lemma RetryAfterExample(response: FetchBridge.FetchResponse, header: string)
    requires FetchBridge.HeaderValue(response, "Retry-After") == Some(header) && header == "123"
    ensures RetryAfterHeaderValue(response) == Some(123)
  {
    assert IntToString(123) == header by {
      assert NatToDigits(123) == NatToDigits(12) + [DigitChar(3)];
      assert NatToDigits(12) == NatToDigits(1) + [DigitChar(2)];
    }
    ParseIntOfIntToString(123, "");
    assert header + "" == header;
  }
}
