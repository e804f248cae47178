/**
 * The circuit breaker of src/services/llm.py. The clock is an explicit
 * integer `now` (seconds); latencies are kept as exact reals and never
 * averaged here.
 */
module CircuitBreaker {

  /** The breaker the service builds: five consecutive failures open it for sixty seconds. */
  const DefaultThreshold: int := 5
  const DefaultCooldown: int := 60

  /** How many latency samples are kept. */
  const LatencyWindow: nat := 100

  datatype Breaker = Breaker(
    failureCount: nat,     // consecutive failures since the last success
    threshold: int,
    cooldown: int,
    openUntil: int,        // the instant the circuit closes again; 0 when never opened
    totalCalls: nat,
    totalErrors: nat,
    latencies: seq<real>)  // the most recent samples, oldest first

  /** A new breaker: closed, no history. */
  function New(threshold: int, cooldown: int): Breaker {
    Breaker(0, threshold, cooldown, 0, 0, 0, [])
  }

  /**
   * `is_open`: calls are refused while `open_until` lies in the future, so
   * a breaker that never opened is closed from time 0 on.
   */
  predicate IsOpen(b: Breaker, now: int): (r: bool)
    ensures b.openUntil == 0 && now >= 0 ==> !r
  {
    b.openUntil > now
  }

  /** `record_success`: the failure streak ends and the latency sample is kept, up to the last 100. */
  function RecordSuccess(b: Breaker, latency: real): (r: Breaker)
    ensures r.failureCount == 0
    ensures r.totalCalls == b.totalCalls + 1 && r.totalErrors == b.totalErrors
    ensures r.openUntil == b.openUntil && r.threshold == b.threshold && r.cooldown == b.cooldown
    ensures |r.latencies| <= LatencyWindow
    ensures |b.latencies| < LatencyWindow ==> r.latencies == b.latencies + [latency]
    ensures |r.latencies| > 0 && r.latencies[|r.latencies| - 1] == latency
    ensures var all := b.latencies + [latency];
            |r.latencies| <= |all| && r.latencies == all[|all| - |r.latencies|..]
  {
    var all := b.latencies + [latency];
    var kept := if |all| > LatencyWindow then all[|all| - LatencyWindow..] else all;
    b.(failureCount := 0, totalCalls := b.totalCalls + 1, latencies := kept)
  }

  /**
   * `record_failure`: the streak grows; at or past the threshold the circuit
   * (re)opens until `now + cooldown`, and the streak is not reset, so every
   * further failure pushes the reopening back.
   */
  function RecordFailure(b: Breaker, now: int): (r: Breaker)
    ensures r.failureCount == b.failureCount + 1
    ensures r.totalCalls == b.totalCalls + 1 && r.totalErrors == b.totalErrors + 1
    ensures r.failureCount >= b.threshold ==> r.openUntil == now + b.cooldown
    ensures r.failureCount < b.threshold ==> r.openUntil == b.openUntil
    ensures r.threshold == b.threshold && r.cooldown == b.cooldown && r.latencies == b.latencies
  {
    var count := b.failureCount + 1;
    b.(failureCount := count,
       totalErrors := b.totalErrors + 1,
       totalCalls := b.totalCalls + 1,
       openUntil := if count >= b.threshold then now + b.cooldown else b.openUntil)
  }

  /** The integer part of `stats()`; the error rate and average latency are floating point and not modelled. */
  datatype Stats = Stats(totalCalls: nat, totalErrors: nat, circuitOpen: bool, consecutiveFailures: nat)

  function GetStats(b: Breaker, now: int): (s: Stats)
    ensures s.circuitOpen <==> IsOpen(b, now)
    ensures s.consecutiveFailures == b.failureCount
  {
    Stats(b.totalCalls, b.totalErrors, IsOpen(b, now), b.failureCount)
  }

  /** What a caller reports to the breaker. */
  datatype Record = Success(latency: real) | Failure(at: int)

  /** One report to the breaker. */
  function Report(b: Breaker, r: Record): Breaker {
    match r
    case Success(l) => RecordSuccess(b, l)
    case Failure(t) => RecordFailure(b, t)
  }

  function Apply(b: Breaker, rs: seq<Record>): Breaker
    decreases |rs|
  {
    if |rs| == 0 then b else Apply(Report(b, rs[0]), rs[1..])
  }

  /** Applying one report, or two in turn. */
  lemma ApplyShort(b: Breaker, x: Record, y: Record)
    ensures Apply(b, [x]) == Report(b, x)
    ensures Apply(b, [x, y]) == Report(Report(b, x), y)
  {
    assert [x][1..] == [] && [y][1..] == [];
    assert [x, y][1..] == [y];
    assert Apply(b, [x, y]) == Apply(Report(b, x), [y]);
  }

  /** A fresh breaker is closed at every non-negative instant. */
  lemma FreshIsClosed(threshold: int, cooldown: int, now: int)
    requires now >= 0
    ensures !IsOpen(New(threshold, cooldown), now)
  {
  }

  /** Errors are a subset of calls: total_errors <= total_calls after any sequence of records. */
  lemma {:induction false} ErrorsWithinCalls(b: Breaker, rs: seq<Record>)
    requires b.totalErrors <= b.totalCalls
    ensures Apply(b, rs).totalErrors <= Apply(b, rs).totalCalls
    ensures Apply(b, rs).totalCalls == b.totalCalls + |rs|
    decreases |rs|
  {
    if |rs| > 0 {
      ErrorsWithinCalls(Report(b, rs[0]), rs[1..]);
    }
  }

  function Failures(times: seq<int>): seq<Record> {
    if |times| == 0 then [] else [Failure(times[0])] + Failures(times[1..])
  }

  /**
   * After `threshold` consecutive failures starting from a closed streak,
   * the circuit is open exactly until the last failure's time plus the
   * cooldown: open before it, closed from then on.
   */
  lemma {:induction false} ThresholdFailuresOpen(b: Breaker, times: seq<int>, now: int)
    requires b.failureCount == 0 && b.threshold >= 1 && |times| == b.threshold
    ensures var r := Apply(b, Failures(times));
            r.failureCount == b.threshold && r.openUntil == times[|times| - 1] + b.cooldown
    ensures IsOpen(Apply(b, Failures(times)), now) <==> now < times[|times| - 1] + b.cooldown
  {
    StreakCount(b, times);
  }

  lemma {:induction false} StreakCount(b: Breaker, times: seq<int>)
    requires |times| > 0 && b.failureCount + |times| >= b.threshold
    ensures var r := Apply(b, Failures(times));
            r.failureCount == b.failureCount + |times| && r.openUntil == times[|times| - 1] + b.cooldown
    decreases |times|
  {
    var b' := RecordFailure(b, times[0]);
    assert Failures(times)[1..] == Failures(times[1..]);
    if |times| > 1 {
      StreakCount(b', times[1..]);
    }
  }

  /** A single success closes the streak, whatever it was. */
  lemma SuccessResetsStreak(b: Breaker, latency: real)
    ensures Apply(b, [Success(latency)]).failureCount == 0
  {
  }
}

/**
 * The retry loop of `call_llm` in src/services/llm.py: the upstream's
 * behaviour on each attempt is an input, and the loop returns the result,
 * the breaker after its one report, the sleeps it took and the attempts
 * it made. The call runs alone against the breaker (no other caller
 * reports in between).
 */
module Retry {
  import opened CircuitBreaker

  /** RETRY_DELAYS: the sleeps between attempts, so four attempts at most. */
  const RetryDelays: seq<nat> := [2, 4, 8]
  const MaxAttempts: nat := 4

  /** RETRY_STATUS_CODES */
  const RetryStatusCodes: set<int> := {429, 500, 502, 503}

  /** What the client library can raise. */
  datatype ApiError =
    | StatusError(code: int)   // `openai.APIStatusError`
    | ConnectionError          // `openai.APIConnectionError`
    | TimeoutError             // `openai.APITimeoutError`
    | NoChoices                // the IndexError of `response.choices[0]` on a reply without choices
    | OtherError               // anything else

  /**
   * One attempt at the upstream, after `elapsed` seconds: it answers, it
   * answers with an empty list of choices, or it raises.
   */
  datatype Attempt = Answered(text: string, elapsed: nat) | AnsweredEmpty(elapsed: nat) | Raised(error: ApiError, elapsed: nat)

  datatype Outcome = Returned(text: string) | CircuitOpen | Failed(error: ApiError)

  datatype Call = Call(outcome: Outcome, breaker: Breaker, sleeps: seq<nat>, attempts: nat, clock: int)

  /** What the upstream does on each of the attempts the loop can make: the script of a call. */
  type Script = s: seq<Attempt> | |s| == MaxAttempts
    witness [Answered([], 0), Answered([], 0), Answered([], 0), Answered([], 0)]

  /**
   * `_is_retryable`: a throttle or one of the listed server errors, a
   * failed connection or a timeout. A reply without choices and any other
   * error end the loop at once.
   */
  predicate IsRetryable(e: ApiError) {
    match e
    case StatusError(code) => code in RetryStatusCodes
    case ConnectionError => true
    case TimeoutError => true
    case NoChoices => false
    case OtherError => false
  }

  /** The retried errors are exactly six: four statuses, a failed connection and a timeout. */
  lemma RetryableErrors(e: ApiError)
    ensures IsRetryable(e) <==> e in {StatusError(429), StatusError(500), StatusError(502), StatusError(503), ConnectionError, TimeoutError}
  {
  }

  /** Of the 5xx statuses only 501 and those past 503 are final; every 4xx but 429 is final. */
  lemma RetriedStatuses(code: int)
    ensures 400 <= code < 500 ==> (IsRetryable(StatusError(code)) <==> code == 429)
    ensures 500 <= code < 600 ==> (IsRetryable(StatusError(code)) <==> code <= 503 && code != 501)
    ensures code < 400 || code >= 600 ==> !IsRetryable(StatusError(code))
  {
  }

  /** An attempt that raised an error the loop retries. */
  predicate Retried(a: Attempt) {
    a.Raised? && IsRetryable(a.error)
  }

  /**
   * What the loop did from some attempt on: how it ended, its reports to
   * the breaker, the sleeps it took, the attempts made so far and the clock
   * at the end.
   */
  datatype Run = Run(outcome: Outcome, reports: seq<Record>, sleeps: seq<nat>, attempts: nat, clock: int)

  /**
   * Attempts `attempt`, `attempt + 1`, ... of the loop over `delays`, with
   * the clock at `clock`.
   */
  function Loop(delays: seq<nat>, clock: int, attempt: nat, upstream: seq<Attempt>): (r: Run)
    requires attempt <= |delays| < |upstream|
    ensures attempt < r.attempts <= |delays| + 1
    decreases |delays| - attempt
  {
    var a := upstream[attempt];
    var t := clock + a.elapsed;
    if a.Answered? then
      Run(Returned(a.text), [Success(a.elapsed as real)], [], attempt + 1, t)
    else if a.AnsweredEmpty? then
      // The success is recorded before `choices[0]` raises inside the same
      // `try`; the IndexError is not retryable, so a failure follows.
      Run(Failed(NoChoices), [Success(a.elapsed as real), Failure(t)], [], attempt + 1, t)
    else if IsRetryable(a.error) && attempt < |delays| then
      var r := Loop(delays, t + delays[attempt], attempt + 1, upstream);
      r.(sleeps := [delays[attempt]] + r.sleeps)
    else
      // The last attempt, or a permanent error: one failure is reported
      // and the error re-raised, so the report after the loop is never reached.
      Run(Failed(a.error), [Failure(t)], [], attempt + 1, t)
  }

  /**
   * The loop from `attempt` on slept the delays in order, each after a
   * retryable error, and ended on its last attempt's result.
   */
  predicate LoopPath(delays: seq<nat>, attempt: nat, upstream: seq<Attempt>, r: Run)
    requires attempt < r.attempts <= |delays| + 1 && |delays| < |upstream|
  {
    && (forall i :: attempt <= i < r.attempts - 1 ==> Retried(upstream[i]))
    && (r.outcome.Returned? <==> upstream[r.attempts - 1].Answered?)
    && !r.outcome.CircuitOpen?
  }

  /**
   * The loop's reports: an answer is returned and reported as a success
   * with its latency; an error is re-raised and reported as a failure, and
   * it is permanent or the last attempt's; an answer without choices is
   * reported as a success and then, as the IndexError it raises, a failure.
   */
  predicate LoopReport(delays: seq<nat>, upstream: seq<Attempt>, r: Run)
    requires 0 < r.attempts <= |delays| + 1 && |delays| < |upstream|
  {
    var a := upstream[r.attempts - 1];
    && (r.outcome.Returned? ==> a.Answered? && r.outcome.text == a.text && r.reports == [Success(a.elapsed as real)])
    && (r.outcome.Failed? ==> (
      || (&& a.Raised? && r.outcome.error == a.error && r.reports == [Failure(r.clock)]
          && (!IsRetryable(a.error) || r.attempts == |delays| + 1))
      || (a.AnsweredEmpty? && r.outcome.error == NoChoices && r.reports == [Success(a.elapsed as real), Failure(r.clock)])))
  }

  /** The seconds attempts `lo` up to `hi` of the upstream took, together. */
  function Waited(upstream: seq<Attempt>, lo: nat, hi: nat): nat
    requires lo <= hi <= |upstream|
    decreases hi - lo
  {
    if lo == hi then 0 else upstream[lo].elapsed + Waited(upstream, lo + 1, hi)
  }

  /** The seconds slept, together. */
  function Slept(sleeps: seq<nat>): nat {
    if |sleeps| == 0 then 0 else sleeps[0] + Slept(sleeps[1..])
  }

  lemma SliceCons(s: seq<nat>, i: nat, j: nat)
    requires i < j <= |s|
    ensures [s[i]] + s[i + 1..j] == s[i..j]
  {
  }

  /** The loop from `attempt` on slept the delays from `attempt` on, in order, once per retried attempt. */
  lemma {:induction false} LoopSleeps(delays: seq<nat>, clock: int, attempt: nat, upstream: seq<Attempt>)
    requires attempt <= |delays| < |upstream|
    ensures Loop(delays, clock, attempt, upstream).sleeps == delays[attempt..Loop(delays, clock, attempt, upstream).attempts - 1]
    decreases |delays| - attempt
  {
    var a := upstream[attempt];
    if a.Raised? && IsRetryable(a.error) && attempt < |delays| {
      var r := Loop(delays, clock + a.elapsed + delays[attempt], attempt + 1, upstream);
      LoopSleeps(delays, clock + a.elapsed + delays[attempt], attempt + 1, upstream);
      SliceCons(delays, attempt, r.attempts - 1);
    }
  }

  lemma {:induction false} LoopPathSpec(delays: seq<nat>, clock: int, attempt: nat, upstream: seq<Attempt>)
    requires attempt <= |delays| < |upstream|
    ensures LoopPath(delays, attempt, upstream, Loop(delays, clock, attempt, upstream))
    decreases |delays| - attempt
  {
    var a := upstream[attempt];
    if a.Raised? && IsRetryable(a.error) && attempt < |delays| {
      LoopPathSpec(delays, clock + a.elapsed + delays[attempt], attempt + 1, upstream);
    }
  }

  lemma {:induction false} LoopReportSpec(delays: seq<nat>, clock: int, attempt: nat, upstream: seq<Attempt>)
    requires attempt <= |delays| < |upstream|
    ensures LoopReport(delays, upstream, Loop(delays, clock, attempt, upstream))
    ensures var r := Loop(delays, clock, attempt, upstream);
      r.clock == clock + Waited(upstream, attempt, r.attempts) + Slept(r.sleeps)
    decreases |delays| - attempt
  {
    var a := upstream[attempt];
    if a.Raised? && IsRetryable(a.error) && attempt < |delays| {
      var r := Loop(delays, clock + a.elapsed + delays[attempt], attempt + 1, upstream);
      LoopReportSpec(delays, clock + a.elapsed + delays[attempt], attempt + 1, upstream);
      assert ([delays[attempt]] + r.sleeps)[1..] == r.sleeps;
    }
  }

  /** `call_llm`: fail fast while the circuit is open, otherwise run the retry loop. */
  function CallLlm(b: Breaker, now: int, upstream: Script): (c: Call)
    ensures IsOpen(b, now) <==> c.outcome.CircuitOpen?
    ensures IsOpen(b, now) ==> c == Call(CircuitOpen, b, [], 0, now)
    ensures !IsOpen(b, now) ==> 1 <= c.attempts <= MaxAttempts && c.sleeps == RetryDelays[..c.attempts - 1]
    ensures c.outcome.Returned? ==> (
      && c.breaker == RecordSuccess(b, upstream[c.attempts - 1].elapsed as real)
      && upstream[c.attempts - 1].Answered? && c.outcome.text == upstream[c.attempts - 1].text)
    ensures c.outcome.Failed? ==> !upstream[c.attempts - 1].Answered?
    ensures c.outcome.Failed? && upstream[c.attempts - 1].Raised? ==> (
      && c.breaker == RecordFailure(b, c.clock)
      && c.outcome.error == upstream[c.attempts - 1].error
      && (!IsRetryable(c.outcome.error) || c.attempts == MaxAttempts))
    ensures c.outcome.Failed? && upstream[c.attempts - 1].AnsweredEmpty? ==> (
      && c.breaker == RecordFailure(RecordSuccess(b, upstream[c.attempts - 1].elapsed as real), c.clock)
      && c.outcome.error == NoChoices)
    ensures forall i :: 0 <= i < c.attempts - 1 ==> Retried(upstream[i])
    ensures !IsOpen(b, now) ==> c.clock == now + Waited(upstream, 0, c.attempts) + Slept(c.sleeps)
  {
    if IsOpen(b, now) then Call(CircuitOpen, b, [], 0, now)
    else
      var r := Loop(RetryDelays, now, 0, upstream);
      LoopSleeps(RetryDelays, now, 0, upstream);
      LoopPathSpec(RetryDelays, now, 0, upstream);
      LoopReportSpec(RetryDelays, now, 0, upstream);
      ApplyShort(b, Success(upstream[r.attempts - 1].elapsed as real), Failure(r.clock));
      ApplyShort(b, Failure(r.clock), Failure(r.clock));
      Call(r.outcome, Apply(b, r.reports), r.sleeps, r.attempts, r.clock)
  }

  /**
   * How a call moves the breaker's counters: a returned text counts one call
   * and ends the streak; a raised error counts one call and one error and
   * extends the streak; an answer without choices counts two calls and one
   * error and leaves a streak of one; a fast failure changes nothing.
   */
  lemma CallCounts(b: Breaker, now: int, upstream: Script)
    ensures var c := CallLlm(b, now, upstream);
      && (c.outcome.Returned? ==> (
        && c.breaker.failureCount == 0
        && c.breaker.totalCalls == b.totalCalls + 1
        && c.breaker.totalErrors == b.totalErrors))
      && (c.outcome.Failed? && upstream[c.attempts - 1].Raised? ==> (
        && c.breaker.totalCalls == b.totalCalls + 1
        && c.breaker.totalErrors == b.totalErrors + 1
        && c.breaker.failureCount == b.failureCount + 1))
      && (c.outcome.Failed? && upstream[c.attempts - 1].AnsweredEmpty? ==> (
        && c.breaker.totalCalls == b.totalCalls + 2
        && c.breaker.totalErrors == b.totalErrors + 1
        && c.breaker.failureCount == 1))
      && (c.outcome.CircuitOpen? ==> c.breaker == b)
  {
  }

  /**
   * An upstream that throttles (429) twice, each time after one second,
   * and then answers "ok".
   */
  const ThrottledTwice: Script := [Raised(StatusError(429), 1), Raised(StatusError(429), 1), Answered("ok", 1), Answered("ok", 1)]

  lemma AnsweredThird(now: int)
    ensures Loop(RetryDelays, now + 8, 2, ThrottledTwice) == Run(Returned("ok"), [Success(1.0)], [], 3, now + 9)
  {
  }

  lemma ThrottledSecond(now: int)
    ensures Loop(RetryDelays, now + 3, 1, ThrottledTwice) == Run(Returned("ok"), [Success(1.0)], [4], 3, now + 9)
  {
    assert IsRetryable(StatusError(429));
    AnsweredThird(now);
  }

  lemma ThrottledFirst(now: int)
    ensures Loop(RetryDelays, now, 0, ThrottledTwice) == Run(Returned("ok"), [Success(1.0)], [2, 4], 3, now + 9)
  {
    assert IsRetryable(StatusError(429));
    ThrottledSecond(now);
  }

  /** Two 429 answers and then a success: the text comes back after sleeping 2 and 4, with one success and no failure reported. */
  lemma TwoThrottlesThenSuccess(b: Breaker, now: int)
    requires !IsOpen(b, now)
    ensures CallLlm(b, now, ThrottledTwice) == Call(Returned("ok"), RecordSuccess(b, 1.0), [2, 4], 3, now + 9)
  {
    ThrottledFirst(now);
  }

  /** A permanent error is reported once and never retried. */
  lemma PermanentErrorNotRetried(b: Breaker, now: int, up: Script)
    requires !IsOpen(b, now) && up[0].Raised? && !IsRetryable(up[0].error)
    ensures var c := CallLlm(b, now, up);
            c.attempts == 1 && c.sleeps == [] && c.outcome == Failed(up[0].error)
            && c.breaker == RecordFailure(b, now + up[0].elapsed)
  {
  }
}
