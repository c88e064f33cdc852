/**
 The `Retry` loop of retry.go as a pure function.

 Everything the loop learns from outside is supplied as an oracle, one `Round` per
 iteration of the Go `for` loop: whether a stop signal is waiting on the channel, what
 the retried function returns, and how the clock advances. Given the oracle, the loop
 yields the value it returns together with the trace of attempts, callback calls and
 sleeps it performs. When the oracle runs out before the loop ends, the outcome is
 `Unfinished`; with unlimited attempts this stands for the Go loop running on.
 */
module RetryLoop {
  import opened RetryConfig
  import opened RetryTrace

  /** What one call of the retried function returns: a nil error or an error value. */
  datatype ActionResult<E> = NilError | Failed(err: E)

  /** One iteration as the outside world decides it.
      `stopPending`: a value can be received from the stop channel at the `select`.
      `result`: what the retried function returns, if it is called.
      `duration`: clock time from the attempt's start to the `time.Now()` that ends it,
      covering the function and the callback it triggers.
      `lag`: further clock time before the next iteration starts (time.Sleep may wake
      late; the loop itself takes time). */
  datatype Round<E> = Round(stopPending: bool, result: ActionResult<E>, duration: nat, lag: nat)

  /** Which callbacks are non-nil. */
  datatype Callbacks = Callbacks(onSuccess: bool, onError: bool)

  /** What `Retry` returns: nil, the "stop signal received" error, or an error of the
      retried function, handed back unchanged; `Unfinished` when the oracle ran out. */
  datatype Outcome<E> = ReturnedNil | ReturnedStop | ReturnedErr(err: E) | Unfinished

  /** The outcome, the events in order, and the clock when the loop ended. */
  datatype Run<E> = Run(outcome: Outcome<E>, trace: seq<Event<E>>, clock: int)

  /** The `select` takes its stop branch: a nil channel never delivers. */
  predicate StopFires<E>(a: AfmRetry, rd: Round<E>) {
    a.stopFlag.Channel? && rd.stopPending
  }

  function SuccessReport<E>(a: AfmRetry, cb: Callbacks): seq<Event<E>> {
    if cb.onSuccess then [OnSuccess(a.retryName)] else []
  }

  function ErrorReport<E>(a: AfmRetry, cb: Callbacks, err: E): seq<Event<E>> {
    if cb.onError then [OnError(a.retryName, err)] else []
  }

  /** The sleep taken when the attempt ended before the earliest next start. */
  function Pause<E>(endTime: int, minimumTime: int): seq<Event<E>> {
    if endTime < minimumTime then [Sleep(minimumTime - endTime)] else []
  }

  /** The clock after that sleep has been asked for. */
  function Wake(endTime: int, minimumTime: int): int {
    if endTime < minimumTime then minimumTime else endTime
  }

  /** The Go `for` loop, entered with the counter at `funcCount` and the clock at `now`. */
  function Loop<E>(a: AfmRetry, cb: Callbacks, rounds: seq<Round<E>>, funcCount: int, now: int): (r: Run<E>)
    ensures r.clock >= now
    ensures r.outcome.ReturnedStop? ==> a.stopFlag.Channel?
    ensures r.outcome.ReturnedErr? ==> 0 < a.retryCount
    decreases |rounds|
  {
    if |rounds| == 0 then Run(Unfinished, [], now)
    else
      var rd := rounds[0];
      if StopFires(a, rd) then Run(ReturnedStop, [], now)
      else
        var minimumTime := now + a.minimumRetryTime;
        var endTime := now + rd.duration;
        match rd.result
        case NilError =>
          Run(ReturnedNil, [Attempt(now)] + SuccessReport<E>(a, cb), endTime)
        case Failed(err) =>
          var reported := [Attempt(now)] + ErrorReport(a, cb, err);
          if a.retryCount > 0 && funcCount + 1 > a.retryCount then
            Run(ReturnedErr(err), reported, endTime)
          else
            var rest := Loop(a, cb, rounds[1..], funcCount + 1, Wake(endTime, minimumTime) + rd.lag);
            Run(rest.outcome, reported + Pause(endTime, minimumTime) + rest.trace, rest.clock)
  }

  /** `a.Retry(function, onSuccess, onError)` started at clock `t0`. */
  function Retry<E>(a: AfmRetry, cb: Callbacks, rounds: seq<Round<E>>, t0: int): (r: Run<E>)
    ensures |rounds| > 0 && StopFires(a, rounds[0]) ==>
      r.outcome == ReturnedStop && r.trace == [] && r.clock == t0
    ensures a.stopFlag.NilChannel? ==> !r.outcome.ReturnedStop?
    ensures a.retryCount <= 0 ==> !r.outcome.ReturnedErr?
  {
    Loop(a, cb, rounds, 1, t0)
  }
}
