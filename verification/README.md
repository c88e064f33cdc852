# pfretry retry loop in Dafny

A model of `AfmRetry` from the Go package `retry` (PageFaultCode/pfretry): the
configuration record, its two setters, and the `Retry` loop. `Retry` runs a fallible
function until one of three things happens: the function succeeds, a positive
`retryCount` is used up, or a value arrives on the stop channel. Each start of the
function is at least `minimumRetryTime` after the previous start, and the optional
`onError` / `onSuccess` callbacks are told about every outcome.

Everything the loop learns from outside is supplied as an oracle sequence, with one
`Round` per iteration of the Go `for` loop. A round says:

- whether the stop channel can deliver at the `select`;
- what the function returns;
- how far the clock moves during the attempt;
- how far the clock moves after it, since `time.Sleep` may oversleep.

Given the oracle, `RetryLoop.Retry` is a pure function. It returns the value `Retry`
returns, the clock when it returns, and the trace of events it performs:

- `Attempt(start)`
- `OnError(name, err)`
- `OnSuccess(name)`
- `Sleep(d)`

Modules:

- `RetryConfig` (retry_config.dfy): the `AfmRetry` record, `SetRetryCount`, `SetRetryName`.
- `RetryTrace` (retry_trace.dfy): events and the projections properties are stated over
  (`Starts`, `ErrorReports`, `SuccessReports`, `Sleeps`, `Strip`).
- `RetryLoop` (retry.dfy): the loop itself (`Loop`, entered at any counter value and clock)
  and `Retry`.
- `RetrySpec` (retry_spec.dfy): an account of where the loop stops that does not use the
  loop. It defines:
  - `EndsAt`: the first round that does not go on;
  - `Verdict`: what that round decides;
  - `Attempted`: how many attempts were made by then;
  - `FailuresOf`: the errors the failed rounds report;
  - `SleepsOf`: the sleeps the rounds the loop goes past call for;
  - `StartTimes`: when each attempt starts;
  - `RoundEvents` / `EventsOf`: the events each attempted round calls for, in order.
- `RetryProperties` (retry_properties.dfy): inductive facts about `Loop`.
- `RetryTheorems` (retry_theorems.dfy): the same facts for a fresh `Retry` call.

The counter follows the code. `funcCount` starts at 1 and is incremented after every
failure. The loop returns the error when `retryCount > 0 && funcCount > retryCount`. So
a count of `N > 0` allows exactly `N` attempts, and a count of zero or less never
ends the loop.

When the limit is reached, the code returns the failed attempt's own error unchanged.
The model does the same: `ReturnedErr(err)`.

After a failed attempt that the loop goes on from, the code sleeps only when the attempt
ended before `minimumRetryTime` had passed since its start, and then for the rest of
that time (`RetrySpec.SleepsOf`). A `minimumRetryTime` of zero or less is accepted, as
in the code, and such a loop never sleeps (`RetryTheorems.UnpacedNeverSleeps`).

## Model

| member | source | states |
|---|---|---|
| RetryConfig.SetRetryCount | retry.go:28-30 | the result has the new `retryCount`, and name, minimum time and stop channel are those of the input |
| RetryConfig.SetRetryName | retry.go:34-36 | the result has the new `retryName`, and count, minimum time and stop channel are those of the input |
| RetryConfig.SettersCommute | retry.go:28-36 | setting the count and setting the name touch disjoint fields, so either order gives the same record |
| RetryConfig.SettersLastWriteWins | retry.go:28-36 | a second write of the same field overrides the first, and writing a field's current value back leaves the record as it was |
| RetryLoop.Loop | retry.go:42-69 | the clock never runs backwards; the stop error needs a real (non-nil) channel; a function error is returned only under a positive `retryCount` |
| RetryLoop.Retry | retry.go:40-70 | a stop signal pending before the first attempt returns the stop error with no attempt, no callback and no time spent; a nil channel never yields the stop error; `retryCount <= 0` never returns the function's error |
| RetrySpec.EndsAtExactlyOnce | retry.go:42-63 | for every oracle there is exactly one round in which the loop stops (or it goes past all of them) |
| RetryProperties.LoopEndsAt | retry.go:42-63 | the loop's result is the one decided by the first round that does not go on (stop, success, or the failure that reaches the limit), after exactly that many attempts |
| RetryProperties.LoopErrorReports | retry.go:49-52 | the `onError` calls are exactly `(retryName, err)` for each failed attempt, in order, including the last; a nil `onError` is never called |
| RetryProperties.LoopSuccessReports | retry.go:53-57 | `onSuccess(retryName)` is called once exactly when the loop returns nil, and never otherwise |
| RetryProperties.LoopPaced | retry.go:47-67 | successive attempt starts are at least `minimumRetryTime` apart and never go backwards; every start is no later than the final clock |
| RetryProperties.LoopEndsWithReport | retry.go:53-63 | a loop returning nil or an error ends on that attempt's callback (or the attempt itself): no sleep and no further attempt follows |
| RetryProperties.LoopIgnoresNameAndCallbacks | retry.go:49-56 | for the same rounds, the name and which callbacks are set change neither the result, the final clock, nor the attempts and sleeps performed (a round's duration already covers its callback's running time) |
| RetrySpec.SleepsOfBounded | retry.go:64-66 | a sleep the loop calls for is positive and no longer than `minimumRetryTime`; with a `minimumRetryTime` of zero or less there is none |
| RetryProperties.LoopSleeps | retry.go:47-67 | the sleeps in the trace are exactly one per failed round the loop goes past whose attempt ended early, lasting `minimumRetryTime` minus that attempt's duration, in order |
| RetryProperties.LoopStartTimes | retry.go:47-67 | attempt `i + 1` starts once attempt `i` has run and `minimumRetryTime` has passed since its start, plus the round's lag; the first starts when the loop is entered |
| RetryProperties.LoopTrace | retry.go:42-69 | the trace is, round by round, the attempt, then its `onError`/`onSuccess` call when set, then (only when the loop goes on from it) the sleep the round calls for; nothing else, in that order |
| RetryTheorems.RetryEndsAt | retry.go:40-70 | `Retry`'s result and attempt count are those of the round the loop stops in |
| RetryTheorems.StopPreemptsAttempts | retry.go:42-45 | a stop signal pending before attempt `k + 1` returns the stop error after exactly `k` attempts, with only their failures reported and no success reported |
| RetryTheorems.ExhaustsAfterExactlyN | retry.go:41-63 | with `retryCount = N > 0` and always-failing attempts, there are exactly `N` attempts and `N` error reports; the `N`-th error is returned verbatim; the last event is that report, with no sleep after it |
| RetryTheorems.SuccessIsTerminal | retry.go:53-57 | the first success returns nil after `k + 1` attempts; `onSuccess(retryName)` is called exactly once, with `k` earlier error reports; nothing follows it |
| RetryTheorems.UnlimitedRetryNeverExhausts | retry.go:61-62 | with `retryCount <= 0`, `Retry` ends only by success or by the stop signal; it goes past every round exactly when every round is an unstopped failure |
| RetryTheorems.AttemptsBoundedByCount | retry.go:60-63 | a positive `retryCount` bounds the number of attempts |
| RetryTheorems.ErrorReportedPerFailure | retry.go:49-52 | every failed attempt gives exactly one `onError(retryName, err)` with its own error, in order; the count is attempts minus the one success, if any |
| RetryTheorems.RetryPaced | retry.go:47-67 | attempt starts are spaced by at least `minimumRetryTime`, and the first is at the call's start; `n` attempts take at least `(n - 1) * minimumRetryTime` |
| RetryTheorems.ExhaustionTakesAtLeast | retry_test.go:78-92 | `N` always-failing attempts keep the call busy for at least `(N - 1) * minimumRetryTime` |
| RetryTheorems.NilCallbacksSkipped | retry.go:50-55 | for the same rounds, a call with both callbacks nil returns the same value at the same clock, and its trace is the original trace with the callback calls removed |
| RetryTheorems.RetrySleeps | retry.go:60-67 | the durations of the sleeps, in order, are one per failed attempt the call goes on from that ended before `minimumRetryTime` had passed, lasting the rest of that time; none exceeds `minimumRetryTime` |
| RetryTheorems.RetryEvents | retry.go:40-70 | the whole trace of a call: each attempt at its start time, its report right after it, then its sleep unless it ended the call; no event before the first attempt or after the last report |
| RetryTheorems.UnpacedNeverSleeps | retry.go:64-66 | with a `minimumRetryTime` of zero or less the trace holds no sleep |
| RetryTheorems.RenameOnlyRelabels | retry.go:34-36 | after `SetRetryName(name)`, `Retry` returns the same value at the same clock (for the same rounds) and performs the same attempts and sleeps; the callbacks receive `name` |

## Left out

- Real time. `time.Now` and `time.Sleep` are replaced by an integer clock that the oracle
  advances. A round's `duration` is the time from the attempt's start to the `time.Now()`
  that ends it. Its `lag` is any extra time before the next start (a late wake-up).
- Go channel semantics. The `select` on `stopFlag` is a per-round boolean. A nil channel
  never delivers. A closed channel is a channel whose rounds are all pending.
- The goroutine that sends the stop signal, and what it races with, are left out.
- The text of `fmt.Errorf("stop signal received")`. It is the single value `ReturnedStop`.
- The retried function and the callbacks are only events in the trace. What they compute,
  and what happens if they panic, is not modelled.
- The endless loop. With `retryCount <= 0`, no success and no stop signal, the Go loop
  never returns. Here it ends as `Unfinished` when the oracle runs out.
- RetryLoop.Loop: does not model the int64 wrap-around of `funcCount`, `time.Duration`
  or `time.Time` arithmetic. All integers are unbounded.
- Changing the configuration while `Retry` runs. The record is immutable during a call.
- Error kinds beyond the code's own. Besides the stop error, the code has one error path:
  the last function error, returned unchanged (`ReturnedErr`).
- The testify suite harness in retry_test.go.
