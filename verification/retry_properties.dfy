/**
 Properties of the retry loop. The `Loop...` lemmas hold for the loop entered at any
 counter value and clock; the `Retry`-level lemmas specialise them to a fresh call.
 */
module RetryProperties {
  import opened RetryConfig
  import opened RetryTrace
  import opened RetryLoop
  import opened RetrySpec

  /** Consecutive attempt starts never go backwards and are at least `gap` apart. */
  ghost predicate Paced(s: seq<int>, gap: int) {
    forall i :: 0 <= i < |s| - 1 ==> s[i] <= s[i + 1] && s[i] + gap <= s[i + 1]
  }

  /** What each projection sees of the success report. */
  lemma SuccessReportSeen<E>(a: AfmRetry, cb: Callbacks)
    ensures Starts(SuccessReport<E>(a, cb)) == [] && ErrorReports(SuccessReport<E>(a, cb)) == []
    ensures SuccessReports(SuccessReport<E>(a, cb)) == (if cb.onSuccess then [a.retryName] else [])
    ensures Strip(SuccessReport<E>(a, cb)) == []
  {
    if cb.onSuccess {
      var e: Event<E> := OnSuccess(a.retryName);
      CollectOne(e, StartOf);
      CollectOne(e, ErrorOf);
      CollectOne(e, SuccessOf);
      CollectOne(e, UncalledOf);
    }
  }

  /** What each projection sees of the error report. */
  lemma ErrorReportSeen<E>(a: AfmRetry, cb: Callbacks, err: E)
    ensures Starts(ErrorReport(a, cb, err)) == [] && SuccessReports(ErrorReport(a, cb, err)) == []
    ensures ErrorReports(ErrorReport(a, cb, err)) == (if cb.onError then [(a.retryName, err)] else [])
    ensures Strip(ErrorReport(a, cb, err)) == []
  {
    if cb.onError {
      var e := OnError(a.retryName, err);
      CollectOne(e, StartOf);
      CollectOne(e, ErrorOf);
      CollectOne(e, SuccessOf);
      CollectOne(e, UncalledOf);
    }
  }

  /** What each projection sees of the pause. */
  lemma PauseSeen<E>(endTime: int, minimumTime: int)
    ensures Starts(Pause<E>(endTime, minimumTime)) == []
    ensures ErrorReports(Pause<E>(endTime, minimumTime)) == []
    ensures SuccessReports(Pause<E>(endTime, minimumTime)) == []
    ensures Strip(Pause<E>(endTime, minimumTime)) == Pause(endTime, minimumTime)
  {
    if endTime < minimumTime {
      var e: Event<E> := Sleep(minimumTime - endTime);
      CollectOne(e, StartOf);
      CollectOne(e, ErrorOf);
      CollectOne(e, SuccessOf);
      CollectOne(e, UncalledOf);
    }
  }

  /** A projection of one attempt's events followed by the rest of the trace. */
  lemma CollectAttempt<E, T>(now: int, reports: seq<Event<E>>, pause: seq<Event<E>>, rest: seq<Event<E>>, f: Event<E> -> seq<T>)
    ensures Collect([Attempt(now)] + reports + pause + rest, f)
         == f(Attempt(now)) + Collect(reports, f) + Collect(pause, f) + Collect(rest, f)
  {
    CollectOne(Attempt(now), f);
    CollectAppend([Attempt(now)], reports, f);
    CollectAppend([Attempt(now)] + reports, pause, f);
    CollectAppend([Attempt(now)] + reports + pause, rest, f);
  }

  /** The attempts of a failed iteration followed by more events. */
  lemma FailedIterationStarts<E>(a: AfmRetry, cb: Callbacks, err: E, now: int, endTime: int, minimumTime: int, rest: seq<Event<E>>)
    ensures Starts([Attempt(now)] + ErrorReport(a, cb, err) + Pause(endTime, minimumTime) + rest) == [now] + Starts(rest)
  {
    ErrorReportSeen(a, cb, err);
    PauseSeen<E>(endTime, minimumTime);
    CollectOne<E, int>(Attempt(now), StartOf);
    CollectAttempt(now, ErrorReport(a, cb, err), Pause<E>(endTime, minimumTime), rest, StartOf);
  }

  /** The `onError` calls of a failed iteration followed by more events. */
  lemma FailedIterationErrors<E>(a: AfmRetry, cb: Callbacks, err: E, now: int, endTime: int, minimumTime: int, rest: seq<Event<E>>)
    ensures ErrorReports([Attempt(now)] + ErrorReport(a, cb, err) + Pause(endTime, minimumTime) + rest)
         == (if cb.onError then [(a.retryName, err)] else []) + ErrorReports(rest)
  {
    ErrorReportSeen(a, cb, err);
    PauseSeen<E>(endTime, minimumTime);
    CollectOne<E, (string, E)>(Attempt(now), ErrorOf);
    CollectAttempt(now, ErrorReport(a, cb, err), Pause<E>(endTime, minimumTime), rest, ErrorOf);
  }

  /** The `onSuccess` calls of a failed iteration followed by more events. */
  lemma FailedIterationSuccesses<E>(a: AfmRetry, cb: Callbacks, err: E, now: int, endTime: int, minimumTime: int, rest: seq<Event<E>>)
    ensures SuccessReports([Attempt(now)] + ErrorReport(a, cb, err) + Pause(endTime, minimumTime) + rest) == SuccessReports(rest)
  {
    ErrorReportSeen(a, cb, err);
    PauseSeen<E>(endTime, minimumTime);
    CollectOne<E, string>(Attempt(now), SuccessOf);
    CollectAttempt(now, ErrorReport(a, cb, err), Pause<E>(endTime, minimumTime), rest, SuccessOf);
  }

  /** The attempts and sleeps of a failed iteration followed by more events. */
  lemma FailedIterationStripped<E>(a: AfmRetry, cb: Callbacks, err: E, now: int, endTime: int, minimumTime: int, rest: seq<Event<E>>)
    ensures Strip([Attempt(now)] + ErrorReport(a, cb, err) + Pause(endTime, minimumTime) + rest)
         == [Attempt(now)] + Pause(endTime, minimumTime) + Strip(rest)
  {
    ErrorReportSeen(a, cb, err);
    PauseSeen<E>(endTime, minimumTime);
    CollectOne<E, Event<E>>(Attempt(now), UncalledOf);
    CollectAttempt(now, ErrorReport(a, cb, err), Pause<E>(endTime, minimumTime), rest, UncalledOf);
  }

  /** Unfolds one iteration that goes on. */
  lemma LoopUnfold<E>(a: AfmRetry, cb: Callbacks, rounds: seq<Round<E>>, funcCount: int, now: int)
    requires |rounds| > 0 && Continues(a, rounds[0], funcCount)
    ensures
      var rest := Loop(a, cb, rounds[1..], funcCount + 1, Wake(now + rounds[0].duration, now + a.minimumRetryTime) + rounds[0].lag);
      Loop(a, cb, rounds, funcCount, now)
        == Run(rest.outcome, [Attempt(now)] + ErrorReport(a, cb, rounds[0].result.err)
                             + Pause(now + rounds[0].duration, now + a.minimumRetryTime) + rest.trace, rest.clock)
  {
  }

  /** One iteration that goes on: the attempt, its error report and pause, then the
      rest of the loop from the next round. */
  lemma LoopGoesOn<E>(a: AfmRetry, cb: Callbacks, rounds: seq<Round<E>>, funcCount: int, now: int, next: int)
    requires |rounds| > 0 && Continues(a, rounds[0], funcCount)
    requires next == Wake(now + rounds[0].duration, now + a.minimumRetryTime) + rounds[0].lag
    ensures
      var pause := Pause<E>(now + rounds[0].duration, now + a.minimumRetryTime);
      var rest := Loop(a, cb, rounds[1..], funcCount + 1, next);
      var r := Loop(a, cb, rounds, funcCount, now);
      && r.outcome == rest.outcome
      && r.clock == rest.clock
      && Starts(r.trace) == [now] + Starts(rest.trace)
      && ErrorReports(r.trace) == (if cb.onError then [(a.retryName, rounds[0].result.err)] else []) + ErrorReports(rest.trace)
      && SuccessReports(r.trace) == SuccessReports(rest.trace)
      && Strip(r.trace) == [Attempt(now)] + pause + Strip(rest.trace)
  {
    var err := rounds[0].result.err;
    var pause := Pause<E>(now + rounds[0].duration, now + a.minimumRetryTime);
    var rest := Loop(a, cb, rounds[1..], funcCount + 1, next);
    LoopUnfold(a, cb, rounds, funcCount, now);
    FailedIterationStarts(a, cb, err, now, now + rounds[0].duration, now + a.minimumRetryTime, rest.trace);
    FailedIterationErrors(a, cb, err, now, now + rounds[0].duration, now + a.minimumRetryTime, rest.trace);
    FailedIterationSuccesses(a, cb, err, now, now + rounds[0].duration, now + a.minimumRetryTime, rest.trace);
    FailedIterationStripped(a, cb, err, now, now + rounds[0].duration, now + a.minimumRetryTime, rest.trace);
  }

  /** The rounds after the first one, seen from the next iteration. */
  lemma EndsAtShift<E>(a: AfmRetry, rounds: seq<Round<E>>, before: nat, k: nat)
    requires 0 < k && EndsAt(a, rounds, before, k)
    ensures EndsAt(a, rounds[1..], before + 1, k - 1)
    ensures Verdict(a, rounds[1..], k - 1) == Verdict(a, rounds, k)
    ensures Attempted(a, rounds[1..], k - 1) + 1 == Attempted(a, rounds, k)
  {
    forall i | 0 <= i < k - 1
      ensures Continues(a, rounds[1..][i], before + 1 + i + 1)
    {
      assert rounds[1..][i] == rounds[i + 1];
    }
    if k < |rounds| {
      assert rounds[1..][k - 1] == rounds[k];
    }
  }

  /** What the projections see of one attempt followed by its report. */
  lemma AttemptSeen<E>(now: int, report: seq<Event<E>>)
    requires report == [] || (|report| == 1 && (report[0].OnError? || report[0].OnSuccess?))
    ensures Starts([Attempt(now)] + report) == [now]
    ensures ErrorReports([Attempt(now)] + report) == ErrorReports(report)
    ensures SuccessReports([Attempt(now)] + report) == SuccessReports(report)
    ensures Strip([Attempt(now)] + report) == [Attempt(now)]
  {
    CollectOne<E, int>(Attempt(now), StartOf);
    CollectOne<E, (string, E)>(Attempt(now), ErrorOf);
    CollectOne<E, string>(Attempt(now), SuccessOf);
    CollectOne<E, Event<E>>(Attempt(now), UncalledOf);
    if report != [] {
      assert report == [report[0]];
      CollectOne(report[0], StartOf);
      CollectOne(report[0], UncalledOf);
    }
    CollectAppend<E, int>([Attempt(now)], report, StartOf);
    CollectAppend<E, (string, E)>([Attempt(now)], report, ErrorOf);
    CollectAppend<E, string>([Attempt(now)], report, SuccessOf);
    CollectAppend<E, Event<E>>([Attempt(now)], report, UncalledOf);
  }

  /** An iteration that ends the loop with a successful attempt. */
  lemma LoopSucceedsNow<E>(a: AfmRetry, cb: Callbacks, rounds: seq<Round<E>>, funcCount: int, now: int)
    requires |rounds| > 0 && !StopFires(a, rounds[0]) && rounds[0].result.NilError?
    ensures
      var r := Loop(a, cb, rounds, funcCount, now);
      && r.outcome == ReturnedNil
      && Starts(r.trace) == [now]
      && ErrorReports(r.trace) == []
      && SuccessReports(r.trace) == (if cb.onSuccess then [a.retryName] else [])
      && Strip(r.trace) == [Attempt(now)]
      && r.clock == now + rounds[0].duration
  {
    assert Loop(a, cb, rounds, funcCount, now).trace == [Attempt(now)] + SuccessReport<E>(a, cb);
    SuccessReportSeen<E>(a, cb);
    AttemptSeen(now, SuccessReport<E>(a, cb));
  }

  /** An iteration that ends the loop with a failed attempt: the limit is reached. */
  lemma LoopExhaustsNow<E>(a: AfmRetry, cb: Callbacks, rounds: seq<Round<E>>, funcCount: int, now: int)
    requires |rounds| > 0 && !StopFires(a, rounds[0]) && rounds[0].result.Failed?
    requires LimitReached(a, funcCount)
    ensures
      var r := Loop(a, cb, rounds, funcCount, now);
      && r.outcome == ReturnedErr(rounds[0].result.err)
      && Starts(r.trace) == [now]
      && ErrorReports(r.trace) == (if cb.onError then [(a.retryName, rounds[0].result.err)] else [])
      && SuccessReports(r.trace) == []
      && Strip(r.trace) == [Attempt(now)]
      && r.clock == now + rounds[0].duration
  {
    var err := rounds[0].result.err;
    assert Loop(a, cb, rounds, funcCount, now).trace == [Attempt(now)] + ErrorReport(a, cb, err);
    ErrorReportSeen(a, cb, err);
    AttemptSeen(now, ErrorReport(a, cb, err));
  }

  /** An iteration that ends the loop: at most one attempt, and its report. */
  lemma LoopEndsNow<E>(a: AfmRetry, cb: Callbacks, rounds: seq<Round<E>>, funcCount: int, now: int)
    requires |rounds| == 0 || !Continues(a, rounds[0], funcCount)
    ensures
      var r := Loop(a, cb, rounds, funcCount, now);
      var attempted := Attempted(a, rounds, 0) == 1;
      && r.outcome == Verdict(a, rounds, 0)
      && Starts(r.trace) == (if attempted then [now] else [])
      && ErrorReports(r.trace)
         == (if attempted && cb.onError && rounds[0].result.Failed? then [(a.retryName, rounds[0].result.err)] else [])
      && SuccessReports(r.trace) == (if cb.onSuccess && r.outcome.ReturnedNil? then [a.retryName] else [])
      && Strip(r.trace) == (if attempted then [Attempt(now)] else [])
      && r.clock == (if attempted then now + rounds[0].duration else now)
  {
    if |rounds| == 0 || StopFires(a, rounds[0]) {
      assert Loop(a, cb, rounds, funcCount, now).trace == [];
    } else if rounds[0].result.NilError? {
      LoopSucceedsNow(a, cb, rounds, funcCount, now);
    } else {
      LoopExhaustsNow(a, cb, rounds, funcCount, now);
    }
  }

  /** The loop follows the declarative account: it returns what the round it stops in
      decides, after exactly the attempts made up to that round. */
  lemma {:induction false} LoopEndsAt<E>(a: AfmRetry, cb: Callbacks, rounds: seq<Round<E>>, funcCount: int, now: int, k: nat)
    requires 1 <= funcCount
    requires EndsAt(a, rounds, funcCount - 1, k)
    ensures Loop(a, cb, rounds, funcCount, now).outcome == Verdict(a, rounds, k)
    ensures |Starts(Loop(a, cb, rounds, funcCount, now).trace)| == Attempted(a, rounds, k)
    decreases |rounds|
  {
    if |rounds| == 0 || !Continues(a, rounds[0], funcCount) {
      LoopEndsNow(a, cb, rounds, funcCount, now);
    } else {
      var next := Wake(now + rounds[0].duration, now + a.minimumRetryTime) + rounds[0].lag;
      LoopGoesOn(a, cb, rounds, funcCount, now, next);
      EndsAtShift(a, rounds, funcCount - 1, k);
      LoopEndsAt(a, cb, rounds[1..], funcCount + 1, next, k - 1);
    }
  }

  /** The first `n + 1` rounds are the first round followed by the next `n`. */
  lemma FailuresOfCons<E>(name: string, rounds: seq<Round<E>>, n: nat)
    requires n < |rounds|
    ensures FailuresOf(name, rounds[..n + 1])
         == (if rounds[0].result.Failed? then [(name, rounds[0].result.err)] else []) + FailuresOf(name, rounds[1..][..n])
  {
    assert rounds[..n + 1][1..] == rounds[1..][..n];
  }

  /** `onSuccess` is called once, with the name, when the loop returns nil, and never
      otherwise; a nil `onSuccess` is never called. */
  lemma {:induction false} LoopSuccessReports<E>(a: AfmRetry, cb: Callbacks, rounds: seq<Round<E>>, funcCount: int, now: int)
    ensures
      var r := Loop(a, cb, rounds, funcCount, now);
      SuccessReports(r.trace) == (if cb.onSuccess && r.outcome.ReturnedNil? then [a.retryName] else [])
    decreases |rounds|
  {
    if |rounds| == 0 || !Continues(a, rounds[0], funcCount) {
      LoopEndsNow(a, cb, rounds, funcCount, now);
    } else {
      var next := Wake(now + rounds[0].duration, now + a.minimumRetryTime) + rounds[0].lag;
      LoopGoesOn(a, cb, rounds, funcCount, now, next);
      LoopSuccessReports(a, cb, rounds[1..], funcCount + 1, next);
    }
  }

  /** Each failed attempt is reported to `onError` once, in order, with the name and that
      attempt's own error; a nil `onError` is never called. Every attempt but a
      successful last one failed. */
  lemma {:induction false} LoopErrorReports<E>(a: AfmRetry, cb: Callbacks, rounds: seq<Round<E>>, funcCount: int, now: int)
    ensures
      var r := Loop(a, cb, rounds, funcCount, now);
      var n := |Starts(r.trace)|;
      && n <= |rounds|
      && ErrorReports(r.trace) == (if cb.onError then FailuresOf(a.retryName, rounds[..n]) else [])
      && |FailuresOf(a.retryName, rounds[..n])| + (if r.outcome.ReturnedNil? then 1 else 0) == n
    decreases |rounds|
  {
    if |rounds| == 0 || !Continues(a, rounds[0], funcCount) {
      LoopErrorReportsEnd(a, cb, rounds, funcCount, now);
    } else {
      var next := Wake(now + rounds[0].duration, now + a.minimumRetryTime) + rounds[0].lag;
      var rest := Loop(a, cb, rounds[1..], funcCount + 1, next);
      var r := Loop(a, cb, rounds, funcCount, now);
      LoopGoesOn(a, cb, rounds, funcCount, now, next);
      LoopErrorReports(a, cb, rounds[1..], funcCount + 1, next);
      var n' := |Starts(rest.trace)|;
      FailuresOfCons(a.retryName, rounds, n');
      ReportsStep(a.retryName, cb.onError, rounds, n', ErrorReports(rest.trace), ErrorReports(r.trace));
    }
  }

  /** `LoopErrorReports` for an iteration that ends the loop. */
  lemma LoopErrorReportsEnd<E>(a: AfmRetry, cb: Callbacks, rounds: seq<Round<E>>, funcCount: int, now: int)
    requires |rounds| == 0 || !Continues(a, rounds[0], funcCount)
    ensures
      var r := Loop(a, cb, rounds, funcCount, now);
      var n := |Starts(r.trace)|;
      && n <= |rounds|
      && ErrorReports(r.trace) == (if cb.onError then FailuresOf(a.retryName, rounds[..n]) else [])
      && |FailuresOf(a.retryName, rounds[..n])| + (if r.outcome.ReturnedNil? then 1 else 0) == n
  {
    LoopEndsNow(a, cb, rounds, funcCount, now);
    if Attempted(a, rounds, 0) == 1 {
      FailuresOfCons(a.retryName, rounds, 0);
    }
  }

  /** The report bookkeeping of one failed round in front of the rest of the loop. */
  lemma ReportsStep<E>(name: string, onError: bool, rounds: seq<Round<E>>, n': nat,
                       restReports: seq<(string, E)>, reports: seq<(string, E)>)
    requires n' < |rounds| && rounds[0].result.Failed?
    requires restReports == (if onError then FailuresOf(name, rounds[1..][..n']) else [])
    requires reports == (if onError then [(name, rounds[0].result.err)] else []) + restReports
    requires FailuresOf(name, rounds[..n' + 1]) == [(name, rounds[0].result.err)] + FailuresOf(name, rounds[1..][..n'])
    ensures reports == (if onError then FailuresOf(name, rounds[..n' + 1]) else [])
    ensures |FailuresOf(name, rounds[..n' + 1])| == |FailuresOf(name, rounds[1..][..n'])| + 1
  {
  }

  /** Putting one start in front of a paced sequence that starts late enough keeps it paced. */
  lemma PacedCons(now: int, next: int, gap: int, s': seq<int>)
    requires Paced(s', gap)
    requires |s'| > 0 ==> s'[0] == next
    requires now <= next && now + gap <= next
    ensures Paced([now] + s', gap)
  {
    var s := [now] + s';
    forall i | 0 <= i < |s| - 1
      ensures s[i] <= s[i + 1] && s[i] + gap <= s[i + 1]
    {
      if i > 0 {
        assert s[i] == s'[i - 1] && s[i + 1] == s'[i];
      }
    }
  }

  /** Every attempt starts no earlier than the previous start plus `minimumRetryTime`
      (and never before it); the first starts when the loop is entered, and the loop
      ends no earlier than the last start. */
  lemma {:induction false} LoopPaced<E>(a: AfmRetry, cb: Callbacks, rounds: seq<Round<E>>, funcCount: int, now: int)
    ensures
      var r := Loop(a, cb, rounds, funcCount, now);
      var s := Starts(r.trace);
      && Paced(s, a.minimumRetryTime)
      && (|s| > 0 ==> s[0] == now && s[|s| - 1] <= r.clock)
    decreases |rounds|
  {
    if |rounds| == 0 || !Continues(a, rounds[0], funcCount) {
      LoopEndsNow(a, cb, rounds, funcCount, now);
    } else {
      var next := Wake(now + rounds[0].duration, now + a.minimumRetryTime) + rounds[0].lag;
      var rest := Loop(a, cb, rounds[1..], funcCount + 1, next);
      LoopGoesOn(a, cb, rounds, funcCount, now, next);
      LoopPaced(a, cb, rounds[1..], funcCount + 1, next);
      var s' := Starts(rest.trace);
      PacedCons(now, next, a.minimumRetryTime, s');
      var s := [now] + s';
      if |s'| > 0 {
        assert s[|s| - 1] == s'[|s'| - 1];
      }
    }
  }

  /** A run that returns nil or an error ends with the report of its last attempt, or
      with that attempt itself when the callback is nil. */
  ghost predicate ClosesWithReport<E>(a: AfmRetry, cb: Callbacks, r: Run<E>) {
    match r.outcome
    case ReturnedNil =>
      |r.trace| > 0 &&
      if cb.onSuccess then r.trace[|r.trace| - 1] == OnSuccess(a.retryName)
      else r.trace[|r.trace| - 1].Attempt?
    case ReturnedErr(err) =>
      |r.trace| > 0 &&
      if cb.onError then r.trace[|r.trace| - 1] == OnError(a.retryName, err)
      else r.trace[|r.trace| - 1].Attempt?
    case _ => true
  }

  lemma ClosesWithReportPrepend<E>(a: AfmRetry, cb: Callbacks, head: seq<Event<E>>, rest: Run<E>)
    requires ClosesWithReport(a, cb, rest)
    ensures ClosesWithReport(a, cb, Run(rest.outcome, head + rest.trace, rest.clock))
  {
    if |rest.trace| > 0 {
      assert (head + rest.trace)[|head + rest.trace| - 1] == rest.trace[|rest.trace| - 1];
    }
  }

  /** No sleep follows the attempt that ends the loop: a call that returns nil or an
      error ends with that attempt's report. */
  lemma {:induction false} LoopEndsWithReport<E>(a: AfmRetry, cb: Callbacks, rounds: seq<Round<E>>, funcCount: int, now: int)
    ensures ClosesWithReport(a, cb, Loop(a, cb, rounds, funcCount, now))
    decreases |rounds|
  {
    if |rounds| == 0 || !Continues(a, rounds[0], funcCount) {
      LoopEndsWithReportNow(a, cb, rounds, funcCount, now);
    } else {
      var next := Wake(now + rounds[0].duration, now + a.minimumRetryTime) + rounds[0].lag;
      LoopUnfold(a, cb, rounds, funcCount, now);
      LoopEndsWithReport(a, cb, rounds[1..], funcCount + 1, next);
      ClosesWithReportPrepend(a, cb, [Attempt(now)] + ErrorReport(a, cb, rounds[0].result.err)
                                     + Pause(now + rounds[0].duration, now + a.minimumRetryTime),
                              Loop(a, cb, rounds[1..], funcCount + 1, next));
    }
  }

  /** `LoopEndsWithReport` for an iteration that ends the loop. */
  lemma LoopEndsWithReportNow<E>(a: AfmRetry, cb: Callbacks, rounds: seq<Round<E>>, funcCount: int, now: int)
    requires |rounds| == 0 || !Continues(a, rounds[0], funcCount)
    ensures ClosesWithReport(a, cb, Loop(a, cb, rounds, funcCount, now))
  {
  }

  /** The name and the callbacks only decide which callback events appear: the outcome,
      the clock and the attempts and sleeps are the same without them. */
  lemma {:induction false} LoopIgnoresNameAndCallbacks<E>(
    a: AfmRetry, a': AfmRetry, cb: Callbacks, cb': Callbacks, rounds: seq<Round<E>>, funcCount: int, now: int)
    requires a'.retryCount == a.retryCount
    requires a'.minimumRetryTime == a.minimumRetryTime
    requires a'.stopFlag == a.stopFlag
    ensures
      var r := Loop(a, cb, rounds, funcCount, now);
      var r' := Loop(a', cb', rounds, funcCount, now);
      r'.outcome == r.outcome && r'.clock == r.clock && Strip(r'.trace) == Strip(r.trace)
    decreases |rounds|
  {
    assert |rounds| > 0 ==> (StopFires(a, rounds[0]) <==> StopFires(a', rounds[0]));
    if |rounds| == 0 || !Continues(a, rounds[0], funcCount) {
      LoopEndsNow(a, cb, rounds, funcCount, now);
      LoopEndsNow(a', cb', rounds, funcCount, now);
    } else {
      var next := Wake(now + rounds[0].duration, now + a.minimumRetryTime) + rounds[0].lag;
      LoopGoesOn(a, cb, rounds, funcCount, now, next);
      LoopGoesOn(a', cb', rounds, funcCount, now, next);
      LoopIgnoresNameAndCallbacks(a, a', cb, cb', rounds[1..], funcCount + 1, next);
    }
  }

  /** The callback reports hold no sleep; the pause is one exactly when it is needed. */
  lemma SleepsSeen<E>(a: AfmRetry, cb: Callbacks, err: E, endTime: int, minimumTime: int)
    ensures Sleeps(SuccessReport<E>(a, cb)) == [] && Sleeps(ErrorReport(a, cb, err)) == []
    ensures Sleeps(Pause<E>(endTime, minimumTime)) == (if endTime < minimumTime then [minimumTime - endTime] else [])
  {
    CollectOne<E, int>(OnSuccess(a.retryName), SleepOf);
    CollectOne<E, int>(OnError(a.retryName, err), SleepOf);
    CollectOne<E, int>(Sleep(minimumTime - endTime), SleepOf);
  }

  /** The sleeps of a failed iteration followed by more events. */
  lemma FailedIterationSleeps<E>(a: AfmRetry, cb: Callbacks, err: E, now: int, endTime: int, minimumTime: int, rest: seq<Event<E>>)
    ensures Sleeps([Attempt(now)] + ErrorReport(a, cb, err) + Pause(endTime, minimumTime) + rest)
         == (if endTime < minimumTime then [minimumTime - endTime] else []) + Sleeps(rest)
  {
    SleepsSeen(a, cb, err, endTime, minimumTime);
    CollectOne<E, int>(Attempt(now), SleepOf);
    CollectAttempt(now, ErrorReport(a, cb, err), Pause<E>(endTime, minimumTime), rest, SleepOf);
  }

  /** An iteration that ends the loop sleeps no more. */
  lemma LoopSleepsEnd<E>(a: AfmRetry, cb: Callbacks, rounds: seq<Round<E>>, funcCount: int, now: int)
    requires |rounds| == 0 || !Continues(a, rounds[0], funcCount)
    ensures Sleeps(Loop(a, cb, rounds, funcCount, now).trace) == []
  {
    if |rounds| > 0 && !StopFires(a, rounds[0]) {
      CollectOne<E, int>(Attempt(now), SleepOf);
      match rounds[0].result
      case NilError =>
        assert Loop(a, cb, rounds, funcCount, now).trace == [Attempt(now)] + SuccessReport<E>(a, cb);
        CollectOne<E, int>(OnSuccess(a.retryName), SleepOf);
        CollectAppend<E, int>([Attempt(now)], SuccessReport<E>(a, cb), SleepOf);
      case Failed(err) =>
        assert Loop(a, cb, rounds, funcCount, now).trace == [Attempt(now)] + ErrorReport(a, cb, err);
        CollectOne<E, int>(OnError(a.retryName, err), SleepOf);
        CollectAppend<E, int>([Attempt(now)], ErrorReport(a, cb, err), SleepOf);
    }
  }

  /** The sleep of one iteration that goes on, in front of the rest of the loop. */
  lemma LoopSleepsGoOn<E>(a: AfmRetry, cb: Callbacks, rounds: seq<Round<E>>, funcCount: int, now: int, next: int)
    requires |rounds| > 0 && Continues(a, rounds[0], funcCount)
    requires next == Wake(now + rounds[0].duration, now + a.minimumRetryTime) + rounds[0].lag
    ensures Sleeps(Loop(a, cb, rounds, funcCount, now).trace)
         == PauseFor(a, rounds[0]) + Sleeps(Loop(a, cb, rounds[1..], funcCount + 1, next).trace)
  {
    LoopUnfold(a, cb, rounds, funcCount, now);
    FailedIterationSleeps(a, cb, rounds[0].result.err, now, now + rounds[0].duration, now + a.minimumRetryTime,
                          Loop(a, cb, rounds[1..], funcCount + 1, next).trace);
  }

  /** The first `k` rounds are the first round followed by the next `k - 1`. */
  lemma SleepsOfCons<E>(a: AfmRetry, rounds: seq<Round<E>>, k: nat)
    requires 0 < k <= |rounds|
    ensures SleepsOf(a, rounds[..k]) == PauseFor(a, rounds[0]) + SleepsOf(a, rounds[1..][..k - 1])
  {
    assert rounds[..k][1..] == rounds[1..][..k - 1];
  }

  /** The loop sleeps after every failed attempt it goes past, and only then, for what
      is left of `minimumRetryTime` since that attempt's start. */
  lemma {:induction false} LoopSleeps<E>(a: AfmRetry, cb: Callbacks, rounds: seq<Round<E>>, funcCount: int, now: int, k: nat)
    requires 1 <= funcCount
    requires EndsAt(a, rounds, funcCount - 1, k)
    ensures Sleeps(Loop(a, cb, rounds, funcCount, now).trace) == SleepsOf(a, rounds[..k])
    decreases |rounds|
  {
    if |rounds| == 0 || !Continues(a, rounds[0], funcCount) {
      LoopSleepsEnd(a, cb, rounds, funcCount, now);
      assert k == 0;
    } else {
      var next := Wake(now + rounds[0].duration, now + a.minimumRetryTime) + rounds[0].lag;
      LoopSleepsGoOn(a, cb, rounds, funcCount, now, next);
      EndsAtShift(a, rounds, funcCount - 1, k);
      LoopSleeps(a, cb, rounds[1..], funcCount + 1, next, k - 1);
      SleepsOfCons(a, rounds, k);
    }
  }

  /** The attempts start when the independent account says they do. */
  lemma {:induction false} LoopStartTimes<E>(a: AfmRetry, cb: Callbacks, rounds: seq<Round<E>>, funcCount: int, now: int, k: nat)
    requires 1 <= funcCount
    requires EndsAt(a, rounds, funcCount - 1, k)
    ensures Starts(Loop(a, cb, rounds, funcCount, now).trace) == StartTimes(a, rounds, now, Attempted(a, rounds, k))
    decreases |rounds|
  {
    if |rounds| == 0 || !Continues(a, rounds[0], funcCount) {
      LoopEndsNow(a, cb, rounds, funcCount, now);
      assert k == 0;
      if Attempted(a, rounds, 0) == 1 {
        assert StartTimes(a, rounds, now, 1) == [now] + StartTimes(a, rounds[1..], NextStart(a, rounds[0], now), 0);
      }
    } else {
      var next := Wake(now + rounds[0].duration, now + a.minimumRetryTime) + rounds[0].lag;
      assert next == NextStart(a, rounds[0], now);
      LoopGoesOn(a, cb, rounds, funcCount, now, next);
      EndsAtShift(a, rounds, funcCount - 1, k);
      LoopStartTimes(a, cb, rounds[1..], funcCount + 1, next, k - 1);
    }
  }

  /** One attempted round that the loop goes past, in front of the events of the rounds after it. */
  lemma EventsStep<E>(a: AfmRetry, cb: Callbacks, rounds: seq<Round<E>>, now: int, s': seq<int>, closes: bool, restTrace: seq<Event<E>>)
    requires 0 < |rounds| && rounds[0].result.Failed? && |s'| < |rounds|
    requires restTrace == EventsOf(a, cb, rounds[1..], s', closes)
    requires !(closes && |s'| == 0)
    ensures [Attempt(now)] + ErrorReport(a, cb, rounds[0].result.err)
              + Pause(now + rounds[0].duration, now + a.minimumRetryTime) + restTrace
         == EventsOf(a, cb, rounds, [now] + s', closes)
  {
    assert ([now] + s')[1..] == s';
  }

  /** The trace of an iteration that ends the loop, as the independent account lists it. */
  lemma LoopTraceEnd<E>(a: AfmRetry, cb: Callbacks, rounds: seq<Round<E>>, funcCount: int, now: int)
    requires |rounds| == 0 || !Continues(a, rounds[0], funcCount)
    ensures
      var t := Loop(a, cb, rounds, funcCount, now).trace;
      && |Starts(t)| <= |rounds|
      && t == EventsOf(a, cb, rounds, Starts(t), Attempted(a, rounds, 0) == 1)
  {
    LoopEndsNow(a, cb, rounds, funcCount, now);
    var t := Loop(a, cb, rounds, funcCount, now).trace;
    if Attempted(a, rounds, 0) == 1 {
      assert t == [Attempt(now)] + ReportFor(a, cb, rounds[0]);
      assert EventsOf(a, cb, rounds, [now], true) == RoundEvents(a, cb, rounds[0], now, true) + EventsOf(a, cb, rounds[1..], [], true);
    }
  }

  /** The run's trace is the independent account's, for the attempts it made;
      `closes` says whether its last attempt ended it. */
  ghost predicate FollowsEvents<E>(a: AfmRetry, cb: Callbacks, rounds: seq<Round<E>>, r: Run<E>, closes: bool) {
    && |Starts(r.trace)| <= |rounds|
    && r.trace == EventsOf(a, cb, rounds, Starts(r.trace), closes)
  }

  /** `LoopTrace` for an iteration that goes on, given the trace of the rest of the loop. */
  lemma LoopTraceGoesOn<E>(a: AfmRetry, cb: Callbacks, rounds: seq<Round<E>>, funcCount: int, now: int, next: int, closes: bool)
    requires |rounds| > 0 && Continues(a, rounds[0], funcCount)
    requires next == Wake(now + rounds[0].duration, now + a.minimumRetryTime) + rounds[0].lag
    requires FollowsEvents(a, cb, rounds[1..], Loop(a, cb, rounds[1..], funcCount + 1, next), closes)
    requires !(closes && |Starts(Loop(a, cb, rounds[1..], funcCount + 1, next).trace)| == 0)
    ensures FollowsEvents(a, cb, rounds, Loop(a, cb, rounds, funcCount, now), closes)
  {
    var rest := Loop(a, cb, rounds[1..], funcCount + 1, next);
    var err := rounds[0].result.err;
    var t := [Attempt(now)] + ErrorReport(a, cb, err) + Pause(now + rounds[0].duration, now + a.minimumRetryTime) + rest.trace;
    assert Loop(a, cb, rounds, funcCount, now).trace == t by {
      LoopUnfold(a, cb, rounds, funcCount, now);
    }
    FailedIterationStarts(a, cb, err, now, now + rounds[0].duration, now + a.minimumRetryTime, rest.trace);
    EventsStep(a, cb, rounds, now, Starts(rest.trace), closes, rest.trace);
  }

  /** The loop's trace is the independent account's: round by round, each attempt, then
      its report, then (when the loop goes on) its sleep, and nothing else. */
  lemma {:induction false} LoopTrace<E>(a: AfmRetry, cb: Callbacks, rounds: seq<Round<E>>, funcCount: int, now: int, k: nat)
    requires 1 <= funcCount
    requires EndsAt(a, rounds, funcCount - 1, k)
    ensures FollowsEvents(a, cb, rounds, Loop(a, cb, rounds, funcCount, now), Attempted(a, rounds, k) == k + 1)
    decreases |rounds|
  {
    if |rounds| == 0 || !Continues(a, rounds[0], funcCount) {
      LoopTraceEnd(a, cb, rounds, funcCount, now);
      assert k == 0;
    } else {
      var next := Wake(now + rounds[0].duration, now + a.minimumRetryTime) + rounds[0].lag;
      EndsAtShift(a, rounds, funcCount - 1, k);
      LoopEndsAt(a, cb, rounds[1..], funcCount + 1, next, k - 1);
      LoopTrace(a, cb, rounds[1..], funcCount + 1, next, k - 1);
      LoopTraceGoesOn(a, cb, rounds, funcCount, now, next, Attempted(a, rounds, k) == k + 1);
    }
  }
}
