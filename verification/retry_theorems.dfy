/**
 What one call of `Retry` guarantees: the loop entered fresh, with the counter at one.
 */
module RetryTheorems {
  import opened RetryConfig
  import opened RetryTrace
  import opened RetryLoop
  import opened RetrySpec
  import opened RetryProperties

  /** `Retry` returns what the round its loop stops in decides, after exactly the
      attempts made up to that round. */
  lemma RetryEndsAt<E>(a: AfmRetry, cb: Callbacks, rounds: seq<Round<E>>, t0: int, k: nat)
    requires EndsAt(a, rounds, 0, k)
    ensures Retry(a, cb, rounds, t0).outcome == Verdict(a, rounds, k)
    ensures |Starts(Retry(a, cb, rounds, t0).trace)| == Attempted(a, rounds, k)
  {
    LoopEndsAt(a, cb, rounds, 1, t0, k);
  }

  /** The stop channel is read before every attempt: a stop signal waiting before
      attempt `k + 1` ends the call with the stop error after exactly `k` attempts,
      all of them reported. */
  lemma StopPreemptsAttempts<E>(a: AfmRetry, cb: Callbacks, rounds: seq<Round<E>>, t0: int, k: nat)
    requires k < |rounds| && StopFires(a, rounds[k])
    requires a.retryCount <= 0 || k < a.retryCount
    requires forall i :: 0 <= i < k ==> !StopFires(a, rounds[i]) && rounds[i].result.Failed?
    ensures
      var r := Retry(a, cb, rounds, t0);
      && r.outcome == ReturnedStop
      && |Starts(r.trace)| == k
      && ErrorReports(r.trace) == (if cb.onError then FailuresOf(a.retryName, rounds[..k]) else [])
      && SuccessReports(r.trace) == []
  {
    assert EndsAt(a, rounds, 0, k);
    LoopEndsAt(a, cb, rounds, 1, t0, k);
    LoopErrorReports(a, cb, rounds, 1, t0);
    LoopSuccessReports(a, cb, rounds, 1, t0);
  }

  /** With a limit of `N > 0` and an action that keeps failing, the action runs exactly
      `N` times, every failure is reported, the last report is the final event (no sleep
      after it), and the `N`-th error itself is returned. */
  lemma ExhaustsAfterExactlyN<E>(a: AfmRetry, cb: Callbacks, rounds: seq<Round<E>>, t0: int)
    requires 0 < a.retryCount <= |rounds|
    requires forall i :: 0 <= i < a.retryCount ==> !StopFires(a, rounds[i]) && rounds[i].result.Failed?
    ensures
      var r := Retry(a, cb, rounds, t0);
      && r.outcome == ReturnedErr(rounds[a.retryCount - 1].result.err)
      && |Starts(r.trace)| == a.retryCount
      && ErrorReports(r.trace) == (if cb.onError then FailuresOf(a.retryName, rounds[..a.retryCount]) else [])
      && (cb.onError ==> |ErrorReports(r.trace)| == a.retryCount)
      && SuccessReports(r.trace) == []
      && |r.trace| > 0
      && (if cb.onError then r.trace[|r.trace| - 1] == OnError(a.retryName, rounds[a.retryCount - 1].result.err)
          else r.trace[|r.trace| - 1].Attempt?)
  {
    var k := a.retryCount - 1;
    assert EndsAt(a, rounds, 0, k);
    LoopEndsAt(a, cb, rounds, 1, t0, k);
    LoopErrorReports(a, cb, rounds, 1, t0);
    LoopSuccessReports(a, cb, rounds, 1, t0);
    LoopEndsWithReport(a, cb, rounds, 1, t0);
  }

  /** The first success ends the call: `Retry` returns nil after that attempt, calls
      `onSuccess` exactly once with the name, and does nothing after it. */
  lemma SuccessIsTerminal<E>(a: AfmRetry, cb: Callbacks, rounds: seq<Round<E>>, t0: int, k: nat)
    requires k < |rounds| && !StopFires(a, rounds[k]) && rounds[k].result.NilError?
    requires a.retryCount <= 0 || k < a.retryCount
    requires forall i :: 0 <= i < k ==> !StopFires(a, rounds[i]) && rounds[i].result.Failed?
    ensures
      var r := Retry(a, cb, rounds, t0);
      && r.outcome == ReturnedNil
      && |Starts(r.trace)| == k + 1
      && SuccessReports(r.trace) == (if cb.onSuccess then [a.retryName] else [])
      && (cb.onError ==> |ErrorReports(r.trace)| == k)
      && |r.trace| > 0
      && (if cb.onSuccess then r.trace[|r.trace| - 1] == OnSuccess(a.retryName) else r.trace[|r.trace| - 1].Attempt?)
  {
    assert EndsAt(a, rounds, 0, k);
    LoopEndsAt(a, cb, rounds, 1, t0, k);
    LoopErrorReports(a, cb, rounds, 1, t0);
    LoopSuccessReports(a, cb, rounds, 1, t0);
    LoopEndsWithReport(a, cb, rounds, 1, t0);
  }

  /** A limit of zero or less never ends the call: it ends only by success or by the stop
      signal, and the oracle runs out exactly when every round was a failed attempt
      with no stop signal taken. */
  lemma UnlimitedRetryNeverExhausts<E>(a: AfmRetry, cb: Callbacks, rounds: seq<Round<E>>, t0: int)
    requires a.retryCount <= 0
    ensures
      var r := Retry(a, cb, rounds, t0);
      && (r.outcome.ReturnedNil? || r.outcome.ReturnedStop? || r.outcome.Unfinished?)
      && (r.outcome.Unfinished? <==>
            forall i :: 0 <= i < |rounds| ==> !StopFires(a, rounds[i]) && rounds[i].result.Failed?)
  {
    EndsAtExactlyOnce(a, rounds, 0);
    var k: nat :| EndsAt(a, rounds, 0, k);
    LoopEndsAt(a, cb, rounds, 1, t0, k);
    if k < |rounds| {
      assert !(!StopFires(a, rounds[k]) && rounds[k].result.Failed?);
    }
  }

  /** A positive `retryCount` caps the number of attempts. */
  lemma AttemptsBoundedByCount<E>(a: AfmRetry, cb: Callbacks, rounds: seq<Round<E>>, t0: int)
    requires 0 < a.retryCount
    ensures |Starts(Retry(a, cb, rounds, t0).trace)| <= a.retryCount
  {
    EndsAtExactlyOnce(a, rounds, 0);
    var k: nat :| EndsAt(a, rounds, 0, k);
    LoopEndsAt(a, cb, rounds, 1, t0, k);
    if k > 0 {
      assert Continues(a, rounds[k - 1], k);
    }
  }

  /** Every failed attempt triggers exactly one `onError(retryName, err)` with that
      attempt's error, in attempt order, the last failure included; with a nil
      `onError` nothing is reported. */
  lemma ErrorReportedPerFailure<E>(a: AfmRetry, cb: Callbacks, rounds: seq<Round<E>>, t0: int)
    ensures
      var r := Retry(a, cb, rounds, t0);
      var n := |Starts(r.trace)|;
      && n <= |rounds|
      && ErrorReports(r.trace) == (if cb.onError then FailuresOf(a.retryName, rounds[..n]) else [])
      && (cb.onError ==> |ErrorReports(r.trace)| == n - (if r.outcome.ReturnedNil? then 1 else 0))
      && SuccessReports(r.trace) == (if cb.onSuccess && r.outcome.ReturnedNil? then [a.retryName] else [])
  {
    LoopErrorReports(a, cb, rounds, 1, t0);
    LoopSuccessReports(a, cb, rounds, 1, t0);
  }

  /** Consecutive gaps of at least `gap >= 0` add up. */
  lemma {:induction false} PacedSpan(s: seq<int>, gap: int)
    requires Paced(s, gap) && 0 <= gap && |s| > 0
    ensures s[|s| - 1] >= s[0] + (|s| - 1) * gap
    decreases |s|
  {
    if |s| > 1 {
      var p := s[..|s| - 1];
      assert Paced(p, gap) by {
        forall i | 0 <= i < |p| - 1
          ensures p[i] <= p[i + 1] && p[i] + gap <= p[i + 1]
        {
          assert p[i] == s[i] && p[i + 1] == s[i + 1];
        }
      }
      PacedSpan(p, gap);
      assert s[|s| - 2] + gap <= s[|s| - 1];
      assert (|s| - 2) * gap + gap == (|s| - 1) * gap;
    }
  }

  /** Attempts start no closer together than `minimumRetryTime`, the first at the call's
      start; so with a non-negative spacing, `n` attempts take at least
      `(n - 1) * minimumRetryTime`. */
  lemma RetryPaced<E>(a: AfmRetry, cb: Callbacks, rounds: seq<Round<E>>, t0: int)
    ensures
      var r := Retry(a, cb, rounds, t0);
      var s := Starts(r.trace);
      && Paced(s, a.minimumRetryTime)
      && (|s| > 0 ==> s[0] == t0 && s[|s| - 1] <= r.clock)
      && (0 <= a.minimumRetryTime ==> r.clock >= t0 + (|s| - 1) * a.minimumRetryTime)
  {
    var r := Retry(a, cb, rounds, t0);
    var s := Starts(r.trace);
    LoopPaced(a, cb, rounds, 1, t0);
    if 0 <= a.minimumRetryTime {
      if |s| > 0 {
        PacedSpan(s, a.minimumRetryTime);
      } else {
        assert t0 + (|s| - 1) * a.minimumRetryTime == t0 - a.minimumRetryTime;
      }
    }
  }

  /** An always-failing action under a limit of `N` keeps the call busy for at least
      `(N - 1) * minimumRetryTime`. */
  lemma ExhaustionTakesAtLeast<E>(a: AfmRetry, cb: Callbacks, rounds: seq<Round<E>>, t0: int)
    requires 0 < a.retryCount <= |rounds| && 0 <= a.minimumRetryTime
    requires forall i :: 0 <= i < a.retryCount ==> !StopFires(a, rounds[i]) && rounds[i].result.Failed?
    ensures Retry(a, cb, rounds, t0).clock >= t0 + (a.retryCount - 1) * a.minimumRetryTime
  {
    ExhaustsAfterExactlyN(a, cb, rounds, t0);
    RetryPaced(a, cb, rounds, t0);
  }

  /** Nil callbacks are skipped and change nothing else: the call without them returns
      the same, ends at the same clock, and performs the same attempts and sleeps. */
  lemma NilCallbacksSkipped<E>(a: AfmRetry, cb: Callbacks, rounds: seq<Round<E>>, t0: int)
    ensures
      var r := Retry(a, cb, rounds, t0);
      var q := Retry(a, Callbacks(false, false), rounds, t0);
      q.outcome == r.outcome && q.clock == r.clock && q.trace == Strip(r.trace)
  {
    var q := Retry(a, Callbacks(false, false), rounds, t0);
    LoopIgnoresNameAndCallbacks(a, a, cb, Callbacks(false, false), rounds, 1, t0);
    LoopErrorReports(a, Callbacks(false, false), rounds, 1, t0);
    LoopSuccessReports(a, Callbacks(false, false), rounds, 1, t0);
    StripWithoutReports(q.trace);
  }

  /** `SetRetryName` changes nothing but the name the callbacks receive. */
  lemma RenameOnlyRelabels<E>(a: AfmRetry, name: string, cb: Callbacks, rounds: seq<Round<E>>, t0: int)
    ensures
      var r := Retry(a, cb, rounds, t0);
      var q := Retry(SetRetryName(a, name), cb, rounds, t0);
      && q.outcome == r.outcome && q.clock == r.clock && Strip(q.trace) == Strip(r.trace)
      && |Starts(q.trace)| <= |rounds|
      && ErrorReports(q.trace) == (if cb.onError then FailuresOf(name, rounds[..|Starts(q.trace)|]) else [])
      && SuccessReports(q.trace) == (if cb.onSuccess && q.outcome.ReturnedNil? then [name] else [])
  {
    LoopIgnoresNameAndCallbacks(a, SetRetryName(a, name), cb, cb, rounds, 1, t0);
    LoopErrorReports(SetRetryName(a, name), cb, rounds, 1, t0);
    LoopSuccessReports(SetRetryName(a, name), cb, rounds, 1, t0);
  }

  /** The trace of `Retry` is exactly the one the rounds call for: attempt `i` starts at
      the `i`-th start time, its `onError` or `onSuccess` call (when set) comes right after
      it, and then, unless that attempt ended the call, the sleep its round calls for.
      No event comes before the first attempt or after the last attempt's report. */
  lemma RetryEvents<E>(a: AfmRetry, cb: Callbacks, rounds: seq<Round<E>>, t0: int, k: nat)
    requires EndsAt(a, rounds, 0, k)
    ensures
      var n := Attempted(a, rounds, k);
      Retry(a, cb, rounds, t0).trace == EventsOf(a, cb, rounds, StartTimes(a, rounds, t0, n), n == k + 1)
  {
    LoopTrace(a, cb, rounds, 1, t0, k);
    LoopStartTimes(a, cb, rounds, 1, t0, k);
  }

  /** The durations of the sleeps of `Retry`, in order: one for each failed attempt it
      goes on from that ended before `minimumRetryTime` had passed, lasting the rest of
      that time; none is longer than `minimumRetryTime`. Where each sleep sits in the
      trace is stated by `RetryEvents`. */
  lemma RetrySleeps<E>(a: AfmRetry, cb: Callbacks, rounds: seq<Round<E>>, t0: int, k: nat)
    requires EndsAt(a, rounds, 0, k)
    ensures
      var z := Sleeps(Retry(a, cb, rounds, t0).trace);
      && z == SleepsOf(a, rounds[..k])
      && forall i :: 0 <= i < |z| ==> 0 < z[i] <= a.minimumRetryTime
  {
    LoopSleeps(a, cb, rounds, 1, t0, k);
    SleepsOfBounded(a, rounds[..k]);
  }

  /** With a `minimumRetryTime` of zero or less the loop never sleeps. */
  lemma UnpacedNeverSleeps<E>(a: AfmRetry, cb: Callbacks, rounds: seq<Round<E>>, t0: int)
    requires a.minimumRetryTime <= 0
    ensures
      var t := Retry(a, cb, rounds, t0).trace;
      forall i :: 0 <= i < |t| ==> !t[i].Sleep?
  {
    EndsAtExactlyOnce(a, rounds, 0);
    var k: nat :| EndsAt(a, rounds, 0, k);
    RetrySleeps(a, cb, rounds, t0, k);
    SleepsOfBounded(a, rounds[..k]);
    NoSleepsMeansNoSleep(Retry(a, cb, rounds, t0).trace);
  }
}
