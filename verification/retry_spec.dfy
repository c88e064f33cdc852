/**
 A declarative account of where the retry loop stops, independent of the loop itself:
 the loop goes past an iteration exactly when no stop signal is taken there, the
 attempt fails, and the attempt limit still allows another attempt. The first
 iteration that does not go on decides the outcome.
 */
module RetrySpec {
  import opened RetryConfig
  import opened RetryTrace
  import opened RetryLoop

  /** The attempt numbered `made` (counting from one) is the last one the limit allows,
      or a later one. A count of zero or less never limits. */
  predicate LimitReached(a: AfmRetry, made: int) {
    0 < a.retryCount <= made
  }

  /** The loop goes past round `rd`, in which attempt number `made` is made. */
  predicate Continues<E>(a: AfmRetry, rd: Round<E>, made: int) {
    !StopFires(a, rd) && rd.result.Failed? && !LimitReached(a, made)
  }

  /** With `before` attempts already made, the loop goes past rounds `0 .. k-1` and
      stops in round `k`; `k == |rounds|` when it goes past every round. */
  ghost predicate EndsAt<E>(a: AfmRetry, rounds: seq<Round<E>>, before: nat, k: nat) {
    && k <= |rounds|
    && (forall i :: 0 <= i < k ==> Continues(a, rounds[i], before + i + 1))
    && (k < |rounds| ==> !Continues(a, rounds[k], before + k + 1))
  }

  /** The outcome decided by the round the loop stops in. */
  function Verdict<E>(a: AfmRetry, rounds: seq<Round<E>>, k: nat): Outcome<E>
    requires k <= |rounds|
  {
    if k == |rounds| then Unfinished
    else if StopFires(a, rounds[k]) then ReturnedStop
    else match rounds[k].result
      case NilError => ReturnedNil
      case Failed(e) => ReturnedErr(e)
  }

  /** The number of attempts made when the loop stops in round `k`: a stop signal
      there comes before that round's attempt. */
  function Attempted<E>(a: AfmRetry, rounds: seq<Round<E>>, k: nat): nat
    requires k <= |rounds|
  {
    if k == |rounds| || StopFires(a, rounds[k]) then k else k + 1
  }

  /** The `onError` arguments the failed rounds among `rs` call for, in order. */
  function FailuresOf<E>(name: string, rs: seq<Round<E>>): seq<(string, E)>
    decreases |rs|
  {
    if |rs| == 0 then []
    else (if rs[0].result.Failed? then [(name, rs[0].result.err)] else []) + FailuresOf(name, rs[1..])
  }

  /** The sleep a failed round calls for when the loop goes past it: the attempt ended
      before `minimumRetryTime` had passed since its start, and the loop waits out the
      rest of that time. */
  function PauseFor<E>(a: AfmRetry, rd: Round<E>): seq<int> {
    if rd.duration < a.minimumRetryTime then [a.minimumRetryTime - rd.duration] else []
  }

  /** The sleeps the rounds `rs` call for, in order, when the loop goes past all of them. */
  function SleepsOf<E>(a: AfmRetry, rs: seq<Round<E>>): seq<int>
    decreases |rs|
  {
    if |rs| == 0 then [] else PauseFor(a, rs[0]) + SleepsOf(a, rs[1..])
  }

  /** A sleep is never longer than `minimumRetryTime` and never empty; with a
      `minimumRetryTime` of zero or less there is none. */
  lemma {:induction false} SleepsOfBounded<E>(a: AfmRetry, rs: seq<Round<E>>)
    ensures forall i :: 0 <= i < |SleepsOf(a, rs)| ==> 0 < SleepsOf(a, rs)[i] <= a.minimumRetryTime
    ensures a.minimumRetryTime <= 0 ==> SleepsOf(a, rs) == []
    decreases |rs|
  {
    if |rs| != 0 {
      SleepsOfBounded(a, rs[1..]);
    }
  }

  /** The callback call a round's attempt triggers, if that callback is set. */
  function ReportFor<E>(a: AfmRetry, cb: Callbacks, rd: Round<E>): seq<Event<E>> {
    match rd.result
    case NilError => if cb.onSuccess then [OnSuccess(a.retryName)] else []
    case Failed(err) => if cb.onError then [OnError(a.retryName, err)] else []
  }

  /** The events of one attempted round starting at `start`: the attempt, its report,
      and then, unless the attempt ended the loop, the sleep the round calls for. */
  function RoundEvents<E>(a: AfmRetry, cb: Callbacks, rd: Round<E>, start: int, final: bool): seq<Event<E>> {
    [Attempt(start)] + ReportFor(a, cb, rd)
      + (if final || a.minimumRetryTime <= rd.duration then [] else [Sleep(a.minimumRetryTime - rd.duration)])
  }

  /** When the attempt after a round the loop goes past starts: once the attempt has
      run and at least `minimumRetryTime` has passed since its start, plus the lag. */
  function NextStart<E>(a: AfmRetry, rd: Round<E>, start: int): int {
    start + (if rd.duration < a.minimumRetryTime then a.minimumRetryTime else rd.duration) + rd.lag
  }

  /** The start times of the first `n` attempts when the first starts at `start`. */
  function StartTimes<E>(a: AfmRetry, rounds: seq<Round<E>>, start: int, n: nat): (s: seq<int>)
    requires n <= |rounds|
    ensures |s| == n && (n > 0 ==> s[0] == start)
    decreases n
  {
    if n == 0 then [] else [start] + StartTimes(a, rounds[1..], NextStart(a, rounds[0], start), n - 1)
  }

  /** The events of the attempted rounds in order, attempt `i` starting at `starts[i]`;
      `closes` says that the last of them ended the loop and so sleeps no more. */
  function EventsOf<E>(a: AfmRetry, cb: Callbacks, rounds: seq<Round<E>>, starts: seq<int>, closes: bool): seq<Event<E>>
    requires |starts| <= |rounds|
    decreases |starts|
  {
    if |starts| == 0 then []
    else RoundEvents(a, cb, rounds[0], starts[0], closes && |starts| == 1)
         + EventsOf(a, cb, rounds[1..], starts[1..], closes)
  }

  /** Every oracle has exactly one round the loop stops in. */
  lemma {:induction false} EndsAtExactlyOnce<E>(a: AfmRetry, rounds: seq<Round<E>>, before: nat)
    ensures exists k: nat :: EndsAt(a, rounds, before, k)
    ensures forall k1: nat, k2: nat :: EndsAt(a, rounds, before, k1) && EndsAt(a, rounds, before, k2) ==> k1 == k2
    decreases |rounds|
  {
    if |rounds| == 0 || !Continues(a, rounds[0], before + 1) {
      assert EndsAt(a, rounds, before, 0);
    } else {
      EndsAtExactlyOnce(a, rounds[1..], before + 1);
      var k: nat :| EndsAt(a, rounds[1..], before + 1, k);
      assert EndsAt(a, rounds, before, k + 1) by {
        forall i | 0 <= i < k + 1
          ensures Continues(a, rounds[i], before + i + 1)
        {
          if i > 0 {
            assert rounds[i] == rounds[1..][i - 1];
          }
        }
        if k + 1 < |rounds| {
          assert rounds[k + 1] == rounds[1..][k];
        }
      }
    }
  }
}
