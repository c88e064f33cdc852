/**
 The observable events of one `Retry` call and the projections the properties are
 stated over.
 */
module RetryTrace {

  /** One observable step of the loop. `Attempt(start)` is a call of the retried
      function beginning at clock `start`; `OnError` and `OnSuccess` are calls of the
      callbacks with the arguments they receive; `Sleep(d)` is `time.Sleep(d)`. */
  datatype Event<E> =
    | Attempt(start: int)
    | OnError(name: string, err: E)
    | OnSuccess(name: string)
    | Sleep(duration: int)

  /** Concatenates what `f` selects from each event, in trace order. */
  function Collect<E, T>(t: seq<Event<E>>, f: Event<E> -> seq<T>): seq<T>
    decreases |t|
  {
    if |t| == 0 then [] else f(t[0]) + Collect(t[1..], f)
  }

  lemma {:induction false} CollectAppend<E, T>(x: seq<Event<E>>, y: seq<Event<E>>, f: Event<E> -> seq<T>)
    ensures Collect(x + y, f) == Collect(x, f) + Collect(y, f)
    decreases |x|
  {
    if |x| == 0 {
      assert x + y == y;
    } else {
      assert (x + y)[1..] == x[1..] + y;
      CollectAppend(x[1..], y, f);
    }
  }

  lemma CollectOne<E, T>(e: Event<E>, f: Event<E> -> seq<T>)
    ensures Collect([e], f) == f(e)
  {
    assert [e][1..] == [];
  }

  function StartOf<E>(e: Event<E>): seq<int> {
    if e.Attempt? then [e.start] else []
  }

  function ErrorOf<E>(e: Event<E>): seq<(string, E)> {
    if e.OnError? then [(e.name, e.err)] else []
  }

  function SuccessOf<E>(e: Event<E>): seq<string> {
    if e.OnSuccess? then [e.name] else []
  }

  function SleepOf<E>(e: Event<E>): seq<int> {
    if e.Sleep? then [e.duration] else []
  }

  function UncalledOf<E>(e: Event<E>): seq<Event<E>> {
    if e.Attempt? || e.Sleep? then [e] else []
  }

  /** The start times of the attempts, in order. */
  function Starts<E>(t: seq<Event<E>>): seq<int> {
    Collect(t, StartOf)
  }

  /** The arguments of every `onError` call, in order. */
  function ErrorReports<E>(t: seq<Event<E>>): seq<(string, E)> {
    Collect(t, ErrorOf)
  }

  /** The arguments of every `onSuccess` call, in order. */
  function SuccessReports<E>(t: seq<Event<E>>): seq<string> {
    Collect(t, SuccessOf)
  }

  /** The durations of the sleeps, in order. */
  function Sleeps<E>(t: seq<Event<E>>): seq<int> {
    Collect(t, SleepOf)
  }

  /** The trace with the callback calls removed: what the loop itself does. */
  function Strip<E>(t: seq<Event<E>>): seq<Event<E>> {
    Collect(t, UncalledOf)
  }

  /** A trace in which no callback is called is its own stripped form. */
  lemma {:induction false} StripWithoutReports<E>(t: seq<Event<E>>)
    requires ErrorReports(t) == [] && SuccessReports(t) == []
    ensures Strip(t) == t
    decreases |t|
  {
    if |t| != 0 {
      assert t == [t[0]] + t[1..];
      CollectAppend([t[0]], t[1..], ErrorOf);
      CollectAppend([t[0]], t[1..], SuccessOf);
      CollectOne(t[0], ErrorOf);
      CollectOne(t[0], SuccessOf);
      StripWithoutReports(t[1..]);
    }
  }

  /** A trace whose sleep projection is empty holds no sleep at all. */
  lemma {:induction false} NoSleepsMeansNoSleep<E>(t: seq<Event<E>>)
    requires Sleeps(t) == []
    ensures forall i :: 0 <= i < |t| ==> !t[i].Sleep?
    decreases |t|
  {
    if |t| != 0 {
      assert t == [t[0]] + t[1..];
      CollectAppend([t[0]], t[1..], SleepOf);
      CollectOne(t[0], SleepOf);
      NoSleepsMeansNoSleep(t[1..]);
      forall i | 0 < i < |t|
        ensures !t[i].Sleep?
      {
        assert t[i] == t[1..][i - 1];
      }
    }
  }
}
