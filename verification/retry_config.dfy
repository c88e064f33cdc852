/**
 The configuration record of the retry helper (`AfmRetry` in retry.go) and its two
 setters. A configuration is an immutable value here; the Go setters, which write
 through a pointer, become functions from the old record to the new one.
 */
module RetryConfig {

  /** The `stopFlag` channel. Its zero value is a nil channel, on which a receive never
      proceeds, so a `select` with a `default` branch never takes it. `Channel` is a
      channel made by the caller, who may send the stop signal on it at any time; `id`
      stands for the channel's identity, so configurations holding different channels
      are different values, as Go compares channels by identity. */
  datatype StopFlag = NilChannel | Channel(id: nat)

  /** `retryCount` caps the total number of attempts when it is positive; zero or a
      negative count means unlimited attempts. `retryName` is handed to the callbacks.
      `minimumRetryTime` is a `time.Duration`: a signed count of nanoseconds. */
  datatype AfmRetry = AfmRetry(
    retryCount: int,
    retryName: string,
    minimumRetryTime: int,
    stopFlag: StopFlag)

  /** `SetRetryCount` overwrites the attempt limit and nothing else. */
  function SetRetryCount(a: AfmRetry, retryCount: int): (r: AfmRetry)
    ensures r.retryCount == retryCount
    ensures r.retryName == a.retryName
    ensures r.minimumRetryTime == a.minimumRetryTime
    ensures r.stopFlag == a.stopFlag
  {
    a.(retryCount := retryCount)
  }

  /** `SetRetryName` overwrites the name given to the callbacks and nothing else. */
  function SetRetryName(a: AfmRetry, retryName: string): (r: AfmRetry)
    ensures r.retryName == retryName
    ensures r.retryCount == a.retryCount
    ensures r.minimumRetryTime == a.minimumRetryTime
    ensures r.stopFlag == a.stopFlag
  {
    a.(retryName := retryName)
  }

  /** The two setters touch disjoint fields, so their order does not matter. */
  lemma SettersCommute(a: AfmRetry, retryCount: int, retryName: string)
    ensures SetRetryName(SetRetryCount(a, retryCount), retryName)
         == SetRetryCount(SetRetryName(a, retryName), retryCount)
  {
  }

  /** A second call of a setter overrides the first, and writing back a field's own
      value leaves the record as it was. */
  lemma SettersLastWriteWins(a: AfmRetry, c1: int, c2: int, n1: string, n2: string)
    ensures SetRetryCount(SetRetryCount(a, c1), c2) == SetRetryCount(a, c2)
    ensures SetRetryName(SetRetryName(a, n1), n2) == SetRetryName(a, n2)
    ensures SetRetryCount(a, a.retryCount) == a
    ensures SetRetryName(a, a.retryName) == a
  {
  }
}
