/**
 The `retry` decorator of barbora_bot.py as a pure state machine.

 The decorated operation is an oracle: `op(i)` is what the `i`-th call
 (zero-based) of the wrapped function does, either return a value, raise an
 exception listed in `allowed_exceptions` (a transient failure) or raise
 any other exception (a fatal one). Running the wrapper yields how the call
 completed, how many times the operation was invoked, and the base delays
 of the sleeps taken between invocations.
 */
module Retry {
  import opened Backoff

  /** What one invocation of the wrapped operation does. */
  datatype Outcome<V, E> =
    | Ok(value: V)          // the operation returned `value`
    | Transient(error: E)   // it raised an exception in `allowed_exceptions`
    | Fatal(error: E)       // it raised any other exception

  /** How a call of the wrapper completes. `ReturnedNone` is the implicit
      `None` of a Python function whose loop ran out without returning (it is
      distinct from `Returned(v)` where the operation itself returned `None`).
      `SleepRejected` is the `ValueError` that `time.sleep` raises for a
      negative length, which escapes the wrapper. */
  datatype Completion<V, E> =
    | Returned(value: V)
    | Raised(error: E)
    | ReturnedNone
    | SleepRejected

  /** One call of the wrapper: its completion, the number of invocations of
      the wrapped operation, and the base delay of every sleep performed, in order. */
  datatype Run<V, E> = Run(completion: Completion<V, E>, attempts: nat, delays: seq<int>)

  /** How the invocation that ends the run settles the completion. A transient
      failure on the last permitted attempt is re-raised; on an earlier attempt
      it ends the run only when the sleep after it is rejected. */
  ghost predicate Settles<V, E>(o: Outcome<V, E>, onLastAttempt: bool, sleepAccepted: bool, c: Completion<V, E>)
  {
    match o
    case Ok(v) => c == Returned(v)
    case Fatal(e) => c == Raised(e)
    case Transient(e) =>
      if onLastAttempt then c == Raised(e) else !sleepAccepted && c == SleepRejected
  }

  /** The declarative description of the run that starts at attempt `from`:
      - the loop body is entered exactly when `from < retryCount`, and if it is
        not, nothing is invoked and the wrapper falls through to `None`;
      - otherwise attempts `from .. attempts-1` are invoked, never beyond
        `retryCount`; every one but the last failed transiently and was
        followed by an accepted sleep;
      - attempt `i`'s sleep has base delay `BaseDelay(p, i)`;
      - the last attempt's outcome settles the completion. */
  ghost predicate Conforms<V, E>(op: nat -> Outcome<V, E>, p: Policy, from: nat, r: Run<V, E>)
  {
    && from <= r.attempts
    && (r.attempts == from <==> p.retryCount <= from)
    && (r.attempts == from ==> r.completion == ReturnedNone && r.delays == [])
    && (r.attempts > from ==>
          && r.attempts <= p.retryCount
          && (forall i :: from <= i < r.attempts - 1 ==> op(i).Transient? && SleepAccepted(p, i))
          && |r.delays| == r.attempts - 1 - from
          && (forall j :: 0 <= j < |r.delays| ==> r.delays[j] == BaseDelay(p, from + j))
          && Settles(op(r.attempts - 1), r.attempts == p.retryCount,
                     SleepAccepted(p, r.attempts - 1), r.completion))
  }

  /** The `for attempt in range(retry_count)` loop, entered at iteration `attempt`. */
  function Loop<V, E>(op: nat -> Outcome<V, E>, p: Policy, attempt: nat): (r: Run<V, E>)
    ensures Conforms(op, p, attempt, r)
    decreases if attempt < p.retryCount then p.retryCount - attempt else 0
  {
    if attempt >= p.retryCount then
      Run(ReturnedNone, attempt, [])
    else
      match op(attempt)
      case Ok(v) => Run(Returned(v), attempt + 1, [])
      case Fatal(e) => Run(Raised(e), attempt + 1, [])
      case Transient(e) =>
        if attempt >= p.retryCount - 1 then
          Run(Raised(e), attempt + 1, [])
        else if !SleepAccepted(p, attempt) then
          Run(SleepRejected, attempt + 1, [])
        else
          var rest := Loop(op, p, attempt + 1);
          Run(rest.completion, rest.attempts, [BaseDelay(p, attempt)] + rest.delays)
  }

  /** One call of the decorated function: a fresh attempt counter starting at 0. */
  function Wrapper<V, E>(op: nat -> Outcome<V, E>, p: Policy): (r: Run<V, E>)
    ensures Conforms(op, p, 0, r)
    ensures r.attempts <= if p.retryCount < 0 then 0 else p.retryCount
    ensures |r.delays| == if r.attempts == 0 then 0 else r.attempts - 1
    ensures forall j :: 0 <= j < |r.delays| ==> r.delays[j] >= 0
    ensures r.completion == ReturnedNone <==> p.retryCount <= 0
    ensures r.completion == SleepRejected ==> !SleepsAccepted(p, r.attempts)
  {
    var r := Loop(op, p, 0);
    assert forall j :: 0 <= j < |r.delays| ==> SleepAccepted(p, j) && r.delays[j] == BaseDelay(p, j);
    r
  }

  /** `Conforms` pins the run down completely: the recursive loop is the only
      run that satisfies the declarative description. */
  lemma ConformsUnique<V, E>(op: nat -> Outcome<V, E>, p: Policy, from: nat, r1: Run<V, E>, r2: Run<V, E>)
    requires Conforms(op, p, from, r1)
    requires Conforms(op, p, from, r2)
    ensures r1 == r2
  {
    // Runs of different lengths are impossible: the shorter one would have
    // ended on an attempt that the longer one shows failed transiently, was
    // not the last permitted one, and was followed by an accepted sleep.
  }

  /** The run ends at the first attempt within `retry_count` that did not fail
      transiently, unless a sleep before it is rejected; then it ends earlier,
      with the `ValueError` of that sleep. */
  lemma SettlesAt<V, E>(op: nat -> Outcome<V, E>, p: Policy, k: nat)
    requires k < p.retryCount
    requires forall i :: 0 <= i < k ==> op(i).Transient?
    requires !op(k).Transient?
    ensures SleepsAccepted(p, k) ==> Wrapper(op, p).attempts == k + 1
    ensures !SleepsAccepted(p, k) ==>
      Wrapper(op, p).attempts <= k && Wrapper(op, p).completion == SleepRejected
  {
  }

  /** Transient failures before attempt `k` followed by a success at `k < retry_count`:
      the wrapper returns that value after exactly `k + 1` invocations and
      `k` sleeps with bases `BaseDelay(p, 0) .. BaseDelay(p, k - 1)`, provided
      those sleeps are accepted; otherwise the first rejected sleep's
      `ValueError` escapes before attempt `k`. */
  lemma SuccessAfterTransients<V, E>(op: nat -> Outcome<V, E>, p: Policy, k: nat)
    requires k < p.retryCount
    requires forall i :: 0 <= i < k ==> op(i).Transient?
    requires op(k).Ok?
    ensures SleepsAccepted(p, k) ==>
      Wrapper(op, p) == Run(Returned(op(k).value), k + 1, BaseDelays(p, k))
    ensures !SleepsAccepted(p, k) ==>
      Wrapper(op, p).attempts <= k && Wrapper(op, p).completion == SleepRejected
  {
  }

  /** A fatal failure at attempt `k` (after `k` transient ones) escapes at once:
      no further invocation and no sleep after it. A rejected sleep before
      attempt `k` escapes first. */
  lemma FatalEscapes<V, E>(op: nat -> Outcome<V, E>, p: Policy, k: nat)
    requires k < p.retryCount
    requires forall i :: 0 <= i < k ==> op(i).Transient?
    requires op(k).Fatal?
    ensures SleepsAccepted(p, k) ==>
      Wrapper(op, p) == Run(Raised(op(k).error), k + 1, BaseDelays(p, k))
    ensures !SleepsAccepted(p, k) ==>
      Wrapper(op, p).attempts <= k && Wrapper(op, p).completion == SleepRejected
  {
  }

  /** If every permitted attempt fails transiently, the wrapper re-raises the
      last failure after exactly `retry_count` invocations and `retry_count - 1`
      sleeps; a rejected sleep on the way escapes instead. */
  lemma ExhaustionReraisesLast<V, E>(op: nat -> Outcome<V, E>, p: Policy)
    requires p.retryCount >= 1
    requires forall i :: 0 <= i < p.retryCount ==> op(i).Transient?
    ensures SleepsAccepted(p, p.retryCount - 1) ==>
      Wrapper(op, p) == Run(Raised(op(p.retryCount - 1).error), p.retryCount, BaseDelays(p, p.retryCount - 1))
    ensures !SleepsAccepted(p, p.retryCount - 1) ==>
      Wrapper(op, p).attempts < p.retryCount && Wrapper(op, p).completion == SleepRejected
  {
  }

  /** The first rejected sleep ends the call: after transient failures at
      attempts `0 .. j`, all sleeps before `j` accepted and the sleep after
      non-final attempt `j` rejected, the `ValueError` escapes after `j + 1`
      invocations and `j` sleeps. */
  lemma RejectedSleepEscapes<V, E>(op: nat -> Outcome<V, E>, p: Policy, j: nat)
    requires j < p.retryCount - 1
    requires forall i :: 0 <= i <= j ==> op(i).Transient?
    requires SleepsAccepted(p, j)
    requires !SleepAccepted(p, j)
    ensures Wrapper(op, p) == Run(SleepRejected, j + 1, BaseDelays(p, j))
  {
  }

  /** A non-positive retry count never invokes the operation and returns `None`. */
  lemma NoAttemptsReturnsNone<V, E>(op: nat -> Outcome<V, E>, p: Policy)
    requires p.retryCount <= 0
    ensures Wrapper(op, p) == Run(ReturnedNone, 0, [])
  {
  }

  /** The run depends only on the outcomes of the invocations it made: an
      oracle that agrees on those attempts yields the same run, so no attempt
      beyond `attempts` is ever observed. */
  lemma {:induction false} LoopObservesOnlyItsAttempts<V, E>(op: nat -> Outcome<V, E>, op': nat -> Outcome<V, E>, p: Policy, attempt: nat)
    requires forall i :: attempt <= i < Loop(op, p, attempt).attempts ==> op'(i) == op(i)
    ensures Loop(op', p, attempt) == Loop(op, p, attempt)
    decreases if attempt < p.retryCount then p.retryCount - attempt else 0
  {
    if attempt < p.retryCount {
      assert op'(attempt) == op(attempt);
      if op(attempt).Transient? && attempt < p.retryCount - 1 && SleepAccepted(p, attempt) {
        LoopObservesOnlyItsAttempts(op, op', p, attempt + 1);
      }
    }
  }

  /** The wrapper's run depends only on the outcomes of its own attempts. */
  lemma WrapperObservesOnlyItsAttempts<V, E>(op: nat -> Outcome<V, E>, op': nat -> Outcome<V, E>, p: Policy)
    requires forall i :: 0 <= i < Wrapper(op, p).attempts ==> op'(i) == op(i)
    ensures Wrapper(op', p) == Wrapper(op, p)
  {
    LoopObservesOnlyItsAttempts(op, op', p, 0);
  }

  /** Consecutive sleeps grow by exactly the backoff factor, so with
      `backoff >= 1` the delays are non-decreasing and never below
      `base_delay` (a negative base delay leaves no sleep at all). */
  lemma DelaysGrow<V, E>(op: nat -> Outcome<V, E>, p: Policy)
    ensures var ds := Wrapper(op, p).delays;
      forall j :: 0 <= j < |ds| - 1 ==> ds[j + 1] == p.backoff * ds[j]
    ensures var ds := Wrapper(op, p).delays;
      p.backoff >= 1 ==>
        forall i, j :: 0 <= i <= j < |ds| ==> p.baseDelay <= ds[i] <= ds[j]
  {
    var ds := Wrapper(op, p).delays;
    forall j | 0 <= j < |ds| - 1
      ensures ds[j + 1] == p.backoff * ds[j]
    {
      BaseDelayRatio(p, j);
    }
    if p.backoff >= 1 && p.baseDelay < 0 {
      // the first sleep would have base `baseDelay < 0`, so none is performed
      assert BaseDelay(p, 0) == p.baseDelay;
      assert |ds| == 0;
    } else if p.backoff >= 1 {
      forall i, j | 0 <= i <= j < |ds|
        ensures p.baseDelay <= ds[i] <= ds[j]
      {
        BaseDelayMonotone(p, i, j);
      }
    }
  }

  /** With the decorator's defaults (3 attempts, base 1, backoff 2), three
      transient failures are re-raised after sleeps with bases 1 and 2. */
  lemma DefaultPolicyExhaustion<V, E>(op: nat -> Outcome<V, E>)
    requires op(0).Transient? && op(1).Transient? && op(2).Transient?
    ensures Wrapper(op, Default) == Run(Raised(op(2).error), 3, [1, 2])
  {
    NonNegativePolicyAcceptsSleeps(Default, 2);
    ExhaustionReraisesLast(op, Default);
    assert BaseDelays(Default, 2) == [1, 2];
  }

  /** A negative base delay (here `Policy(3, -1, 2)`) makes the first sleep
      raise `ValueError`: the call ends after one invocation, without sleeping. */
  lemma NegativeBaseDelayExample<V, E>(op: nat -> Outcome<V, E>)
    requires op(0).Transient? && op(1).Transient? && op(2).Transient?
    ensures Wrapper(op, Policy(3, -1, 2)) == Run(SleepRejected, 1, [])
  {
  }
}
