/**
 The delay arithmetic of the retry decorator in barbora_bot.py.

 The decorator is configured by a retry count, a base delay and a backoff
 multiplier. After failed attempt `i` (zero-based) it sleeps
 `pow(backoff, i) * base_delay * (1 + random() / 4)`. The integral part
 `pow(backoff, i) * base_delay` is the "base delay" of that sleep; the random
 factor is the jitter, modelled here as an exact real drawn from [0, 1).
 */
module Backoff {

  /** Configuration of one `retry(...)` decoration. `retryCount` is an `int`
      because Python's `range` accepts any integer (a non-positive count simply
      yields no iteration). */
  datatype Policy = Policy(retryCount: int, baseDelay: int, backoff: int)

  /** The decorator's defaults: three attempts, base delay 1, backoff 2. */
  const Default: Policy := Policy(3, 1, 2)

  /** Python's `pow(b, n)` on integers with a non-negative exponent. */
  function Pow(b: int, n: nat): int
  {
    if n == 0 then 1 else b * Pow(b, n - 1)
  }

  /** The base (jitter-free) delay of the sleep that follows failed attempt `attempt`. */
  function BaseDelay(p: Policy, attempt: nat): int
  {
    Pow(p.backoff, attempt) * p.baseDelay
  }

  /** The base delays of the sleeps after attempts `0 .. n-1`, in order. */
  function BaseDelays(p: Policy, n: nat): seq<int>
  {
    seq(n, i requires 0 <= i => BaseDelay(p, i))
  }

  /** `time.sleep` rejects a negative length with `ValueError`. The jitter
      factor is positive, so whether the sleep after attempt `i` is accepted
      depends on the sign of its base delay alone (see `JitterKeepsSign`). */
  predicate SleepAccepted(p: Policy, attempt: nat)
  {
    BaseDelay(p, attempt) >= 0
  }

  /** The sleeps after attempts `0 .. k-1` would all be accepted. */
  predicate SleepsAccepted(p: Policy, k: nat)
  {
    forall i :: 0 <= i < k ==> SleepAccepted(p, i)
  }

  /** A non-negative multiplier keeps every power non-negative. */
  lemma {:induction false} PowNonNegative(b: int, n: nat)
    requires b >= 0
    ensures Pow(b, n) >= 0
  {
    if n > 0 {
      PowNonNegative(b, n - 1);
      assert b * Pow(b, n - 1) >= 0;
    }
  }

  /** With a non-negative base delay and backoff (the case of every decoration
      in barbora_bot.py), no sleep is ever rejected. */
  lemma NonNegativePolicyAcceptsSleeps(p: Policy, k: nat)
    requires p.baseDelay >= 0 && p.backoff >= 0
    ensures SleepsAccepted(p, k)
  {
    forall i | 0 <= i < k
      ensures SleepAccepted(p, i)
    {
      PowNonNegative(p.backoff, i);
      assert Pow(p.backoff, i) * p.baseDelay >= 0;
    }
  }

  /** A multiplier of at least one keeps every power at least one. */
  lemma {:induction false} PowAtLeastOne(b: int, n: nat)
    requires b >= 1
    ensures Pow(b, n) >= 1
  {
    if n > 0 {
      PowAtLeastOne(b, n - 1);
      assert b * Pow(b, n - 1) >= Pow(b, n - 1);
    }
  }

  /** A multiplier of at least one makes the powers non-decreasing in the exponent. */
  lemma {:induction false} PowMonotone(b: int, m: nat, n: nat)
    requires b >= 1
    requires m <= n
    ensures Pow(b, m) <= Pow(b, n)
    decreases n - m
  {
    if m < n {
      PowMonotone(b, m, n - 1);
      PowAtLeastOne(b, n - 1);
      assert b * Pow(b, n - 1) >= Pow(b, n - 1);
    }
  }

  /** Each base delay is exactly `backoff` times the previous one: the growth is
      exponential with ratio `backoff`. */
  lemma BaseDelayRatio(p: Policy, attempt: nat)
    ensures BaseDelay(p, attempt + 1) == p.backoff * BaseDelay(p, attempt)
  {
  }

  /** With `backoff >= 1` and a non-negative base delay, later sleeps never have a
      smaller base than earlier ones; the first one is exactly `baseDelay`. */
  lemma BaseDelayMonotone(p: Policy, i: nat, j: nat)
    requires p.backoff >= 1 && p.baseDelay >= 0
    requires i <= j
    ensures p.baseDelay <= BaseDelay(p, i) <= BaseDelay(p, j)
  {
    PowAtLeastOne(p.backoff, i);
    PowMonotone(p.backoff, i, j);
    assert Pow(p.backoff, i) * p.baseDelay <= Pow(p.backoff, j) * p.baseDelay;
    assert 1 * p.baseDelay <= Pow(p.backoff, i) * p.baseDelay;
  }

  /** The actual length of a sleep: base delay scaled by `1 + jitter / 4`. */
  function Jittered(base: int, jitter: real): real
  {
    base as real * (1.0 + jitter / 4.0)
  }

  /** The sleep durations for a list of base delays, the `j`-th sleep using
      the `j`-th jitter draw. Over the exact reals each lies in
      `[base, 1.25 * base)` for a positive base and a jitter draw in `[0, 1)`;
      in doubles the rounded factor can reach 1.25 itself. */
  function SleepDurations(bases: seq<int>, jitter: nat -> real): (d: seq<real>)
    ensures |d| == |bases|
    ensures forall j :: 0 <= j < |d| ==> d[j] == Jittered(bases[j], jitter(j))
    ensures forall j :: 0 <= j < |d| && 0.0 <= jitter(j) < 1.0 && bases[j] >= 0 ==>
      bases[j] as real <= d[j] <= bases[j] as real * 1.25
    ensures forall j :: 0 <= j < |d| && 0.0 <= jitter(j) < 1.0 && bases[j] > 0 ==>
      d[j] < bases[j] as real * 1.25
  {
    if |bases| == 0 then []
    else
      var n := |bases| - 1;
      JitterBounds(bases[n], jitter(n));
      SleepDurations(bases[..n], jitter) + [Jittered(bases[n], jitter(n))]
  }

  /** For a jitter draw in `[0, 1)` the actual sleep is negative exactly when
      its base delay is, and zero exactly when its base is. */
  lemma JitterKeepsSign(base: int, jitter: real)
    requires 0.0 <= jitter < 1.0
    ensures Jittered(base, jitter) < 0.0 <==> base < 0
    ensures Jittered(base, jitter) == 0.0 <==> base == 0
  {
  }

  /** Over the exact reals the jitter factor stays within `[1, 1.25)`; in
      doubles `1 + random() / 4` can round up to 1.25. */
  lemma JitterBounds(base: int, jitter: real)
    ensures 0.0 <= jitter < 1.0 && base >= 0 ==>
      base as real <= Jittered(base, jitter) <= base as real * 1.25
    ensures 0.0 <= jitter < 1.0 && base > 0 ==>
      Jittered(base, jitter) < base as real * 1.25
  {
    if 0.0 <= jitter < 1.0 && base >= 0 {
      var b := base as real;
      assert Jittered(base, jitter) == b + b * (jitter / 4.0);
      assert 0.0 <= b * (jitter / 4.0) <= b * 0.25;
      if base > 0 {
        assert b * (jitter / 4.0) < b * 0.25;
      }
    }
  }
}
