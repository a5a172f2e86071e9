# Barbora delivery-slot bot: retry and slot selection

The bot in `barbora_bot.py` logs in to the Barbora grocery web API, fetches the
delivery schedule and sends one Telegram message per available delivery hour.
Two pieces of it carry logic of their own, and this project models both as
pure Dafny functions and proves their behaviour:

- **The `retry` decorator** (`backoff.dfy`, `retry.dfy`). The HTTP calls go
  through it. It invokes the wrapped function up to `retry_count` times. It
  swallows only the exceptions in `allowed_exceptions`, which here are
  connection errors and timeouts. Between attempts it sleeps
  `pow(backoff, attempt) * base_delay * (1 + random() / 4)`. On the last
  attempt it re-raises the transient failure. Any other exception escapes at
  once, and so does the `ValueError` that `time.sleep` raises for a negative
  length.
  The wrapped function is an oracle `op: nat -> Outcome`. `op(i)` says what the
  `i`-th invocation does: `Ok(v)`, `Transient(e)` (an allowed exception) or
  `Fatal(e)` (any other). `Retry.Wrapper` returns a `Run`. A `Run` records how
  the call completed, how many invocations were made, and the base delay of
  every sleep performed. The completion is one of four cases:
  - `Returned(v)`: the operation returned `v`, which may itself be `None`.
  - `Raised(e)`: an exception from the operation escaped.
  - `ReturnedNone`: the loop fell through without returning.
  - `SleepRejected`: a sleep's `ValueError` escaped.
- **Slot selection** in the `__main__` block (`values.dfy`, `slots.dfy`). If
  the response's `ok` flag is set, the bot walks `deliveries[0].params.matrix`
  day by day and hour by hour. Each hour record with a truthy `available`
  yields the message `"{deliveryTime} :: {available}"`. Hour values are a
  small Python value type (`None`, bool, int, str), so `dict.get` on a missing
  key, Python truthiness and `str()` are explicit.

Modelling choices:
- `retry_count` is an `int`. Python's `range` of a non-positive count is
  empty, so the wrapper then falls through and returns `None` without calling
  anything.
- Delays are kept as integer bases `pow(backoff, i) * base_delay`.
- Jitter is an oracle `jitter: nat -> real` of exact reals. `Backoff.SleepDurations`
  scales each base by `1 + jitter / 4`. That factor is positive, so a sleep is
  negative exactly when its base is (`Backoff.JitterKeepsSign`). Whether
  `time.sleep` rejects a sleep therefore depends on the base alone.
- `deliveries[0]` on an empty list raises `IndexError`, and the model returns
  `Slots.IndexError` for it.
- `ok` is the HTTP response's `ok` property, true for a status below 400. It is
  not a field of the JSON body. The script calls `raise_for_status()` at
  line 135 before testing it at line 144, so there it is always true and the
  not-ok branch is dead code. The model keeps that branch as written.

`response.raise_for_status()` runs after the retried `request` returns, at
lines 123 and 135. So an HTTP error status is never retried. In the oracle view
it is simply not an outcome of the wrapped operation.

## Model

| member | source | states |
|---|---|---|
| Retry.Loop | barbora_bot.py:46-53 | From iteration `attempt`, the loop conforms to the declarative run description. It invokes attempts in order and never past `retry_count`. Every attempt but the last failed transiently and was followed by an accepted sleep with base `pow(backoff, i) * base_delay`. The last outcome decides the completion. A transient failure ends the run on the last permitted attempt (re-raised) or when the sleep after it is negative (`ValueError`). |
| Retry.Wrapper | barbora_bot.py:45-54 | A call makes at most `max(retry_count, 0)` invocations. It sleeps one time fewer than it invokes, or not at all when nothing is invoked. Every sleep performed has a non-negative base. The loop falls through (`ReturnedNone`) exactly when `retry_count <= 0`. A rejected sleep implies some base up to that attempt was negative. |
| Retry.ConformsUnique | barbora_bot.py:46-53 | The declarative run description determines the run uniquely, so it is a complete specification of the loop. |
| Retry.SettlesAt | barbora_bot.py:46-53 | Suppose attempts before `k < retry_count` fail transiently and attempt `k` does not. If the sleeps before `k` are accepted, the run makes exactly `k + 1` invocations. Otherwise it ends earlier with the sleep's `ValueError`. |
| Retry.SuccessAfterTransients | barbora_bot.py:46-53 | Suppose transient failures come before attempt `k < retry_count` and attempt `k` succeeds. With accepted sleeps the wrapper returns that value after exactly `k + 1` invocations, with `k` sleeps of bases `pow(backoff, 0..k-1) * base_delay`. Otherwise a rejected sleep's `ValueError` escapes before attempt `k`. |
| Retry.FatalEscapes | barbora_bot.py:46-53 | A non-allowed exception at attempt `k` is raised at once, with no later invocation and no sleep after it. A rejected sleep before attempt `k` escapes first. |
| Retry.ExhaustionReraisesLast | barbora_bot.py:46-53 | If all `retry_count` attempts fail transiently and the sleeps are accepted, the last failure is re-raised after exactly `retry_count` invocations and `retry_count - 1` sleeps. Otherwise a rejected sleep's `ValueError` escapes earlier. |
| Retry.RejectedSleepEscapes | barbora_bot.py:50-53 | A negative sleep after a non-final transient failure at attempt `j` ends the call with the `ValueError`, after `j + 1` invocations and the `j` accepted sleeps before it. |
| Retry.NegativeBaseDelayExample | barbora_bot.py:39-53 | With `base_delay = -1` and three transient failures, the call ends after one invocation with the sleep's `ValueError`, and nothing is slept. |
| Retry.NoAttemptsReturnsNone | barbora_bot.py:45-46 | With `retry_count <= 0` the operation is never invoked, nothing is slept and the loop falls through to `None`. |
| Retry.LoopObservesOnlyItsAttempts | barbora_bot.py:46-48 | The run from any iteration depends only on the outcomes of the attempts it made. An oracle that differs only at later attempts gives the same run. |
| Retry.WrapperObservesOnlyItsAttempts | barbora_bot.py:45-48 | No attempt beyond the ones counted in `attempts` ever influences the call. |
| Retry.DelaysGrow | barbora_bot.py:50-53 | Each sleep's base is exactly `backoff` times the previous one. With `backoff >= 1` the bases are non-decreasing and at least `base_delay`; a negative `base_delay` then leaves no sleep at all. |
| Retry.DefaultPolicyExhaustion | barbora_bot.py:39-53 | With the defaults (3 attempts, base 1, backoff 2), three transient failures re-raise the third after sleeps with bases 1 and 2. |
| Backoff.SleepAccepted | barbora_bot.py:53 | Definition without a contract: whether `time.sleep` accepts the sleep after attempt `i`, which holds exactly when its base is non-negative; otherwise it raises `ValueError`. |
| Backoff.Jittered | barbora_bot.py:50 | Definition without a contract: the full sleep length `base * (1 + jitter / 4)` for a jitter draw. |
| Backoff.BaseDelay | barbora_bot.py:50 | Definition without a contract: the base `pow(backoff, attempt) * base_delay` of the sleep after attempt `attempt`. Its properties are the rows below. |
| Backoff.BaseDelayRatio | barbora_bot.py:50 | The base delay after attempt `i + 1` is `backoff` times the one after attempt `i`. |
| Backoff.BaseDelayMonotone | barbora_bot.py:50 | With `backoff >= 1` and `base_delay >= 0`, base delays never decrease with the attempt index, and the first one is `base_delay`. |
| Backoff.NonNegativePolicyAcceptsSleeps | barbora_bot.py:57 | With a non-negative base delay and backoff, as in every decoration of the file, no sleep is ever rejected. |
| Backoff.JitterKeepsSign | barbora_bot.py:50-53 | For a jitter draw in [0, 1), the sleep passed to `time.sleep` is negative exactly when its base is, and zero exactly when its base is. |
| Backoff.JitterBounds | barbora_bot.py:50 | For a jitter draw in [0, 1) and a non-negative base, the exact-real `base * (1 + jitter / 4)` lies in [base, 1.25 * base]. Over the reals the upper bound is strict for a positive base. |
| Backoff.SleepDurations | barbora_bot.py:50-53 | The modelled (exact-real) length of sleep `j` is base `j` scaled by jitter draw `j`. For a draw in [0, 1) and a non-negative base it lies in [base, 1.25 * base], and over the reals strictly below 1.25 * base when the base is positive. |
| PyValue.Truthy | barbora_bot.py:148 | An hour value is truthy unless it is exactly `None`, `False`, `0` or `""`. |
| PyValue.Decimal | barbora_bot.py:149 | `str()` of a natural number is a non-empty digit string with no leading zero (a leading `0` only in "0" itself), and its digits spell the number back. |
| PyValue.ToStr | barbora_bot.py:149 | The f-string conversion gives "None", "True"/"False", the string itself, or a decimal spelling. The decimal spelling starts with a minus sign exactly for a negative integer. After the sign come only decimal digits with no leading zero, and they read back as that integer. |
| Slots.Message | barbora_bot.py:149 | Definition without a contract: the text `"{deliveryTime} :: {available}"` for one hour record. |
| Slots.HourMessages | barbora_bot.py:147-149 | Definition without a contract: the inner loop over one day's hours. Its properties are stated by `Slots.HourMessagesEnumerate`. |
| Slots.MatrixMessages | barbora_bot.py:146-149 | Definition without a contract: the outer loop over the days. Its properties are stated by the `Slots.Matrix*` lemmas. |
| Slots.HourSlotsSourced | barbora_bot.py:147-149 | Each hour the inner loop visits is an available hour of that day, and its message is built from that hour's record. |
| Slots.HourSlotsOrdered | barbora_bot.py:147 | The inner loop visits a day's hours in strictly increasing index order. |
| Slots.HourSlotsComplete | barbora_bot.py:147-148 | The inner loop misses no hour record whose `available` is truthy. |
| Slots.HourMessagesEnumerate | barbora_bot.py:147-149 | The inner loop emits one message per hour record with truthy `available`, in hour order, each built from that record. |
| Slots.MatrixMessagesSourced | barbora_bot.py:146-149 | Each emitted message comes from an available hour record of the matrix and is formatted `"{deliveryTime} :: {available}"` from it. |
| Slots.MatrixSlotsInOrder | barbora_bot.py:146-147 | Messages follow day order, then hour order within a day, and no record is used twice. |
| Slots.MatrixSlotsComplete | barbora_bot.py:146-148 | Every hour record with truthy `available` in the matrix yields a message. |
| Slots.EnumeratesUnique | barbora_bot.py:146-149 | At most one message list and one position list satisfy the enumeration description of a matrix, so it fixes the notifications completely. |
| Slots.MatrixMessagesEnumerate | barbora_bot.py:146-149 | The messages are exactly the available hour records, each once, in day-then-hour order. |
| Slots.Notifications | barbora_bot.py:144-149 | A response whose `ok` flag is false yields no notification. An ok response with no deliveries raises `IndexError`. Otherwise the notifications enumerate the available hours of the first delivery's matrix. |
| Slots.CollectNotifications | barbora_bot.py:144-149 | The nested `for` loops, appending one message per available hour, compute the same result as `Notifications`. |
| Slots.OnlyFirstDeliveryRead | barbora_bot.py:145 | Only `deliveries[0]` is read. Responses that agree on `ok` and on the first delivery produce the same notifications. |
| Slots.SingleSlotExample | barbora_bot.py:144-149 | A response with a single available hour "08:00-10:00" produces exactly the notification "08:00-10:00 :: True". |

## Left out

- Retry.Loop: does not model the `OverflowError` that `int * float` raises at line 50 once a base delay is too large for a float, positive or negative, on any transient failure including the last. A very large negative sleep therefore raises `OverflowError` rather than the `ValueError` that `SleepRejected` stands for. The same holds when the base fits a float but the length is below about -9.2e9 seconds, which `time.sleep` rejects with `OverflowError`. Nor does it model the `OverflowError` that `time.sleep` raises past its timestamp range; with the defaults that starts around attempt 33. All of these need CPython's float and clock limits.
- Retry.Wrapper: inherits the missing `OverflowError` paths of `Retry.Loop`.
- Retry.RejectedSleepEscapes: a negative base beyond float range, or a sleep below about -9.2e9 seconds, raises `OverflowError` in the source instead of the `ValueError` this lemma states. Not modelled, as for `Retry.Loop`.
- Retry.SettlesAt: with a huge retry count and base delays beyond float range, the source can raise `OverflowError` before attempt `k`. Not modelled, as for `Retry.Loop`.
- Retry.SuccessAfterTransients: the same unmodelled `OverflowError` can replace the return when the bases before attempt `k` exceed float or timestamp range.
- Retry.FatalEscapes: the same unmodelled `OverflowError` can escape before attempt `k`.
- Retry.ExhaustionReraisesLast: the same unmodelled `OverflowError` can replace the re-raise, even on the last attempt, where line 50 still computes the delay.
- Argument parsing (`arg_parser`, lines 9-36) is left out: it is argparse configuration with no logic of its own.
- The `BarboraLt` session, headers and cookie jar (lines 72-96) are left out: they are fixed settings of the HTTP library.
- The network calls are not modelled (lines 57-67, 98-136).
  - `send_message` and `BarboraLt.request` are decorated, so each is a `Retry.Wrapper` around an oracle.
  - `login` and `get_delivery_dates` are not decorated. Each calls the retried `request` and then `raise_for_status`, outside the retry.
- `time.sleep` is left out. A sleep appears only as the entry in `Run.delays`, and its length as `Backoff.SleepDurations`. Its `ValueError` for a negative length is modelled as `SleepRejected`.
- `random()` is left out. Jitter is an arbitrary real oracle, and the bounds assume draws in [0, 1).
- Floating-point arithmetic is not modelled. Delays use integer `base_delay` and `backoff`, and durations are exact reals.
- Backoff.JitterBounds: in IEEE doubles `1 + random() / 4` rounds to exactly 1.25 for draws of at least 1 - 2^-51, so the source's factor lies in [1, 1.25]. The strict upper bound holds only for the exact-real model.
- Backoff.SleepDurations: for the same rounding, a real sleep can last exactly 1.25 * base (3.75 s for base 3). The strict bound below 1.25 * base holds only for the exact-real durations.
- The classification of exceptions by `allowed_exceptions` (an `isinstance` test) is not modelled. It appears only as the `Transient`/`Fatal` tag on each oracle outcome.
- JSON decoding of the response (line 145) is not modelled. The decoded body is given directly as the `Response` datatype. So `KeyError` for missing `deliveries`, `params`, `matrix` or `hours` keys is not modelled. Only the `IndexError` of an empty `deliveries` list is.
- Hour values that are JSON floats, lists or objects are not modelled. Only `None`, booleans, integers and strings are.
- Sending the notifications is not modelled. Each message goes through the retried `send_message`, and a failure after retries ends the run. The model stops at the list of messages to send.
