/**
 * `retryOperation`: run an operation up to `maxRetries` times, sleeping
 * `delay * (i + 1)` ms after the failed attempt `i` when another attempt
 * follows, and rethrow the last error once the attempts are exhausted.
 * The operation is the attempt-indexed outcome `op(i)`; the sleeps are
 * returned as a sequence instead of being performed.
 */
module Retry {
  import opened Wrappers

  /** `result` fails with the last error, or with `None` (JavaScript `null`) when nothing ran. */
  datatype Outcome<T, E> = Outcome(result: Result<T, Option<E>>, attempts: nat, waits: seq<int>)

  function Max0(n: int): nat
  {
    if n < 0 then 0 else n
  }

  /** The loop from attempt `i` on, `last` being the error of attempt `i - 1`. */
  function RetryFrom<T, E>(op: nat -> Result<T, E>, maxRetries: int, delay: int, i: nat, last: Option<E>): (r: Outcome<T, E>)
    requires i <= Max0(maxRetries)
    requires i == 0 ==> last.None?
    requires i > 0 ==> op(i - 1).Failure? && last == Some(op(i - 1).error)
    ensures i <= r.attempts <= Max0(maxRetries)
    ensures i < Max0(maxRetries) ==> i < r.attempts
    ensures |r.waits| == Max0(r.attempts - 1 - i)
    ensures forall j :: 0 <= j < |r.waits| ==> r.waits[j] == delay * (i + j + 1)
    ensures forall j :: i <= j < r.attempts - 1 ==> op(j).Failure?
    ensures r.result.Success? ==> r.attempts > i && op(r.attempts - 1) == Success(r.result.value)
    ensures r.result.Failure? ==> r.attempts == Max0(maxRetries)
    ensures r.result.Failure? && r.attempts > 0 ==> op(r.attempts - 1).Failure? && r.result.error == Some(op(r.attempts - 1).error)
    ensures r.result.Failure? && r.attempts == 0 ==> r.result.error.None?
    decreases maxRetries - i
  {
    if i >= maxRetries then Outcome(Failure(last), i, [])
    else match op(i)
      case Success(v) => Outcome(Success(v), i + 1, [])
      case Failure(e) =>
        var rest := RetryFrom(op, maxRetries, delay, i + 1, Some(e));
        var wait := if i < maxRetries - 1 then [delay * (i + 1)] else [];
        Outcome(rest.result, rest.attempts, wait + rest.waits)
  }

  /**
   * At most `maxRetries` attempts; the first success is returned; a wait
   * separates consecutive attempts only, the `j`-th lasting `delay * (j + 1)`.
   */
  function RetryOperation<T, E>(op: nat -> Result<T, E>, maxRetries: int, delay: int): (r: Outcome<T, E>)
    ensures r.attempts <= Max0(maxRetries)
    ensures maxRetries >= 1 ==> r.attempts >= 1
    ensures |r.waits| == Max0(r.attempts - 1)
    ensures forall j :: 0 <= j < |r.waits| ==> r.waits[j] == delay * (j + 1)
    ensures forall j :: 0 <= j < r.attempts - 1 ==> op(j).Failure?
    ensures r.result.Success? ==> r.attempts >= 1 && op(r.attempts - 1) == Success(r.result.value)
    ensures r.result.Failure? ==> r.attempts == Max0(maxRetries)
    ensures r.result.Failure? && r.attempts > 0 ==> op(r.attempts - 1).Failure? && r.result.error == Some(op(r.attempts - 1).error)
    ensures r.result.Failure? && r.attempts == 0 ==> r.result.error.None?
  {
    RetryFrom(op, maxRetries, delay, 0, None)
  }

  /** The retries fail exactly when every one of the `maxRetries` attempts fails. */
  lemma FailsIffEveryAttemptFails<T, E>(op: nat -> Result<T, E>, maxRetries: int, delay: int)
    ensures RetryOperation(op, maxRetries, delay).result.Failure? <==> forall i: nat :: i < maxRetries ==> op(i).Failure?
  {
    var r := RetryOperation(op, maxRetries, delay);
    if r.result.Failure? {
      forall i: nat | i < maxRetries ensures op(i).Failure? {
        if i < r.attempts - 1 {
        } else {
          assert i == r.attempts - 1;
        }
      }
    } else {
      assert op(r.attempts - 1).Success?;
    }
  }

  /** Total time slept before attempt `i`: `delay * (1 + 2 + ... + i)`. */
  function Waited(i: nat, delay: int): int
  {
    if i == 0 then 0 else Waited(i - 1, delay) + delay * i
  }

  function Sum(s: seq<int>): int
  {
    if |s| == 0 then 0 else Sum(s[..|s| - 1]) + s[|s| - 1]
  }

  /** The waits before the last attempt add up to `Waited(attempts - 1)`. */
  lemma {:induction false} WaitsAddUp<T, E>(op: nat -> Result<T, E>, maxRetries: int, delay: int)
    ensures var r := RetryOperation(op, maxRetries, delay);
      Sum(r.waits) == Waited(Max0(r.attempts - 1), delay)
  {
    var r := RetryOperation(op, maxRetries, delay);
    PrefixSums(r.waits, delay, |r.waits|);
    assert r.waits[..|r.waits|] == r.waits;
  }

  lemma {:induction false} PrefixSums(w: seq<int>, delay: int, n: nat)
    requires n <= |w|
    requires forall j :: 0 <= j < |w| ==> w[j] == delay * (j + 1)
    ensures Sum(w[..n]) == Waited(n, delay)
  {
    if n > 0 {
      PrefixSums(w, delay, n - 1);
      assert w[..n][..n - 1] == w[..n - 1];
    }
  }
}
