/**
 * utils.retry_with_backoff: calls a function until it returns, sleeping
 * between attempts for exponentially growing delays.
 *
 * The function is modelled by what its k-th call does (`func(k)`), and the
 * `exceptions` tuple by the predicate `caught`. Sleeping is recorded, not
 * performed: the method returns the delays it would sleep, in order.
 */
module Retry {
  import opened Wrappers

  datatype Outcome<T, E> = Returned(value: T) | Raised(error: E)

  /**
   * What the call ends with: the function's value, or an exception. `Failed(None)`
   * is the `TypeError` of `raise None`, which happens when no attempt is made.
   */
  datatype RetryResult<T, E> = Success(value: T) | Failed(error: Option<E>)

  function Pow(x: real, n: nat): real {
    if n == 0 then 1.0 else x * Pow(x, n - 1)
  }

  /** The first `n` delays: `base * multiplier^k` before attempt `k + 1`. */
  function Schedule(base: real, multiplier: real, n: nat): (s: seq<real>)
    ensures |s| == n
  {
    if n == 0 then [] else Schedule(base, multiplier, n - 1) + [base * Pow(multiplier, n - 1)]
  }

  /** Before attempt `k + 1` the call sleeps `base * multiplier^k`. */
  lemma {:induction false} ScheduleAt(base: real, multiplier: real, n: nat, k: nat)
    requires k < n
    ensures Schedule(base, multiplier, n)[k] == base * Pow(multiplier, k)
  {
    if k < n - 1 {
      ScheduleAt(base, multiplier, n - 1, k);
    }
  }

  function Sum(s: seq<real>): real {
    if s == [] then 0.0 else Sum(s[..|s| - 1]) + s[|s| - 1]
  }

  /** The attempt with index `k` failed with an exception the caller catches. */
  predicate CaughtFailure<T, E>(func: nat -> Outcome<T, E>, caught: E -> bool, k: nat) {
    func(k).Raised? && caught(func(k).error)
  }

  /** utils.retry_with_backoff. */
  method RetryWithBackoff<T, E>(func: nat -> Outcome<T, E>, caught: E -> bool, maxRetries: int,
                                baseDelay: real, multiplier: real)
    returns (r: RetryResult<T, E>, attempts: nat, sleeps: seq<real>)
    ensures maxRetries < 0 ==> attempts == 0 && r == Failed(None)
    ensures maxRetries >= 0 ==> 1 <= attempts <= maxRetries + 1
    ensures forall k :: 0 <= k < attempts - 1 ==> CaughtFailure(func, caught, k)
    ensures attempts >= 1 && func(attempts - 1).Returned? ==> r == Success(func(attempts - 1).value)
    ensures attempts >= 1 && func(attempts - 1).Raised? ==>
      r == Failed(Some(func(attempts - 1).error))
      && (!caught(func(attempts - 1).error) || attempts == maxRetries + 1)
    ensures sleeps == Schedule(baseDelay, multiplier, if attempts == 0 then 0 else attempts - 1)
  {
    var lastError: Option<E> := None;
    sleeps := [];
    attempts := 0;
    var attempt := 0;
    while attempt < maxRetries + 1
      invariant 0 <= attempt <= if maxRetries < 0 then 0 else maxRetries + 1
      invariant attempts == attempt
      invariant forall k :: 0 <= k < attempt ==> CaughtFailure(func, caught, k)
      invariant attempt == 0 ==> lastError == None
      invariant attempt > 0 ==> func(attempt - 1).Raised? && lastError == Some(func(attempt - 1).error)
      invariant sleeps == Schedule(baseDelay, multiplier, if 0 < attempt == maxRetries + 1 then attempt - 1 else attempt)
    {
      attempts := attempt + 1;
      match func(attempt)
      case Returned(v) =>
        r := Success(v);
        return;
      case Raised(e) =>
        if !caught(e) {
          r := Failed(Some(e));
          return;
        }
        lastError := Some(e);
        if attempt < maxRetries {
          var delay := baseDelay * Pow(multiplier, attempt);
          sleeps := sleeps + [delay];
          assert sleeps == Schedule(baseDelay, multiplier, attempt + 1);
        }
      attempt := attempt + 1;
    }
    r := Failed(lastError);
  }

  /**
   * The first `n` delays add up to the geometric sum
   * `base * (multiplier^n - 1) / (multiplier - 1)`, stated without the division.
   */
  predicate GeometricTotal(base: real, multiplier: real, n: nat) {
    Mul(Sum(Schedule(base, multiplier, n)), multiplier - 1.0) == Mul(base, Pow(multiplier, n) - 1.0)
  }

  /** A product kept as a term of its own, so that sums are matched without arithmetic. */
  function Mul(x: real, y: real): real {
    x * y
  }

  lemma {:induction false} TotalBackoff(base: real, multiplier: real, n: nat)
    ensures GeometricTotal(base, multiplier, n)
    decreases n
  {
    if n == 0 {
      NoBackoff(base, multiplier);
    } else {
      TotalBackoff(base, multiplier, n - 1);
      BackoffStep(base, multiplier, n);
    }
  }

  lemma NoBackoff(base: real, multiplier: real)
    ensures GeometricTotal(base, multiplier, 0)
  {
    assert Schedule(base, multiplier, 0) == [] && Pow(multiplier, 0) == 1.0;
  }

  /** One step of the geometric sum, from `n - 1` delays to `n`. */
  lemma BackoffStep(base: real, multiplier: real, n: nat)
    requires n > 0 && GeometricTotal(base, multiplier, n - 1)
    ensures GeometricTotal(base, multiplier, n)
  {
    SumScheduleStep(base, multiplier, n);
    GeometricStep(Sum(Schedule(base, multiplier, n)), Sum(Schedule(base, multiplier, n - 1)), base,
                  Pow(multiplier, n - 1), Pow(multiplier, n), multiplier);
  }

  lemma GeometricStep(total: real, sum: real, base: real, p: real, q: real, m: real)
    requires total == sum + base * p && q == m * p
    requires Mul(sum, m - 1.0) == Mul(base, p - 1.0)
    ensures Mul(total, m - 1.0) == Mul(base, q - 1.0)
  {
    assert (sum + base * p) * (m - 1.0) == sum * (m - 1.0) + base * p * (m - 1.0);
  }

  lemma SumScheduleStep(base: real, multiplier: real, n: nat)
    requires n > 0
    ensures Sum(Schedule(base, multiplier, n)) == Sum(Schedule(base, multiplier, n - 1)) + base * Pow(multiplier, n - 1)
  {
    var s := Schedule(base, multiplier, n);
    assert s[..n - 1] == Schedule(base, multiplier, n - 1);
  }

  /** With the defaults (three retries, 1 s doubling), a call that never succeeds sleeps 1, 2 and 4 seconds. */
  lemma DefaultSchedule()
    ensures Schedule(1.0, 2.0, 3) == [1.0, 2.0, 4.0]
    ensures Sum(Schedule(1.0, 2.0, 3)) == 7.0
  {
    TotalBackoff(1.0, 2.0, 3);
  }
}
