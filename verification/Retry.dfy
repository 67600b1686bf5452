/** Retry with exponential backoff (`with_retry` in `retry.rs`). */
module Retry {

  datatype Attempt<+T> = Succeeded(value: T) | Failed(message: string)

  datatype ErrorClass = Transport | TransientHttp | Auth

  datatype CallOutcome<+T> =
    | Success(value: T, retryCount: nat)
    | TransportFailure(error: string, retryCount: nat)
    | AuthFailure(error: string)
    /** The `unreachable!` after the loop. */
    | Unreachable

  const MAX_TOTAL_RETRY_MS: nat := 60000

  function Pow2(n: nat): nat
  {
    if n == 0 then 1 else 2 * Pow2(n - 1)
  }

  function Min(x: int, y: int): int { if x <= y then x else y }

  function Max(x: int, y: int): int { if x >= y then x else y }

  /** The wait before capping: 1s, 2s, 4s, ... up to 16s, off by up to a quarter either way as the
      clock's nanoseconds decide. */
  function Delay(retryCount: nat, nanos: nat): nat
  {
    var base := Min(1000 * Pow2(retryCount), 16000);
    var jitter := base / 4;
    Max(base + nanos % (jitter * 2 + 1) - jitter, 100)
  }

  /** Total time slept after k retries. */
  ghost function Slept(nanos: nat -> nat, k: nat): (r: nat)
    ensures r <= MAX_TOTAL_RETRY_MS
  {
    if k == 0 then 0
    else
      var t := Slept(nanos, k - 1);
      t + Min(Delay(k - 1, nanos(k - 1)), MAX_TOTAL_RETRY_MS - t)
  }

  /** Attempt i failed in a way worth repeating, with time left to sleep. */
  ghost predicate Retried<T>(calls: nat -> Attempt<T>, classify: string -> ErrorClass, nanos: nat -> nat, i: nat)
  {
    && i >= 1 && calls(i).Failed? && classify(calls(i).message) != Auth
    && Slept(nanos, i - 1) < MAX_TOTAL_RETRY_MS
  }

  /** The loop. calls(i) is the outcome of attempt i, counted from 1, and nanos(k) the clock reading
      before retry k + 1. Also returned: the attempts made, the time slept, and the largest exponent
      that 2 was raised to. */
  method WithRetry<T>(maxAttempts: nat, calls: nat -> Attempt<T>, classify: string -> ErrorClass, nanos: nat -> nat)
    returns (outcome: CallOutcome<T>, made: nat, slept: nat, largest: nat)
    ensures outcome.Unreachable? <==> maxAttempts == 0
    ensures made <= maxAttempts && made <= 10 && largest <= 8
    ensures maxAttempts > 0 ==> made >= 1 && slept == Slept(nanos, made - 1) <= MAX_TOTAL_RETRY_MS
    ensures forall i: nat :: 1 <= i < made ==> Retried(calls, classify, nanos, i)
    ensures match outcome
            case Success(value, retries) => calls(made) == Succeeded(value) && retries == made - 1
            case AuthFailure(error) => calls(made) == Failed(error) && classify(error) == Auth
            case TransportFailure(error, retries) =>
              && calls(made) == Failed(error) && classify(error) != Auth && retries == made - 1
              && (made == maxAttempts || slept == MAX_TOTAL_RETRY_MS)
            case Unreachable => made == 0
  {
    hide Slept, Delay, LeastDelay, LeastTotal;
    SleptStep(nanos, 0);
    var retryCount := 0;
    made, slept, largest := 0, 0, 0;
    var attempt := 1;
    while attempt <= maxAttempts
      invariant 1 <= attempt <= maxAttempts + 1
      invariant made == attempt - 1 == retryCount <= 9
      invariant slept == Slept(nanos, retryCount)
      invariant maxAttempts == 0 || attempt <= maxAttempts
      invariant largest <= 8
      invariant forall i: nat :: 1 <= i < attempt ==> Retried(calls, classify, nanos, i)
      decreases maxAttempts - attempt
    {
      made := attempt;
      var result := calls(attempt);
      if result.Succeeded? {
        return Success(result.value, retryCount), made, slept, largest;
      }
      if classify(result.message) == Auth {
        return AuthFailure(result.message), made, slept, largest;
      }
      if attempt >= maxAttempts || slept >= MAX_TOTAL_RETRY_MS {
        return TransportFailure(result.message, retryCount), made, slept, largest;
      }
      assert Retried(calls, classify, nanos, attempt);
      SleptEnough(nanos, retryCount);
      SleptStep(nanos, retryCount);
      largest := if retryCount > largest then retryCount else largest;
      var delay := Delay(retryCount, nanos(retryCount));
      delay := Min(delay, MAX_TOTAL_RETRY_MS - slept);
      retryCount := retryCount + 1;
      slept := slept + delay;
      attempt := attempt + 1;
    }
    return Unreachable, made, slept, largest;
  }

  lemma SleptStep(nanos: nat -> nat, k: nat)
    ensures Slept(nanos, 0) == 0
    ensures Slept(nanos, k + 1) == Slept(nanos, k) + Min(Delay(k, nanos(k)), MAX_TOTAL_RETRY_MS - Slept(nanos, k))
  {
  }

  lemma {:induction false} PowAtLeast16(n: nat)
    requires n >= 4
    ensures Pow2(n) >= 16
  {
    if n > 4 {
      PowAtLeast16(n - 1);
    } else {
    }
  }

  /** The shortest wait before retry k + 1. */
  function LeastDelay(k: nat): nat
  {
    if k == 0 then 750 else if k == 1 then 1500 else if k == 2 then 3000 else if k == 3 then 6000 else 12000
  }

  lemma DelayAtLeast(k: nat, nanos: nat)
    ensures LeastDelay(k) <= Delay(k, nanos) <= 20000
    ensures Delay(k, 0) == LeastDelay(k)
  {
    if k >= 4 {
      PowAtLeast16(k);
    }
  }

  function LeastTotal(k: nat): nat
  {
    if k == 0 then 0 else LeastTotal(k - 1) + LeastDelay(k - 1)
  }

  /** The time slept is at least the sum of the shortest waits, unless the cap has been reached. */
  lemma {:induction false} SleptAtLeast(nanos: nat -> nat, k: nat)
    ensures Slept(nanos, k) >= Min(LeastTotal(k), MAX_TOTAL_RETRY_MS)
  {
    if k > 0 {
      SleptAtLeast(nanos, k - 1);
      DelayAtLeast(k - 1, nanos(k - 1));
    }
  }

  lemma {:induction false} LeastTotalGrows(j: nat, k: nat)
    requires j <= k
    ensures LeastTotal(j) <= LeastTotal(k)
    decreases k - j
  {
    if j < k {
      LeastTotalGrows(j, k - 1);
    }
  }

  lemma LeastTotals()
    ensures LeastTotal(8) == 59250 && LeastTotal(9) == 71250
  {
    assert LeastTotal(4) == 11250;
    assert LeastTotal(6) == 35250;
    assert LeastTotal(8) == 59250;
  }

  /** Nine retries always use up the whole allowance, whatever the jitter. */
  lemma SleptEnough(nanos: nat -> nat, k: nat)
    ensures k >= 9 ==> Slept(nanos, k) == MAX_TOTAL_RETRY_MS
  {
    if k >= 9 {
      SleptAtLeast(nanos, k);
      LeastTotals();
      LeastTotalGrows(9, k);
    }
  }

  function LeastJitter(): nat -> nat
  {
    (k: nat) => 0
  }

  lemma {:induction false} SleptLeast(k: nat)
    ensures Slept(LeastJitter(), k) == Min(LeastTotal(k), MAX_TOTAL_RETRY_MS)
  {
    if k > 0 {
      SleptLeast(k - 1);
      DelayAtLeast(k - 1, 0);
    }
  }

  /** The bound of ten calls is attained: with the least jitter the allowance outlasts eight retries,
      and nine retries sleep exactly sixty seconds. */
  lemma TenCallsHappen(k: nat)
    requires k <= 8
    ensures Slept(LeastJitter(), k) < MAX_TOTAL_RETRY_MS
    ensures Slept(LeastJitter(), k + 1) == MAX_TOTAL_RETRY_MS <==> k == 8
  {
    hide Slept, LeastTotal;
    LeastTotals();
    SleptLeast(k);
    SleptLeast(k + 1);
    LeastTotalGrows(k, 8);
    if k < 8 {
      LeastTotalGrows(k + 1, 8);
    }
  }

  /** A run of ten calls: with every attempt failing in transport, the least jitter and ten attempts or
      more allowed, exactly ten are made; with fewer allowed, all of them. */
  method KeepFailing(maxAttempts: nat, message: string) returns (outcome: CallOutcome<bool>, made: nat)
    ensures made == Min(maxAttempts, 10)
    ensures maxAttempts >= 1 ==> outcome == TransportFailure(message, made - 1)
  {
    hide Slept, Delay, LeastDelay, LeastTotal, Retried;
    var slept, largest;
    outcome, made, slept, largest :=
      WithRetry(maxAttempts, (i: nat) => Failed(message), (error: string) => Transport, LeastJitter());
    if 1 <= made <= 9 {
      TenCallsHappen(made - 1);
    }
  }

  /** Main result for the waits: before retry k + 1 the wait is one of the values within a quarter of 1, 2, 4,
      8 and then always 16 seconds, to the millisecond, and each of them occurs. */
  lemma DelayMeans(k: nat, d: nat)
    ensures var base := if k == 0 then 1000 else if k == 1 then 2000 else if k == 2 then 4000
                        else if k == 3 then 8000 else 16000;
            (exists nanos: nat :: Delay(k, nanos) == d) <==> 3 * base <= 4 * d <= 5 * base
  {
    var base: nat := if k == 0 then 1000 else if k == 1 then 2000 else if k == 2 then 4000
                     else if k == 3 then 8000 else 16000;
    forall nanos: nat ensures Delay(k, nanos) == base + nanos % (base / 4 * 2 + 1) - base / 4 {
      DelayIs(k, nanos, base);
    }
    hide Delay;
    if 3 * base <= 4 * d <= 5 * base {
      var nanos: nat := d - base + base / 4;
      SmallRemainder(nanos, base / 4 * 2 + 1);
      assert Delay(k, nanos) == d;
    }
  }

  lemma SmallRemainder(x: nat, m: nat)
    requires x < m
    ensures x % m == x
  {
  }

  lemma DelayIs(k: nat, nanos: nat, base: nat)
    requires base == if k == 0 then 1000 else if k == 1 then 2000 else if k == 2 then 4000
                     else if k == 3 then 8000 else 16000
    ensures Delay(k, nanos) == base + nanos % (base / 4 * 2 + 1) - base / 4
  {
    if k >= 4 {
      PowAtLeast16(k);
    }
    assert Pow2(1) == 2 && Pow2(2) == 4 && Pow2(3) == 8;
    hide Pow2;
    assert base == Min(1000 * Pow2(k), 16000);
  }

  /** The time slept is the sum of the waits, cut at sixty seconds. */
  lemma {:induction false} SleptMeans(nanos: nat -> nat, k: nat, waits: nat -> nat)
    requires waits(0) == 0
    requires forall i: nat :: waits(i + 1) == waits(i) + Delay(i, nanos(i))
    ensures Slept(nanos, k) == if waits(k) <= 60000 then waits(k) else 60000
  {
    if k > 0 {
      SleptMeans(nanos, k - 1, waits);
      assert waits(k - 1 + 1) == waits(k - 1) + Delay(k - 1, nanos(k - 1));
    }
  }
}
