/** RetryService.executeWithRetry: attempts, back-off delays, and which outcome ends the loop. */
module Retry {
  import opened Common

  datatype Failure = Failure(name: string, code: Option<string>)

  datatype Outcome<T> = Returned(value: T) | Threw(error: Failure)

  // Failed of None stands for `throw lastError` before any attempt was made.
  datatype Ending<T> = Success(value: T) | Failed(error: Option<Failure>)

  datatype Config = Config(maxAttempts: int, initialDelay: real, maxDelay: real, backoffMultiplier: real, retryableErrors: seq<string>)

  function Min(a: real, b: real): real {
    if b < a then b else a
  }

  predicate IsRetryable(e: Failure, names: seq<string>) {
    names == [] || e.name in names || (e.code.Some? && e.code.value != "" && e.code.value in names)
  }

  function Pow(x: real, k: nat): real {
    if k == 0 then 1.0 else x * Pow(x, k - 1)
  }

  // The initial delay after k multiplications.
  function Grown(c: Config, k: nat): real {
    if k == 0 then c.initialDelay else Grown(c, k - 1) * c.backoffMultiplier
  }

  lemma {:induction false} GrownIsPower(c: Config, k: nat)
    ensures Grown(c, k) == c.initialDelay * Pow(c.backoffMultiplier, k)
  {
    if k > 0 {
      GrownIsPower(c, k - 1);
      PowUnfold(c.initialDelay, c.backoffMultiplier, k - 1);
    }
  }

  lemma PowUnfold(y: real, m: real, k: nat)
    ensures y * Pow(m, k + 1) == (y * Pow(m, k)) * m
  {
    var p := Pow(m, k);
    assert y * (m * p) == (y * p) * m;
  }

  // The k-th sleep, counting from 1: the initial delay as configured, then the
  // exponential delay capped at the maximum.
  function Delay(c: Config, k: nat): real
    requires k >= 1
  {
    if k == 1 then c.initialDelay else Min(Grown(c, k - 1), c.maxDelay)
  }

  lemma GrowthPastCap(x: real, m: real, cap: real)
    requires m >= 1.0 && 0.0 <= cap <= x
    ensures cap <= x * m && cap <= cap * m
  {
    assert (x - 0.0) * (m - 1.0) >= 0.0;
    assert cap * (m - 1.0) >= 0.0;
  }

  function Grow(c: Config, delay: real): real {
    Min(delay * c.backoffMultiplier, c.maxDelay)
  }

  // The recurrence the loop runs.
  ghost predicate Schedule(c: Config, sleeps: seq<real>) {
    && (sleeps != [] ==> sleeps[0] == c.initialDelay)
    && forall k :: 1 <= k < |sleeps| ==> sleeps[k] == Grow(c, sleeps[k-1])
  }

  // Capping before the next multiplication makes no difference to the capped product.
  lemma CapCommutes(x: real, m: real, cap: real)
    requires m >= 1.0 && cap >= 0.0
    ensures Min(Min(x, cap) * m, cap) == Min(x * m, cap)
  {
    if x > cap {
      GrowthPastCap(x, m, cap);
    }
  }

  lemma DelayRecurrence(c: Config, k: nat)
    requires k >= 1 && c.backoffMultiplier >= 1.0 && c.maxDelay >= 0.0
    ensures Delay(c, k + 1) == Grow(c, Delay(c, k))
  {
    assert Grown(c, k) == Grown(c, k - 1) * c.backoffMultiplier;
    if k == 1 {
      assert Grown(c, 0) == c.initialDelay;
    } else {
      CapCommutes(Grown(c, k - 1), c.backoffMultiplier, c.maxDelay);
    }
  }

  lemma {:induction false} ScheduleIsDelay(c: Config, sleeps: seq<real>, k: nat)
    requires Schedule(c, sleeps) && 1 <= k <= |sleeps|
    requires c.backoffMultiplier >= 1.0 && c.maxDelay >= 0.0
    ensures sleeps[k-1] == Delay(c, k)
  {
    if k > 1 {
      ScheduleIsDelay(c, sleeps, k - 1);
      DelayRecurrence(c, k - 1);
      assert sleeps[k-1] == Grow(c, sleeps[k-2]);
    }
  }

  // The recurrence and the closed form agree once delays do not shrink.
  lemma ScheduleClosedForm(c: Config, sleeps: seq<real>, k: nat)
    requires Schedule(c, sleeps) && 1 <= k <= |sleeps|
    requires c.backoffMultiplier >= 1.0 && c.maxDelay >= 0.0
    ensures sleeps[k-1] == if k == 1 then c.initialDelay else Min(Grown(c, k - 1), c.maxDelay)
    ensures Grown(c, k - 1) == c.initialDelay * Pow(c.backoffMultiplier, k - 1)
  {
    ScheduleIsDelay(c, sleeps, k);
    GrownIsPower(c, k - 1);
  }

  // Every schedule the loop can run is the closed form.
  ghost predicate AlwaysClosedForm(c: Config) {
    forall sleeps, k: nat :: Schedule(c, sleeps) && 1 <= k <= |sleeps| ==> sleeps[k-1] == Delay(c, k)
  }

  ghost predicate NonNegative(c: Config) {
    c.initialDelay >= 0.0 && c.maxDelay >= 0.0 && c.backoffMultiplier >= 0.0
  }

  lemma ProductShrinks(x: real, m: real, cap: real)
    requires 0.0 <= x <= cap && 0.0 <= m <= 1.0
    ensures 0.0 <= x * m <= cap
  {
    assert x * (1.0 - m) >= 0.0;
    assert x * m >= 0.0;
  }

  // Shrinking delays that start below the cap never meet it.
  lemma {:induction false} GrownBelowCap(c: Config, k: nat)
    requires NonNegative(c) && c.backoffMultiplier <= 1.0 && c.initialDelay * c.backoffMultiplier <= c.maxDelay && k >= 1
    ensures 0.0 <= Grown(c, k) <= c.maxDelay
  {
    if k == 1 {
      assert Grown(c, 1) == Grown(c, 0) * c.backoffMultiplier && Grown(c, 0) == c.initialDelay;
      assert c.initialDelay * c.backoffMultiplier >= 0.0;
    } else {
      GrownBelowCap(c, k - 1);
      ProductShrinks(Grown(c, k - 1), c.backoffMultiplier, c.maxDelay);
    }
  }

  lemma {:induction false} ShrinkingBelowCap(c: Config, sleeps: seq<real>, k: nat)
    requires NonNegative(c) && c.backoffMultiplier <= 1.0 && c.initialDelay * c.backoffMultiplier <= c.maxDelay
    requires Schedule(c, sleeps) && 1 <= k <= |sleeps|
    ensures sleeps[k-1] == Grown(c, k - 1) && sleeps[k-1] == Delay(c, k)
  {
    if k > 1 {
      ShrinkingBelowCap(c, sleeps, k - 1);
      GrownBelowCap(c, k - 1);
      assert sleeps[k-1] == Grow(c, sleeps[k-2]);
    }
  }

  lemma {:induction false} GrownNonNegative(c: Config, k: nat)
    requires NonNegative(c)
    ensures Grown(c, k) >= 0.0
  {
    if k > 0 {
      GrownNonNegative(c, k - 1);
    }
  }

  lemma {:induction false} NoDelayAtZeroCap(c: Config, sleeps: seq<real>, k: nat)
    requires NonNegative(c) && c.maxDelay == 0.0 && Schedule(c, sleeps) && 1 <= k <= |sleeps|
    ensures sleeps[k-1] == Delay(c, k) && sleeps[k-1] >= 0.0
  {
    if k > 1 {
      NoDelayAtZeroCap(c, sleeps, k - 1);
      GrownNonNegative(c, k - 1);
      assert sleeps[k-1] == Grow(c, sleeps[k-2]);
      assert sleeps[k-2] * c.backoffMultiplier >= 0.0;
    }
  }

  lemma CapFallsBehind(x: real, m: real, cap: real)
    requires 0.0 <= m < 1.0 && 0.0 < cap < x * m
    ensures cap * m < cap && cap * m < (x * m) * m
  {
    assert m == 0.0 ==> x * m == 0.0;
    var y := x * m;
    assert cap * (1.0 - m) > 0.0;
    assert (y - cap) * m > 0.0;
    assert cap * m < y * m;
  }

  lemma GrownTwice(c: Config)
    ensures Grown(c, 1) == c.initialDelay * c.backoffMultiplier && Grown(c, 2) == (c.initialDelay * c.backoffMultiplier) * c.backoffMultiplier
  {
    assert Grown(c, 0) == c.initialDelay;
    assert Grown(c, 1) == Grown(c, 0) * c.backoffMultiplier;
  }

  lemma CappedSchedule(c: Config, sleeps: seq<real>)
    requires sleeps == [c.initialDelay, c.maxDelay, c.maxDelay * c.backoffMultiplier]
    requires c.maxDelay <= c.initialDelay * c.backoffMultiplier && c.maxDelay * c.backoffMultiplier <= c.maxDelay
    ensures Schedule(c, sleeps)
  {
    assert sleeps[1] == Grow(c, sleeps[0]) && sleeps[2] == Grow(c, sleeps[1]);
  }

  // Once the cap has cut a shrinking delay down, the recurrence falls behind the closed form.
  lemma ThirdSleepDiffers(c: Config)
    requires NonNegative(c) && c.backoffMultiplier < 1.0 && c.initialDelay * c.backoffMultiplier > c.maxDelay > 0.0
    ensures var sleeps := [c.initialDelay, c.maxDelay, c.maxDelay * c.backoffMultiplier];
            Schedule(c, sleeps) && sleeps[2] < Delay(c, 3)
  {
    CapFallsBehind(c.initialDelay, c.backoffMultiplier, c.maxDelay);
    CappedSchedule(c, [c.initialDelay, c.maxDelay, c.maxDelay * c.backoffMultiplier]);
    GrownTwice(c);
  }

  // The closed form holds of every schedule exactly when delays do not shrink, or the second
  // one is not capped, or the cap is zero.
  lemma ClosedFormIff(c: Config)
    requires NonNegative(c)
    ensures AlwaysClosedForm(c) <==>
              c.backoffMultiplier >= 1.0 || c.initialDelay * c.backoffMultiplier <= c.maxDelay || c.maxDelay == 0.0
  {
    if c.backoffMultiplier >= 1.0 || c.initialDelay * c.backoffMultiplier <= c.maxDelay || c.maxDelay == 0.0 {
      forall sleeps, k: nat | Schedule(c, sleeps) && 1 <= k <= |sleeps| ensures sleeps[k-1] == Delay(c, k) {
        if c.backoffMultiplier >= 1.0 {
          ScheduleIsDelay(c, sleeps, k);
        } else if c.maxDelay == 0.0 {
          NoDelayAtZeroCap(c, sleeps, k);
        } else {
          ShrinkingBelowCap(c, sleeps, k);
        }
      }
    } else {
      ThirdSleepDiffers(c);
    }
  }

  // A configuration that meets none of the three: 8, 2, 1 against 8, 2, 2.
  lemma ShrinkingDelaysDiffer()
    ensures exists c: Config, sleeps :: NonNegative(c) && Schedule(c, sleeps) && |sleeps| == 3 && sleeps[2] != Delay(c, 3)
  {
    var c := Config(4, 8.0, 2.0, 0.5, []);
    ThirdSleepDiffers(c);
  }

  function Total(sleeps: seq<real>): real {
    if sleeps == [] then 0.0 else Total(sleeps[..|sleeps|-1]) + sleeps[|sleeps|-1]
  }

  function Times(k: nat, x: real): real {
    if k == 0 then 0.0 else Times(k - 1, x) + x
  }

  lemma {:induction false} TimesIsProduct(k: nat, x: real)
    ensures Times(k, x) == k as real * x
  {
    if k > 0 {
      TimesIsProduct(k - 1, x);
      assert k as real * x == (k - 1) as real * x + x;
    }
  }

  lemma {:induction false} TimesMonotone(j: nat, k: nat, x: real)
    requires j <= k && 0.0 <= x
    ensures Times(j, x) <= Times(k, x)
    decreases k
  {
    if j < k {
      TimesMonotone(j, k - 1, x);
    }
  }

  lemma {:induction false} TotalBound(c: Config, sleeps: seq<real>)
    requires Schedule(c, sleeps) && sleeps != []
    ensures Total(sleeps) <= c.initialDelay + Times(|sleeps| - 1, c.maxDelay)
  {
    var n := |sleeps|;
    if n == 1 {
      assert Total(sleeps[..0]) == 0.0;
    } else {
      TotalBound(c, sleeps[..n-1]);
      assert sleeps[n-1] == Grow(c, sleeps[n-2]) <= c.maxDelay;
    }
  }

  // However many of its attempts are used, a call sleeps no longer than this in all.
  lemma SleepBound(c: Config, sleeps: seq<real>)
    requires Schedule(c, sleeps) && |sleeps| < c.maxAttempts && c.maxAttempts >= 2
    requires c.initialDelay >= 0.0 && c.maxDelay >= 0.0
    ensures Total(sleeps) <= c.initialDelay + (c.maxAttempts - 2) as real * c.maxDelay
  {
    var most: nat := c.maxAttempts - 2;
    TimesIsProduct(most, c.maxDelay);
    if sleeps == [] {
      TimesMonotone(0, most, c.maxDelay);
    } else {
      TotalBound(c, sleeps);
      TimesMonotone(|sleeps| - 1, most, c.maxDelay);
    }
  }

  // The attempts the loop leaves behind it: all retryable failures.
  ghost predicate AllRetryable<T>(fn: nat -> Outcome<T>, c: Config, n: nat) {
    forall i :: 1 <= i <= n ==> fn(i).Threw? && IsRetryable(fn(i).error, c.retryableErrors)
  }

  // An empty list names every failure; any other names one by its name or its code.
  ghost predicate Listed(e: Failure, names: seq<string>) {
    |names| > 0 ==> exists i :: 0 <= i < |names| && (names[i] == e.name || (names[i] != "" && e.code == Some(names[i])))
  }

  lemma ListedIff(e: Failure, names: seq<string>)
    ensures Listed(e, names) <==> IsRetryable(e, names)
  {
    if e.name in names {
      var i :| 0 <= i < |names| && names[i] == e.name;
    }
    if e.code.Some? && e.code.value in names {
      var i :| 0 <= i < |names| && names[i] == e.code.value;
    }
  }

  // fn(i) is what the wrapped function does on its i-th call.
  method ExecuteWithRetry<T>(fn: nat -> Outcome<T>, c: Config) returns (r: Ending<T>, calls: nat, sleeps: seq<real>)
    ensures c.maxAttempts < 1 ==> calls == 0 && sleeps == [] && r == Failed(None)
    ensures c.maxAttempts >= 1 ==> calls == |sleeps| + 1 && calls <= c.maxAttempts
    ensures Schedule(c, sleeps)
    ensures calls >= 1 ==> AllRetryable(fn, c, calls - 1)
    ensures calls >= 1 ==>
              match fn(calls)
              case Returned(v) => r == Success(v)
              case Threw(e) => r == Failed(Some(e)) && (!IsRetryable(e, c.retryableErrors) || calls == c.maxAttempts)
    ensures r.Failed? && 1 <= calls < c.maxAttempts ==> fn(calls).Threw? && !Listed(fn(calls).error, c.retryableErrors)
    ensures forall i :: 1 <= i < calls ==> fn(i).Threw? && Listed(fn(i).error, c.retryableErrors)
  {
    var delay := c.initialDelay;
    var attempt := 1;
    calls, sleeps, r := 0, [], Failed(None);
    while attempt <= c.maxAttempts
      invariant 1 <= attempt && (attempt <= c.maxAttempts || (attempt == 1 && c.maxAttempts < 1))
      invariant calls == attempt - 1 == |sleeps|
      invariant Schedule(c, sleeps)
      invariant delay == if sleeps == [] then c.initialDelay else Grow(c, sleeps[|sleeps|-1])
      invariant AllRetryable(fn, c, calls)
      invariant forall i :: 1 <= i <= calls ==> fn(i).Threw? && Listed(fn(i).error, c.retryableErrors)
      invariant r == Failed(None)
    {
      calls := calls + 1;
      match fn(attempt) {
        case Returned(v) =>
          return Success(v), calls, sleeps;
        case Threw(e) =>
          ListedIff(e, c.retryableErrors);
          if !IsRetryable(e, c.retryableErrors) || attempt == c.maxAttempts {
              return Failed(Some(e)), calls, sleeps;
          }
          sleeps := sleeps + [delay];
          delay := Grow(c, delay);
      }
      attempt := attempt + 1;
    }
  }
}
