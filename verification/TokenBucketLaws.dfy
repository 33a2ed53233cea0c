/** The exact meaning of a token bucket over any sequence of requests, and of any clock. */
module TokenBucketLaws {
  import opened RateLimiter

  /** The bucket just before request `n`. */
  ghost function Before(bucket: Bucket, times: seq<real>, n: nat): Bucket
    requires n <= |times|
  {
    if n == 0 then bucket else Before(bucket, times, n - 1).After(times[n - 1])
  }

  ghost predicate Admitted(bucket: Bucket, times: seq<real>, n: nat)
    requires n < |times|
  {
    Before(bucket, times, n).Admits(times[n])
  }

  /** How many of the requests from `i` up to but not including `j` are admitted. */
  ghost function Admissions(bucket: Bucket, times: seq<real>, i: nat, j: nat): real
    requires i <= j <= |times|
    decreases j
  {
    if i == j then 0.0
    else Admissions(bucket, times, i, j - 1) + (if Admitted(bucket, times, j - 1) then 1.0 else 0.0)
  }

  /** The time counted by the bucket up to request `n`: every step of the clock, steps back as 0. */
  ghost function Counted(start: real, times: seq<real>, n: nat): real
    requires n < |times|
  {
    if n == 0 then Max(0.0, times[0] - start)
    else Counted(start, times, n - 1) + Max(0.0, times[n] - times[n - 1])
  }

  /** The tokens found by request `n`, after its refill. */
  ghost function Found(bucket: Bucket, times: seq<real>, n: nat): real
    requires n < |times|
  {
    Before(bucket, times, n).Refilled(times[n]).tokens
  }

  /** What is refilled between requests `j` and `n`. */
  ghost function Gained(bucket: Bucket, times: seq<real>, j: nat, n: nat): real
    requires j <= n < |times|
  {
    bucket.rate * (Counted(bucket.lastTs, times, n) - Counted(bucket.lastTs, times, j))
  }

  /** What the window that opens with request `j` leaves for request `n`. */
  ghost function Allowance(bucket: Bucket, times: seq<real>, j: nat, n: nat): real
    requires j <= n < |times|
  {
    bucket.capacity + Gained(bucket, times, j, n) - Admissions(bucket, times, j, n)
  }

  /** What the step of the clock after request `n` refills. */
  ghost function Refill(bucket: Bucket, times: seq<real>, n: nat): real
    requires n < |times| - 1
  {
    Max(0.0, times[n + 1] - times[n]) * bucket.rate
  }

  /** A bucket as created: full, and never draining by itself. */
  ghost predicate Full(bucket: Bucket) {
    bucket.tokens == bucket.capacity && bucket.rate >= 0.0 && bucket.capacity >= 1.0
  }

  lemma FreshIsFull(rate: Rate, now: real)
    ensures Full(FreshBucket(rate, now))
    ensures rate.burst > 0.0 ==> FreshBucket(rate, now).capacity == Max(1.0, rate.burst)
  {
  }

  lemma {:induction false} SameSettings(bucket: Bucket, times: seq<real>, n: nat)
    requires n <= |times|
    ensures Before(bucket, times, n).capacity == bucket.capacity && Before(bucket, times, n).rate == bucket.rate
    ensures Before(bucket, times, n).lastTs == if n == 0 then bucket.lastTs else times[n - 1]
  {
    if n > 0 {
      SameSettings(bucket, times, n - 1);
    }
  }

  /** One request costs each window what it admits, and every window gains the same refill. */
  lemma AllowanceMore(bucket: Bucket, times: seq<real>, j: nat, n: nat)
    requires j <= n < |times| - 1
    ensures Allowance(bucket, times, j, n + 1) ==
            Allowance(bucket, times, j, n) - (if Admitted(bucket, times, n) then 1.0 else 0.0)
            + Refill(bucket, times, n)
  {
    GainedMore(bucket, times, j, n);
    hide Before, Admitted, Gained, Refill;
  }

  lemma GainedMore(bucket: Bucket, times: seq<real>, j: nat, n: nat)
    requires j <= n < |times| - 1
    ensures Gained(bucket, times, j, n + 1) == Gained(bucket, times, j, n) + Refill(bucket, times, n)
  {
    var start, step := bucket.lastTs, Max(0.0, times[n + 1] - times[n]);
    assert Counted(start, times, n + 1) == Counted(start, times, n) + step;
    hide Counted, Max;
    Distribute(bucket.rate, Counted(start, times, n) - Counted(start, times, j), step);
  }

  lemma Distribute(rate: real, a: real, b: real)
    ensures rate * (a + b) == rate * a + b * rate
  {
  }

  lemma FoundMore(bucket: Bucket, times: seq<real>, n: nat)
    requires n < |times| - 1
    ensures Found(bucket, times, n + 1) ==
            Min(bucket.capacity, Found(bucket, times, n) - (if Admitted(bucket, times, n) then 1.0 else 0.0)
                                 + Refill(bucket, times, n))
  {
    hide Bucket.Refilled;
    var before := Before(bucket, times, n);
    SameSettings(bucket, times, n);
    RefilledAgain(before, times[n], times[n + 1]);
    assert Found(bucket, times, n + 1) == before.After(times[n]).Refilled(times[n + 1]).tokens;
  }

  lemma RefilledAgain(bucket: Bucket, now: real, next: real)
    ensures bucket.After(now).Refilled(next).tokens ==
            Min(bucket.capacity, bucket.Refilled(now).tokens - (if bucket.Admits(now) then 1.0 else 0.0)
                                 + Max(0.0, next - now) * bucket.rate)
  {
  }

  lemma NewWindow(bucket: Bucket, times: seq<real>, n: nat)
    requires n < |times|
    ensures Allowance(bucket, times, n, n) == bucket.capacity
  {
  }

  lemma FirstRequest(bucket: Bucket, times: seq<real>)
    requires Full(bucket) && times != []
    ensures Found(bucket, times, 0) == bucket.capacity
  {
    var refill := Max(0.0, times[0] - bucket.lastTs) * bucket.rate;
    assert refill >= 0.0;
  }

  /** No window leaves less than what a request finds. */
  lemma {:induction false} EveryWindowAllows(bucket: Bucket, times: seq<real>, j: nat, n: nat)
    requires Full(bucket) && j <= n < |times|
    ensures Found(bucket, times, n) <= Allowance(bucket, times, j, n)
  {
    hide Before, Found, Allowance, Admitted, Refill, Full;
    NewWindow(bucket, times, n);
    if n == 0 {
      FirstRequest(bucket, times);
    } else {
      FoundMore(bucket, times, n - 1);
      if j < n {
        EveryWindowAllows(bucket, times, j, n - 1);
        AllowanceMore(bucket, times, j, n - 1);
      }
    }
  }

  /** Some window leaves exactly what a request finds. */
  lemma {:induction false} TightestWindow(bucket: Bucket, times: seq<real>, n: nat) returns (j: nat)
    requires Full(bucket) && n < |times|
    ensures j <= n && Found(bucket, times, n) == Allowance(bucket, times, j, n)
  {
    hide Before, Found, Allowance, Admitted, Refill, Full;
    NewWindow(bucket, times, n);
    if n == 0 {
      FirstRequest(bucket, times);
      j := 0;
    } else {
      var earlier := TightestWindow(bucket, times, n - 1);
      FoundMore(bucket, times, n - 1);
      AllowanceMore(bucket, times, earlier, n - 1);
      j := if Found(bucket, times, n) == bucket.capacity then n else earlier;
    }
  }

  /**
   The exact bucket: a request finds the least allowance over all windows that end with it. Hence it
   is admitted exactly when no window, this request included, would exceed capacity plus refill.
   */
  lemma ExactBucket(bucket: Bucket, times: seq<real>, n: nat)
    requires Full(bucket) && n < |times|
    ensures forall j :: 0 <= j <= n ==> Found(bucket, times, n) <= Allowance(bucket, times, j, n)
    ensures exists j :: 0 <= j <= n && Found(bucket, times, n) == Allowance(bucket, times, j, n)
    ensures Admitted(bucket, times, n) <==> forall j :: 0 <= j <= n ==> Allowance(bucket, times, j, n) >= 1.0
  {
    hide Found, Allowance, Admitted;
    AdmittedMeans(bucket, times, n);
    forall j | 0 <= j <= n ensures Found(bucket, times, n) <= Allowance(bucket, times, j, n) {
      EveryWindowAllows(bucket, times, j, n);
    }
    var tightest := TightestWindow(bucket, times, n);
  }

  lemma RefillIsNotNegative(bucket: Bucket, times: seq<real>, n: nat)
    requires Full(bucket) && n < |times| - 1
    ensures Refill(bucket, times, n) >= 0.0 && bucket.capacity >= 0.0
  {
  }

  lemma AdmittedMeans(bucket: Bucket, times: seq<real>, n: nat)
    requires n < |times|
    ensures Admitted(bucket, times, n) <==> Found(bucket, times, n) >= 1.0
  {
  }

  lemma {:induction false} NeverInDebt(bucket: Bucket, times: seq<real>, n: nat)
    requires Full(bucket) && n < |times|
    ensures Found(bucket, times, n) >= 0.0
  {
    hide Before, Found, Admitted, Refill;
    if n == 0 {
      FirstRequest(bucket, times);
    } else {
      NeverInDebt(bucket, times, n - 1);
      FoundMore(bucket, times, n - 1);
      RefillIsNotNegative(bucket, times, n - 1);
      AdmittedMeans(bucket, times, n - 1);
    }
  }

  /** No window of a bucket's life admits more than the capacity plus the refill of its length. */
  lemma WindowBound(bucket: Bucket, times: seq<real>, i: nat, k: nat)
    requires Full(bucket) && i <= k < |times|
    ensures Admissions(bucket, times, i, k + 1) <= bucket.capacity + Gained(bucket, times, i, k)
  {
    hide Before, Found, Admitted, Gained;
    EveryWindowAllows(bucket, times, i, k);
    NeverInDebt(bucket, times, k);
    AdmittedMeans(bucket, times, k);
  }

  // ---------------------------------------------------------------- clocks

  /** The clock does not step back between requests `i` and `k`. */
  ghost predicate Steady(times: seq<real>, i: nat, k: nat)
    requires i <= k < |times|
  {
    forall j :: i < j <= k ==> times[j - 1] <= times[j]
  }

  /** The bucket counts at least the time on the clock, and more exactly if the clock stepped back in between. */
  lemma {:induction false} CountedBetween(start: real, times: seq<real>, i: nat, k: nat)
    requires i <= k < |times|
    ensures Counted(start, times, k) - Counted(start, times, i) >= times[k] - times[i]
    ensures Counted(start, times, k) - Counted(start, times, i) == times[k] - times[i] <==> Steady(times, i, k)
    decreases k
  {
    if i < k {
      CountedBetween(start, times, i, k - 1);
      assert Steady(times, i, k) <==> Steady(times, i, k - 1) && times[k - 1] <= times[k];
    }
  }

  /** The window bound in clock time, for any window in which the clock does not step back. */
  lemma SteadyWindowBound(bucket: Bucket, times: seq<real>, i: nat, k: nat)
    requires Full(bucket) && i <= k < |times| && Steady(times, i, k)
    ensures Admissions(bucket, times, i, k + 1) <= bucket.capacity + bucket.rate * (times[k] - times[i])
  {
    hide Counted, Admissions, Full, Steady;
    WindowBound(bucket, times, i, k);
    CountedBetween(bucket.lastTs, times, i, k);
  }

  lemma {:induction false} AdmissionsGrow(bucket: Bucket, times: seq<real>, i: nat, j: nat, k: nat)
    requires i <= j <= k <= |times|
    ensures Admissions(bucket, times, i, k) == Admissions(bucket, times, i, j) + Admissions(bucket, times, j, k)
    ensures Admissions(bucket, times, j, k) >= 0.0
    decreases k
  {
    hide Admitted;
    if j < k {
      AdmissionsGrow(bucket, times, i, j, k - 1);
    }
  }

  lemma FirstIsAdmitted(bucket: Bucket, times: seq<real>)
    requires Full(bucket) && times != []
    ensures Admissions(bucket, times, 0, 1) == 1.0
  {
    hide Found, Admitted;
    FirstRequest(bucket, times);
    AdmittedMeans(bucket, times, 0);
    assert Admissions(bucket, times, 0, 0) == 0.0;
  }

  /** A bucket of one token that refills it over a window admits at least two requests of that window. */
  lemma RefilledOnce(bucket: Bucket, times: seq<real>, k: nat)
    requires 0 < k < |times| && Full(bucket) && bucket.capacity == 1.0 && Gained(bucket, times, 0, k) == 1.0
    ensures Admissions(bucket, times, 0, k + 1) >= 2.0
  {
    hide Before, Found, Admitted, Gained, Full;
    FirstIsAdmitted(bucket, times);
    AdmissionsGrow(bucket, times, 0, 1, k);
    var whole := WholeAdmissions(bucket, times, 0, k);
    if Admissions(bucket, times, 0, k) < 2.0 {
      var j := TightestWindow(bucket, times, k);
      AdmittedMeans(bucket, times, k);
      if j > 0 {
        AdmissionsGrow(bucket, times, 0, 1, j);
        AdmissionsGrow(bucket, times, 0, j, k);
        var late := WholeAdmissions(bucket, times, j, k);
        GainIsNotNegative(bucket, times, j, k);
      }
    }
    assert Admissions(bucket, times, 0, k + 1) ==
           Admissions(bucket, times, 0, k) + (if Admitted(bucket, times, k) then 1.0 else 0.0);
  }

  /** Admissions are counted one by one. */
  lemma {:induction false} WholeAdmissions(bucket: Bucket, times: seq<real>, i: nat, k: nat) returns (n: nat)
    requires i <= k <= |times|
    ensures Admissions(bucket, times, i, k) == n as real
    decreases k
  {
    hide Admitted;
    if i == k {
      n := 0;
    } else {
      n := WholeAdmissions(bucket, times, i, k - 1);
      if Admitted(bucket, times, k - 1) {
        n := n + 1;
      }
    }
  }

  lemma {:induction false} GainIsNotNegative(bucket: Bucket, times: seq<real>, j: nat, k: nat)
    requires Full(bucket) && j <= k < |times|
    ensures Gained(bucket, times, j, k) >= 0.0
    decreases k
  {
    CountedGrows(bucket.lastTs, times, j, k);
    hide Counted;
    assert bucket.rate >= 0.0;
  }

  lemma {:induction false} CountedGrows(start: real, times: seq<real>, j: nat, k: nat)
    requires j <= k < |times|
    ensures Counted(start, times, j) <= Counted(start, times, k)
    decreases k
  {
    if j < k {
      CountedGrows(start, times, j, k - 1);
    }
  }

  /** A step back within a window lets some bucket admit more in it than capacity plus refill in clock time. */
  lemma SteppedClockBreaksBound(times: seq<real>, k: nat) returns (bucket: Bucket)
    requires k < |times| && !Steady(times, 0, k)
    ensures Full(bucket)
    ensures Admissions(bucket, times, 0, k + 1) > bucket.capacity + bucket.rate * (times[k] - times[0])
  {
    hide Counted, Admissions;
    var counted := Counted(times[0], times, k) - Counted(times[0], times, 0);
    CountedBetween(times[0], times, 0, k);
    CountedGrows(times[0], times, 0, k);
    if counted == 0.0 {
      bucket := Bucket(1.0, 1.0, 1.0, times[0]);
      FirstIsAdmitted(bucket, times);
      AdmissionsGrow(bucket, times, 0, 1, k + 1);
    } else {
      var rate := RateOverTime(counted, times[k] - times[0]);
      bucket := Bucket(1.0, rate, 1.0, times[0]);
      RefilledOnce(bucket, times, k);
    }
  }

  /** The rate that refills one token over the counted time refills less over a shorter one. */
  lemma RateOverTime(counted: real, elapsed: real) returns (rate: real)
    requires counted > 0.0 && elapsed < counted
    ensures rate >= 0.0 && rate * counted == 1.0 && rate * elapsed < 1.0
  {
    rate := Reciprocal(counted);
    ShorterTime(rate, counted, elapsed, 1.0);
  }

  lemma Reciprocal(x: real) returns (inverse: real)
    requires x > 0.0
    ensures inverse > 0.0 && inverse * x == 1.0
  {
    inverse := 1.0 / x;
  }

  lemma ShorterTime(rate: real, counted: real, elapsed: real, gained: real)
    requires rate > 0.0 && elapsed < counted && rate * counted == gained
    ensures rate * elapsed < gained
  {
    var rest := counted - elapsed;
    assert rate * rest > 0.0;
    assert rate * (elapsed + rest) == rate * elapsed + rate * rest;
  }

  /** Every full bucket keeps the bound in clock time, in every window. */
  ghost predicate ClockBound(times: seq<real>) {
    forall bucket: Bucket, i: nat, k: nat {:trigger Admissions(bucket, times, i, k + 1)} ::
      Full(bucket) && i <= k < |times| ==>
      Admissions(bucket, times, i, k + 1) <= bucket.capacity + bucket.rate * (times[k] - times[i])
  }

  /** The bound in clock time holds for all buckets and windows exactly when the clock never steps back. */
  lemma ClockBoundExact(times: seq<real>)
    ensures ClockBound(times) <==> forall k :: 0 < k < |times| ==> times[k - 1] <= times[k]
  {
    hide Admissions, Full;
    if times != [] && !Steady(times, 0, |times| - 1) {
      var last: nat := |times| - 1;
      var bucket := SteppedClockBreaksBound(times, last);
      assert !ClockBound(times);
    }
    if forall k :: 0 < k < |times| ==> times[k - 1] <= times[k] {
      forall bucket: Bucket, i: nat, k: nat {:trigger Admissions(bucket, times, i, k + 1)} | Full(bucket) && i <= k < |times|
        ensures Admissions(bucket, times, i, k + 1) <= bucket.capacity + bucket.rate * (times[k] - times[i])
      {
        SteadyWindowBound(bucket, times, i, k);
      }
    }
  }
}
