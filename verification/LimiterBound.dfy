/** What the limiter as a whole promises a client: the window bound, for the checks it admits. */
module LimiterBound {
  import opened RateLimiter
  import opened TokenBucketLaws
  import opened LruLaws

  // ---------------------------------------------------------------- one life of a client's bucket

  /** The client's bucket is made at check `s` and found again at each of its checks up to `k`. */
  ghost predicate Lives(limit: nat, requests: seq<Request>, key: string, s: nat, k: nat)
    requires k < |requests|
  {
    && s <= k && requests[s].key == key && key !in TableAfter(limit, requests, s).buckets
    && forall q :: s < q <= k && requests[q].key == key ==> key in TableAfter(limit, requests, q).buckets
  }

  /** Every check belongs to a life that begins at it or before it. */
  lemma {:induction false} LifeBegins(limit: nat, requests: seq<Request>, key: string, i: nat) returns (s: nat)
    requires limit >= 1 && i < |requests| && requests[i].key == key
    ensures s <= i && Lives(limit, requests, key, s, i)
    decreases i
  {
    hide TableAfter;
    if key !in TableAfter(limit, requests, i).buckets {
      s := i;
    } else {
      if forall p :: 0 <= p < i ==> requests[p].key != key {
        NewClient(limit, requests, key, i);
      }
      var p := FindLastUse(requests, key, i);
      s := LifeBegins(limit, requests, key, p);
    }
  }

  /** From check `i` to check `k`, fewer other clients than the limit come between consecutive checks of this one. */
  ghost predicate KeptBetween(limit: nat, requests: seq<Request>, key: string, i: nat, k: nat)
    requires k < |requests|
  {
    forall p: nat, q: nat :: i <= p && q <= k && requests[q].key == key && LastUsedAt(requests, key, p, q) ==>
      |Others(requests, p + 1, q)| < limit
  }

  /** A life goes on while its client is not crowded out. */
  lemma LifeGoesOn(limit: nat, requests: seq<Request>, key: string, s: nat, i: nat, k: nat)
    requires limit >= 1 && i <= k < |requests| && requests[i].key == key
    requires Lives(limit, requests, key, s, i) && KeptBetween(limit, requests, key, i, k)
    ensures Lives(limit, requests, key, s, k)
  {
    hide TableAfter, Others;
    forall q | s < q <= k && requests[q].key == key ensures key in TableAfter(limit, requests, q).buckets {
      if q > i {
        var p := FindLastUse(requests, key, q);
        assert i <= p;
        RetainedExactly(limit, requests, key, p, q);
      }
    }
  }

  // ---------------------------------------------------------------- the bucket of a life

  /** How many of the checks from `s` up to but not including `n` are the client's. */
  function Rank(requests: seq<Request>, key: string, s: nat, n: nat): (rank: nat)
    requires s <= n <= |requests|
    decreases n
  {
    if n == s then 0 else Rank(requests, key, s, n - 1) + if requests[n - 1].key == key then 1 else 0
  }

  /** When those checks spend their tokens. */
  function Times(requests: seq<Request>, key: string, s: nat, n: nat): (times: seq<real>)
    requires s <= n <= |requests|
    ensures |times| == Rank(requests, key, s, n)
    decreases n
  {
    if n == s then []
    else Times(requests, key, s, n - 1) + if requests[n - 1].key == key then [requests[n - 1].now] else []
  }

  lemma {:induction false} TimesAt(requests: seq<Request>, key: string, s: nat, n: nat, end: nat)
    requires s <= n < end <= |requests| && requests[n].key == key
    ensures Rank(requests, key, s, n) < Rank(requests, key, s, end)
    ensures Times(requests, key, s, end)[Rank(requests, key, s, n)] == requests[n].now
    decreases end
  {
    if n < end - 1 {
      TimesAt(requests, key, s, n, end - 1);
    }
  }

  lemma {:induction false} RankGrows(requests: seq<Request>, key: string, s: nat, n: nat, end: nat)
    requires s <= n <= end <= |requests|
    ensures Rank(requests, key, s, n) <= Rank(requests, key, s, end)
    decreases end
  {
    if n < end {
      RankGrows(requests, key, s, n, end - 1);
    }
  }

  /** Through a life, the table holds the bucket that its client's own checks lead to. */
  lemma {:induction false} LifeBucket(limit: nat, requests: seq<Request>, key: string, s: nat, k: nat, n: nat)
    requires k < |requests| && Lives(limit, requests, key, s, k) && s < n <= k + 1
    requires key in TableAfter(limit, requests, n).buckets
    ensures Rank(requests, key, s, n) <= Rank(requests, key, s, k + 1)
    ensures TableAfter(limit, requests, n).buckets[key] ==
            Before(FreshBucket(requests[s].rate, requests[s].created), Times(requests, key, s, k + 1), Rank(requests, key, s, n))
    decreases n, 0
  {
    hide Lives, FreshBucket, Times, Table.Check;
    RankGrows(requests, key, s, n, k + 1);
    if requests[n - 1].key == key {
      LifeCheck(limit, requests, key, s, k, n - 1);
      TimesAt(requests, key, s, n - 1, k + 1);
      CheckSpends(TableAfter(limit, requests, n - 1), limit, requests[n - 1]);
    } else {
      AtLeastOneLater(limit, requests, key, s, k, n);
      TableIsValid(limit, requests, n - 1);
      OtherChecks(limit, TableAfter(limit, requests, n - 1), requests[n - 1], key);
      LifeBucket(limit, requests, key, s, k, n - 1);
    }
  }

  lemma AtLeastOneLater(limit: nat, requests: seq<Request>, key: string, s: nat, k: nat, n: nat)
    requires k < |requests| && Lives(limit, requests, key, s, k) && s < n <= k + 1 && requests[n - 1].key != key
    ensures s < n - 1
  {
  }

  /** The bucket a check of the client spends from. */
  lemma {:induction false} LifeCheck(limit: nat, requests: seq<Request>, key: string, s: nat, k: nat, n: nat)
    requires k < |requests| && Lives(limit, requests, key, s, k) && s <= n <= k && requests[n].key == key
    ensures Rank(requests, key, s, n) <= Rank(requests, key, s, k + 1)
    ensures SpentBucket(TableAfter(limit, requests, n), limit, requests[n]) ==
            Before(FreshBucket(requests[s].rate, requests[s].created), Times(requests, key, s, k + 1), Rank(requests, key, s, n))
    decreases n, 1
  {
    hide FreshBucket, Times, TableAfter;
    RankGrows(requests, key, s, n, k + 1);
    if n > s {
      LifeBucket(limit, requests, key, s, k, n);
    }
  }

  /** The bucket a check finds or makes. */
  function SpentBucket(table: Table, limit: nat, request: Request): Bucket {
    if request.key in table.buckets then table.buckets[request.key] else FreshBucket(request.rate, request.created)
  }

  lemma CheckSpends(table: Table, limit: nat, request: Request)
    ensures var (after, allowed) := table.Check(limit, request); var bucket := SpentBucket(table, limit, request);
      && request.key in after.buckets && after.buckets[request.key] == bucket.After(request.now)
      && allowed == bucket.Admits(request.now)
  {
    hide FreshBucket, Table.Evicted, Without;
  }

  /** A check of a life is admitted exactly when the life's own bucket admits it. */
  lemma LifeVerdict(limit: nat, requests: seq<Request>, key: string, s: nat, k: nat, n: nat)
    requires k < |requests| && Lives(limit, requests, key, s, k) && s <= n <= k && requests[n].key == key
    ensures Rank(requests, key, s, n) < Rank(requests, key, s, k + 1)
    ensures Verdict(limit, requests, n) ==
            Admitted(FreshBucket(requests[s].rate, requests[s].created), Times(requests, key, s, k + 1), Rank(requests, key, s, n))
  {
    hide Lives, FreshBucket, Times, Table.Check, TableAfter, Before;
    LifeCheck(limit, requests, key, s, k, n);
    TimesAt(requests, key, s, n, k + 1);
    CheckSpends(TableAfter(limit, requests, n), limit, requests[n]);
  }

  // ---------------------------------------------------------------- counting verdicts

  /** How many of the client's checks from `i` up to but not including `n` are admitted. */
  ghost function AdmittedChecks(limit: nat, requests: seq<Request>, key: string, i: nat, n: nat): real
    requires i <= n <= |requests|
    decreases n
  {
    if n == i then 0.0
    else
      AdmittedChecks(limit, requests, key, i, n - 1) +
      if requests[n - 1].key == key && Verdict(limit, requests, n - 1) then 1.0 else 0.0
  }

  lemma {:induction false} VerdictsAreAdmissions(limit: nat, requests: seq<Request>, key: string, s: nat, k: nat, i: nat, n: nat)
    requires k < |requests| && Lives(limit, requests, key, s, k) && s <= i <= n <= k + 1
    ensures Rank(requests, key, s, i) <= Rank(requests, key, s, n) <= Rank(requests, key, s, k + 1)
    ensures AdmittedChecks(limit, requests, key, i, n) ==
            Admissions(FreshBucket(requests[s].rate, requests[s].created), Times(requests, key, s, k + 1),
                       Rank(requests, key, s, i), Rank(requests, key, s, n))
    decreases n
  {
    hide Lives, FreshBucket, Times, Verdict, Admitted;
    RankGrows(requests, key, s, i, n);
    RankGrows(requests, key, s, n, k + 1);
    if n > i {
      VerdictsAreAdmissions(limit, requests, key, s, k, i, n - 1);
      if requests[n - 1].key == key {
        LifeVerdict(limit, requests, key, s, k, n - 1);
      }
    }
  }

  // ---------------------------------------------------------------- the bound

  /** The client's checks between `i` and `k` read a clock that does not step back. */
  ghost predicate SteadyChecks(requests: seq<Request>, key: string, i: nat, k: nat)
    requires k < |requests|
  {
    forall p, q :: i <= p < q <= k && requests[p].key == key && requests[q].key == key ==> requests[p].now <= requests[q].now
  }

  lemma {:induction false} SteadyTimes(requests: seq<Request>, key: string, s: nat, i: nat, k: nat, end: nat)
    requires s <= i <= k < end <= |requests| && SteadyChecks(requests, key, i, k)
    requires requests[i].key == key && requests[k].key == key
    ensures Rank(requests, key, s, i) <= Rank(requests, key, s, k) < Rank(requests, key, s, end)
    ensures Steady(Times(requests, key, s, end), Rank(requests, key, s, i), Rank(requests, key, s, k))
    decreases k
  {
    hide Times;
    RankGrows(requests, key, s, i, k);
    TimesAt(requests, key, s, k, end);
    if i < k {
      var p := FindLastUse(requests, key, k);
      RankOfNext(requests, key, s, p, k);
      TimesAt(requests, key, s, p, end);
      SteadyTimes(requests, key, s, i, p, end);
    }
  }

  lemma {:induction false} RankOfNext(requests: seq<Request>, key: string, s: nat, p: nat, n: nat)
    requires s <= p && n <= |requests| && LastUsedAt(requests, key, p, n)
    ensures Rank(requests, key, s, n) == Rank(requests, key, s, p) + 1
    decreases n
  {
    if n > p + 1 {
      RankOfNext(requests, key, s, p, n - 1);
    }
  }

  lemma FreshBound(rate: Rate, created: real, length: real)
    ensures var bucket := FreshBucket(rate, created);
      bucket.capacity + bucket.rate * length ==
      Max(1.0, if rate.burst > 0.0 then rate.burst else rate.perSecond) + Max(0.0, rate.perSecond) * length
  {
  }

  /**
   In any run of checks, over any stretch in which a client is not crowded out of the table, it is
   admitted at most as often as its bucket's capacity plus its refill over the stretch allow. The rate
   is the one read at check `s`, where the bucket was made.
   */
  lemma ClientWindowBound(limit: nat, requests: seq<Request>, key: string, i: nat, k: nat) returns (s: nat)
    requires limit >= 1 && i <= k < |requests| && requests[i].key == key && requests[k].key == key
    requires KeptBetween(limit, requests, key, i, k) && SteadyChecks(requests, key, i, k)
    ensures s <= i && Lives(limit, requests, key, s, k)
    ensures var rate := requests[s].rate;
      AdmittedChecks(limit, requests, key, i, k + 1) <=
      Max(1.0, if rate.burst > 0.0 then rate.burst else rate.perSecond) +
      Max(0.0, rate.perSecond) * (requests[k].now - requests[i].now)
  {
    hide Lives, KeptBetween, SteadyChecks, Times, Admissions, AdmittedChecks, Steady, Full, FreshBucket, Max;
    s := LifeBegins(limit, requests, key, i);
    LifeGoesOn(limit, requests, key, s, i, k);
    var bucket := FreshBucket(requests[s].rate, requests[s].created);
    var times := Times(requests, key, s, k + 1);
    FreshIsFull(requests[s].rate, requests[s].created);
    VerdictsAreAdmissions(limit, requests, key, s, k, i, k + 1);
    SteadyTimes(requests, key, s, i, k, k + 1);
    TimesAt(requests, key, s, i, k + 1);
    TimesAt(requests, key, s, k, k + 1);
    var first, last := Rank(requests, key, s, i), Rank(requests, key, s, k);
    SteadyWindowBound(bucket, times, first, last);
    FreshBound(requests[s].rate, requests[s].created, times[last] - times[first]);
  }

  // ---------------------------------------------------------------- the exact verdict

  /** The clock read by the client's last check from `i` on and before `n`. */
  function LastRead(requests: seq<Request>, key: string, i: nat, n: nat): real
    requires i < n <= |requests| && requests[i].key == key
    decreases n
  {
    if requests[n - 1].key == key then requests[n - 1].now else LastRead(requests, key, i, n - 1)
  }

  /** By how much the clock moved forward between the client's checks from `i` on and before `n`. */
  function Forward(requests: seq<Request>, key: string, i: nat, n: nat): real
    requires i < n <= |requests| && requests[i].key == key
    decreases n
  {
    if n == i + 1 then 0.0
    else
      Forward(requests, key, i, n - 1) +
      if requests[n - 1].key == key then Max(0.0, requests[n - 1].now - LastRead(requests, key, i, n - 1)) else 0.0
  }

  /**
   What the window of the client's checks that opens with `i` leaves for check `n`: one second's worth if
   no burst is configured, never less than one token, and what was refilled and not admitted since.
   */
  ghost function Leaves(limit: nat, requests: seq<Request>, key: string, rate: Rate, i: nat, n: nat): real
    requires i <= n < |requests| && requests[i].key == key
  {
    Max(1.0, if rate.burst > 0.0 then rate.burst else rate.perSecond) +
    Max(0.0, rate.perSecond) * Forward(requests, key, i, n + 1) - AdmittedChecks(limit, requests, key, i, n)
  }

  lemma {:induction false} ForwardIsCounted(requests: seq<Request>, key: string, s: nat, i: nat, n: nat, end: nat, start: real)
    requires s <= i < n <= end <= |requests| && requests[i].key == key
    ensures Rank(requests, key, s, i) < Rank(requests, key, s, n) <= Rank(requests, key, s, end)
    ensures var times, last := Times(requests, key, s, end), Rank(requests, key, s, n) - 1;
      && times[last] == LastRead(requests, key, i, n)
      && Forward(requests, key, i, n) == Counted(start, times, last) - Counted(start, times, Rank(requests, key, s, i))
    decreases n
  {
    hide Times;
    RankGrows(requests, key, s, n, end);
    if n == i + 1 {
      TimesAt(requests, key, s, i, end);
    } else {
      ForwardIsCounted(requests, key, s, i, n - 1, end, start);
      if requests[n - 1].key == key {
        TimesAt(requests, key, s, n - 1, end);
      }
    }
  }

  /** The window of a life that opens with check `i` leaves what the bucket of the life is left by it. */
  lemma WindowLeaves(limit: nat, requests: seq<Request>, key: string, s: nat, i: nat, n: nat)
    requires s <= i <= n < |requests| && Lives(limit, requests, key, s, n)
    requires requests[i].key == key && requests[n].key == key
    ensures Rank(requests, key, s, i) <= Rank(requests, key, s, n) < Rank(requests, key, s, n + 1)
    ensures Leaves(limit, requests, key, requests[s].rate, i, n) ==
            Allowance(FreshBucket(requests[s].rate, requests[s].created), Times(requests, key, s, n + 1),
                      Rank(requests, key, s, i), Rank(requests, key, s, n))
  {
    hide Lives, Times, Counted, Admissions, AdmittedChecks, Forward;
    var bucket := FreshBucket(requests[s].rate, requests[s].created);
    ForwardIsCounted(requests, key, s, i, n + 1, n + 1, bucket.lastTs);
    VerdictsAreAdmissions(limit, requests, key, s, n, i, n);
  }

  lemma {:induction false} CheckOfRank(requests: seq<Request>, key: string, s: nat, n: nat, j: nat) returns (i: nat)
    requires s <= n <= |requests| && j < Rank(requests, key, s, n)
    ensures s <= i < n && requests[i].key == key && Rank(requests, key, s, i) == j
    decreases n
  {
    if j < Rank(requests, key, s, n - 1) {
      i := CheckOfRank(requests, key, s, n - 1, j);
    } else {
      i := n - 1;
    }
  }

  /**
   In any run of checks, a check is admitted exactly when every window of its client's own checks, back
   to check `s` where the client's bucket was made, leaves it a token. The rate is the one read at `s`.
   */
  lemma ClientVerdict(limit: nat, requests: seq<Request>, key: string, n: nat) returns (s: nat)
    requires limit >= 1 && n < |requests| && requests[n].key == key
    ensures s <= n && Lives(limit, requests, key, s, n)
    ensures Verdict(limit, requests, n) <==>
            forall i :: s <= i <= n && requests[i].key == key ==>
              Leaves(limit, requests, key, requests[s].rate, i, n) >= 1.0
  {
    hide Lives, Verdict, Leaves, Times, Allowance, Admitted, Found, FreshBucket, Full;
    s := LifeBegins(limit, requests, key, n);
    var bucket, times := FreshBucket(requests[s].rate, requests[s].created), Times(requests, key, s, n + 1);
    FreshIsFull(requests[s].rate, requests[s].created);
    LifeVerdict(limit, requests, key, s, n, n);
    var rank := Rank(requests, key, s, n);
    ExactBucket(bucket, times, rank);
    forall i | s <= i <= n && requests[i].key == key
      ensures Rank(requests, key, s, i) <= rank
      ensures Leaves(limit, requests, key, requests[s].rate, i, n) == Allowance(bucket, times, Rank(requests, key, s, i), rank)
    {
      WindowLeaves(limit, requests, key, s, i, n);
    }
    if !Verdict(limit, requests, n) {
      var j :| 0 <= j <= rank && Allowance(bucket, times, j, rank) < 1.0;
      var i := CheckOfRank(requests, key, s, n + 1, j);
      assert Leaves(limit, requests, key, requests[s].rate, i, n) < 1.0;
    }
  }
}
