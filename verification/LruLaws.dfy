/** The bounded table holds the most recent clients, and stands in for an unbounded one. */
module LruLaws {
  import opened Sequences
  import opened RateLimiter

  // ---------------------------------------------------------------- runs

  /** The table after the first `n` checks. */
  function TableAfter(limit: nat, requests: seq<Request>, n: nat): Table
    requires n <= |requests|
  {
    if n == 0 then Table([], map[]) else TableAfter(limit, requests, n - 1).Check(limit, requests[n - 1]).0
  }

  function Verdict(limit: nat, requests: seq<Request>, n: nat): bool
    requires n < |requests|
  {
    TableAfter(limit, requests, n).Check(limit, requests[n]).1
  }

  /** One bucket per client, for ever. */
  function BucketFor(buckets: map<string, Bucket>, request: Request): Bucket {
    if request.key in buckets then buckets[request.key] else FreshBucket(request.rate, request.created)
  }

  function UnboundedAfter(requests: seq<Request>, n: nat): map<string, Bucket>
    requires n <= |requests|
  {
    if n == 0 then map[]
    else
      var before, request := UnboundedAfter(requests, n - 1), requests[n - 1];
      before[request.key := BucketFor(before, request).After(request.now)]
  }

  function UnboundedVerdict(requests: seq<Request>, n: nat): bool
    requires n < |requests|
  {
    BucketFor(UnboundedAfter(requests, n), requests[n]).Admits(requests[n].now)
  }

  // ---------------------------------------------------------------- the order of use

  /** The distinct clients of the first `n` checks, least recently used first. */
  function ByLastUse(requests: seq<Request>, n: nat): seq<string>
    requires n <= |requests|
  {
    if n == 0 then [] else Without(ByLastUse(requests, n - 1), requests[n - 1].key) + [requests[n - 1].key]
  }

  function LastOf(keys: seq<string>, limit: nat): seq<string> {
    if |keys| <= limit then keys else keys[|keys| - limit..]
  }

  lemma {:induction false} WithoutSplit(a: seq<string>, b: seq<string>, key: string)
    ensures Without(a + b, key) == Without(a, key) + Without(b, key)
  {
    if a == [] {
      assert a + b == b;
    } else {
      assert (a + b)[1..] == a[1..] + b;
      WithoutSplit(a[1..], b, key);
      WithoutHead(a, key);
      WithoutHead(a + b, key);
      hide Without;
    }
  }

  lemma WithoutHead(keys: seq<string>, key: string)
    requires keys != []
    ensures Without(keys, key) == (if keys[0] == key then [] else [keys[0]]) + Without(keys[1..], key)
  {
  }

  lemma {:induction false} WithoutLength(keys: seq<string>, key: string)
    requires Distinct(keys)
    ensures |Without(keys, key)| == if key in keys then |keys| - 1 else |keys|
  {
    if keys != [] {
      assert keys == [keys[0]] + keys[1..];
      assert keys[0] !in keys[1..];
      WithoutLength(keys[1..], key);
    }
  }

  lemma {:induction false} ByLastUseDistinct(requests: seq<Request>, n: nat)
    requires n <= |requests|
    ensures Distinct(ByLastUse(requests, n))
  {
    hide Distinct, Without;
    if n == 0 {
      EmptyIsDistinct();
    } else {
      var earlier, key := ByLastUse(requests, n - 1), requests[n - 1].key;
      ByLastUseDistinct(requests, n - 1);
      WithoutDistinct(earlier, key);
      WithoutExact(earlier, key);
      DistinctAppend(Without(earlier, key), key);
    }
  }

  /** The client was checked before check `n`. */
  ghost predicate Seen(requests: seq<Request>, key: string, n: nat)
    requires n <= |requests|
  {
    exists i :: 0 <= i < n && requests[i].key == key
  }

  lemma SeenMore(requests: seq<Request>, key: string, n: nat)
    requires n < |requests|
    ensures Seen(requests, key, n + 1) <==> Seen(requests, key, n) || requests[n].key == key
  {
  }

  lemma {:induction false} ByLastUseExact(requests: seq<Request>, key: string, n: nat)
    requires n <= |requests|
    ensures key in ByLastUse(requests, n) <==> Seen(requests, key, n)
  {
    hide Without;
    if n > 0 {
      ByLastUseExact(requests, key, n - 1);
      SeenMore(requests, key, n - 1);
      WithoutExact(ByLastUse(requests, n - 1), requests[n - 1].key);
      hide Seen;
    }
  }

  lemma EmptyIsDistinct()
    ensures Distinct([])
  {
  }

  lemma {:induction false} TableIsValid(limit: nat, requests: seq<Request>, n: nat)
    requires n <= |requests|
    ensures TableAfter(limit, requests, n).Valid()
  {
    hide Distinct, Table.Touched;
    if n == 0 {
      EmptyIsDistinct();
    } else {
      TableIsValid(limit, requests, n - 1);
      TouchedValid(TableAfter(limit, requests, n - 1), limit, requests[n - 1]);
    }
  }

  lemma {:induction false} EvictedKeys(table: Table, limit: nat)
    requires limit >= 1 && |table.keys| <= limit
    ensures table.Evicted(limit).keys == LastOf(table.keys, limit - 1)
  {
    if |table.keys| == limit {
      var dropped := table.DropOldest();
      assert dropped.Evicted(limit) == dropped;
    }
  }

  lemma LastOfTail(first: seq<string>, tail: seq<string>, limit: nat)
    requires |tail| == limit || (first == [] && |tail| <= limit)
    ensures LastOf(first + tail, limit) == tail
  {
    if first == [] {
      assert first + tail == tail;
    }
  }

  /** Using a client among the most recent ones moves it to the end. */
  lemma UseRecent(first: seq<string>, last: seq<string>, key: string, limit: nat)
    requires |last| == limit || (first == [] && |last| <= limit)
    requires Distinct(last) && key in last && key !in first
    ensures LastOf(Without(first + last, key) + [key], limit) == Without(last, key) + [key]
  {
    hide Without, Distinct;
    WithoutSplit(first, last, key);
    WithoutAbsent(first, key);
    WithoutLength(last, key);
    var tail := Without(last, key) + [key];
    assert Without(first + last, key) + [key] == first + tail;
    LastOfTail(first, tail, limit);
  }

  /** Using another client drops the oldest of the most recent ones if there is no room. */
  lemma UseOther(first: seq<string>, last: seq<string>, key: string, limit: nat)
    requires limit >= 1 && (|last| == limit || (first == [] && |last| <= limit))
    requires key !in last
    ensures LastOf(Without(first + last, key) + [key], limit) == LastOf(last, limit - 1) + [key]
  {
    WithoutSplit(first, last, key);
    WithoutAbsent(last, key);
    var rest := Without(first, key);
    assert Without(first + last, key) + [key] == rest + last + [key];
    if |last| == limit {
      var tail := last[1..] + [key];
      assert rest + last + [key] == (rest + [last[0]]) + tail;
      LastOfTail(rest + [last[0]], tail, limit);
    } else {
      assert rest == [] && rest + last + [key] == last + [key];
    }
  }

  lemma UseAmongLast(keys: seq<string>, key: string, limit: nat)
    requires limit >= 1 && Distinct(keys)
    ensures var last := LastOf(keys, limit);
      LastOf(Without(keys, key) + [key], limit) ==
      if key in last then Without(last, key) + [key] else LastOf(last, limit - 1) + [key]
  {
    hide Distinct, Without;
    var last := LastOf(keys, limit);
    var first := keys[..|keys| - |last|];
    assert keys == first + last;
    if key in last {
      DisjointParts(keys, |first|, key);
      DistinctTail(keys, |first|);
      UseRecent(first, last, key, limit);
    } else {
      UseOther(first, last, key, limit);
    }
  }

  lemma DisjointParts(keys: seq<string>, n: nat, key: string)
    requires Distinct(keys) && n <= |keys| && key in keys[n..]
    ensures key !in keys[..n]
  {
    var i :| 0 <= i < |keys| - n && keys[n..][i] == key;
    assert keys[n + i] == key;
  }

  lemma CheckedKeys(table: Table, limit: nat, request: Request)
    requires limit >= 1 && table.Valid() && |table.keys| <= limit
    ensures table.Check(limit, request).0.keys ==
            if request.key in table.keys then Without(table.keys, request.key) + [request.key]
            else LastOf(table.keys, limit - 1) + [request.key]
  {
    hide Distinct, Without, Table.Evicted, FreshBucket;
    EvictedKeys(table, limit);
  }

  /** One check keeps the table on the most recent clients. */
  lemma CheckKeepsMostRecent(table: Table, limit: nat, used: seq<string>, request: Request)
    requires limit >= 1 && table.Valid() && Distinct(used) && table.keys == LastOf(used, limit)
    ensures table.Check(limit, request).0.keys == LastOf(Without(used, request.key) + [request.key], limit)
  {
    LastOfLength(used, limit);
    hide *;
    UseAmongLast(used, request.key, limit);
    CheckedKeys(table, limit, request);
    LastOfAgain(used, limit);
  }

  lemma LastOfLength(keys: seq<string>, limit: nat)
    ensures |LastOf(keys, limit)| <= limit
  {
  }

  lemma LastOfAgain(keys: seq<string>, limit: nat)
    requires limit >= 1
    ensures LastOf(LastOf(keys, limit), limit - 1) == LastOf(keys, limit - 1)
  {
  }

  /** The table's keys are the most recent distinct clients, at most the limit, in order of last use. */
  lemma {:induction false} TableHoldsMostRecent(limit: nat, requests: seq<Request>, n: nat)
    requires limit >= 1 && n <= |requests|
    ensures TableAfter(limit, requests, n).keys == LastOf(ByLastUse(requests, n), limit)
  {
    hide Distinct, Without, Table.Check, Table.Valid;
    if n > 0 {
      TableHoldsMostRecent(limit, requests, n - 1);
      TableIsValid(limit, requests, n - 1);
      ByLastUseDistinct(requests, n - 1);
      hide LastOf;
      CheckKeepsMostRecent(TableAfter(limit, requests, n - 1), limit, ByLastUse(requests, n - 1), requests[n - 1]);
    }
  }

  // ---------------------------------------------------------------- retention

  /** Other clients checked from position `from` up to but not including `to`. */
  function Others(requests: seq<Request>, from: nat, to: nat): set<string>
    requires from <= to <= |requests|
  {
    set i | from <= i < to :: requests[i].key
  }

  /** The last use of a client before `n` was at `p`. */
  ghost predicate LastUsedAt(requests: seq<Request>, key: string, p: nat, n: nat)
    requires n <= |requests|
  {
    p < n && requests[p].key == key && forall i :: p < i < n ==> requests[i].key != key
  }

  /** Behind a client in the order of use stand exactly the clients checked since its last use. */
  lemma {:induction false} StandsBefore(requests: seq<Request>, key: string, p: nat, n: nat) returns (front: seq<string>, behind: seq<string>)
    requires n <= |requests| && LastUsedAt(requests, key, p, n)
    ensures ByLastUse(requests, n) == front + [key] + behind
    ensures forall k :: k in behind <==> k in Others(requests, p + 1, n)
    decreases n
  {
    if n == p + 1 {
      front, behind := Without(ByLastUse(requests, n - 1), key), [];
    } else {
      var x := requests[n - 1].key;
      hide Without, Others;
      var front', behind' := StandsBefore(requests, key, p, n - 1);
      WithoutAround(front', key, behind', x);
      front, behind := Without(front', x), Without(behind', x) + [x];
      WithoutExact(behind', x);
      forall k ensures k in behind <==> k in Others(requests, p + 1, n) {
        OthersMore(requests, p + 1, n - 1, k);
        assert k in Without(behind', x) + [x] <==> k in Without(behind', x) || k == x;
      }
    }
  }

  lemma WithoutAround(front: seq<string>, key: string, behind: seq<string>, other: string)
    requires key != other
    ensures Without(front + [key] + behind, other) == Without(front, other) + [key] + Without(behind, other)
  {
    WithoutSplit(front + [key], behind, other);
    WithoutSplit(front, [key], other);
    assert Without([key], other) == [key];
  }

  lemma OthersMore(requests: seq<Request>, from: nat, to: nat, key: string)
    requires from <= to < |requests|
    ensures key in Others(requests, from, to + 1) <==> key in Others(requests, from, to) || key == requests[to].key
  {
    if key in Others(requests, from, to) {
      var i :| from <= i < to && requests[i].key == key;
    }
    assert requests[to].key in Others(requests, from, to + 1);
  }

  lemma {:induction false} DistinctSize(keys: seq<string>, elements: set<string>)
    requires Distinct(keys) && forall key :: key in keys <==> key in elements
    ensures |keys| == |elements|
  {
    if keys != [] {
      var front, last := keys[..|keys| - 1], keys[|keys| - 1];
      assert keys == front + [last];
      assert last in keys;
      assert last !in front;
      DistinctSize(front, elements - {last});
    } else {
      assert elements == {};
    }
  }

  /** A client is still in the table exactly when fewer other clients than the limit were checked since. */
  lemma RetainedExactly(limit: nat, requests: seq<Request>, key: string, p: nat, n: nat)
    requires limit >= 1 && n <= |requests| && LastUsedAt(requests, key, p, n)
    ensures key in TableAfter(limit, requests, n).buckets <==> |Others(requests, p + 1, n)| < limit
  {
    hide ByLastUse, TableAfter;
    var front, behind := StandsBefore(requests, key, p, n);
    var all := ByLastUse(requests, n);
    ByLastUseDistinct(requests, n);
    TableHoldsMostRecent(limit, requests, n);
    TableIsValid(limit, requests, n);
    assert behind == all[|front| + 1..];
    DistinctTail(all, |front| + 1);
    DistinctSize(behind, Others(requests, p + 1, n));
    assert all[|front|] == key;
    InLast(all, |front|, limit);
  }

  lemma DistinctTail(keys: seq<string>, n: nat)
    requires Distinct(keys) && n <= |keys|
    ensures Distinct(keys[n..])
  {
  }

  lemma InLast(keys: seq<string>, i: nat, limit: nat)
    requires Distinct(keys) && i < |keys|
    ensures keys[i] in LastOf(keys, limit) <==> |keys| - i <= limit
  {
    var last := LastOf(keys, limit);
    var skipped := |keys| - |last|;
    if i >= skipped {
      assert last[i - skipped] == keys[i];
    }
  }

  /** A client checked for the first time is in neither table. */
  lemma NewClient(limit: nat, requests: seq<Request>, key: string, n: nat)
    requires limit >= 1 && n <= |requests| && forall i :: 0 <= i < n ==> requests[i].key != key
    ensures key !in TableAfter(limit, requests, n).buckets && key !in UnboundedAfter(requests, n)
  {
    hide TableAfter, ByLastUse;
    TableHoldsMostRecent(limit, requests, n);
    TableIsValid(limit, requests, n);
    ByLastUseExact(requests, key, n);
    var all := ByLastUse(requests, n);
    assert forall k :: k in LastOf(all, limit) ==> k in all;
    NewToUnbounded(requests, key, n);
  }

  lemma {:induction false} NewToUnbounded(requests: seq<Request>, key: string, n: nat)
    requires n <= |requests| && forall i :: 0 <= i < n ==> requests[i].key != key
    ensures key !in UnboundedAfter(requests, n)
  {
    hide BucketFor;
    if n > 0 {
      NewToUnbounded(requests, key, n - 1);
    }
  }

  // ---------------------------------------------------------------- the refinement

  /** Up to check `n`, fewer other clients than the limit come between two consecutive checks of this one. */
  ghost predicate NeverCrowdedOut(limit: nat, requests: seq<Request>, key: string, n: nat)
    requires n < |requests|
  {
    forall p: nat, q: nat :: q <= n && requests[q].key == key && LastUsedAt(requests, key, p, q) ==>
      |Others(requests, p + 1, q)| < limit
  }

  lemma FindLastUse(requests: seq<Request>, key: string, n: nat) returns (p: nat)
    requires n <= |requests| && exists i :: 0 <= i < n && requests[i].key == key
    ensures LastUsedAt(requests, key, p, n)
  {
    if requests[n - 1].key == key {
      p := n - 1;
    } else {
      p := FindLastUse(requests, key, n - 1);
    }
  }

  /** Other clients' checks leave a retained bucket alone, or evict it. */
  lemma OtherChecks(limit: nat, table: Table, request: Request, key: string)
    requires table.Valid() && key != request.key && key in table.Check(limit, request).0.buckets
    ensures key in table.buckets && table.Check(limit, request).0.buckets[key] == table.buckets[key]
  {
    EvictedValid(table, limit);
  }

  /** While retained, a client's bucket is the one it would have in the unbounded table. */
  lemma {:induction false} RetainedBucketAgrees(limit: nat, requests: seq<Request>, key: string, n: nat, m: nat)
    requires limit >= 1 && n < |requests| && m <= n && NeverCrowdedOut(limit, requests, key, n)
    requires key in TableAfter(limit, requests, m).buckets
    ensures key in UnboundedAfter(requests, m)
    ensures TableAfter(limit, requests, m).buckets[key] == UnboundedAfter(requests, m)[key]
    decreases m, 0
  {
    hide Table.Touched, NeverCrowdedOut, FreshBucket;
    if m == 0 {
    } else if requests[m - 1].key == key {
      SameBucketSpent(limit, requests, key, n, m - 1);
    } else {
      TableIsValid(limit, requests, m - 1);
      OtherChecks(limit, TableAfter(limit, requests, m - 1), requests[m - 1], key);
      RetainedBucketAgrees(limit, requests, key, n, m - 1);
    }
  }

  /** Check `m` of the client spends from equal buckets in both tables. */
  lemma {:induction false} SameBucketSpent(limit: nat, requests: seq<Request>, key: string, n: nat, m: nat)
    requires limit >= 1 && n < |requests| && m <= n && NeverCrowdedOut(limit, requests, key, n)
    requires requests[m].key == key
    ensures var touched := TableAfter(limit, requests, m).Touched(limit, requests[m]);
      key in touched.buckets && touched.buckets[key] == BucketFor(UnboundedAfter(requests, m), requests[m])
    decreases m, 1
  {
    hide TableAfter, UnboundedAfter, FreshBucket;
    if exists i :: 0 <= i < m && requests[i].key == key {
      var p := FindLastUse(requests, key, m);
      RetainedExactly(limit, requests, key, p, m);
      RetainedBucketAgrees(limit, requests, key, n, m);
    } else {
      NewClient(limit, requests, key, m);
    }
  }

  /**
   LRU refinement: a client that is never crowded out between its consecutive checks gets the verdicts
   of a table that never evicts, whatever rates are read and whatever the clock shows.
   */
  lemma VerdictsAgree(limit: nat, requests: seq<Request>, n: nat)
    requires limit >= 1 && n < |requests|
    requires NeverCrowdedOut(limit, requests, requests[n].key, n)
    ensures Verdict(limit, requests, n) == UnboundedVerdict(requests, n)
  {
    hide TableAfter, UnboundedAfter, Table.Touched, BucketFor, NeverCrowdedOut;
    SameBucketSpent(limit, requests, requests[n].key, n, n);
  }
}
