/** Token buckets per client in a bounded least-recently-used table, with exact (real) arithmetic. */
module RateLimiter {
  import opened Wrappers
  import opened Sequences

  function Min(a: real, b: real): real {
    if b < a then b else a
  }

  function Max(a: real, b: real): real {
    if b > a then b else a
  }

  // ---------------------------------------------------------------- one bucket

  datatype Bucket = Bucket(capacity: real, rate: real, tokens: real, lastTs: real) {
    function Refilled(now: real): Bucket {
      var elapsed := Max(0.0, now - lastTs);
      this.(tokens := Min(capacity, tokens + elapsed * rate), lastTs := now)
    }

    predicate Admits(now: real) {
      Refilled(now).tokens >= 1.0
    }

    function After(now: real): Bucket {
      var refilled := Refilled(now);
      if Admits(now) then refilled.(tokens := refilled.tokens - 1.0) else refilled
    }
  }

  class TokenBucket {
    const capacity: real
    const refillRate: real
    var tokens: real
    var lastTs: real

    constructor (capacity: real, refillRate: real, tokens: real, lastTs: real)
      ensures View() == Bucket(capacity, refillRate, tokens, lastTs)
    {
      this.capacity, this.refillRate, this.tokens, this.lastTs := capacity, refillRate, tokens, lastTs;
    }

    function View(): Bucket
      reads this
    {
      Bucket(capacity, refillRate, tokens, lastTs)
    }

    /** Refill for the time since the last call, then take one token if available. */
    method Allow(now: real) returns (allowed: bool)
      modifies this
      ensures View() == old(View()).After(now)
      ensures allowed <==> old(View()).Admits(now)
    {
      var elapsed := Max(0.0, now - lastTs);
      tokens := Min(capacity, tokens + elapsed * refillRate);
      lastTs := now;
      if tokens >= 1.0 {
        tokens := tokens - 1.0;
        return true;
      }
      return false;
    }
  }

  // ---------------------------------------------------------------- the table

  /** A rate as configured; a burst of 0 means one second's worth. */
  datatype Rate = Rate(perSecond: real, burst: real)

  function FreshBucket(rate: Rate, now: real): Bucket {
    var capacity := Max(1.0, if rate.burst > 0.0 then rate.burst else rate.perSecond);
    Bucket(capacity, Max(0.0, rate.perSecond), capacity, now)
  }

  /** One check: the rate and clock read if a bucket is created, and the clock read to spend a token. */
  datatype Request = Request(key: string, rate: Rate, created: real, now: real)

  function Without(keys: seq<string>, key: string): seq<string> {
    if keys == [] then [] else (if keys[0] == key then [] else [keys[0]]) + Without(keys[1..], key)
  }

  lemma {:induction false} WithoutExact(keys: seq<string>, key: string)
    ensures forall k :: k in Without(keys, key) <==> k in keys && k != key
  {
    if keys != [] {
      WithoutExact(keys[1..], key);
      assert keys == [keys[0]] + keys[1..];
    }
  }

  lemma {:induction false} WithoutAbsent(keys: seq<string>, key: string)
    requires key !in keys
    ensures Without(keys, key) == keys
  {
    if keys != [] {
      assert keys == [keys[0]] + keys[1..];
      assert keys[0] in keys;
      WithoutAbsent(keys[1..], key);
    }
  }

  lemma DistinctAppend(keys: seq<string>, key: string)
    requires Distinct(keys) && key !in keys
    ensures Distinct(keys + [key])
  {
    assert forall i :: 0 <= i < |keys| ==> keys[i] in keys;
  }

  lemma {:induction false} WithoutDistinct(keys: seq<string>, key: string)
    requires Distinct(keys)
    ensures Distinct(Without(keys, key))
  {
    if keys != [] {
      var rest := Without(keys[1..], key);
      WithoutDistinct(keys[1..], key);
      WithoutExact(keys[1..], key);
      assert keys[0] !in keys[1..];
      forall i | 0 <= i < |rest| ensures rest[i] != keys[0] {
        assert rest[i] in rest;
      }
    }
  }

  /** The table in order of use, least recent first. */
  datatype Table = Table(keys: seq<string>, buckets: map<string, Bucket>) {
    ghost predicate Valid() {
      && (forall key :: key in keys <==> key in buckets)
      && Distinct(keys)
    }

    function DropOldest(): Table
      requires keys != []
    {
      Table(keys[1..], buckets - {keys[0]})
    }

    /** Least recently used entries dropped until one more fits. */
    function Evicted(limit: nat): Table
      decreases |keys|
    {
      if keys != [] && |keys| >= limit then DropOldest().Evicted(limit) else this
    }

    function Touched(limit: nat, request: Request): Table {
      if request.key in buckets then Table(Without(keys, request.key) + [request.key], buckets)
      else
        var room := Evicted(limit);
        Table(room.keys + [request.key], room.buckets[request.key := FreshBucket(request.rate, request.created)])
    }

    function Check(limit: nat, request: Request): (Table, bool) {
      var touched := Touched(limit, request);
      var bucket := if request.key in touched.buckets then touched.buckets[request.key]
                    else FreshBucket(request.rate, request.created);
      (touched.(buckets := touched.buckets[request.key := bucket.After(request.now)]), bucket.Admits(request.now))
    }
  }

  lemma DropOldestValid(table: Table)
    requires table.Valid() && table.keys != []
    ensures table.DropOldest().Valid()
  {
    assert table.keys == [table.keys[0]] + table.keys[1..];
  }

  lemma {:induction false} EvictedValid(table: Table, limit: nat)
    requires table.Valid()
    ensures table.Evicted(limit).Valid()
    ensures forall key :: key in table.Evicted(limit).buckets ==>
              key in table.buckets && table.Evicted(limit).buckets[key] == table.buckets[key]
    decreases |table.keys|
  {
    if table.keys != [] && |table.keys| >= limit {
      DropOldestValid(table);
      EvictedValid(table.DropOldest(), limit);
    }
  }

  lemma TouchedValid(table: Table, limit: nat, request: Request)
    requires table.Valid()
    ensures table.Touched(limit, request).Valid() && request.key in table.Touched(limit, request).buckets
  {
    hide Distinct, Table.Evicted;
    if request.key in table.buckets {
      WithoutDistinct(table.keys, request.key);
      WithoutExact(table.keys, request.key);
      DistinctAppend(Without(table.keys, request.key), request.key);
    } else {
      EvictedValid(table, limit);
      DistinctAppend(table.Evicted(limit).keys, request.key);
    }
  }

  class RateLimiter {
    const maxClients: nat
    var keys: seq<string>
    var buckets: map<string, TokenBucket>

    ghost predicate Valid()
      reads this, buckets.Values
    {
      && View().Valid()
      && (forall a, b :: a in buckets && b in buckets && a != b ==> buckets[a] != buckets[b])
    }

    function View(): Table
      reads this, buckets.Values
    {
      Table(keys, map key | key in buckets :: buckets[key].View())
    }

    constructor (maxClients: nat)
      requires maxClients >= 1
      ensures Valid() && View() == Table([], map[]) && this.maxClients == maxClients
    {
      this.maxClients := maxClients;
      keys, buckets := [], map[];
    }

    /** `popitem(last=False)` */
    method PopOldest()
      requires Valid() && keys != []
      modifies this
      ensures Valid() && View() == old(View()).DropOldest()
      ensures buckets.Values <= old(buckets.Values)
    {
      hide Distinct;
      DropOldestValid(View());
      keys, buckets := keys[1..], buckets - {keys[0]};
    }

    /** Drop least recently seen clients until one more fits. */
    method EvictOldest()
      requires Valid()
      modifies this
      ensures Valid() && View() == old(View()).Evicted(maxClients)
      ensures buckets.Values <= old(buckets.Values)
    {
      while keys != [] && |keys| >= maxClients
        invariant Valid()
        invariant View().Evicted(maxClients) == old(View()).Evicted(maxClients)
        invariant buckets.Values <= old(buckets.Values)
        decreases |keys|
      {
        PopOldest();
      }
    }

    method NewBucket(rate: Rate, now: real) returns (bucket: TokenBucket)
      ensures fresh(bucket) && bucket.View() == FreshBucket(rate, now)
    {
      var capacity := Max(1.0, if rate.burst > 0.0 then rate.burst else rate.perSecond);
      bucket := new TokenBucket(capacity, Max(0.0, rate.perSecond), capacity, now);
    }

    /** The bucket of a client, created if needed, as the most recently used one. */
    method Touch(request: Request)
      requires Valid()
      modifies this
      ensures Valid() && View() == old(View()).Touched(maxClients, request)
      ensures request.key in buckets && fresh(buckets.Values - old(buckets.Values))
    {
      hide Distinct, Table.Evicted, Without, FreshBucket;
      if request.key !in buckets {
        Create(request);
      } else {
        MoveToEnd(request.key);
      }
    }

    /** `move_to_end(key)` */
    method MoveToEnd(key: string)
      requires Valid() && key in buckets
      modifies this`keys
      ensures Valid() && View() == Table(Without(old(keys), key) + [key], old(View()).buckets)
    {
      hide Distinct;
      WithoutDistinct(keys, key);
      WithoutExact(keys, key);
      DistinctAppend(Without(keys, key), key);
      hide Without;
      ghost var before := View().buckets;
      keys := Without(keys, key) + [key];
      assert View().buckets == before;
    }

    method Create(request: Request)
      requires Valid() && request.key !in buckets
      modifies this
      ensures Valid() && View() == old(View()).Touched(maxClients, request)
      ensures request.key in buckets && fresh(buckets.Values - old(buckets.Values))
    {
      hide Distinct, Table.Evicted, FreshBucket, Without;
      ghost var room := View().Evicted(maxClients);
      EvictedValid(View(), maxClients);
      EvictOldest();
      assert View() == room && request.key !in View().buckets;
      var bucket := NewBucket(request.rate, request.created);
      assert View() == room;
      Append(request.key, bucket);
    }

    method Append(key: string, bucket: TokenBucket)
      requires Valid() && key !in buckets && bucket !in buckets.Values
      modifies this
      ensures buckets == old(buckets)[key := bucket] && keys == old(keys) + [key]
      ensures Valid()
      ensures View() == Table(old(keys) + [key], old(View()).buckets[key := bucket.View()])
    {
      hide Distinct;
      assert key !in View().buckets;
      DistinctAppend(keys, key);
      ghost var before := View().buckets;
      keys, buckets := keys + [key], buckets[key := bucket];
      assert View().buckets == before[key := bucket.View()];
    }

    /** Take one token for a client; false when the client is over its rate. */
    method Check(request: Request) returns (allowed: bool)
      requires Valid()
      modifies this, buckets.Values
      ensures Valid()
      ensures (View(), allowed) == old(View()).Check(maxClients, request)
      ensures fresh(buckets.Values - old(buckets.Values))
    {
      Touch(request);
      allowed := Spend(request.key, request.now);
    }

    method Spend(key: string, now: real) returns (allowed: bool)
      requires Valid() && key in buckets
      modifies buckets[key]
      ensures Valid()
      ensures View() == Table(old(keys), old(View()).buckets[key := old(View()).buckets[key].After(now)])
      ensures allowed <==> old(View()).buckets[key].Admits(now)
    {
      allowed := buckets[key].Allow(now);
    }
  }

  /** A table that can hold no client is refused. */
  method MakeLimiter(maxClients: int) returns (limiter: Result<RateLimiter, string>)
    ensures limiter.Ok? <==> maxClients >= 1
    ensures limiter.Ok? ==> fresh(limiter.value) && limiter.value.Valid() && limiter.value.maxClients == maxClients
    ensures limiter.Ok? ==> limiter.value.View() == Table([], map[])
  {
    if maxClients < 1 {
      return Err("max_clients must be at least 1");
    }
    var made := new RateLimiter(maxClients);
    return Ok(made);
  }
}
