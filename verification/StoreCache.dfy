/**
The cache of open partition stores: bounded in number, with an idle time to live, evicting the least
recently used.
*/
module StoreCache {
  import LeastRecent
  import opened Results

  /** Which opened event stream an entry holds. */
  type StreamId = nat

  datatype CachedStore = CachedStore(stream: StreamId, lastAccess: int)

  type Stores = map<string, CachedStore>

  const DEFAULT_MAX_OPEN_STORES: nat := 50
  const DEFAULT_IDLE_TTL_MS: int := 300_000

  // ----- keys

  predicate SafeByte(c: char) { 'a' <= c <= 'z' || '0' <= c <= '9' || c == '-' }

  predicate SafeLabel(value: string)
  {
    0 < |value| <= 128 && forall i | 0 <= i < |value| :: SafeByte(value[i])
  }

  function CacheKey(namespace: string, partitionKey: string): string { namespace + "/" + partitionKey }

  /** Different namespace and partition pairs never share a cache entry. */
  lemma CacheKeyInjective(a: string, b: string, a': string, b': string)
    requires SafeLabel(a) && SafeLabel(a') && CacheKey(a, b) == CacheKey(a', b')
    ensures a == a' && b == b'
  {
    FirstSlash(a, b);
    FirstSlash(a', b');
    assert |a| == |a'|;
    assert a == CacheKey(a, b)[..|a|] && a' == CacheKey(a', b')[..|a|];
    assert b == CacheKey(a, b)[|a| + 1..] && b' == CacheKey(a', b')[|a| + 1..];
  }

  lemma FirstSlash(namespace: string, partitionKey: string)
    requires SafeLabel(namespace)
    ensures var key := CacheKey(namespace, partitionKey);
            |key| > |namespace| && key[|namespace|] == '/' && forall i | 0 <= i < |namespace| :: key[i] != '/'
  {
  }

  // ----- evictions

  /** `retain`: entries that have not been idle for longer than the time to live. */
  function NotIdle(stores: Stores, ttl: int, now: int): Stores
  {
    map k | k in stores && now - stores[k].lastAccess <= ttl :: stores[k]
  }

  /** `kept` is part of `before`, and nothing left out was accessed later than anything kept. */
  predicate KeepsNewest(before: Stores, kept: Stores)
  {
    && (forall k | k in kept :: k in before && kept[k] == before[k])
    && (forall k, r | k in kept && r in before && r !in kept :: before[r].lastAccess <= before[k].lastAccess)
  }

  /**
  What is left when room is made for one more: the newest, one fewer than the bound, or everything
  if that is few enough.
  */
  predicate MakesRoom(before: Stores, kept: Stores, max: nat)
  {
    KeepsNewest(before, kept) && (if |before| < max then kept == before else |kept| == max - 1)
  }

  /** When no two entries were accessed at the same time, what is evicted is determined. */
  lemma RoomIsDetermined(before: Stores, a: Stores, b: Stores, max: nat)
    requires MakesRoom(before, a, max) && MakesRoom(before, b, max)
    requires forall k, k' | k in before && k' in before && k != k' :: before[k].lastAccess != before[k'].lastAccess
    ensures a == b
  {
    if a.Keys != b.Keys {
      var k := LeastRecent.PickOutside(a.Keys, b.Keys);
      var k' := LeastRecent.PickOutside(b.Keys, a.Keys);
    }
  }

  function AccessTimes(stores: Stores): (times: LeastRecent.Accesses)
    ensures times.Keys == stores.Keys
    ensures |times| == |stores|
  {
    var times := map k | k in stores :: stores[k].lastAccess;
    assert times.Keys == stores.Keys;
    times
  }

  // ----- the cache

  /**
  What a caller does to the cache under one lock; a reading of the clock evicts, and a later one
  marks the access.
  */
  datatype CacheOp =
    | Find(namespace: string, partitionKey: string, evictedAt: int, accessedAt: int)
    | Store(namespace: string, partitionKey: string, stream: StreamId, evictedAt: int, accessedAt: int)
    | SetMax(max: nat)
    | SetTtl(ttl: nat, now: int)

  /** The stream last stored under each key, after these operations. */
  function LastStoredAfter(last: map<string, StreamId>, ops: seq<CacheOp>): map<string, StreamId>
  {
    if ops == [] then last
    else
      var before, op := LastStoredAfter(last, ops[..|ops| - 1]), ops[|ops| - 1];
      if op.Store? then before[CacheKey(op.namespace, op.partitionKey) := op.stream] else before
  }

  /** One of the operations stores a stream under this key. */
  predicate StoredUnder(ops: seq<CacheOp>, key: string)
  {
    exists i :: 0 <= i < |ops| && ops[i].Store? && CacheKey(ops[i].namespace, ops[i].partitionKey) == key
  }

  class PartitionCache {
    var maxOpenStores: nat
    var idleStoreTtl: int
    var stores: Stores
    /** The stream last stored under each key, evicted or not. */
    ghost var lastStored: map<string, StreamId>

    /** Never more entries than the bound, and every entry is the stream last stored under its key. */
    ghost predicate Valid()
      reads this
    {
      && 0 < maxOpenStores && |stores| <= maxOpenStores
      && forall k | k in stores :: k in lastStored && stores[k].stream == lastStored[k]
    }

    constructor ()
      ensures Valid() && stores == map[] && lastStored == map[]
      ensures maxOpenStores == 50 && idleStoreTtl == 300_000
    {
      maxOpenStores, idleStoreTtl, stores, lastStored := DEFAULT_MAX_OPEN_STORES, DEFAULT_IDLE_TTL_MS, map[], map[];
    }

    /** Keeps exactly the entries that have not been idle for longer than the time to live, as they are. */
    method EvictIdle(now: int)
      modifies `stores
      ensures forall k :: k in stores <==> k in old(stores) && now - old(stores)[k].lastAccess <= idleStoreTtl
      ensures forall k | k in stores :: stores[k] == old(stores)[k]
      ensures stores == NotIdle(old(stores), idleStoreTtl, now)
      ensures old(Valid()) ==> Valid()
    {
      stores := map k | k in stores && now - stores[k].lastAccess <= idleStoreTtl :: stores[k];
      FewerStores(old(stores), stores);
    }

    /** Leaves room for one more; what it evicts was accessed no later than anything it keeps. */
    method EvictToCapacity()
      requires 0 < maxOpenStores
      modifies `stores
      ensures forall k | k in stores :: k in old(stores) && stores[k] == old(stores)[k]
      ensures forall k, e | k in stores && e in old(stores) && e !in stores ::
                old(stores)[e].lastAccess <= stores[k].lastAccess
      ensures MakesRoom(old(stores), stores, maxOpenStores)
      ensures |stores| < maxOpenStores
    {
      while |stores| >= maxOpenStores
        invariant KeepsNewest(old(stores), stores)
        invariant if |old(stores)| < maxOpenStores then stores == old(stores) else |stores| >= maxOpenStores - 1
        decreases |stores|
      {
        var oldest := LeastRecent.Oldest(AccessTimes(stores));
        stores := stores - {oldest};
      }
    }

    method WithMaxOpenStores(max: nat) returns (ok: bool)
      requires Valid()
      modifies this
      ensures Valid() && (ok <==> max != 0) && lastStored == old(lastStored) && idleStoreTtl == old(idleStoreTtl)
      ensures if ok then maxOpenStores == max && MakesRoom(old(stores), stores, max)
              else maxOpenStores == old(maxOpenStores) && stores == old(stores)
    {
      if max == 0 { return false; }
      maxOpenStores := max;
      EvictToCapacity();
      ok := true;
    }

    method WithIdleStoreTtl(ttl: nat, now: int) returns (ok: bool)
      requires Valid()
      modifies this
      ensures Valid() && (ok <==> ttl != 0) && lastStored == old(lastStored) && maxOpenStores == old(maxOpenStores)
      ensures if ok then idleStoreTtl == ttl && stores == NotIdle(old(stores), ttl, now)
              else idleStoreTtl == old(idleStoreTtl) && stores == old(stores)
      ensures ok ==> forall k :: k in stores <==> k in old(stores) && now - old(stores)[k].lastAccess <= ttl
    {
      if ttl == 0 { return false; }
      idleStoreTtl := ttl;
      EvictIdle(now);
      ok := true;
    }

    /**
    The first locked part of opening: a hit is exactly an entry that has not been idle too long. It
    gives the stream last stored for this namespace and partition, and becomes the newest entry.
    */
    method FindCached(namespace: string, partitionKey: string, evictedAt: int, accessedAt: int)
      returns (hit: Option<StreamId>)
      requires Valid()
      modifies `stores
      ensures Valid()
      ensures var key, live := CacheKey(namespace, partitionKey), NotIdle(old(stores), idleStoreTtl, evictedAt);
              && (hit.Some? <==> key in live)
              && (hit.Some? ==> key in lastStored && hit.value == lastStored[key])
              && stores == if hit.Some? then live[key := CachedStore(hit.value, accessedAt)] else live
      ensures var key := CacheKey(namespace, partitionKey);
              && (hit.Some? <==> key in old(stores) && evictedAt - old(stores)[key].lastAccess <= idleStoreTtl)
              && (hit.Some? ==> stores[key].lastAccess == accessedAt)
              && forall k | k != key ::
                   k in stores <==> k in old(stores) && evictedAt - old(stores)[k].lastAccess <= idleStoreTtl
    {
      var key := CacheKey(namespace, partitionKey);
      EvictIdle(evictedAt);
      if key in stores {
        stores := stores[key := stores[key].(lastAccess := accessedAt)];
        return Some(stores[key].stream);
      }
      hit := None;
    }

    /** The second locked part, after a store has been opened: makes room, then caches it. */
    method StoreOpened(namespace: string, partitionKey: string, stream: StreamId, evictedAt: int, accessedAt: int)
      returns (ghost kept: Stores)
      requires Valid()
      modifies `stores, `lastStored
      ensures Valid() && lastStored == old(lastStored)[CacheKey(namespace, partitionKey) := stream]
      ensures MakesRoom(NotIdle(old(stores), idleStoreTtl, evictedAt), kept, maxOpenStores)
      ensures stores == kept[CacheKey(namespace, partitionKey) := CachedStore(stream, accessedAt)]
    {
      var key := CacheKey(namespace, partitionKey);
      EvictIdle(evictedAt);
      EvictToCapacity();
      kept := stores;
      stores := stores[key := CachedStore(stream, accessedAt)];
      lastStored := lastStored[key := stream];
    }

    method Perform(op: CacheOp)
      requires Valid()
      modifies this
      ensures Valid() && lastStored == LastStoredAfter(old(lastStored), [op])
      ensures forall key | key !in old(stores) && !StoredUnder([op], key) :: key !in stores
    {
      match op
      case Find(namespace, partitionKey, evictedAt, accessedAt) =>
        var hit := FindCached(namespace, partitionKey, evictedAt, accessedAt);
      case Store(namespace, partitionKey, stream, evictedAt, accessedAt) =>
        assert [op][0].Store?;
        ghost var kept := StoreOpened(namespace, partitionKey, stream, evictedAt, accessedAt);
      case SetMax(max) =>
        var ok := WithMaxOpenStores(max);
      case SetTtl(ttl, now) =>
        var ok := WithIdleStoreTtl(ttl, now);
    }

    /** What other callers do, one lock after another. */
    method PerformAll(ops: seq<CacheOp>)
      requires Valid()
      modifies this
      ensures Valid() && lastStored == LastStoredAfter(old(lastStored), ops)
      ensures forall key | key !in old(stores) && !StoredUnder(ops, key) :: key !in stores
    {
      var i := 0;
      while i < |ops|
        invariant 0 <= i <= |ops| && Valid()
        invariant lastStored == LastStoredAfter(old(lastStored), ops[..i])
        invariant forall key | key !in old(stores) && !StoredUnder(ops[..i], key) :: key !in stores
      {
        OneMoreOp(old(lastStored), ops, i);
        Perform(ops[i]);
        i := i + 1;
      }
      assert ops[..i] == ops;
    }

    /**
    Opening a store, with whatever other callers do between the two locked parts. `outcome` is what
    opening it from disk gives. A hit gives the stream last stored; a store opened from disk is cached
    in place of one that another caller may have cached meanwhile, and an error caches nothing.
    */
    method OpenCached(namespace: string, partitionKey: string, outcome: Result<StreamId>, found: (int, int),
                      stored: (int, int), others: seq<CacheOp>)
      returns (r: Result<StreamId>)
      requires Valid()
      modifies this
      ensures Valid()
      ensures var key, live := CacheKey(namespace, partitionKey), NotIdle(old(stores), old(idleStoreTtl), found.0);
              if key in live then
                && r == Ok(live[key].stream) && lastStored == old(lastStored) && lastStored[key] == live[key].stream
                && stores == live[key := CachedStore(live[key].stream, found.1)]
              else if outcome.Ok? then
                && r == outcome && lastStored == LastStoredAfter(old(lastStored), others)[key := outcome.value]
                && key in stores && stores[key] == CachedStore(outcome.value, stored.1)
              else
                && r == outcome && lastStored == LastStoredAfter(old(lastStored), others)
                && (key in stores ==> StoredUnder(others, key))
      ensures var key := CacheKey(namespace, partitionKey);
              if key in old(stores) && found.0 - old(stores)[key].lastAccess <= old(idleStoreTtl)
              then r == Ok(old(stores)[key].stream) else r == outcome
    {
      var hit := FindCached(namespace, partitionKey, found.0, found.1);
      if hit.Some? { return Ok(hit.value); }
      PerformAll(others);
      if outcome.Ok? { ghost var kept := StoreOpened(namespace, partitionKey, outcome.value, stored.0, stored.1); }
      r := outcome;
    }
  }

  lemma OneMoreOp(last: map<string, StreamId>, ops: seq<CacheOp>, i: nat)
    requires i < |ops|
    ensures LastStoredAfter(last, ops[..i + 1]) == LastStoredAfter(LastStoredAfter(last, ops[..i]), [ops[i]])
    ensures forall key | StoredUnder(ops[..i], key) || StoredUnder([ops[i]], key) :: StoredUnder(ops[..i + 1], key)
  {
    assert ops[..i + 1][..i] == ops[..i];
    assert LastStoredAfter(LastStoredAfter(last, ops[..i]), []) == LastStoredAfter(last, ops[..i]);
    forall key | StoredUnder(ops[..i], key) || StoredUnder([ops[i]], key) ensures StoredUnder(ops[..i + 1], key) {
      if StoredUnder([ops[i]], key) {
        assert ops[..i + 1][i] == ops[i];
      } else {
        var j :| 0 <= j < i && ops[..i][j].Store? && CacheKey(ops[..i][j].namespace, ops[..i][j].partitionKey) == key;
        assert ops[..i + 1][j] == ops[..i][j];
      }
    }
  }

  lemma FewerStores(before: Stores, after: Stores)
    requires forall k | k in after :: k in before
    ensures |after| <= |before|
  {
    assert after.Keys <= before.Keys;
    LeastRecent.SubsetSize(after.Keys, before.Keys);
  }
}
