/**
The pool of open databases: cached instances by path, a counter of connections on each, and the
eviction of idle instances. An eviction holds the lock on the cache, but it takes the lock of one
instance after another, and counters go up and down meanwhile; so each visit of an instance is a step
of its own, and what is evicted is judged by the counters as they were read. Each method of the pool
is one such step, and instances stay alive while a connection refers to them.
*/
module DatabasePools {
  import opened LeastRecent
  import opened Results

  /** Instances and connections are referred to by number. */
  type InstanceId = int
  type HandleId = int

  datatype Instance = Instance(lastAccess: int, activeConnections: nat, hasCachedConnection: bool)

  /**
  A connection on its way: counted but not yet configured, with the caller, or dropped but not yet
  uncounted.
  */
  datatype Phase = InFlight(reused: bool) | Live | Dropping

  datatype Handle = Handle(instance: InstanceId, phase: Phase)

  type Handles = map<HandleId, Handle>

  /** The connections of one instance. */
  function HandlesOf(handles: Handles, i: InstanceId): set<HandleId>
  {
    set h | h in handles && handles[h].instance == i
  }

  lemma HandleAdded(handles: Handles, h: HandleId, handle: Handle, i: InstanceId)
    requires h !in handles
    ensures |HandlesOf(handles[h := handle], i)| == |HandlesOf(handles, i)| + if handle.instance == i then 1 else 0
  {
    var after := handles[h := handle];
    assert HandlesOf(after, i) == if handle.instance == i then HandlesOf(handles, i) + {h} else HandlesOf(handles, i);
  }

  lemma HandleRemoved(handles: Handles, h: HandleId, i: InstanceId)
    requires h in handles
    ensures |HandlesOf(handles - {h}, i)| == |HandlesOf(handles, i)| - if handles[h].instance == i then 1 else 0
  {
    assert HandlesOf(handles - {h}, i)
        == if handles[h].instance == i then HandlesOf(handles, i) - {h} else HandlesOf(handles, i);
  }

  lemma HandleMoved(handles: Handles, h: HandleId, phase: Phase, i: InstanceId)
    requires h in handles
    ensures HandlesOf(handles[h := handles[h].(phase := phase)], i) == HandlesOf(handles, i)
  {
  }

  /** Each counter is the number of connections of its instance, live or on their way. */
  ghost predicate Counts(handles: Handles, handed: int, instances: map<InstanceId, Instance>, created: int)
  {
    && (forall h | h in handles :: h < handed && handles[h].instance in instances)
    && (forall i | i in instances :: i < created && instances[i].activeConnections == |HandlesOf(handles, i)|)
  }

  lemma CountsInstance(handles: Handles, handed: int, instances: map<InstanceId, Instance>, created: int, now: int)
    requires Counts(handles, handed, instances, created)
    ensures created !in instances && Counts(handles, handed, instances[created := Instance(now, 0, false)], created + 1)
  {
    forall h | h in handles ensures handles[h].instance != created {}
    assert HandlesOf(handles, created) == {};
  }

  /** Counting one more connection of an instance. */
  lemma CountsHandle(handles: Handles, handed: int, instances: map<InstanceId, Instance>, created: int,
                     i: InstanceId, phase: Phase)
    requires Counts(handles, handed, instances, created) && i in instances
    ensures handed !in handles
    ensures Counts(handles[handed := Handle(i, phase)], handed + 1,
                   instances[i := Instance(instances[i].lastAccess, instances[i].activeConnections + 1, false)],
                   created)
  {
    forall j | j in instances { HandleAdded(handles, handed, Handle(i, phase), j); }
  }

  /** A connection is counted, so its instance's counter is not zero; uncounting it takes off exactly one. */
  lemma CountsWithout(handles: Handles, handed: int, instances: map<InstanceId, Instance>, created: int, h: HandleId)
    requires Counts(handles, handed, instances, created) && h in handles
    ensures var i := handles[h].instance;
            && i in instances && instances[i].activeConnections > 0
            && Counts(handles - {h}, handed,
                      instances[i := instances[i].(activeConnections := instances[i].activeConnections - 1)], created)
  {
    var i := handles[h].instance;
    assert h in HandlesOf(handles, i);
    forall j | j in instances { HandleRemoved(handles, h, j); }
  }

  /** Moving a connection on, and caching or not caching a connection, changes no count. */
  lemma CountsPhase(handles: Handles, handed: int, instances: map<InstanceId, Instance>, created: int, h: HandleId,
                    phase: Phase)
    requires Counts(handles, handed, instances, created) && h in handles
    ensures var i, handles' := handles[h].instance, handles[h := handles[h].(phase := phase)];
            && i in instances && Counts(handles', handed, instances, created)
            && Counts(handles', handed, instances[i := instances[i].(hasCachedConnection := true)], created)
  {
    forall j | j in instances { HandleMoved(handles, h, phase, j); }
  }

  lemma CountsAccess(handles: Handles, handed: int, instances: map<InstanceId, Instance>, created: int, i: InstanceId,
                     now: int)
    requires Counts(handles, handed, instances, created) && i in instances
    ensures Counts(handles, handed, instances[i := instances[i].(lastAccess := now)], created)
  {
  }

  /** Different cached paths have instances of their own. */
  ghost predicate Caches(databases: map<string, InstanceId>, instances: map<InstanceId, Instance>)
  {
    && (forall p | p in databases :: databases[p] in instances)
    && (forall p, q | p in databases && q in databases && p != q :: databases[p] != databases[q])
  }

  lemma CachesEach(databases: map<string, InstanceId>, instances: map<InstanceId, Instance>)
    requires Caches(databases, instances)
    ensures forall p | p in databases :: databases[p] in instances
  {
  }

  lemma CachesUpdate(databases: map<string, InstanceId>, instances: map<InstanceId, Instance>, i: InstanceId,
                     instance: Instance)
    requires Caches(databases, instances) && i in instances
    ensures Caches(databases, instances[i := instance])
  {
  }

  lemma CachesInstance(databases: map<string, InstanceId>, instances: map<InstanceId, Instance>,
                       path: string, i: InstanceId, instance: Instance)
    requires Caches(databases, instances) && i !in instances
    ensures Caches(databases[path := i], instances[i := instance])
  {
  }

  lemma CachesFewer(databases: map<string, InstanceId>, instances: map<InstanceId, Instance>, path: string)
    requires Caches(databases, instances)
    ensures Caches(databases - {path}, instances)
  {
  }

  // ----- evictions

  /** Access times of the cached paths. */
  function AccessTimes(databases: map<string, InstanceId>, instances: map<InstanceId, Instance>): (times: Accesses)
    requires forall p | p in databases :: databases[p] in instances
    ensures times.Keys == databases.Keys
  {
    map p | p in databases :: instances[databases[p]].lastAccess
  }

  /** The paths whose counters were read as zero. */
  function IdleAsRead(readings: map<string, nat>): set<string> { set p | p in readings && readings[p] == 0 }

  /**
  `evicted` are as many of the idle paths as wanted, if there are so many, and none was accessed
  later than an idle one left.
  */
  predicate EvictsOldest(evicted: set<string>, idle: set<string>, times: Accesses, target: nat)
    requires idle <= times.Keys
  {
    && evicted <= idle
    && |evicted| == (if |idle| <= target then |idle| else target)
    && forall e, k | e in evicted && k in idle && k !in evicted :: times[e] <= times[k]
  }

  /** When no two idle paths were accessed at the same time, what is evicted is determined. */
  lemma EvictionIsDetermined(a: set<string>, b: set<string>, idle: set<string>, times: Accesses, target: nat)
    requires idle <= times.Keys && EvictsOldest(a, idle, times, target) && EvictsOldest(b, idle, times, target)
    requires forall k, k' | k in idle && k' in idle && k != k' :: times[k] != times[k']
    ensures a == b
  {
    if a != b {
      var k := PickOutside(a, b);
      var k' := PickOutside(b, a);
    }
  }

  /**
  A sweep under way over the cached paths in the order of access: those not in `rest` any more have
  been visited, with the counters read, and of them exactly the idle ones are evicted.
  */
  predicate Sweeping(evicted: set<string>, count: nat, readings: map<string, nat>, rest: Accesses, times: Accesses)
  {
    && count == |evicted| && evicted == IdleAsRead(readings)
    && readings.Keys <= times.Keys
    && (forall p | p in rest :: p in times && rest[p] == times[p])
    && (forall p | p in times :: p in readings <==> p !in rest)
    && (forall v, p | v in readings && p in rest :: times[v] <= times[p])
  }

  /** A sweep that has ended: it has evicted enough or visited all, the oldest first. */
  predicate SweptThrough(evicted: set<string>, readings: map<string, nat>, times: Accesses, target: nat)
  {
    && evicted == IdleAsRead(readings) && |evicted| <= target && readings.Keys <= times.Keys
    && (readings.Keys == times.Keys || |evicted| == target)
    && (forall v, p | v in readings && p in times && p !in readings :: times[v] <= times[p])
  }

  lemma SweepNone(times: Accesses)
    ensures Sweeping({}, 0, map[], times, times)
  {
  }

  /** One visit: the oldest path left is taken, and evicted when its counter reads zero. */
  lemma SweepOne(evicted: set<string>, count: nat, readings: map<string, nat>, rest: Accesses, times: Accesses,
                 p: string, reading: nat)
    requires Sweeping(evicted, count, readings, rest, times) && IsOldest(rest, p)
    ensures p in times && p !in evicted
    ensures reading == 0 ==> Sweeping(evicted + {p}, count + 1, readings[p := reading], rest - {p}, times)
    ensures reading > 0 ==> Sweeping(evicted, count, readings[p := reading], rest - {p}, times)
  {
    var readings' := readings[p := reading];
    assert IdleAsRead(readings') == if reading == 0 then evicted + {p} else evicted;
  }

  lemma SweepEnds(evicted: set<string>, count: nat, readings: map<string, nat>, rest: Accesses, times: Accesses,
                  target: nat)
    requires Sweeping(evicted, count, readings, rest, times)
    requires count <= target && (rest == map[] || count == target)
    ensures SweptThrough(evicted, readings, times, target)
  {
    if rest == map[] { assert readings.Keys == times.Keys; }
  }

  /**
  Whatever the counters of paths not visited would have read, a sweep evicts the oldest of those
  that read as idle.
  */
  lemma SweptEvictsOldest(evicted: set<string>, readings: map<string, nat>, times: Accesses, target: nat,
                          counters: map<string, nat>)
    requires SweptThrough(evicted, readings, times, target)
    requires counters.Keys == times.Keys && forall p | p in readings :: counters[p] == readings[p]
    ensures EvictsOldest(evicted, IdleAsRead(counters), times, target)
  {
    SubsetSize(evicted, IdleAsRead(counters));
    if readings.Keys == times.Keys { assert evicted == IdleAsRead(counters); }
  }

  /**
  The sweep, with the counter that each visit reads. Nothing is evicted up to the maximum; beyond it
  the oldest paths that read as idle, to make room for one more; those that read as busy stay.
  */
  method EvictOldDatabases(databases: map<string, InstanceId>, times: Accesses, counters: map<string, nat>,
                           maxCached: nat)
    returns (left: map<string, InstanceId>, evicted: set<string>)
    requires times.Keys == databases.Keys == counters.Keys
    ensures left == databases - evicted
    ensures if |databases| <= maxCached then evicted == {}
            else EvictsOldest(evicted, IdleAsRead(counters), times, |databases| - maxCached + 1)
    ensures forall p | p in evicted :: p in counters && counters[p] == 0
    ensures forall e, p | e in evicted && p in left && counters[p] == 0 :: times[e] <= times[p]
    ensures |databases| > maxCached ==>
              |evicted| == |databases| - maxCached + 1 || forall p | p in left :: counters[p] > 0
  {
    hide EvictsOldest, IdleAsRead, Sweeping, SweptThrough, IsOldest;
    left, evicted := databases, {};
    if |databases| <= maxCached { return; }
    var rest, count, target := times, 0, |databases| - maxCached + 1;
    ghost var readings: map<string, nat> := map[];
    SweepNone(times);
    // The candidates in the order of their access times, each taken from the front of what is left.
    while rest != map[] && count < target
      invariant count <= target && left == databases - evicted
      invariant Sweeping(evicted, count, readings, rest, times)
      invariant forall p | p in readings :: p in counters && readings[p] == counters[p]
      decreases rest.Keys
    {
      var p := Oldest(rest);
      SweepOne(evicted, count, readings, rest, times, p, counters[p]);
      OldestIn(rest, p);
      rest, readings := rest - {p}, readings[p := counters[p]];
      if counters[p] == 0 {
        left := left - {p};
        evicted := evicted + {p};
        count := count + 1;
      }
    }
    SweepEnds(evicted, count, readings, rest, times, target);
    SweptEvictsOldest(evicted, readings, times, target, counters);
    IdleAreCounted(counters);
    EvictedWereIdle(left, databases, evicted, counters, times, target);
  }

  lemma IdleAreCounted(counters: map<string, nat>)
    ensures IdleAsRead(counters) <= counters.Keys
  {
  }

  lemma EvictedWereIdle(left: map<string, InstanceId>, databases: map<string, InstanceId>, evicted: set<string>,
                        counters: map<string, nat>, times: Accesses, target: nat)
    requires times.Keys == databases.Keys == counters.Keys && left == databases - evicted
    requires IdleAsRead(counters) <= times.Keys && EvictsOldest(evicted, IdleAsRead(counters), times, target)
    ensures forall p | p in evicted :: p in counters && counters[p] == 0
    ensures forall e, p | e in evicted && p in left && counters[p] == 0 :: times[e] <= times[p]
    ensures |evicted| == target || forall p | p in left :: counters[p] > 0
  {
    SubsetSize(evicted, IdleAsRead(counters));
  }

  /** Every cached path but this one was read as busy by the last sweep. */
  predicate OthersReadBusy(databases: map<string, InstanceId>, readings: map<string, nat>, path: string)
  {
    forall p | p in databases && p != path :: p in readings && readings[p] > 0
  }

  lemma OneMoreCached(databases: map<string, InstanceId>, path: string, i: InstanceId)
    ensures |databases[path := i]| <= |databases| + 1
  {
    assert databases[path := i].Keys == databases.Keys + {path};
  }

  /** A path that the sweep has not visited is still cached. */
  lemma StillCached(before: map<string, InstanceId>, evicted: set<string>, count: nat, readings: map<string, nat>,
                    rest: Accesses, times: Accesses, p: string)
    requires Sweeping(evicted, count, readings, rest, times) && times.Keys == before.Keys && p in rest
    ensures p in before - evicted
  {
  }

  // ----- the pool

  /**
  No insertion under way; one that needs no sweep; or one whose sweep has these paths left and has
  evicted so many.
  */
  datatype Adding =
    | NoneAdding
    | Ready(path: string)
    | Sweep(path: string, rest: Accesses, count: nat, target: nat)

  /**
  Of the insertion under way or made last: the cache before it, its path, and what its sweep has
  read and evicted.
  */
  datatype Record = Record(before: map<string, InstanceId>, times: Accesses, readings: map<string, nat>,
                           evicted: set<string>, path: string)

  /**
  The cache is within one of its maximum unless every other path was read as busy at the last
  insertion; during an insertion it is what the sweep so far has left.
  */
  ghost predicate CacheOk(databases: map<string, InstanceId>, adding: Adding, r: Record, maxCached: nat)
  {
    match adding
    case NoneAdding => |databases| <= maxCached + 1 || OthersReadBusy(databases, r.readings, r.path)
    case Ready(_) => |databases| <= maxCached
    case Sweep(_, rest, count, target) =>
      && databases == r.before - r.evicted && r.times.Keys == r.before.Keys
      && |r.before| > maxCached && target == |r.before| - maxCached + 1 && count <= target
      && Sweeping(r.evicted, count, r.readings, rest, r.times)
  }

  /** The cache is what a sweep that has ended has left of it. */
  predicate Swept(databases: map<string, InstanceId>, r: Record, maxCached: nat)
  {
    && databases == r.before - r.evicted && r.times.Keys == r.before.Keys && |r.before| > maxCached
    && SweptThrough(r.evicted, r.readings, r.times, |r.before| - maxCached + 1)
  }

  /** After a sweep the cache has room for one more within its maximum, or everything left was read as busy. */
  lemma RoomIsMade(left: map<string, InstanceId>, r: Record, maxCached: nat, path: string, i: InstanceId)
    requires Swept(left, r, maxCached)
    ensures |left[path := i]| <= maxCached || OthersReadBusy(left[path := i], r.readings, path)
  {
    assert left.Keys == r.before.Keys - r.evicted && r.evicted <= r.before.Keys;
    assert left[path := i].Keys == left.Keys + {path};
  }

  lemma SweepBegins(databases: map<string, InstanceId>, path: string, times: Accesses, maxCached: nat)
    requires times.Keys == databases.Keys && |databases| > maxCached
    ensures CacheOk(databases, Sweep(path, times, 0, |databases| - maxCached + 1),
                    Record(databases, times, map[], {}, path), maxCached)
  {
    SweepNone(times);
    assert databases - {} == databases;
  }

  lemma SweepVisits(databases: map<string, InstanceId>, adding: Adding, r: Record, maxCached: nat, p: string,
                    reading: nat)
    requires CacheOk(databases, adding, r, maxCached) && adding.Sweep? && adding.count < adding.target
    requires IsOldest(adding.rest, p)
    ensures p in databases
    ensures var adding' := adding.(rest := adding.rest - {p}, count := adding.count + if reading == 0 then 1 else 0);
            var r' := r.(readings := r.readings[p := reading],
                         evicted := if reading == 0 then r.evicted + {p} else r.evicted);
            CacheOk(if reading == 0 then databases - {p} else databases, adding', r', maxCached)
  {
    hide IsOldest;
    OldestIn(adding.rest, p);
    StillCached(r.before, r.evicted, adding.count, r.readings, adding.rest, r.times, p);
    SweepOne(r.evicted, adding.count, r.readings, adding.rest, r.times, p, reading);
    assert databases - {p} == r.before - (r.evicted + {p});
  }

  lemma FitsReady(databases: map<string, InstanceId>, adding: Adding, r: Record, maxCached: nat)
    requires CacheOk(databases, adding, r, maxCached) && adding.Ready?
    ensures |databases| <= maxCached
  {
  }

  lemma ReadyEnds(databases: map<string, InstanceId>, r: Record, maxCached: nat, path: string, i: InstanceId)
    requires |databases| <= maxCached
    ensures |databases[path := i]| <= maxCached + 1
    ensures CacheOk(databases[path := i], NoneAdding, r, maxCached)
  {
    OneMoreCached(databases, path, i);
  }

  /** What a sweep that has ended has done. */
  lemma SweptEnds(databases: map<string, InstanceId>, adding: Adding, r: Record, maxCached: nat)
    requires CacheOk(databases, adding, r, maxCached)
    requires adding.Sweep? && (adding.rest == map[] || adding.count == adding.target)
    ensures Swept(databases, r, maxCached)
  {
    hide Sweeping, SweptThrough, OthersReadBusy, CacheOk;
    SweepFacts(databases, adding, r, maxCached);
    SweepEnds(r.evicted, adding.count, r.readings, adding.rest, r.times, adding.target);
  }

  lemma SweepFacts(databases: map<string, InstanceId>, adding: Adding, r: Record, maxCached: nat)
    requires CacheOk(databases, adding, r, maxCached) && adding.Sweep?
    ensures databases == r.before - r.evicted && r.times.Keys == r.before.Keys && |r.before| > maxCached
    ensures adding.target == |r.before| - maxCached + 1 && adding.count <= adding.target
    ensures Sweeping(r.evicted, adding.count, r.readings, adding.rest, r.times)
  {
  }

  lemma EndsOk(filled: map<string, InstanceId>, r: Record, maxCached: nat)
    requires |filled| <= maxCached + 1 || OthersReadBusy(filled, r.readings, r.path)
    ensures CacheOk(filled, NoneAdding, r, maxCached)
  {
  }

  class DatabasePool {
    const maxCached: nat
    var databases: map<string, InstanceId>
    var instances: map<InstanceId, Instance>
    var handles: Handles
    var created: nat
    var handed: nat
    var adding: Adding
    ghost var record: Record

    ghost predicate Valid()
      reads this
    {
      && Counts(handles, handed, instances, created)
      && Caches(databases, instances)
      && CacheOk(databases, adding, record, maxCached)
    }

    constructor (max: nat)
      ensures Valid() && maxCached == max && databases == map[] && handles == map[] && adding == NoneAdding
    {
      maxCached, databases, instances, handles := max, map[], map[], map[];
      created, handed, adding := 0, 0, NoneAdding;
      record := Record(map[], map[], map[], {}, "");
    }

    /** The cached instance of a path, if any, becomes the most recently used. */
    method FindDatabase(path: string, now: int) returns (hit: Option<InstanceId>)
      requires Valid() && adding.NoneAdding?
      modifies `instances
      ensures Valid()
      ensures hit == if path in databases then Some(databases[path]) else None
      ensures hit.Some? ==> instances == old(instances)[hit.value := old(instances)[hit.value].(lastAccess := now)]
      ensures hit.None? ==> instances == old(instances)
    {
      hide Counts, Caches, CacheOk;
      CachesEach(databases, instances);
      if path !in databases { return None; }
      var i := databases[path];
      CachesUpdate(databases, instances, i, instances[i].(lastAccess := now));
      CountsAccess(handles, handed, instances, created, i, now);
      instances := instances[i := instances[i].(lastAccess := now)];
      hit := Some(i);
    }

    /**
    Takes the lock on the cache to add a path that was not found, and starts a sweep when the cache
    is beyond its maximum.
    */
    method BeginAdding(path: string)
      requires Valid() && adding.NoneAdding?
      modifies `adding, `record
      ensures Valid()
      ensures if |databases| <= maxCached then adding == Ready(path) && record == old(record)
              else && record.before == databases && record.readings == map[] && record.evicted == {}
                   && (forall p | p in databases :: databases[p] in instances && p in record.times
                                                    && record.times[p] == instances[databases[p]].lastAccess)
                   && adding == Sweep(path, record.times, 0, |databases| - maxCached + 1)
    {
      hide Counts, Caches, Sweeping, OthersReadBusy;
      CachesEach(databases, instances);
      if |databases| <= maxCached {
        adding := Ready(path);
        return;
      }
      var times := AccessTimes(databases, instances);
      SweepBegins(databases, path, times, maxCached);
      record := Record(databases, times, map[], {}, path);
      adding := Sweep(path, times, 0, |databases| - maxCached + 1);
    }

    /**
    One visit of the sweep: under its lock, the counter of the oldest instance left is read, and a
    zero evicts it.
    */
    method VisitOldest() returns (path: string, reading: nat)
      requires Valid() && adding.Sweep? && adding.rest != map[] && adding.count < adding.target
      modifies `databases, `adding, `record
      ensures Valid() && IsOldest(old(adding).rest, path)
      ensures path in old(databases) && old(databases)[path] in instances
      ensures reading == instances[old(databases)[path]].activeConnections
      ensures databases == if reading == 0 then old(databases) - {path} else old(databases)
      ensures record == old(record).(
                readings := old(record).readings[path := reading],
                evicted := if reading == 0 then old(record).evicted + {path} else old(record).evicted)
      ensures adding == old(adding).(rest := old(adding).rest - {path},
                                     count := old(adding).count + if reading == 0 then 1 else 0)
    {
      hide Counts, Caches, CacheOk, IsOldest;
      path := Oldest(adding.rest);
      CachesEach(databases, instances);
      SweepVisits(databases, adding, record, maxCached, path, 0);
      reading := instances[databases[path]].activeConnections;
      SweepVisits(databases, adding, record, maxCached, path, reading);
      record := record.(readings := record.readings[path := reading],
                        evicted := if reading == 0 then record.evicted + {path} else record.evicted);
      if reading == 0 {
        CachesFewer(databases, instances, path);
        databases := databases - {path};
        adding := adding.(rest := adding.rest - {path}, count := adding.count + 1);
      } else {
        adding := adding.(rest := adding.rest - {path});
      }
    }

    /**
    Caches the new instance once the sweep has ended, and releases the cache. Two callers can both
    add one path; the later instance then takes the place of the earlier in the cache.
    */
    method FinishAdding(now: int) returns (i: InstanceId)
      requires Valid() && (adding.Ready? || (adding.Sweep? && (adding.rest == map[] || adding.count == adding.target)))
      modifies `databases, `instances, `created, `adding, `record
      ensures Valid() && adding == NoneAdding && i !in old(instances)
      ensures instances == old(instances)[i := Instance(now, 0, false)]
      ensures databases == old(databases)[old(adding).path := i] && record == old(record).(path := old(adding).path)
      ensures |databases| <= maxCached + 1 || OthersReadBusy(databases, record.readings, record.path)
      ensures old(adding).Sweep? ==> Swept(old(databases), old(record), maxCached)
    {
      hide Counts, Caches, CacheOk, Swept, OthersReadBusy;
      CountsInstance(handles, handed, instances, created, now);
      CachesInstance(databases, instances, adding.path, created, Instance(now, 0, false));
      if adding.Sweep? {
        SweptEnds(databases, adding, record, maxCached);
        RoomIsMade(databases, record, maxCached, adding.path, created);
        EndsOk(databases[adding.path := created], record.(path := adding.path), maxCached);
      } else {
        FitsReady(databases, adding, record, maxCached);
        ReadyEnds(databases, record.(path := adding.path), maxCached, adding.path, created);
      }
      i := created;
      created := created + 1;
      instances := instances[i := Instance(now, 0, false)];
      databases, record := databases[adding.path := i], record.(path := adding.path);
      adding := NoneAdding;
    }

    /**
    Takes a connection from an instance: counts it, then reuses the cached connection or opens one;
    when that fails the count is taken back before anyone else sees it.
    */
    method BeginConnection(i: InstanceId, connects: bool) returns (h: Option<HandleId>)
      requires Valid() && i in instances
      modifies `instances, `handles, `handed
      ensures Valid() && (h.None? <==> !old(instances)[i].hasCachedConnection && !connects)
      ensures h.None? ==> instances == old(instances) && handles == old(handles)
      ensures h.Some? ==>
                && h.value !in old(handles)
                && handles == old(handles)[h.value := Handle(i, InFlight(old(instances)[i].hasCachedConnection))]
                && instances == old(instances)[i := Instance(old(instances)[i].lastAccess,
                                                             old(instances)[i].activeConnections + 1, false)]
    {
      hide Counts, Caches, CacheOk;
      var instance := instances[i];
      CachesUpdate(databases, instances, i, Instance(instance.lastAccess, instance.activeConnections + 1, false));
      if !instance.hasCachedConnection && !connects { return None; }
      CountsHandle(handles, handed, instances, created, i, InFlight(instance.hasCachedConnection));
      h := Some(handed);
      handles := handles[handed := Handle(i, InFlight(instance.hasCachedConnection))];
      handed := handed + 1;
      instances := instances[i := Instance(instance.lastAccess, instance.activeConnections + 1, false)];
    }

    /** Hands the connection over, unless it is a new one that cannot be configured; then it is uncounted again. */
    method FinishConnection(h: HandleId, configures: bool) returns (ok: bool)
      requires Valid() && h in handles && handles[h].phase.InFlight?
      modifies `instances, `handles
      ensures Valid() && (ok <==> old(handles)[h].phase.reused || configures)
      ensures ok ==> instances == old(instances) && handles == old(handles)[h := old(handles)[h].(phase := Live)]
      ensures !ok ==> handles == old(handles) - {h} && OneLess(old(instances), instances, old(handles)[h].instance)
    {
      hide Counts, Caches, CacheOk;
      var i := handles[h].instance;
      if !handles[h].phase.reused && !configures {
        CountsWithout(handles, handed, instances, created, h);
        CachesUpdate(databases, instances, i, instances[i].(activeConnections := instances[i].activeConnections - 1));
        instances := instances[i := instances[i].(activeConnections := instances[i].activeConnections - 1)];
        handles := handles - {h};
        return false;
      }
      CountsPhase(handles, handed, instances, created, h, Live);
      handles := handles[h := handles[h].(phase := Live)];
      ok := true;
    }

    /** The first half of a drop: the connection goes back to its instance if that is not locked just then. */
    method ReturnConnection(h: HandleId, lockIsFree: bool)
      requires Valid() && h in handles && handles[h].phase == Live
      modifies `instances, `handles
      ensures Valid() && handles == old(handles)[h := old(handles)[h].(phase := Dropping)]
      ensures var i := old(handles)[h].instance;
              && i in old(instances)
              && instances == if lockIsFree then old(instances)[i := old(instances)[i].(hasCachedConnection := true)]
                              else old(instances)
    {
      hide Counts, Caches, CacheOk;
      var i := handles[h].instance;
      CountsPhase(handles, handed, instances, created, h, Dropping);
      if lockIsFree {
        CachesUpdate(databases, instances, i, instances[i].(hasCachedConnection := true));
        instances := instances[i := instances[i].(hasCachedConnection := true)];
      }
      handles := handles[h := handles[h].(phase := Dropping)];
    }

    /** The second half of a drop: uncounts the connection. The guard against a zero counter never has to step in. */
    method UncountConnection(h: HandleId) returns (wasZero: bool)
      requires Valid() && h in handles && handles[h].phase == Dropping
      modifies `instances, `handles
      ensures Valid() && !wasZero
      ensures handles == old(handles) - {h} && OneLess(old(instances), instances, old(handles)[h].instance)
    {
      hide Counts, Caches, CacheOk;
      var i := handles[h].instance;
      CountsWithout(handles, handed, instances, created, h);
      CachesUpdate(databases, instances, i, instances[i].(activeConnections := instances[i].activeConnections - 1));
      wasZero := instances[i].activeConnections == 0;
      if !wasZero {
        instances := instances[i := instances[i].(activeConnections := instances[i].activeConnections - 1)];
      }
      handles := handles - {h};
    }
  }

  /** Only the counter of one instance has changed, down by one. */
  predicate OneLess(before: map<InstanceId, Instance>, after: map<InstanceId, Instance>, i: InstanceId)
  {
    && i in before && before[i].activeConnections > 0
    && after == before[i := before[i].(activeConnections := before[i].activeConnections - 1)]
  }
}
