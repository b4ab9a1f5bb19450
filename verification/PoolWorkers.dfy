/** The worker pool's own code: the supervisor loop over what `select!` yields, and the drain loop of a task. */
module PoolWorkers {
  import opened Results
  import opened EventFiles
  import StoreReads
  import opened WorkerPool

  /** The supervisor's state: the two key sets, the closed flag, and the partition of each task in the join set. */
  class Supervisor {
    var active: set<Key>
    var pending: set<Key>
    var dirtyClosed: bool
    var tasks: map<nat, Key>
    var spawned: nat

    constructor ()
      ensures active == {} && pending == {} && !dirtyClosed && tasks == map[] && spawned == 0
    {
      active, pending, dirtyClosed, tasks, spawned := {}, {}, false, map[], 0;
    }

    /** The object is the supervisor of this state. */
    ghost predicate Mirrors(s: Pool)
      reads this
    {
      && active == s.active && pending == s.pending && dirtyClosed == s.dirtyClosed && spawned == s.spawned
      && tasks.Keys == s.tasks.Keys && forall id | id in tasks :: tasks[id] == s.tasks[id].key
    }

    method SpawnPartitionTask(key: Key)
      modifies `tasks, `spawned
      ensures tasks == old(tasks)[old(spawned) := key] && spawned == old(spawned) + 1
    {
      tasks, spawned := tasks[spawned := key], spawned + 1;
    }

    method OnSignal(key: Key, ghost s: Pool)
      requires Mirrors(s) && s.queue != [] && key == s.queue[0].key
      modifies this
      ensures Mirrors(ReceiveSignal(s))
    {
      if key in active {
        pending := pending + {key};
        return;
      }
      active := active + {key};
      SpawnPartitionTask(key);
    }

    method OnJoined(id: nat, ok: bool, ghost s: Pool) returns (failed: bool)
      requires Mirrors(s) && id in s.tasks && s.tasks[id].pc == Returned(ok)
      modifies this
      ensures Mirrors(JoinTask(s, id)) && failed == !ok
    {
      var key := tasks[id];
      tasks := tasks - {id};
      if !ok {
        active, pending := active - {key}, pending - {key};
        return true;
      }
      if key in pending {
        pending := pending - {key};
        SpawnPartitionTask(key);
      } else {
        active := active - {key};
      }
      failed := false;
    }

    /**
    The supervisor loop along a run. It acts when the run has a turn for it and returns when the run
    stops it: with an error for a failed task, and well when the channel is closed and no task is left.
    */
    method RunSupervisor(run: seq<Pool>, steps: seq<Step>) returns (result: Option<bool>)
      requires IsRun(run, steps) && Mirrors(run[0])
      modifies this
      ensures Mirrors(run[|steps|])
      ensures run[|steps|].status == if result.None? then Running else Stopped(result.value)
    {
      hide IsRun, Apply, Enabled, IsStart, ReceiveSignal, JoinTask;
      StepsLength(run, steps);
      StartsRunning(run, steps);
      result := None;
      var i := 0;
      while i < |steps|
        invariant 0 <= i <= |steps| && Mirrors(run[i])
        invariant run[i].status == if result.None? then Running else Stopped(result.value)
      {
        StepOf(run, steps, i);
        TurnOf(run[i], steps[i]);
        match steps[i] {
          case Receive => OnSignal(run[i].queue[0].key, run[i]);
          case ReceiveNone => dirtyClosed := true;
          case Join(id) =>
            var failed := OnJoined(id, run[i].tasks[id].pc.ok, run[i]);
            if failed { result := Some(false); }
          case Finish => result := Some(true);
          case _ =>
        }
        i := i + 1;
      }
    }
  }

  lemma StartsRunning(run: seq<Pool>, steps: seq<Step>)
    requires IsRun(run, steps)
    ensures run[0].status == Running
  {
  }

  /** What a step means for the supervisor. */
  lemma TurnOf(s: Pool, step: Step)
    requires Enabled(s, step)
    ensures var s' := Apply(s, step);
            match step
            case Receive => s.queue != [] && s' == ReceiveSignal(s) && s.status == s'.status == Running
            case ReceiveNone => s' == s.(dirtyClosed := true) && s.status == Running
            case Join(id) =>
              && s.status == Running && id in s.tasks && s.tasks[id].pc.Returned? && s' == JoinTask(s, id)
              && s'.status == if s.tasks[id].pc.ok then Running else Stopped(false)
            case Finish => s' == s.(status := Stopped(true)) && s.status == Running
            case _ =>
              && s'.active == s.active && s'.pending == s.pending && s'.dirtyClosed == s.dirtyClosed
              && s'.spawned == s.spawned && s'.status == s.status && s'.tasks.Keys == s.tasks.Keys
              && forall id | id in s.tasks :: s'.tasks[id].key == s.tasks[id].key
  {
    if TaskStep(step) { TaskStepShape(s, step); }
  }

  /** The log as successive loads of one drain see it: it only grows. */
  ghost predicate Growing(logs: seq<seq<Event>>)
  {
    && logs != []
    && (forall i | 0 <= i < |logs| :: Numbered(logs[i]))
    && (forall i, j | 0 <= i <= j < |logs| :: logs[i] <= logs[j])
  }

  /** The log at the load number `i`; after the last change it stays as it is. */
  function LoadedAt(logs: seq<seq<Event>>, i: nat): seq<Event>
    requires logs != []
  {
    if i < |logs| then logs[i] else logs[|logs| - 1]
  }

  /** The projection of one batch, event by event. */
  method ProjectEvents(before: seq<Event>, events: seq<Event>) returns (projected: seq<Event>)
    ensures projected == before + events
  {
    projected := before;
    var i := 0;
    while i < |events|
      invariant 0 <= i <= |events| && projected == before + events[..i]
    {
      projected := projected + [events[i]];
      i := i + 1;
    }
  }

  function StoredOffset(offsets: map<Key, int>, key: Key): int { if key in offsets then offsets[key] else 0 }

  /** From the stored offset on, these events of the log are projected, and the offset stored is behind them. */
  predicate DrainedTo(offsets: map<Key, int>, key: Key, log: seq<Event>, offsets': map<Key, int>, projected: seq<Event>)
  {
    var start := StoredOffset(offsets, key);
    && 0 <= start && start + |projected| <= |log|
    && projected == log[start..start + |projected|]
    && offsets' == if projected == [] then offsets else offsets[key := start + |projected|]
  }

  /**
  One drain: from the stored offset on, or from the start when none is stored, it projects every event
  once and in order, up to the end of the log as its last load sees it, and stores that offset.
  */
  method DrainPartition(offsets: map<Key, int>, key: Key, logs: seq<seq<Event>>)
    returns (offsets': map<Key, int>, projected: seq<Event>, loads: nat)
    requires Growing(logs) && (key in offsets ==> 0 <= offsets[key] <= |logs[0]|)
    ensures loads > 0 && logs != []
    ensures var log := if loads <= |logs| then logs[loads - 1] else logs[|logs| - 1];
            && (key in offsets ==> 0 <= offsets[key] <= |log|)
            && projected == (if key in offsets then log[offsets[key]..] else log)
            && offsets' == if projected == [] then offsets else offsets[key := |log|]
  {
    hide StoreReads.ReadOf, Growing, DrainedTo, LoadedAt, StoredOffset;
    offsets', projected, loads := offsets, [], 0;
    NothingDrained(offsets, key, logs);
    while true
      invariant logs != [] && DrainedTo(offsets, key, LoadedAt(logs, loads), offsets', projected)
      decreases |logs[|logs| - 1]| - |projected|
    {
      LoadsGrow(logs, loads);
      CursorOf(offsets, key, LoadedAt(logs, loads), offsets', projected);
      var cursor := StoredOffset(offsets', key);
      var events := StoreReads.ReadOf(LoadedAt(logs, loads), None, cursor, BATCH_LIMIT);
      LoadIsSlice(LoadedAt(logs, loads), cursor);
      OneMoreBatch(offsets, key, LoadedAt(logs, loads), LoadedAt(logs, loads + 1), offsets', projected, events);
      loads := loads + 1;
      if events == [] {
        DrainedAll(offsets, key, LoadedAt(logs, loads - 1), offsets', projected);
        LoadedThen(logs, loads - 1);
        return;
      }
      projected := ProjectEvents(projected, events);
      offsets' := offsets'[key := events[|events| - 1].version];
    }
  }

  lemma NothingDrained(offsets: map<Key, int>, key: Key, logs: seq<seq<Event>>)
    requires Growing(logs) && (key in offsets ==> 0 <= offsets[key] <= |logs[0]|)
    ensures logs != [] && DrainedTo(offsets, key, LoadedAt(logs, 0), offsets, [])
  {
  }

  /** Drained to the end, everything behind the stored offset is projected. */
  lemma DrainedAll(offsets: map<Key, int>, key: Key, log: seq<Event>, offsets': map<Key, int>, projected: seq<Event>)
    requires DrainedTo(offsets, key, log, offsets', projected) && StoredOffset(offsets', key) == |log|
    ensures key in offsets ==> 0 <= offsets[key] <= |log|
    ensures projected == if key in offsets then log[offsets[key]..] else log
    ensures offsets' == if projected == [] then offsets else offsets[key := |log|]
  {
    var start := if key in offsets then offsets[key] else 0;
    assert start + |projected| == |log|;
    assert log[start..|log|] == log[start..] && log[0..] == log;
  }

  lemma LoadedThen(logs: seq<seq<Event>>, i: nat)
    requires logs != []
    ensures LoadedAt(logs, i) == if i + 1 <= |logs| then logs[i] else logs[|logs| - 1]
  {
  }

  lemma CursorOf(offsets: map<Key, int>, key: Key, log: seq<Event>, offsets': map<Key, int>, projected: seq<Event>)
    requires DrainedTo(offsets, key, log, offsets', projected)
    ensures 0 <= StoredOffset(offsets', key) == StoredOffset(offsets, key) + |projected| <= |log|
    ensures |projected| <= |log|
  {
  }

  /** Projecting the next batch and storing its offset goes on along the log, however much that has grown. */
  lemma OneMoreBatch(offsets: map<Key, int>, key: Key, log: seq<Event>, later: seq<Event>,
                     offsets': map<Key, int>, projected: seq<Event>, events: seq<Event>)
    requires DrainedTo(offsets, key, log, offsets', projected) && log <= later && Numbered(log)
    requires 0 <= StoredOffset(offsets', key) && StoredOffset(offsets', key) + |events| <= |log|
    requires events == log[StoredOffset(offsets', key)..StoredOffset(offsets', key) + |events|]
    ensures if events == [] then DrainedTo(offsets, key, later, offsets', projected)
            else DrainedTo(offsets, key, later, offsets'[key := events[|events| - 1].version], projected + events)
  {
    var start, cursor := StoredOffset(offsets, key), StoredOffset(offsets', key);
    JoinedSlices(log, later, start, cursor, cursor + |events|);
    if events != [] { assert events[|events| - 1] == log[cursor + |events| - 1]; }
  }

  lemma JoinedSlices(a: seq<Event>, b: seq<Event>, start: nat, mid: nat, end: nat)
    requires a <= b && start <= mid <= end <= |a|
    ensures a[start..mid] == b[start..mid] && a[start..mid] + a[mid..end] == b[start..end]
  {
  }

  lemma LoadsGrow(logs: seq<seq<Event>>, i: nat)
    requires Growing(logs)
    ensures LoadedAt(logs, i) <= LoadedAt(logs, i + 1) <= logs[|logs| - 1] && Numbered(LoadedAt(logs, i))
  {
  }

  // ----- the drain and the machine

  /** A task keeps its partition for as long as it is there, and no other task gets its number. */
  lemma {:induction false} TaskKeepsKey(run: seq<Pool>, steps: seq<Step>, i: nat, j: nat, id: nat)
    requires IsRun(run, steps) && i <= j <= |steps| && id in run[i].tasks
    ensures id < run[j].spawned && (id in run[j].tasks ==> run[j].tasks[id].key == run[i].tasks[id].key)
    decreases j
  {
    hide IsRun, Apply, Enabled, Progress, NoneLost, Exclusive, HasTask;
    StepsLength(run, steps);
    if i == j {
      RunKeepsInvariant(run, steps, i);
    } else {
      TaskKeepsKey(run, steps, i, j - 1, id);
      StepOf(run, steps, j - 1);
      StepKeepsKey(run[j - 1], steps[j - 1], id);
    }
  }

  /**
  A task that starts its loop at instant `i` and finds the end of the log at instant `j` has, whatever
  was interleaved, done what `DrainPartition` does when its last load sees the log of `j`: projected
  everything from the offset stored at `i` on, or from the start when none was, and stored the offset
  of that log's end.
  */
  lemma DrainAgrees(run: seq<Pool>, steps: seq<Step>, i: nat, j: nat, id: nat)
    requires IsRun(run, steps) && i <= j < |steps| && steps[j] == Load(id)
    requires id in run[i].tasks && run[i].tasks[id].pc == Begin
    requires id in run[j + 1].tasks && run[j + 1].tasks[id].pc == Returned(true)
    ensures var k := run[i].tasks[id].key;
            var offsets, log := run[i].offsets, LogAt(run[j], k);
            && (k in offsets ==> 0 <= offsets[k] <= |log|)
            && ProjectedAt(run[j + 1], k) == ProjectedAt(run[i], k) + (if k in offsets then log[offsets[k]..] else log)
            && (if k in run[j + 1].offsets then run[j + 1].offsets[k] else 0) == |log|
  {
    hide IsRun, Apply, Enabled, LogAt, ProjectedAt, OneTaskEach, NoneLost, Numbered;
    StepsLength(run, steps);
    var s, s', k := run[j], run[j + 1], run[i].tasks[id].key;
    StepOf(run, steps, j);
    TaskStepShape(s, steps[j]);
    TaskKeepsKey(run, steps, i, j, id);
    RunKeepsInvariant(run, steps, i);
    RunKeepsInvariant(run, steps, j);
    RunKeepsInvariant(run, steps, j + 1);
    assert DoneUpTo(run[i], k) && PcOk(run[i], run[i].tasks[id]);
    assert DoneUpTo(s, k) && PcOk(s, s.tasks[id]);
    assert DoneUpTo(s', k) && PcOk(s', s'.tasks[id]);
    hide Progress;
    EndIsServed(s, steps[j]);
    LogStays(run, steps, i, j, k);
    LogStays(run, steps, j, j + 1, k);
    SameLog(s, s', k);
  }

  lemma SameLog(s: Pool, s': Pool, k: Key)
    requires s'.logs == s.logs
    ensures LogAt(s', k) == LogAt(s, k)
  {
  }

  lemma StepKeepsKey(s: Pool, step: Step, id: nat)
    requires Enabled(s, step) && id < s.spawned
    ensures var s' := Apply(s, step);
            id < s'.spawned && (id in s'.tasks ==> id in s.tasks && s'.tasks[id].key == s.tasks[id].key)
  {
    hide Numbered, LogAt, ProjectedAt, OffsetAt;
    if TaskStep(step) {
      hide Apply, Enabled;
      TaskStepShape(s, step);
    }
  }
}
