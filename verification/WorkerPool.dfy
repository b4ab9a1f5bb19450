/**
The partition worker pool: a supervisor that receives dirty signals and joins finished tasks, one
task per partition that drains it by cursor, and senders that append and signal meanwhile. Every
step is one interaction with shared state; any interleaving of them is a run.
*/
module WorkerPool {
  import opened Results
  import opened EventFiles
  import opened StoreReads

  const BATCH_LIMIT: nat := 100

  type Key = string

  /** A dirty signal; `head` records how long the partition's log was when it was sent. */
  datatype Signal = Signal(key: Key, head: nat)

  /** Where a task stands in its drain loop. */
  datatype Pc =
    | Begin
    | HasCursor(cursor: int)
    | Projecting(batch: seq<Event>, done: nat)
    | Returned(ok: bool)

  datatype Task = Task(key: Key, pc: Pc)

  datatype Status = Running | Stopped(ok: bool)

  /** `spawned` numbers the tasks; `consumed` and `projected` record what has been received and projected. */
  datatype Pool = Pool(
    logs: map<Key, seq<Event>>, queue: seq<Signal>, sendersGone: bool,
    active: set<Key>, pending: set<Key>, dirtyClosed: bool, tasks: map<nat, Task>, spawned: nat, status: Status,
    offsets: map<Key, int>, projected: map<Key, seq<Event>>, consumed: seq<Signal>)

  function LogAt(s: Pool, k: Key): seq<Event> { if k in s.logs then s.logs[k] else [] }

  function OffsetAt(s: Pool, k: Key): int { if k in s.offsets then s.offsets[k] else 0 }

  function ProjectedAt(s: Pool, k: Key): seq<Event> { if k in s.projected then s.projected[k] else [] }

  // ----- the steps

  datatype Step =
    | AppendEvents(key: Key, events: seq<Event>)
    | Send(key: Key)
    | CloseSenders
    | Receive
    | ReceiveNone
    | Join(id: nat)
    | Finish
    | ReadCursor(id: nat)
    | Load(id: nat)
    | Project(id: nat)
    | StoreOffset(id: nat)
    | Fail(id: nat)

  predicate TaskAt(s: Pool, id: nat) { s.status == Running && id in s.tasks }

  predicate Enabled(s: Pool, step: Step)
  {
    match step
    case AppendEvents(k, events) => Numbered(LogAt(s, k) + events)
    case Send(_) => s.status == Running && !s.sendersGone
    case CloseSenders => true
    case Receive => s.status == Running && !s.dirtyClosed && s.queue != []
    case ReceiveNone => s.status == Running && !s.dirtyClosed && s.queue == [] && s.sendersGone
    case Join(id) => TaskAt(s, id) && s.tasks[id].pc.Returned?
    case Finish => s.status == Running && s.dirtyClosed && s.tasks == map[]
    case ReadCursor(id) => TaskAt(s, id) && s.tasks[id].pc == Begin
    case Load(id) => TaskAt(s, id) && s.tasks[id].pc.HasCursor?
    case Project(id) =>
      TaskAt(s, id) && s.tasks[id].pc.Projecting? && s.tasks[id].pc.done < |s.tasks[id].pc.batch|
    case StoreOffset(id) =>
      TaskAt(s, id) && s.tasks[id].pc.Projecting? && s.tasks[id].pc.done == |s.tasks[id].pc.batch| > 0
    case Fail(id) => TaskAt(s, id) && !s.tasks[id].pc.Returned?
  }

  function Spawned(tasks: map<nat, Task>, id: nat, k: Key): map<nat, Task> { tasks[id := Task(k, Begin)] }

  function WithPc(s: Pool, id: nat, pc: Pc): Pool
    requires id in s.tasks
  {
    s.(tasks := s.tasks[id := s.tasks[id].(pc := pc)])
  }

  /** The supervisor receives a signal: an idle partition gets a task, a busy one is noted for another round. */
  function ReceiveSignal(s: Pool): Pool
    requires s.queue != []
  {
    var signal := s.queue[0];
    var k, queue, consumed := signal.key, s.queue[1..], s.consumed + [signal];
    if k in s.active then s.(queue := queue, consumed := consumed, pending := s.pending + {k})
    else s.(queue := queue, consumed := consumed, active := s.active + {k},
            tasks := Spawned(s.tasks, s.spawned, k), spawned := s.spawned + 1)
  }

  /** The supervisor joins a finished task: a failure stops it, a noted partition gets another round. */
  function JoinTask(s: Pool, id: nat): Pool
    requires id in s.tasks && s.tasks[id].pc.Returned?
  {
    var k := s.tasks[id].key;
    var rest := s.tasks - {id};
    if !s.tasks[id].pc.ok then
      s.(tasks := rest, active := s.active - {k}, pending := s.pending - {k}, status := Stopped(false))
    else if k in s.pending then
      s.(tasks := Spawned(rest, s.spawned, k), spawned := s.spawned + 1, pending := s.pending - {k})
    else s.(tasks := rest, active := s.active - {k})
  }

  function LoadBatch(s: Pool, id: nat): Pool
    requires id in s.tasks && s.tasks[id].pc.HasCursor?
  {
    var batch := ReadOf(LogAt(s, s.tasks[id].key), None, s.tasks[id].pc.cursor, BATCH_LIMIT);
    WithPc(s, id, if batch == [] then Returned(true) else Projecting(batch, 0))
  }

  function Apply(s: Pool, step: Step): Pool
    requires Enabled(s, step)
  {
    match step
    case AppendEvents(k, events) => s.(logs := s.logs[k := LogAt(s, k) + events])
    case Send(k) => s.(queue := s.queue + [Signal(k, |LogAt(s, k)|)])
    case CloseSenders => s.(sendersGone := true)
    case Receive => ReceiveSignal(s)
    case ReceiveNone => s.(dirtyClosed := true)
    case Join(id) => JoinTask(s, id)
    case Finish => s.(status := Stopped(true))
    case ReadCursor(id) => WithPc(s, id, HasCursor(OffsetAt(s, s.tasks[id].key)))
    case Load(id) => LoadBatch(s, id)
    case Project(id) =>
      var Projecting(batch, done) := s.tasks[id].pc;
      var k := s.tasks[id].key;
      WithPc(s.(projected := s.projected[k := ProjectedAt(s, k) + [batch[done]]]), id, Projecting(batch, done + 1))
    case StoreOffset(id) =>
      var batch := s.tasks[id].pc.batch;
      WithPc(s.(offsets := s.offsets[s.tasks[id].key := batch[|batch| - 1].version]), id, Begin)
    case Fail(id) => WithPc(s, id, Returned(false))
  }

  // ----- what holds in every reachable state

  /** Some task works on this partition. */
  ghost predicate HasTask(tasks: map<nat, Task>, k: Key) { exists id :: id in tasks && tasks[id].key == k }

  /** No two tasks work on the same partition. */
  ghost predicate Exclusive(tasks: map<nat, Task>)
  {
    forall id, id' | id in tasks && id' in tasks && id != id' :: tasks[id].key != tasks[id'].key
  }

  /** Exactly one task for each active partition, and only active ones are noted for another round. */
  ghost predicate OneTaskEach(s: Pool)
  {
    && (forall id | id in s.tasks :: id < s.spawned)
    && Exclusive(s.tasks)
    && (forall k :: k in s.active <==> HasTask(s.tasks, k))
    && s.pending <= s.active
  }

  /**
  A partition's projected events are its log up to the offset, and further only by what a task is
  doing or failed at.
  */
  predicate DoneUpTo(s: Pool, k: Key)
  {
    && 0 <= OffsetAt(s, k) <= |ProjectedAt(s, k)| <= |LogAt(s, k)| && Numbered(LogAt(s, k))
    && ProjectedAt(s, k) == LogAt(s, k)[..|ProjectedAt(s, k)|]
  }

  predicate PcOk(s: Pool, task: Task)
  {
    var k := task.key;
    var offset := OffsetAt(s, k);
    match task.pc
    case Begin => |ProjectedAt(s, k)| == offset
    case HasCursor(cursor) => |ProjectedAt(s, k)| == offset == cursor
    case Projecting(batch, done) =>
      && done <= |batch| && |ProjectedAt(s, k)| == offset + done
      && batch != [] && offset >= 0 && offset + |batch| <= |LogAt(s, k)|
      && batch == LogAt(s, k)[offset..offset + |batch|]
    case Returned(ok) => ok ==> |ProjectedAt(s, k)| == offset
  }

  ghost predicate Progress(s: Pool)
  {
    && (forall k :: DoneUpTo(s, k))
    && (forall id | id in s.tasks :: PcOk(s, s.tasks[id]))
    && (s.status != Stopped(false) ==> forall k | k !in s.active :: |ProjectedAt(s, k)| == OffsetAt(s, k))
  }

  /** Some task on this partition has not found its end yet, so it will look at the log again, or has failed. */
  ghost predicate WillLook(tasks: map<nat, Task>, k: Key)
  {
    exists id :: id in tasks && tasks[id].key == k && tasks[id].pc != Returned(true)
  }

  /** A consumed signal's events are behind the offset, or will be looked for. */
  ghost predicate Served(s: Pool, signal: Signal)
  {
    OffsetAt(s, signal.key) >= signal.head || signal.key in s.pending || WillLook(s.tasks, signal.key)
  }

  /** All signals sent so far, in order. */
  function Sent(s: Pool): seq<Signal> { s.consumed + s.queue }

  /** No signal speaks of more events than its partition's log holds. */
  ghost predicate HeadsKnown(s: Pool) { forall signal <- Sent(s) :: signal.head <= |LogAt(s, signal.key)| }

  /**
  The supervisor takes the channel for closed only when it is and nothing is left in it, and ends
  well only without tasks.
  */
  predicate ClosesLast(s: Pool)
  {
    && (s.dirtyClosed ==> s.sendersGone && s.queue == [])
    && (s.status == Stopped(true) ==> s.dirtyClosed && s.tasks == map[])
  }

  ghost predicate NoneLost(s: Pool)
  {
    && HeadsKnown(s) && ClosesLast(s)
    && (s.status != Stopped(false) ==> forall signal <- s.consumed :: Served(s, signal))
  }

  ghost predicate Inv(s: Pool) { OneTaskEach(s) && Progress(s) && NoneLost(s) }

  // ----- reading a numbered log

  /** One load returns the next events of the log, up to a batch, and nothing exactly at its end. */
  lemma LoadIsSlice(log: seq<Event>, cursor: nat)
    requires Numbered(log) && cursor <= |log|
    ensures var batch := ReadOf(log, None, cursor, BATCH_LIMIT);
            && batch == (if cursor + 100 <= |log| then log[cursor..cursor + 100] else log[cursor..])
            && cursor + |batch| <= |log| && batch == log[cursor..cursor + |batch|]
            && (batch == [] <==> cursor == |log|)
  {
    SelectNumbered(log, cursor);
  }

  // ----- every step keeps the invariant

  lemma TaskAdded(tasks: map<nat, Task>, id: nat, k: Key)
    requires Exclusive(tasks) && id !in tasks && !HasTask(tasks, k)
    ensures var tasks' := tasks[id := Task(k, Begin)];
            Exclusive(tasks') && forall k' :: HasTask(tasks', k') <==> k' == k || HasTask(tasks, k')
  {
    var tasks' := tasks[id := Task(k, Begin)];
    forall k' | k' == k || HasTask(tasks, k') ensures HasTask(tasks', k') {
      if k' == k {
        assert tasks'[id].key == k;
      } else {
        var id' :| id' in tasks && tasks[id'].key == k';
        assert tasks'[id'].key == k';
      }
    }
    assert forall id' | id' in tasks :: HasTask(tasks, tasks[id'].key);
  }

  lemma TaskRemoved(tasks: map<nat, Task>, id: nat)
    requires Exclusive(tasks) && id in tasks
    ensures var tasks' := tasks - {id};
            Exclusive(tasks') && forall k :: HasTask(tasks', k) <==> k != tasks[id].key && HasTask(tasks, k)
  {
    var tasks' := tasks - {id};
    forall k | k != tasks[id].key && HasTask(tasks, k) ensures HasTask(tasks', k) {
      var id' :| id' in tasks && tasks[id'].key == k;
      assert tasks'[id'].key == k;
    }
  }

  lemma TaskMoved(tasks: map<nat, Task>, id: nat, pc: Pc)
    requires Exclusive(tasks) && id in tasks
    ensures var tasks' := tasks[id := tasks[id].(pc := pc)];
            Exclusive(tasks') && forall k :: HasTask(tasks', k) <==> HasTask(tasks, k)
  {
    var tasks' := tasks[id := tasks[id].(pc := pc)];
    forall k | HasTask(tasks, k) ensures HasTask(tasks', k) {
      var id' :| id' in tasks && tasks[id'].key == k;
      assert tasks'[id'].key == k;
    }
  }

  /** A step of one task in its drain loop. */
  predicate TaskStep(step: Step) { step.ReadCursor? || step.Load? || step.Project? || step.StoreOffset? || step.Fail? }

  /** A task's step changes where that task stands, and offset and projected events of its own partition at most. */
  lemma TaskStepShape(s: Pool, step: Step)
    requires TaskStep(step) && Enabled(s, step)
    ensures var s' := Apply(s, step);
            && s.status == Running && step.id in s.tasks && step.id in s'.tasks
            && s'.tasks == s.tasks[step.id := s.tasks[step.id].(pc := s'.tasks[step.id].pc)]
            && s' == s.(tasks := s'.tasks, offsets := s'.offsets, projected := s'.projected)
            && forall k | k != s.tasks[step.id].key ::
                 OffsetAt(s', k) == OffsetAt(s, k) && ProjectedAt(s', k) == ProjectedAt(s, k)
  {
    hide ReadOf;
  }

  lemma TasksKept(s: Pool, step: Step)
    requires OneTaskEach(s) && Enabled(s, step)
    ensures OneTaskEach(Apply(s, step))
  {
    hide Exclusive, HasTask, LoadBatch;
    if TaskStep(step) {
      hide Apply, Enabled;
      TaskStepShape(s, step);
      TaskMoved(s.tasks, step.id, Apply(s, step).tasks[step.id].pc);
    } else if step.Receive? {
      var k := s.queue[0].key;
      if k !in s.active { TaskAdded(s.tasks, s.spawned, k); }
    } else if step.Join? {
      var k := s.tasks[step.id].key;
      TaskRemoved(s.tasks, step.id);
      OwnsActive(s, step.id);
      if s.tasks[step.id].pc.ok && k in s.pending { TaskAdded(s.tasks - {step.id}, s.spawned, k); }
    }
  }

  lemma OwnsActive(s: Pool, id: nat)
    requires OneTaskEach(s) && id in s.tasks
    ensures s.tasks[id].key in s.active
  {
    assert HasTask(s.tasks, s.tasks[id].key);
  }

  lemma ProgressKept(s: Pool, step: Step)
    requires OneTaskEach(s) && Progress(s) && Enabled(s, step)
    ensures Progress(Apply(s, step))
  {
    hide OneTaskEach, Progress, LoadBatch, ReceiveSignal, JoinTask;
    if TaskStep(step) {
      hide Apply;
      TaskStepProgress(s, step);
    } else {
      match step
      case AppendEvents(k, events) => LogsGrow(s, k, events);
      case Receive => ReceiveProgress(s);
      case Join(id) => JoinProgress(s, id);
      case _ => OtherProgress(s, step);
    }
  }

  lemma OtherProgress(s: Pool, step: Step)
    requires Progress(s) && Enabled(s, step)
    requires step.Send? || step.CloseSenders? || step.ReceiveNone? || step.Finish?
    ensures Progress(Apply(s, step))
  {
    hide DoneUpTo, PcOk, ProjectedAt, OffsetAt;
    Regrouped(s, Apply(s, step));
  }

  lemma ReceiveProgress(s: Pool)
    requires Progress(s) && s.queue != [] && s.status == Running
    ensures Progress(ReceiveSignal(s))
  {
    hide DoneUpTo, PcOk, ProjectedAt, OffsetAt;
    Regrouped(s, ReceiveSignal(s));
  }

  lemma JoinProgress(s: Pool, id: nat)
    requires OneTaskEach(s) && Progress(s) && TaskAt(s, id) && s.tasks[id].pc.Returned?
    ensures Progress(JoinTask(s, id))
  {
    hide DoneUpTo, Exclusive, HasTask, PcOk, ProjectedAt, OffsetAt;
    OwnsActive(s, id);
    if s.tasks[id].pc.ok { ReturnedClean(s, id); }
    Regrouped(s, JoinTask(s, id));
  }

  lemma ReturnedClean(s: Pool, id: nat)
    requires Progress(s) && id in s.tasks && s.tasks[id].pc == Returned(true)
    ensures |ProjectedAt(s, s.tasks[id].key)| == OffsetAt(s, s.tasks[id].key)
  {
    hide DoneUpTo;
    assert PcOk(s, s.tasks[id]);
  }

  lemma LogsGrow(s: Pool, key: Key, events: seq<Event>)
    requires Progress(s) && Numbered(LogAt(s, key) + events)
    ensures Progress(s.(logs := s.logs[key := LogAt(s, key) + events]))
  {
    var s' := s.(logs := s.logs[key := LogAt(s, key) + events]);
    forall k ensures DoneUpTo(s', k) { assert DoneUpTo(s, k); }
    forall id | id in s'.tasks ensures PcOk(s', s'.tasks[id]) {
      assert PcOk(s, s.tasks[id]) && DoneUpTo(s, s.tasks[id].key);
    }
  }

  lemma TaskStepProgress(s: Pool, step: Step)
    requires OneTaskEach(s) && Progress(s) && Enabled(s, step) && TaskStep(step)
    ensures Progress(Apply(s, step))
  {
    hide Exclusive, HasTask, Apply, Enabled, DoneUpTo, PcOk;
    TaskStepShape(s, step);
    var k := s.tasks[step.id].key;
    assert DoneUpTo(s, k) && PcOk(s, s.tasks[step.id]);
    TaskStepOk(s, step);
    OneTaskMoves(s, Apply(s, step), step.id);
  }

  lemma TaskStepOk(s: Pool, step: Step)
    requires TaskStep(step) && Enabled(s, step)
    requires step.id in s.tasks && DoneUpTo(s, s.tasks[step.id].key) && PcOk(s, s.tasks[step.id])
    ensures step.id in Apply(s, step).tasks
    ensures DoneUpTo(Apply(s, step), s.tasks[step.id].key) && PcOk(Apply(s, step), Apply(s, step).tasks[step.id])
  {
    hide DoneUpTo, PcOk, Apply;
    TaskStepShape(s, step);
    match step
    case Load(id) => LoadOk(s, id);
    case Project(id) => ProjectOk(s, id);
    case StoreOffset(id) => StoreOk(s, id);
    case _ => OtherTaskStepOk(s, step);
  }

  lemma LoadOk(s: Pool, id: nat)
    requires Enabled(s, Load(id)) && DoneUpTo(s, s.tasks[id].key) && PcOk(s, s.tasks[id])
    ensures DoneUpTo(Apply(s, Load(id)), s.tasks[id].key) && PcOk(Apply(s, Load(id)), Apply(s, Load(id)).tasks[id])
  {
    hide ReadOf;
    LoadIsSlice(LogAt(s, s.tasks[id].key), s.tasks[id].pc.cursor);
  }

  lemma ProjectOk(s: Pool, id: nat)
    requires Enabled(s, Project(id)) && DoneUpTo(s, s.tasks[id].key) && PcOk(s, s.tasks[id])
    ensures DoneUpTo(Apply(s, Project(id)), s.tasks[id].key)
    ensures PcOk(Apply(s, Project(id)), Apply(s, Project(id)).tasks[id])
  {
    hide Numbered;
    TakeOneMore(LogAt(s, s.tasks[id].key), |ProjectedAt(s, s.tasks[id].key)|);
  }

  lemma TakeOneMore(log: seq<Event>, n: nat)
    requires n < |log|
    ensures log[..n] + [log[n]] == log[..n + 1]
  {
  }

  lemma StoreOk(s: Pool, id: nat)
    requires Enabled(s, StoreOffset(id)) && DoneUpTo(s, s.tasks[id].key) && PcOk(s, s.tasks[id])
    ensures DoneUpTo(Apply(s, StoreOffset(id)), s.tasks[id].key)
    ensures PcOk(Apply(s, StoreOffset(id)), Apply(s, StoreOffset(id)).tasks[id])
  {
  }

  lemma OtherTaskStepOk(s: Pool, step: Step)
    requires (step.ReadCursor? || step.Fail?) && Enabled(s, step)
    requires step.id in s.tasks && DoneUpTo(s, s.tasks[step.id].key) && PcOk(s, s.tasks[step.id])
    ensures step.id in Apply(s, step).tasks
    ensures DoneUpTo(Apply(s, step), s.tasks[step.id].key) && PcOk(Apply(s, step), Apply(s, step).tasks[step.id])
  {
    hide Numbered;
  }

  /** A step that leaves logs, offsets and projected events alone, and starts tasks only where nothing is half done. */
  lemma Regrouped(s: Pool, s': Pool)
    requires Progress(s) && s'.logs == s.logs && s'.offsets == s.offsets && s'.projected == s.projected
    requires forall id | id in s'.tasks ::
               || (id in s.tasks && s'.tasks[id] == s.tasks[id])
               || (s'.tasks[id].pc == Begin && |ProjectedAt(s, s'.tasks[id].key)| == OffsetAt(s, s'.tasks[id].key))
    requires s'.status != Stopped(false) ==> forall k | k !in s'.active :: |ProjectedAt(s, k)| == OffsetAt(s, k)
    ensures Progress(s')
  {
    forall k ensures DoneUpTo(s', k) { assert DoneUpTo(s, k); }
    forall id | id in s'.tasks ensures PcOk(s', s'.tasks[id]) {
      if id in s.tasks && s'.tasks[id] == s.tasks[id] { assert PcOk(s, s.tasks[id]); }
    }
  }

  /** A step of one task touches only the partition of that task. */
  lemma OneTaskMoves(s: Pool, s': Pool, id: nat)
    requires OneTaskEach(s) && Progress(s) && id in s.tasks && id in s'.tasks
    requires s'.logs == s.logs && s'.active == s.active && s'.status == s.status
    requires s'.tasks == s.tasks[id := s.tasks[id].(pc := s'.tasks[id].pc)]
    requires forall k | k != s.tasks[id].key ::
               OffsetAt(s', k) == OffsetAt(s, k) && ProjectedAt(s', k) == ProjectedAt(s, k)
    requires DoneUpTo(s', s.tasks[id].key) && PcOk(s', s'.tasks[id])
    ensures Progress(s')
  {
    hide OffsetAt, ProjectedAt, Numbered, HasTask;
    var k := s.tasks[id].key;
    forall k' ensures DoneUpTo(s', k') { assert DoneUpTo(s, k'); }
    forall id' | id' in s'.tasks ensures PcOk(s', s'.tasks[id']) {
      if id' != id { assert PcOk(s, s.tasks[id']) && s.tasks[id'].key != k; }
    }
    OwnsActive(s, id);
  }

  lemma WillLookAfter(tasks: map<nat, Task>, id: nat, task: Task)
    requires id !in tasks && task.pc != Returned(true)
    ensures WillLook(tasks[id := task], task.key)
    ensures forall k | WillLook(tasks, k) :: WillLook(tasks[id := task], k)
  {
    var tasks' := tasks[id := task];
    assert tasks'[id].key == task.key;
    forall k | WillLook(tasks, k) ensures WillLook(tasks', k) {
      var i :| i in tasks && tasks[i].key == k && tasks[i].pc != Returned(true);
      assert tasks'[i] == tasks[i];
    }
  }

  /** Joining a task that has found its end leaves the others looking. */
  lemma WillLookWithout(tasks: map<nat, Task>, id: nat, k: Key)
    requires Exclusive(tasks) && id in tasks && tasks[id].pc == Returned(true) && WillLook(tasks, k)
    ensures k != tasks[id].key && WillLook(tasks - {id}, k)
  {
    var i :| i in tasks && tasks[i].key == k && tasks[i].pc != Returned(true);
    assert (tasks - {id})[i] == tasks[i];
  }

  lemma WillLookStill(tasks: map<nat, Task>, id: nat, pc: Pc, k: Key)
    requires id in tasks && WillLook(tasks, k) && (k != tasks[id].key || pc != Returned(true))
    ensures WillLook(tasks[id := tasks[id].(pc := pc)], k)
  {
    var tasks' := tasks[id := tasks[id].(pc := pc)];
    var i :| i in tasks && tasks[i].key == k && tasks[i].pc != Returned(true);
    assert i in tasks' && tasks'[i].key == k;
  }

  lemma ServedAfterReceive(s: Pool)
    requires OneTaskEach(s) && s.queue != [] && forall signal <- s.consumed :: Served(s, signal)
    ensures forall signal <- ReceiveSignal(s).consumed :: Served(ReceiveSignal(s), signal)
  {
    hide WillLook, Exclusive, HasTask;
    var s', k := ReceiveSignal(s), s.queue[0].key;
    if k !in s.active { WillLookAfter(s.tasks, s.spawned, Task(k, Begin)); }
    forall signal <- s'.consumed ensures Served(s', signal) {
      if signal in s.consumed { assert Served(s, signal); }
    }
  }

  lemma ServedAfterJoin(s: Pool, id: nat, signal: Signal)
    requires OneTaskEach(s) && id in s.tasks && s.tasks[id].pc == Returned(true) && Served(s, signal)
    ensures Served(JoinTask(s, id), signal)
  {
    hide WillLook, Exclusive, HasTask;
    var k, rest := s.tasks[id].key, s.tasks - {id};
    if k in s.pending { WillLookAfter(rest, s.spawned, Task(k, Begin)); }
    if WillLook(s.tasks, signal.key) { WillLookWithout(s.tasks, id, signal.key); }
  }

  /** Coming to the end of the log serves every signal sent so far; any other step of a task leaves it looking. */
  lemma ServedAfterTaskStep(s: Pool, step: Step, signal: Signal)
    requires OneTaskEach(s) && Progress(s) && TaskStep(step) && Enabled(s, step)
    requires Served(s, signal) && signal.head <= |LogAt(s, signal.key)|
    ensures Served(Apply(s, step), signal)
  {
    hide WillLook, Exclusive, HasTask, Apply, Enabled, DoneUpTo;
    TaskStepShape(s, step);
    var s', k := Apply(s, step), s.tasks[step.id].key;
    assert DoneUpTo(s, k) && PcOk(s, s.tasks[step.id]);
    OffsetsGrow(s, step);
    var pc := s'.tasks[step.id].pc;
    if pc != Returned(true) || k != signal.key {
      if WillLook(s.tasks, signal.key) { WillLookStill(s.tasks, step.id, pc, signal.key); }
    } else {
      EndIsServed(s, step);
    }
  }

  lemma OffsetsGrow(s: Pool, step: Step)
    requires TaskStep(step) && Enabled(s, step)
    requires step.id in s.tasks && DoneUpTo(s, s.tasks[step.id].key) && PcOk(s, s.tasks[step.id])
    ensures OffsetAt(Apply(s, step), s.tasks[step.id].key) >= OffsetAt(s, s.tasks[step.id].key)
  {
    hide ReadOf;
  }

  lemma EndIsServed(s: Pool, step: Step)
    requires TaskStep(step) && Enabled(s, step)
    requires step.id in s.tasks && DoneUpTo(s, s.tasks[step.id].key) && PcOk(s, s.tasks[step.id])
    requires step.id in Apply(s, step).tasks && Apply(s, step).tasks[step.id].pc == Returned(true)
    ensures OffsetAt(Apply(s, step), s.tasks[step.id].key) == |LogAt(s, s.tasks[step.id].key)|
  {
    hide ReadOf;
    if step.Load? { LoadIsSlice(LogAt(s, s.tasks[step.id].key), s.tasks[step.id].pc.cursor); }
  }

  /** Signals are neither lost nor made up nor reordered: only a send adds one. */
  lemma SentGrows(s: Pool, step: Step)
    requires Enabled(s, step)
    ensures Sent(Apply(s, step)) == Sent(s) + if step.Send? then [Signal(step.key, |LogAt(s, step.key)|)] else []
  {
    hide Numbered, LogAt;
    if TaskStep(step) {
      hide Apply, Enabled;
      TaskStepShape(s, step);
      assert Sent(s) + [] == Sent(s);
    } else if step.Receive? {
      assert s.consumed + [s.queue[0]] + s.queue[1..] == s.consumed + s.queue;
      assert Sent(s) + [] == Sent(s);
    } else if step.Send? {
      var signal := Signal(step.key, |LogAt(s, step.key)|);
      assert s.consumed + (s.queue + [signal]) == Sent(s) + [signal];
    } else {
      assert Sent(s) + [] == Sent(s);
    }
  }

  lemma LogsOnlyGrow(s: Pool, step: Step, k: Key)
    requires Enabled(s, step)
    ensures LogAt(s, k) <= LogAt(Apply(s, step), k)
  {
    hide Numbered;
    if TaskStep(step) {
      hide Apply, Enabled;
      TaskStepShape(s, step);
    }
  }

  lemma HeadsKept(s: Pool, step: Step)
    requires HeadsKnown(s) && Enabled(s, step)
    ensures HeadsKnown(Apply(s, step))
  {
    hide Apply, Enabled, Sent, LogAt;
    var s' := Apply(s, step);
    SentGrows(s, step);
    forall signal <- Sent(s') ensures signal.head <= |LogAt(s', signal.key)| { LogsOnlyGrow(s, step, signal.key); }
  }

  lemma ClosingKept(s: Pool, step: Step)
    requires ClosesLast(s) && Enabled(s, step)
    ensures ClosesLast(Apply(s, step))
  {
    hide Numbered, ReadOf;
    if TaskStep(step) {
      hide Apply, Enabled;
      TaskStepShape(s, step);
    }
  }

  lemma NoneLostKept(s: Pool, step: Step)
    requires OneTaskEach(s) && Progress(s) && NoneLost(s) && Enabled(s, step)
    ensures NoneLost(Apply(s, step))
  {
    hide WillLook, Progress, OneTaskEach, HeadsKnown, ClosesLast, Numbered, ReceiveSignal, JoinTask;
    HeadsKept(s, step);
    ClosingKept(s, step);
    var s' := Apply(s, step);
    if TaskStep(step) {
      TaskStepShape(s, step);
      forall signal <- s.consumed ensures Served(s', signal) {
        HeadKnown(s, signal);
        ServedAfterTaskStep(s, step, signal);
      }
    } else if step.Receive? {
      ServedAfterReceive(s);
    } else if step.Join? {
      JoinConsumes(s, step.id);
      if s.tasks[step.id].pc.ok {
        forall signal <- s.consumed ensures Served(s', signal) { ServedAfterJoin(s, step.id, signal); }
      }
    }
  }

  lemma HeadKnown(s: Pool, signal: Signal)
    requires HeadsKnown(s) && signal in s.consumed
    ensures signal.head <= |LogAt(s, signal.key)|
  {
  }

  lemma JoinConsumes(s: Pool, id: nat)
    requires id in s.tasks && s.tasks[id].pc.Returned?
    ensures JoinTask(s, id).consumed == s.consumed
    ensures !s.tasks[id].pc.ok ==> JoinTask(s, id).status == Stopped(false)
  {
  }

  // ----- whole runs

  /** Where a supervisor starts: no tasks and no signals, and each partition projected up to its stored offset. */
  ghost predicate IsStart(s: Pool)
  {
    && s.queue == [] && s.consumed == [] && s.active == {} && s.pending == {} && s.tasks == map[]
    && !s.sendersGone && !s.dirtyClosed && s.status == Running
    && forall k :: 0 <= OffsetAt(s, k) <= |LogAt(s, k)| && Numbered(LogAt(s, k))
                   && ProjectedAt(s, k) == LogAt(s, k)[..OffsetAt(s, k)]
  }

  /** A supervisor over any logs starts with nothing projected where no offset is stored. */
  lemma FreshStart(logs: map<Key, seq<Event>>)
    requires forall k | k in logs :: Numbered(logs[k])
    ensures IsStart(Pool(logs, [], false, {}, {}, false, map[], 0, Running, map[], map[], []))
  {
  }

  ghost predicate IsRun(run: seq<Pool>, steps: seq<Step>)
  {
    && |run| == |steps| + 1
    && IsStart(run[0])
    && forall i {:trigger steps[i]} | 0 <= i < |steps| :: StepTaken(run[i], steps[i], run[i + 1])
  }

  ghost predicate StepTaken(s: Pool, step: Step, s': Pool) { Enabled(s, step) && s' == Apply(s, step) }

  lemma StartIsFine(s: Pool)
    requires IsStart(s)
    ensures Inv(s)
  {
    forall k ensures DoneUpTo(s, k) {}
  }

  lemma {:induction false} RunKeepsInvariant(run: seq<Pool>, steps: seq<Step>, n: nat)
    requires IsRun(run, steps) && n <= |steps|
    ensures Inv(run[n])
  {
    hide OneTaskEach, Progress, NoneLost, Apply, Enabled;
    if n == 0 {
      StartIsFine(run[0]);
    } else {
      RunKeepsInvariant(run, steps, n - 1);
      assert StepTaken(run[n - 1], steps[n - 1], run[n]);
      TasksKept(run[n - 1], steps[n - 1]);
      ProgressKept(run[n - 1], steps[n - 1]);
      NoneLostKept(run[n - 1], steps[n - 1]);
    }
  }

  lemma StepOf(run: seq<Pool>, steps: seq<Step>, i: nat)
    requires IsRun(run, steps) && i < |steps|
    ensures |run| == |steps| + 1 && StepTaken(run[i], steps[i], run[i + 1])
  {
  }

  lemma {:induction false} SentStays(run: seq<Pool>, steps: seq<Step>, i: nat, j: nat)
    requires IsRun(run, steps) && i <= j <= |steps|
    ensures Sent(run[i]) <= Sent(run[j])
    decreases j
  {
    hide Sent, Enabled, Apply, IsStart;
    if i < j {
      SentStays(run, steps, i, j - 1);
      StepOf(run, steps, j - 1);
      SentGrows(run[j - 1], steps[j - 1]);
    }
  }

  lemma {:induction false} LogStays(run: seq<Pool>, steps: seq<Step>, i: nat, j: nat, k: Key)
    requires IsRun(run, steps) && i <= j <= |steps|
    ensures LogAt(run[i], k) <= LogAt(run[j], k)
    decreases j
  {
    hide LogAt, Enabled, Apply, IsStart;
    if i < j {
      LogStays(run, steps, i, j - 1, k);
      StepOf(run, steps, j - 1);
      LogsOnlyGrow(run[j - 1], steps[j - 1], k);
    }
  }

  /**
  No wake-up is lost: when the supervisor has returned without an error, every signal ever sent has
  been received, and all events its partition held when it was sent are projected and behind the
  partition's stored offset, whatever was interleaved.
  */
  lemma NoLostWakeUp(run: seq<Pool>, steps: seq<Step>, i: nat, n: nat)
    requires IsRun(run, steps) && i < n <= |steps| && steps[i].Send? && run[n].status == Stopped(true)
    ensures var k, head := steps[i].key, |LogAt(run[i], steps[i].key)|;
            && Signal(k, head) in run[n].consumed && run[n].queue == []
            && OffsetAt(run[n], k) >= head
            && LogAt(run[i], k) <= ProjectedAt(run[n], k)
  {
    hide IsRun, LogAt, OffsetAt, ProjectedAt, Enabled, Apply, Exclusive, Numbered;
    StepOf(run, steps, i);
    var k := steps[i].key;
    var signal := Signal(k, |LogAt(run[i], k)|);
    SentGrows(run[i], steps[i]);
    SentStays(run, steps, i + 1, n);
    LogStays(run, steps, i, n, k);
    RunKeepsInvariant(run, steps, n);
    assert signal in Sent(run[i + 1]) && signal in Sent(run[n]);
    assert Sent(run[n]) == run[n].consumed;
    assert DoneUpTo(run[n], k) && Served(run[n], signal);
  }

  /**
  At every point of every run, failed tasks or not: at most one task works on a partition, its
  projected events are its log in version order from the start with nothing skipped or repeated,
  and the stored offset never runs ahead of them; between batches, and when nothing failed, it is
  exactly their number.
  */
  lemma ProjectedOnceInOrder(run: seq<Pool>, steps: seq<Step>, n: nat, k: Key)
    requires IsRun(run, steps) && n <= |steps|
    ensures var s := run[n];
            && Exclusive(s.tasks) && (k in s.active <==> HasTask(s.tasks, k)) && s.pending <= s.active
            && ProjectedAt(s, k) <= LogAt(s, k) && 0 <= OffsetAt(s, k) <= |ProjectedAt(s, k)|
            && (k !in s.active && s.status != Stopped(false) ==> OffsetAt(s, k) == |ProjectedAt(s, k)|)
            && (forall id | id in s.tasks && s.tasks[id].key == k && s.tasks[id].pc != Returned(false) ::
                  OffsetAt(s, k) == |ProjectedAt(s, k)| - if s.tasks[id].pc.Projecting? then s.tasks[id].pc.done else 0)
  {
    hide LogAt, OffsetAt, ProjectedAt, Enabled, Apply, Exclusive, HasTask, Numbered, NoneLost, IsRun;
    StepsLength(run, steps);
    RunKeepsInvariant(run, steps, n);
    assert DoneUpTo(run[n], k);
    forall id | id in run[n].tasks && run[n].tasks[id].key == k && run[n].tasks[id].pc != Returned(false)
      ensures OffsetAt(run[n], k)
           == |ProjectedAt(run[n], k)| - if run[n].tasks[id].pc.Projecting? then run[n].tasks[id].pc.done else 0
    {
      assert PcOk(run[n], run[n].tasks[id]);
    }
  }

  lemma StepsLength(run: seq<Pool>, steps: seq<Step>)
    requires IsRun(run, steps)
    ensures |run| == |steps| + 1
  {
  }

  /**
  The pool never gets stuck: unless it only waits for senders, some step of a task or of the
  supervisor can be taken.
  */
  lemma NeverStuck(run: seq<Pool>, steps: seq<Step>, n: nat) returns (step: Step)
    requires IsRun(run, steps) && n <= |steps| && run[n].status == Running
    requires run[n].sendersGone || run[n].queue != [] || run[n].tasks != map[]
    ensures Enabled(run[n], step) && !step.AppendEvents? && !step.Send? && !step.CloseSenders? && !step.Fail?
  {
    hide LogAt, OffsetAt, ProjectedAt, Apply, Exclusive, HasTask, Numbered, IsRun, DoneUpTo;
    StepsLength(run, steps);
    RunKeepsInvariant(run, steps, n);
    var s := run[n];
    if s.tasks != map[] {
      var id :| id in s.tasks;
      assert PcOk(s, s.tasks[id]);
      step := match s.tasks[id].pc
        case Begin => ReadCursor(id)
        case HasCursor(_) => Load(id)
        case Projecting(batch, done) => if done < |batch| then Project(id) else StoreOffset(id)
        case Returned(_) => Join(id);
    } else {
      step := if s.dirtyClosed then Finish else if s.queue != [] then Receive else ReceiveNone;
    }
  }
}
