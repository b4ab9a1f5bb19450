/**
How much the pool can still do. What is left weighs the events not projected yet, the signals in the
channel, the partitions noted for another round and where each task stands; every step of a task or
of the supervisor takes something off, so however steps interleave they are paid for by the events
appended and the signals sent, and once senders are gone the supervisor returns.
*/
module PoolTermination {
  import opened WorkerPool
  import EventFiles

  // ----- sums over maps

  ghost function Pick<K>(m: map<K, nat>): (k: K)
    requires m != map[]
    ensures k in m
  {
    assert exists k :: k in m;
    var k :| k in m;
    k
  }

  ghost function Sum<K>(m: map<K, nat>): nat
    decreases m.Keys
  {
    if m == map[] then 0
    else
      var k := Pick(m);
      assert k in m.Keys && k !in (m - {k}).Keys;
      m[k] + Sum(m - {k})
  }

  lemma {:induction false} SumWithout<K>(m: map<K, nat>, k: K)
    requires k in m
    ensures Sum(m) == m[k] + Sum(m - {k})
    decreases m.Keys
  {
    var k' := Pick(m);
    assert k' in m.Keys && k' !in (m - {k'}).Keys;
    if k' != k {
      SumWithout(m - {k'}, k);
      assert k in m.Keys && k !in (m - {k}).Keys;
      SumWithout(m - {k}, k');
      assert m - {k'} - {k} == m - {k} - {k'};
    }
  }

  lemma SumUpdate<K>(m: map<K, nat>, k: K, v: nat)
    ensures Sum(m[k := v]) + (if k in m then m[k] else 0) == Sum(m) + v
  {
    SumWithout(m[k := v], k);
    assert m[k := v] - {k} == m - {k};
    if k in m { SumWithout(m, k); } else { assert m - {k} == m; }
  }

  // ----- what is left

  /** Each step of a task's loop weighs less than the one before, and an event more than starting over. */
  function Weight(pc: Pc): nat
  {
    match pc
    case Begin => 4
    case HasCursor(_) => 3
    case Projecting(batch, done) => if done < |batch| then 2 else 5
    case Returned(_) => 1
  }

  function Weights(tasks: map<nat, Task>): map<nat, nat> { map id | id in tasks :: Weight(tasks[id].pc) }

  function UnprojectedAt(s: Pool, k: Key): nat
  {
    if |ProjectedAt(s, k)| <= |LogAt(s, k)| then |LogAt(s, k)| - |ProjectedAt(s, k)| else 0
  }

  function Unprojected(s: Pool): map<Key, nat> { map k | k in s.logs :: UnprojectedAt(s, k) }

  /** What is left to do. */
  ghost function Left(s: Pool): nat
  {
    5 * Sum(Unprojected(s)) + Sum(Weights(s.tasks)) + 6 * |s.pending| + 7 * |s.queue|
    + (if s.dirtyClosed then 0 else 1) + (if s.status == Running then 1 else 0)
  }

  /**
  Appending events, sending signals and closing the channel come from outside; the other steps are
  the pool's own.
  */
  predicate Own(step: Step) { !step.AppendEvents? && !step.Send? && !step.CloseSenders? }

  /** What a step from outside adds. */
  function Adds(step: Step): nat
  {
    match step
    case AppendEvents(_, events) => 5 * |events|
    case Send(_) => 7
    case _ => 0
  }

  lemma WeightsMoved(tasks: map<nat, Task>, id: nat, task: Task)
    ensures Sum(Weights(tasks[id := task])) + (if id in tasks then Weight(tasks[id].pc) else 0)
         == Sum(Weights(tasks)) + Weight(task.pc)
  {
    assert Weights(tasks[id := task]) == Weights(tasks)[id := Weight(task.pc)];
    SumUpdate(Weights(tasks), id, Weight(task.pc));
  }

  lemma WeightsWithout(tasks: map<nat, Task>, id: nat)
    requires id in tasks
    ensures Sum(Weights(tasks - {id})) + Weight(tasks[id].pc) == Sum(Weights(tasks))
  {
    assert Weights(tasks - {id}) == Weights(tasks) - {id};
    SumWithout(Weights(tasks), id);
  }

  /** A step of a task leaves less: what it projects, or its next position. */
  lemma TaskStepFalls(s: Pool, step: Step)
    requires Inv(s) && TaskStep(step) && Enabled(s, step)
    ensures Left(Apply(s, step)) < Left(s)
  {
    hide Inv, Apply, Enabled, Weight, LogAt, ProjectedAt, OffsetAt;
    TaskStepShape(s, step);
    TaskStepPays(s, step);
    var s', id := Apply(s, step), step.id;
    var k := s.tasks[id].key;
    WeightsMoved(s.tasks, id, s'.tasks[id]);
    assert Unprojected(s') == if k in s.logs then Unprojected(s)[k := UnprojectedAt(s', k)] else Unprojected(s);
    SumUpdate(Unprojected(s), k, UnprojectedAt(s', k));
  }

  lemma TaskStepPays(s: Pool, step: Step)
    requires Inv(s) && TaskStep(step) && Enabled(s, step)
    ensures step.id in s.tasks && step.id in Apply(s, step).tasks
    ensures var s', k := Apply(s, step), s.tasks[step.id].key;
            && 5 * UnprojectedAt(s', k) + Weight(s'.tasks[step.id].pc)
               < 5 * UnprojectedAt(s, k) + Weight(s.tasks[step.id].pc)
            && (k !in s.logs ==> UnprojectedAt(s', k) == UnprojectedAt(s, k))
            && (forall k' | k' != k :: UnprojectedAt(s', k') == UnprojectedAt(s, k'))
  {
    hide OneTaskEach, NoneLost, EventFiles.Numbered;
    TaskStepShape(s, step);
    assert DoneUpTo(s, s.tasks[step.id].key) && PcOk(s, s.tasks[step.id]);
    hide Progress;
  }

  /** What is left unprojected depends on the logs and on what is projected. */
  lemma SameUnprojected(s: Pool, s': Pool)
    requires s'.logs == s.logs && s'.projected == s.projected
    ensures Unprojected(s') == Unprojected(s)
  {
  }

  lemma ReceiveFalls(s: Pool)
    requires s.queue != [] && forall id | id in s.tasks :: id < s.spawned
    ensures Left(ReceiveSignal(s)) < Left(s)
  {
    hide Sum, Weights, Unprojected, Spawned, ReceiveSignal;
    ReceiveShape(s);
    SameUnprojected(s, ReceiveSignal(s));
    SpawnWeighs(s.tasks, s.spawned, s.queue[0].key);
    NotesOne(s.pending, s.queue[0].key);
  }

  lemma ReceiveShape(s: Pool)
    requires s.queue != []
    ensures var s', k := ReceiveSignal(s), s.queue[0].key;
            && s'.logs == s.logs && s'.projected == s.projected && |s'.queue| == |s.queue| - 1
            && s'.dirtyClosed == s.dirtyClosed && s'.status == s.status
            && (if k in s.active then s'.tasks == s.tasks && s'.pending == s.pending + {k}
                else s'.tasks == Spawned(s.tasks, s.spawned, k) && s'.pending == s.pending)
  {
  }

  lemma NotesOne(pending: set<Key>, k: Key)
    ensures |pending + {k}| <= |pending| + 1 && |pending - {k}| == |pending| - if k in pending then 1 else 0
  {
    assert k in pending ==> pending + {k} == pending;
  }

  lemma SpawnWeighs(tasks: map<nat, Task>, id: nat, k: Key)
    requires id !in tasks
    ensures Sum(Weights(Spawned(tasks, id, k))) == Sum(Weights(tasks)) + 4
  {
    WeightsMoved(tasks, id, Task(k, Begin));
  }

  /** What a joined task and its partition's note weigh pays for the task that takes its place. */
  lemma JoinPays(tasks: map<nat, Task>, id: nat, spawned: nat, pending: set<Key>)
    requires id in tasks && tasks[id].pc.Returned? && spawned !in tasks
    ensures Sum(Weights(tasks - {id})) < Sum(Weights(tasks))
    ensures |pending - {tasks[id].key}| <= |pending|
    ensures tasks[id].key in pending ==>
              Sum(Weights(Spawned(tasks - {id}, spawned, tasks[id].key))) + 6 * |pending - {tasks[id].key}|
              < Sum(Weights(tasks)) + 6 * |pending|
  {
    hide Sum, Weights;
    WeightsWithout(tasks, id);
    SpawnWeighs(tasks - {id}, spawned, tasks[id].key);
    NotesOne(pending, tasks[id].key);
  }

  lemma JoinFalls(s: Pool, id: nat)
    requires id in s.tasks && s.tasks[id].pc.Returned? && forall i | i in s.tasks :: i < s.spawned
    ensures Left(JoinTask(s, id)) < Left(s)
  {
    hide Sum, Weights, Unprojected, Spawned, JoinTask;
    JoinShape(s, id);
    SameUnprojected(s, JoinTask(s, id));
    JoinPays(s.tasks, id, s.spawned, s.pending);
  }

  lemma JoinShape(s: Pool, id: nat)
    requires id in s.tasks && s.tasks[id].pc.Returned?
    ensures var s', k := JoinTask(s, id), s.tasks[id].key;
            && s'.logs == s.logs && s'.projected == s.projected && s'.queue == s.queue
            && s'.dirtyClosed == s.dirtyClosed && (s'.status == s.status || s'.status == Stopped(false))
            && if s.tasks[id].pc.ok && k in s.pending
               then s'.tasks == Spawned(s.tasks - {id}, s.spawned, k) && s'.pending == s.pending - {k}
               else s'.tasks == s.tasks - {id} && (s'.pending == s.pending || s'.pending == s.pending - {k})
  {
  }

  /** Every step of the pool's own, a failure too, leaves less to do. */
  lemma OwnStepFalls(s: Pool, step: Step)
    requires Inv(s) && Enabled(s, step) && Own(step)
    ensures Left(Apply(s, step)) < Left(s)
  {
    hide Sum, Weights, Unprojected, Progress, NoneLost, Exclusive, HasTask, LoadBatch, ReceiveSignal, JoinTask;
    if step.Receive? {
      ReceiveFalls(s);
    } else if step.Join? {
      JoinFalls(s, step.id);
    } else if TaskStep(step) {
      TaskStepFalls(s, step);
    } else {
      SameUnprojected(s, Apply(s, step));
    }
  }

  lemma AppendAdds(s: Pool, k: Key, events: seq<EventFiles.Event>)
    requires Inv(s) && Enabled(s, AppendEvents(k, events))
    ensures Left(Apply(s, AppendEvents(k, events))) == Left(s) + 5 * |events|
  {
    hide Sum, Weights, Exclusive, HasTask, NoneLost, EventFiles.Numbered, OffsetAt;
    var s' := Apply(s, AppendEvents(k, events));
    assert DoneUpTo(s, k);
    assert Unprojected(s') == Unprojected(s)[k := UnprojectedAt(s', k)];
    SumUpdate(Unprojected(s), k, UnprojectedAt(s', k));
  }

  /** A step from outside adds no more than the events and signals it brings. */
  lemma OutsideStepAdds(s: Pool, step: Step)
    requires Inv(s) && Enabled(s, step) && !Own(step)
    ensures Left(Apply(s, step)) == Left(s) + Adds(step)
  {
    hide Sum, Weights, Unprojected, Inv;
    if step.AppendEvents? {
      AppendAdds(s, step.key, step.events);
    } else {
      SameUnprojected(s, Apply(s, step));
    }
  }

  // ----- whole runs

  /** How many of the first n steps are the pool's own. */
  ghost function OwnSteps(steps: seq<Step>, n: nat): nat
    requires n <= |steps|
  {
    if n == 0 then 0 else OwnSteps(steps, n - 1) + if Own(steps[n - 1]) then 1 else 0
  }

  /** What the first n steps bring from outside. */
  ghost function Added(steps: seq<Step>, n: nat): nat
    requires n <= |steps|
  {
    if n == 0 then 0 else Added(steps, n - 1) + Adds(steps[n - 1])
  }

  /**
  In every run the pool's own steps, and what is left of them, are paid for by what was unprojected
  at the start, five for each event appended and seven for each signal sent: however senders, tasks
  and the supervisor interleave, nothing goes on for ever by itself.
  */
  lemma {:induction false} WorkIsBounded(run: seq<Pool>, steps: seq<Step>, n: nat)
    requires IsRun(run, steps) && n <= |steps|
    ensures OwnSteps(steps, n) + Left(run[n]) <= Left(run[0]) + Added(steps, n)
  {
    hide IsRun, Inv, Left, Own, Adds, Enabled, Apply;
    StepsLength(run, steps);
    if n > 0 {
      WorkIsBounded(run, steps, n - 1);
      StepOf(run, steps, n - 1);
      RunKeepsInvariant(run, steps, n - 1);
      if Own(steps[n - 1]) { OwnStepFalls(run[n - 1], steps[n - 1]); AddsNothing(steps[n - 1]); }
      else { OutsideStepAdds(run[n - 1], steps[n - 1]); }
    }
  }

  lemma AddsNothing(step: Step)
    requires Own(step)
    ensures Adds(step) == 0
  {
  }

  /** No task has failed, and so the supervisor has not stopped on one. */
  ghost predicate Clean(s: Pool)
  {
    s.status != Stopped(false) && forall id | id in s.tasks :: s.tasks[id].pc != Returned(false)
  }

  lemma CleanKept(s: Pool, step: Step)
    requires Clean(s) && Enabled(s, step) && !step.Fail?
    ensures Clean(Apply(s, step))
  {
    hide EventFiles.Numbered, LogAt, ProjectedAt, OffsetAt;
    if TaskStep(step) {
      hide Apply, Enabled;
      TaskStepShape(s, step);
      NotFailing(s, step);
    }
  }

  lemma NotFailing(s: Pool, step: Step)
    requires TaskStep(step) && Enabled(s, step) && !step.Fail?
    ensures step.id in Apply(s, step).tasks && Apply(s, step).tasks[step.id].pc != Returned(false)
  {
    hide LogAt, ProjectedAt, OffsetAt;
  }

  lemma {:induction false} StaysClean(run: seq<Pool>, steps: seq<Step>, n: nat)
    requires IsRun(run, steps) && n <= |steps| && forall i | 0 <= i < n :: !steps[i].Fail?
    ensures Clean(run[n])
  {
    hide Enabled, Apply, Clean;
    if n == 0 {
      StartIsClean(run, steps);
    } else {
      StaysClean(run, steps, n - 1);
      StepOf(run, steps, n - 1);
      CleanKept(run[n - 1], steps[n - 1]);
    }
  }

  lemma StartIsClean(run: seq<Pool>, steps: seq<Step>)
    requires IsRun(run, steps)
    ensures Clean(run[0])
  {
  }

  /**
  A run in which the pool has nothing left that it can do, with the senders gone and no failed task,
  has ended well: the supervisor has returned, and the events of every signal ever sent are
  projected and behind the offset. By WorkIsBounded every run that goes on gets there.
  */
  lemma EndsWell(run: seq<Pool>, steps: seq<Step>, n: nat)
    requires IsRun(run, steps) && n <= |steps| && run[n].sendersGone
    requires forall i | 0 <= i < n :: !steps[i].Fail?
    requires forall step | Own(step) && !step.Fail? :: !Enabled(run[n], step)
    ensures run[n].status == Stopped(true) && run[n].tasks == map[] && run[n].queue == []
    ensures forall i | 0 <= i < n && steps[i].Send? ::
              OffsetAt(run[n], steps[i].key) >= |LogAt(run[i], steps[i].key)|
  {
    hide IsRun, Enabled, Apply, LogAt, OffsetAt;
    StepsLength(run, steps);
    StaysClean(run, steps, n);
    if run[n].status == Running { var step := NeverStuck(run, steps, n); assert false; }
    RunKeepsInvariant(run, steps, n);
    forall i | 0 <= i < n && steps[i].Send?
      ensures OffsetAt(run[n], steps[i].key) >= |LogAt(run[i], steps[i].key)|
    {
      NoLostWakeUp(run, steps, i, n);
    }
  }

  /** From every point of a run without failures, once the senders are gone, the pool by itself comes to its end. */
  lemma {:induction false} Drains(run: seq<Pool>, steps: seq<Step>) returns (run': seq<Pool>, steps': seq<Step>)
    requires IsRun(run, steps) && run[|steps|].sendersGone && forall i | 0 <= i < |steps| :: !steps[i].Fail?
    ensures IsRun(run', steps') && run <= run' && steps <= steps' && run'[|steps'|].status == Stopped(true)
    ensures forall i | |steps| <= i < |steps'| :: Own(steps'[i]) && !steps'[i].Fail?
    ensures |steps'| - |steps| <= Left(run[|steps|])
    decreases Left(run[|steps|])
  {
    hide IsRun, Inv, Left, Enabled, Apply;
    StepsLength(run, steps);
    run', steps' := run, steps;
    var s := run[|steps|];
    if s.status == Running {
      var step := NeverStuck(run, steps, |steps|);
      RunKeepsInvariant(run, steps, |steps|);
      OwnStepFalls(s, step);
      RunGoesOn(run, steps, step);
      run', steps' := Drains(run + [Apply(s, step)], steps + [step]);
    } else {
      StaysClean(run, steps, |steps|);
    }
  }

  lemma RunGoesOn(run: seq<Pool>, steps: seq<Step>, step: Step)
    requires IsRun(run, steps) && Enabled(run[|steps|], step) && Own(step)
    ensures IsRun(run + [Apply(run[|steps|], step)], steps + [step])
    ensures Apply(run[|steps|], step).sendersGone == run[|steps|].sendersGone
  {
  }
}
