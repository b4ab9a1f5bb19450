/**
Whole runs of a partition store, from an empty directory through any mix of appends, rotations,
crashes between their steps, catalog damage and reopening.
*/
module StoreRuns {
  import opened Results
  import opened PartitionNames
  import opened EventFiles
  import opened PartitionStore
  import opened StoreSteps

  const EMPTY_STORE: State := State(map[], map[], Closed)

  ghost predicate IsRun(window: int, run: seq<State>, steps: seq<Step>)
    requires window > 0
  {
    && |run| == |steps| + 1
    && run[0] == EMPTY_STORE
    && forall i {:trigger steps[i]} | 0 <= i < |steps| :: StepTaken(window, run[i], steps[i], run[i + 1])
  }

  ghost predicate StepTaken(window: int, s: State, step: Step, s': State)
    requires window > 0
  {
    Enabled(window, s, step) && s' == Apply(window, s, step)
  }

  lemma RunLength(window: int, run: seq<State>, steps: seq<Step>)
    requires AlignedWindow(window) && IsRun(window, run, steps)
    ensures window > 0 && |run| == |steps| + 1
  {
  }

  /** The events committed by the first `n` steps, in the order of the commits. */
  ghost function Committed(window: int, run: seq<State>, steps: seq<Step>, n: nat): seq<Event>
    requires window > 0 && IsRun(window, run, steps) && n <= |steps|
  {
    if n == 0 then []
    else
      assert StepTaken(window, run[n - 1], steps[n - 1], run[n]);
      Committed(window, run, steps, n - 1) + AppendedBy(run[n - 1], steps[n - 1])
  }

  /** No id is used twice, and no event refers to an id that is generated only later. */
  predicate IdsOk(log: seq<Event>)
  {
    forall i, j | 0 <= i < j < |log| :: log[i].id != log[j].id && log[i].anchor != Some(log[j].id)
  }

  /**
  Every run is an append-only log: at each point the files hold exactly the events committed so
  far, in commit order, numbered 1, 2, 3, ... with distinct ids.
  */
  lemma {:induction false} RunIsAppendOnlyLog(window: int, run: seq<State>, steps: seq<Step>, n: nat)
    requires AlignedWindow(window) && IsRun(window, run, steps) && n <= |steps|
    ensures Inv(window, run[n])
    ensures LogOf(run[n].files) == Committed(window, run, steps, n)
    ensures |LogOf(run[n].files)| == HeadOf(run[n].files)
    ensures forall i | 0 <= i < |LogOf(run[n].files)| :: LogOf(run[n].files)[i].version == i + 1
    ensures IdsOk(LogOf(run[n].files))
  {
    hide Inv, Enabled, Apply, LogOf, HeadOf, AppendedBy, IdsOk;
    if n == 0 {
      EmptyIsFine(window);
    } else {
      RunIsAppendOnlyLog(window, run, steps, n - 1);
      assert StepTaken(window, run[n - 1], steps[n - 1], run[n]);
      StepRefinesLog(window, run[n - 1], steps[n - 1]);
      StepKeepsIds(window, run[n - 1], steps[n - 1]);
    }
    InvTiled(window, run[n]);
    LogIsContiguous(run[n].files);
  }

  lemma EmptyIsFine(window: int)
    requires window > 0
    ensures Inv(window, EMPTY_STORE) && LogOf(EMPTY_STORE.files) == [] && IdsOk([])
  {
    assert UnsealedKeys(map[]) == map[];
  }

  lemma InvTiled(window: int, s: State)
    requires window > 0 && Inv(window, s)
    ensures Tiled(s.files)
  {
  }

  lemma StepKeepsIds(window: int, s: State, step: Step)
    requires AlignedWindow(window) && Inv(window, s) && Enabled(window, s, step)
    requires IdsOk(LogOf(s.files))
    ensures IdsOk(LogOf(s.files) + AppendedBy(s, step))
  {
    hide Inv, AppendTo, LogOf, Apply, IdsOk;
    var log := LogOf(s.files);
    assert log + [] == log;
    if step.Append? && AppendedBy(s, step) != [] {
      AppendedIsBatch(window, s, step);
      FreshKeepsIds(log, step.events, step.ids, |s.files[s.memory.active.name].rows|, step.now);
    }
  }

  lemma AppendedIsBatch(window: int, s: State, step: Step)
    requires AlignedWindow(window) && Inv(window, s) && step.Append? && Enabled(window, s, step)
    requires AppendedBy(s, step) != []
    ensures AppendedBy(s, step)
         == Batch(step.events, step.ids, |LogOf(s.files)|, |s.files[s.memory.active.name].rows|, step.now)
    ensures ValidateExpected(step.expected, |LogOf(s.files)|).Ok? && step.events != []
  {
    hide Inv, LogOf, Batch, AppendTransaction, ValidateExpected, Apply;
    AppendKeeps(window, s, step);
  }

  lemma FreshKeepsIds(log: seq<Event>, events: seq<NewEvent>, ids: seq<Id>, baseSequence: int, now: int)
    requires IdsOk(log) && FreshIds(ids, events, log)
    ensures IdsOk(log + Batch(events, ids, |log|, baseSequence, now))
  {
    var batch := Batch(events, ids, |log|, baseSequence, now);
    var all := log + batch;
    forall i, j | 0 <= i < j < |all| ensures all[i].id != all[j].id && all[i].anchor != Some(all[j].id) {
      if j >= |log| {
        var id := ids[j - |log|];
        assert all[j].id == id && !Mentions(log, id);
        if i < |log| {
          assert log[i] in log;
        } else {
          assert events[i - |log|].workflow != Continues(id);
        }
      }
    }
  }

  /** A committed event keeps its place for ever: earlier logs are prefixes of later ones. */
  lemma {:induction false} LogsOnlyGrow(window: int, run: seq<State>, steps: seq<Step>, i: nat, j: nat)
    requires AlignedWindow(window) && IsRun(window, run, steps) && i <= j <= |steps|
    ensures LogOf(run[i].files) <= LogOf(run[j].files)
    decreases j
  {
    hide Inv, LogOf, AppendedBy, IdsOk, IsRun;
    if i < j {
      LogsOnlyGrow(window, run, steps, i, j - 1);
      RunIsAppendOnlyLog(window, run, steps, j - 1);
      RunIsAppendOnlyLog(window, run, steps, j);
    }
  }

  lemma LogLengthsGrow(window: int, run: seq<State>, steps: seq<Step>, i: nat, j: nat)
    requires AlignedWindow(window) && IsRun(window, run, steps) && i <= j <= |steps|
    ensures |LogOf(run[i].files)| <= |LogOf(run[j].files)|
  {
    hide LogOf, IsRun;
    LogsOnlyGrow(window, run, steps, i, j);
  }

  // ----- optimistic concurrency

  /** A step that commits a non-empty batch under the given expectation. */
  ghost predicate CommitsUnder(s: State, step: Step, expected: ExpectedVersion)
  {
    && step.Append? && step.expected == expected
    && s.memory.Open? && s.memory.active.name in s.files && |step.ids| == |step.events|
    && AppendedBy(s, step) != []
  }

  /**
  In a whole run at most one non-empty append under `NoStream`, and for each version at most one
  under `Exact` of it, succeeds, however rotations, crashes and reopenings fall between.
  */
  lemma AtMostOneWinner(window: int, run: seq<State>, steps: seq<Step>, i: nat, j: nat, expected: ExpectedVersion)
    requires AlignedWindow(window) && IsRun(window, run, steps)
    requires i < |steps| && j < |steps| && expected != Any
    requires CommitsUnder(run[i], steps[i], expected) && CommitsUnder(run[j], steps[j], expected)
    ensures i == j
  {
    hide *;
    RunLength(window, run, steps);
    CommitNeedsHead(window, run, steps, i, expected);
    CommitNeedsHead(window, run, steps, j, expected);
    OneHeadOnly(expected, |LogOf(run[i].files)|, |LogOf(run[j].files)|);
    if i < j {
      LogLengthsGrow(window, run, steps, i + 1, j);
    } else if j < i {
      LogLengthsGrow(window, run, steps, j + 1, i);
    }
  }

  lemma OneHeadOnly(expected: ExpectedVersion, a: int, b: int)
    requires expected != Any && ValidateExpected(expected, a).Ok? && ValidateExpected(expected, b).Ok?
    ensures a == b
  {
  }

  /** A commit happens only at a head that its expectation accepts, and moves the head. */
  lemma CommitNeedsHead(window: int, run: seq<State>, steps: seq<Step>, i: nat, expected: ExpectedVersion)
    requires AlignedWindow(window) && IsRun(window, run, steps) && i < |steps|
    requires CommitsUnder(run[i], steps[i], expected)
    ensures ValidateExpected(expected, |LogOf(run[i].files)|).Ok?
    ensures |LogOf(run[i].files)| < |LogOf(run[i + 1].files)|
  {
    hide Inv, LogOf, IdsOk, Enabled, Apply, AppendedBy, ValidateExpected;
    assert StepTaken(window, run[i], steps[i], run[i + 1]);
    RunIsAppendOnlyLog(window, run, steps, i);
    StepRefinesLog(window, run[i], steps[i]);
    AppendedIsBatch(window, run[i], steps[i]);
  }

  // ----- workflows

  /** The event that starts a workflow run precedes every other event of that run. */
  lemma StartComesFirst(window: int, run: seq<State>, steps: seq<Step>, n: nat, i: nat, j: nat)
    requires AlignedWindow(window) && IsRun(window, run, steps) && n <= |steps|
    requires var log := LogOf(run[n].files);
             i < |log| && j < |log| && log[i].anchor == Some(log[i].id) && log[j].anchor == Some(log[i].id)
    ensures i <= j
  {
    hide Inv, LogOf;
    RunIsAppendOnlyLog(window, run, steps, n);
  }
}
