/**
Whole rotations: how they are made of their steps, exactly when they keep the invariant, and how
ordinals count within a window.
*/
module Rotations {
  import opened Results
  import TextOrder
  import opened PartitionNames
  import opened EventFiles
  import opened PartitionStore
  import opened StoreSteps
  import StoreRuns
  import StoreReads

  /** The whole of `rotate_partition`, without any condition on the clock. */
  function Rotate(window: int, s: State, now: int): State
    requires window > 0 && s.memory.Open? && s.memory.active.name in s.files
  {
    var a := s.memory.active;
    var next := DetermineNext(window, a, now);
    if next.Err? then s
    else
      var head := s.files[a.name].head;
      var b := next.value;
      State(SealRange(s.catalog, a.name, head)[b.name := OpenRange(b.name, head + 1)],
            CreateFile(s.files, b.name, head), Open(b))
  }

  /**
  What a rotation does to any store at any reading: the file it takes up is created empty or keeps its
  rows, and gets the active file's head; the active file's row, if there is one, is sealed at that head,
  and a new row from the next version on takes the place of any other of that name.
  */
  lemma RotationExactly(window: int, s: State, now: int)
    requires window > 0 && s.memory.Open? && s.memory.active.name in s.files
    requires DetermineNext(window, s.memory.active, now).Ok?
    ensures var s', a := Rotate(window, s, now), s.memory.active.name;
            var b := DetermineNext(window, s.memory.active, now).value;
            var head := s.files[a].head;
            && s'.memory == Open(b)
            && s'.files.Keys == s.files.Keys + {b.name} && s'.catalog.Keys == s.catalog.Keys + {b.name}
            && (forall n | n in s.files && n != b.name :: s'.files[n] == s.files[n])
            && s'.files[b.name] == EventFile(if b.name in s.files then s.files[b.name].rows else [], head, None)
            && (forall n | n in s.catalog && n != b.name && n != a :: s'.catalog[n] == s.catalog[n])
            && (a in s.catalog && a != b.name ==>
                  s'.catalog[a] == Range(s.catalog[a].path, s.catalog[a].firstVersion, Some(head), true))
            && s'.catalog[b.name] == Range(b.name, head + 1, None, false)
  {
    hide DetermineNext;
  }

  /** The four steps of a rotation, taken one after another with nothing between them, are the whole rotation. */
  lemma RotateIsItsSteps(window: int, s: State, now: int)
    requires AlignedWindow(window) && Inv(window, s) && Enabled(window, s, Seal(now))
    ensures var s1 := Apply(window, s, Seal(now));
            Enabled(window, s1, CreateNext)
            && var s2 := Apply(window, s1, CreateNext);
               Enabled(window, s2, PublishNext)
               && var s3 := Apply(window, s2, PublishNext);
                  Enabled(window, s3, SwapActive) && Apply(window, s3, SwapActive) == Rotate(window, s, now)
  {
    hide Inv, FloorToWindow, DetermineNext, SealRange;
    NextNew(window, s, now);
  }

  lemma NextNew(window: int, s: State, now: int)
    requires AlignedWindow(window) && Inv(window, s) && Enabled(window, s, Seal(now))
    ensures var b := DetermineNext(window, s.memory.active, now).value;
            b.name !in s.files && b.name != s.memory.active.name
  {
    hide Describes, DetermineNext, NamedBy, AllParse, FullCatalog, FloorToWindow, Tiled;
    NextIsFresh(window, s, now);
  }

  /** A rotation under the guard keeps the invariant and the log, and its new file is empty and active. */
  lemma RotateKeeps(window: int, s: State, now: int)
    requires AlignedWindow(window) && Inv(window, s) && Enabled(window, s, Seal(now))
    ensures var s' := Rotate(window, s, now);
            && Inv(window, s') && s'.memory == Open(DetermineNext(window, s.memory.active, now).value)
            && LogOf(s'.files) == LogOf(s.files)
            && s'.memory.active.name in s'.files - s.files.Keys && s'.files - {s'.memory.active.name} == s.files
  {
    hide Inv, FloorToWindow, DetermineNext, SealRange, LogOf, FileOk;
    RotateIsItsSteps(window, s, now);
    var s1 := Apply(window, s, Seal(now));
    var s2 := Apply(window, s1, CreateNext);
    var s3 := Apply(window, s2, PublishNext);
    StepRefinesLog(window, s, Seal(now));
    StepRefinesLog(window, s1, CreateNext);
    StepRefinesLog(window, s2, PublishNext);
    StepRefinesLog(window, s3, SwapActive);
    NextNew(window, s, now);
  }

  /**
  A rotation keeps the state machine's invariant, by which file names ascend with their versions,
  exactly when its clock reading does not fall in a window before the active one. `append` reads the
  clock before it takes the lock, so nothing in the code itself makes sure of that. What reads lose
  when it does not hold is the subject of module `AnyClock`.
  */
  lemma RotationKeepsInvExactly(window: int, s: State, now: int)
    requires AlignedWindow(window) && Inv(window, s) && s.memory.Open? && s.memory.active.name in s.files && now >= 0
    requires DetermineNext(window, s.memory.active, now).Ok?
    ensures Inv(window, Rotate(window, s, now)) <==> FloorToWindow(now, window) >= s.memory.active.startMs
  {
    hide Inv, FloorToWindow, DetermineNext, Rotate, LogOf;
    if FloorToWindow(now, window) >= s.memory.active.startMs {
      RotateKeeps(window, s, now);
    } else {
      FallingBackBreaks(window, s, now);
    }
  }

  lemma FallingBackBreaks(window: int, s: State, now: int)
    requires AlignedWindow(window) && Inv(window, s) && s.memory.Open? && s.memory.active.name in s.files && now >= 0
    requires DetermineNext(window, s.memory.active, now).Ok? && FloorToWindow(now, window) < s.memory.active.startMs
    ensures !Inv(window, Rotate(window, s, now))
  {
    hide Describes, NamedBy, AllParse, FullCatalog, FloorToWindow, DetermineNext, FileOk, LogOf;
    var a, b := s.memory.active, DetermineNext(window, s.memory.active, now).value;
    DescribedName(window, s);
    NextFollows(window, a, now);
    StartOfNext(window, a, now);
    DescribedNameParses(window, a);
    DescribedNameParses(window, b);
    if Inv(window, Rotate(window, s, now)) { ActiveComesLast(window, Rotate(window, s, now), a.name); }
  }

  lemma ActiveComesLast(window: int, s: State, n: string)
    requires window > 0 && Inv(window, s) && s.memory.Open? && n in s.files && n != s.memory.active.name
    ensures TextOrder.Less(n, s.memory.active.name)
  {
    hide Describes, NamedBy, AllParse, FullCatalog, FileOk;
    assert n in s.files - {s.memory.active.name};
  }

  lemma DescribedName(window: int, s: State)
    requires window > 0 && Inv(window, s) && s.memory.Open?
    ensures Describes(window, s.memory.active) && s.files != map[] && s.memory.active.name == LastFile(s.files)
  {
  }

  lemma StartOfNext(window: int, a: Active, now: int)
    requires window > 0 && DetermineNext(window, a, now).Ok?
    ensures DetermineNext(window, a, now).value.startMs == FloorToWindow(now, window)
  {
  }

  // ----- ordinals

  function OrdinalNumber(ordinal: Option<nat>): nat { if ordinal.Some? then ordinal.value else 0 }

  /** Rotations at these clock readings, one after another. */
  ghost function RotateAll(window: int, s: State, nows: seq<int>): (s': State)
    requires window > 0 && s.memory.Open? && s.memory.active.name in s.files
    ensures s'.memory.Open? && s'.memory.active.name in s'.files
  {
    if nows == [] then s
    else Rotate(window, RotateAll(window, s, nows[..|nows| - 1]), nows[|nows| - 1])
  }

  /**
  Any number of rotations within the active window count its ordinal up by one each, to 999999 and
  no further; every one of them that is refused leaves the store as it is.
  */
  lemma {:induction false} OrdinalsCountUp(window: int, s: State, nows: seq<int>)
    requires AlignedWindow(window) && Inv(window, s) && s.memory.Open? && s.memory.active.name in s.files
    requires forall now <- nows :: now >= 0 && FloorToWindow(now, window) == s.memory.active.startMs
    ensures var s' := RotateAll(window, s, nows);
            var n := OrdinalNumber(s.memory.active.ordinal) + |nows|;
            && Inv(window, s') && LogOf(s'.files) == LogOf(s.files)
            && s'.memory.active.startMs == s.memory.active.startMs
            && OrdinalNumber(s'.memory.active.ordinal)
               == (if n <= 999_999 then n else 999_999)
            && |s'.files|
               == |s.files| + OrdinalNumber(s'.memory.active.ordinal) - OrdinalNumber(s.memory.active.ordinal)
            && (n > 999_999 ==> forall now | FloorToWindow(now, window) == s.memory.active.startMs ::
                  Rotate(window, s', now) == s')
    decreases |nows|
  {
    hide Inv, FloorToWindow, DetermineNext, Rotate, LogOf, Describes, ValidOrdinal;
    OpenOrdinal(window, s);
    if nows != [] {
      var front, now := nows[..|nows| - 1], nows[|nows| - 1];
      assert forall x <- front :: x in nows;
      assert now in nows;
      OrdinalsCountUp(window, s, front);
      var t := RotateAll(window, s, front);
      OneMoreOrdinal(window, t, now);
    }
    var s' := RotateAll(window, s, nows);
    forall now | FloorToWindow(now, window) == s.memory.active.startMs
      ensures s'.memory.active.ordinal == Some(999_999) ==> Rotate(window, s', now) == s'
    {
      if s'.memory.active.ordinal == Some(999_999) { RefusedAtTheEnd(window, s', now); }
    }
  }

  lemma OpenOrdinal(window: int, s: State)
    requires window > 0 && Inv(window, s) && s.memory.Open?
    ensures OrdinalNumber(s.memory.active.ordinal) <= 999_999
  {
    hide NamedBy, AllParse, FullCatalog, Tiled, LastFile, TimestampInRange, ShownInFull, GeneratePartitionName;
  }

  lemma RefusedAtTheEnd(window: int, s: State, now: int)
    requires window > 0 && s.memory.Open? && s.memory.active.name in s.files
    requires FloorToWindow(now, window) == s.memory.active.startMs
    requires s.memory.active.ordinal == Some(999_999)
    ensures DetermineNext(window, s.memory.active, now) == Err(RotationOrdinalExhausted(999_999))
    ensures Rotate(window, s, now) == s
  {
    hide FloorToWindow;
  }

  lemma OneMoreOrdinal(window: int, s: State, now: int)
    requires AlignedWindow(window) && Inv(window, s) && s.memory.Open? && s.memory.active.name in s.files
    requires now >= 0 && FloorToWindow(now, window) == s.memory.active.startMs
    ensures var s' := Rotate(window, s, now);
            var n := OrdinalNumber(s.memory.active.ordinal);
            if n < 999_999
            then && Inv(window, s') && LogOf(s'.files) == LogOf(s.files) && s'.memory.Open?
                 && s'.memory.active.startMs == s.memory.active.startMs
                 && s'.memory.active.ordinal == Some(n + 1) && |s'.files| == |s.files| + 1
            else s' == s && s.memory.active.ordinal == Some(999_999)
  {
    hide Inv, FloorToWindow, Rotate, LogOf, Describes, ValidOrdinal, GeneratePartitionName;
    OpenOrdinal(window, s);
    if OrdinalNumber(s.memory.active.ordinal) < 999_999 {
      DescribedName(window, s);
      NextNames(window, s.memory.active);
      RotateKeeps(window, s, now);
      OneMoreKey(s.files, Rotate(window, s, now).files, Rotate(window, s, now).memory.active.name);
    } else {
      RefusedAtTheEnd(window, s, now);
    }
  }

  lemma OneMoreKey(files: Files, files': Files, name: string)
    requires name in files' && name !in files && files' - {name} == files
    ensures |files'| == |files| + 1
  {
    assert files'.Keys == files.Keys + {name};
  }

  /** As long as the ordinals of a window are not used up, the next name of that window can be printed. */
  lemma NextNames(window: int, a: Active)
    requires window > 0 && Describes(window, a) && OrdinalNumber(a.ordinal) < 999_999
    ensures NextOrdinal(a.ordinal) == Some(OrdinalNumber(a.ordinal) + 1)
    ensures GeneratePartitionName(a.startMs, window, NextOrdinal(a.ordinal)).Ok?
  {
    hide DateAt, TimestampInRange;
    SplitName(a.startMs, NextOrdinal(a.ordinal), window);
  }

  /** Whatever the ordinal was, a later window starts again at its unsuffixed name. */
  lemma NewWindowRestarts(window: int, s: State, now: int)
    requires AlignedWindow(window) && Inv(window, s) && s.memory.Open? && s.memory.active.name in s.files && now >= 0
    requires FloorToWindow(now, window) > s.memory.active.startMs && TimestampInRange(FloorToWindow(now, window))
    ensures var s' := Rotate(window, s, now);
            && Inv(window, s') && LogOf(s'.files) == LogOf(s.files)
            && s'.memory.Open? && s'.memory.active.ordinal == None
            && s'.memory.active.startMs == FloorToWindow(now, window)
            && GeneratePartitionName(FloorToWindow(now, window), window, None) == Ok(s'.memory.active.name)
  {
    hide Inv, FloorToWindow, Rotate, LogOf, TimestampInRange, GeneratePartitionName;
    SplitName(FloorToWindow(now, window), None, window);
    RotateKeeps(window, s, now);
  }

  // ----- rows and heads

  /**
  In every reachable file the head is the first version less one plus the number of rows, the rows
  take the sequences 1, 2, 3, ... and each version exceeds its sequence by the same amount.
  */
  lemma FileArithmetic(window: int, run: seq<State>, steps: seq<Step>, n: nat, name: string)
    requires AlignedWindow(window) && StoreRuns.IsRun(window, run, steps) && n <= |steps| && name in run[n].files
    ensures var f := run[n].files[name];
            && f.head == FirstVersion(f) - 1 + |f.rows| && f.head >= 0
            && forall i | 0 <= i < |f.rows| ::
                 f.rows[i].sequence == i + 1 && f.rows[i].version - f.rows[i].sequence == FirstVersion(f) - 1
  {
    hide Inv, FirstVersion, StoreRuns.IsRun, LogOf;
    StoreRuns.RunLength(window, run, steps);
    StoreReads.RunTiled(window, run, steps, n);
    var base := FileBase(run[n].files, name);
    FirstOfRows(run[n].files[name], base);
  }

  lemma {:induction false} FileBase(files: Files, n: string) returns (base: nat)
    requires Tiled(files) && n in files
    ensures FileOk(files[n], base)
    decreases |files|
  {
    hide FirstVersion, FileOk;
    var m := LastFile(files);
    if n == m {
      HeadNotNegative(files - {m});
      base := HeadOf(files - {m});
    } else {
      base := FileBase(files - {m}, n);
    }
  }

  lemma HeadNotNegative(files: Files)
    requires Tiled(files)
    ensures HeadOf(files) >= 0
  {
    LogIsContiguous(files);
  }

  /**
  In every reachable state a batch with fresh ids meets neither a UNIQUE constraint nor a head that
  the guarded update would skip: without a database fault it is stored whole.
  */
  lemma ConstraintsNeverFire(window: int, run: seq<State>, steps: seq<Step>, n: nat,
                             events: seq<NewEvent>, ids: seq<Id>, now: int, fault: nat)
    requires AlignedWindow(window) && StoreRuns.IsRun(window, run, steps) && n <= |steps| && events != []
    requires run[n].memory.Open? && run[n].memory.active.name in run[n].files
    requires FreshIds(ids, events, LogOf(run[n].files))
    ensures |ids| == |events|
    ensures var f := run[n].files[run[n].memory.active.name];
            var batch := Batch(events, ids, f.head, MaxSequence(f.rows), now);
            && InsertAll(f.rows, batch, fault) == (if fault < |batch| then Err(Db) else Ok(f.rows + batch))
            && UpdateHead(f.(rows := f.rows + batch), batch[|batch| - 1].version, batch[|batch| - 1].id)
               == EventFile(f.rows + batch, f.head + |batch|, Some(ids[|ids| - 1]))
  {
    hide StoreRuns.IsRun, LogOf, FileOk, Tiled, FreshIds, Batch, InsertAll, MaxSequence, Continuation;
    hide FullCatalog, NamedBy, Describes, AllParse;
    StoreRuns.RunLength(window, run, steps);
    StoreReads.RunTiled(window, run, steps, n);
    var files, name := run[n].files, run[n].memory.active.name;
    var f, rest := files[name], files - {name};
    LastOfTiled(files);
    FreshForLast(ids, events, LogOf(rest), f.rows);
    FreshLength(ids, events, f.rows);
    SequenceOfRows(f, HeadOf(rest));
    BatchContinues(f.rows, f.head, events, ids, now);
    InsertsSucceed(f, HeadOf(rest), Batch(events, ids, f.head, |f.rows|, now), fault);
  }
}
