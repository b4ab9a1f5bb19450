/**
What a clock that has fallen back does. With windows of one hour, a store whose active file is that
of 10:00 rotates at a reading of 09:00: the file of 09:00 is taken up again, and a bounded read
from the start then passes over the first event.
*/
module StaleClock {
  import opened Results
  import TextOrder
  import opened PartitionNames
  import VersionOrder
  import opened EventFiles
  import opened PartitionStore
  import StoreSteps
  import opened StoreRuns
  import opened StoreReads
  import opened CatalogReads
  import opened Rotations

  const NINE: int := 9 * HOUR_MS
  const TEN: int := 10 * HOUR_MS

  /** The active file of an hour on 1 January 1970, for `NINE` and `TEN`. */
  function FileOfHour(start: int): Active
    requires start == NINE || start == TEN
  {
    Active(GeneratePartitionName(start, HOUR_MS, None).value, start, None)
  }

  lemma HourFiles()
    ensures AlignedWindow(HOUR_MS)
    ensures FloorToWindow(NINE, HOUR_MS) == NINE && FloorToWindow(TEN, HOUR_MS) == TEN
    ensures Describes(HOUR_MS, FileOfHour(NINE)) && Describes(HOUR_MS, FileOfHour(TEN))
    ensures TextOrder.Less(FileOfHour(NINE).name, FileOfHour(TEN).name) && FileOfHour(NINE).name != FileOfHour(TEN).name
    ensures DetermineNext(HOUR_MS, FileOfHour(NINE), TEN) == Ok(FileOfHour(TEN))
    ensures DetermineNext(HOUR_MS, FileOfHour(TEN), NINE) == Ok(FileOfHour(NINE))
  {
    hide DateAt, GeneratePartitionName, ParsePartitionName;
    FirstDays();
    SplitName(NINE, None, HOUR_MS);
    SplitName(TEN, None, HOUR_MS);
    StoreSteps.NextFollows(HOUR_MS, FileOfHour(NINE), TEN);
    TextOrder.Irreflexive(FileOfHour(NINE).name);
  }

  lemma HourAligned()
    ensures AlignedWindow(HOUR_MS)
  {
  }

  lemma FirstDays()
    ensures TimestampInRange(NINE) && TimestampInRange(TEN)
  {
  }

  /** Both hours after one event each, as the store itself would have left them. */
  function TwoHours(first: Event, second: Event): State
  {
    var a, b := FileOfHour(NINE), FileOfHour(TEN);
    State(map[a.name := Range(a.name, 1, Some(1), true), b.name := OpenRange(b.name, 2)],
          map[a.name := EventFile([first], 1, Some(first.id)), b.name := EventFile([second], 2, Some(second.id))],
          Open(b))
  }

  /** A plain read that no other operation interleaves with. */
  function PageAt(s: State, cursor: int, limit: nat): seq<Event>
    requires s.catalog.Keys <= s.files.Keys
  {
    Page(s.files, s.catalog, None, cursor, limit)
  }

  const FIRST: Event := Event(7, 1, 1, None, NINE, "first")
  const SECOND: Event := Event(8, 2, 1, None, TEN, "second")

  ghost const HOUR_STEPS: seq<Step> := [
    Initialize(NINE), PublishFirst, Append(Any, [NewEvent("first", NoWorkflow)], [7], NINE, 3),
    Seal(TEN), CreateNext, PublishNext, SwapActive, Append(Any, [NewEvent("second", NoWorkflow)], [8], TEN, 3)]

  // ----- the run that leads there

  function AppendOf(text: string, id: Id, now: int): Step { Append(Any, [NewEvent(text, NoWorkflow)], [id], now, 3) }

  function Started(a: Active): State { State(map[], map[a.name := EventFile([], 0, None)], Starting(a)) }

  function Opened(a: Active, f: EventFile): State
  {
    State(map[a.name := OpenRange(a.name, 1)], map[a.name := f], Open(a))
  }

  lemma Opening(a: Active)
    requires a == FileOfHour(NINE)
    ensures StepTaken(HOUR_MS, EMPTY_STORE, Initialize(NINE), Started(a))
    ensures StepTaken(HOUR_MS, Started(a), PublishFirst, Opened(a, EventFile([], 0, None)))
    ensures Inv(HOUR_MS, Opened(a, EventFile([], 0, None)))
  {
    hide GeneratePartitionName, Describes, FloorToWindow, Tiled;
    HourFiles();
    SplitName(NINE, None, HOUR_MS);
    RebuildIsFull(map[]);
    StoreSteps.EmptyFull();
    EmptyIsFine(HOUR_MS);
    StoreSteps.FirstFileKeeps(HOUR_MS, a);
    assert map[][a.name := EventFile([], 0, None)] == map[a.name := EventFile([], 0, None)];
    assert map[][a.name := OpenRange(a.name, 1)] == map[a.name := OpenRange(a.name, 1)];
    StoreSteps.StepRefinesLog(HOUR_MS, EMPTY_STORE, Initialize(NINE));
    StoreSteps.StepRefinesLog(HOUR_MS, Started(a), PublishFirst);
  }

  function AfterOne(f: EventFile, text: string, id: Id, now: int): EventFile
  {
    EventFile([Event(id, f.head + 1, 1, None, now, text)], f.head + 1, Some(id))
  }

  lemma OneTransaction(f: EventFile, base: int, text: string, id: Id, now: int)
    requires FileOk(f, base) && f.rows == []
    ensures AppendTransaction(f, Any, [NewEvent(text, NoWorkflow)], [id], now, 3).Ok?
    ensures AppendTransaction(f, Any, [NewEvent(text, NoWorkflow)], [id], now, 3).value.0 == AfterOne(f, text, id, now)
  {
    hide AppendTransaction, FileOk;
    var events, ids := [NewEvent(text, NoWorkflow)], [id];
    AppendOutcome(f, base, Any, events, ids, now, 3);
    assert Batch(events, ids, f.head, 0, now) == [Event(id, f.head + 1, 1, None, now, text)];
  }

  lemma FreshOne(text: string, id: Id, rows: seq<Event>)
    requires !Mentions(rows, id)
    ensures FreshIds([id], [NewEvent(text, NoWorkflow)], rows)
  {
  }

  /** Appending one event to an empty active file. */
  lemma OneAppend(s: State, text: string, id: Id, now: int)
    requires Inv(HOUR_MS, s) && s.memory.Open? && s.memory.active.name in s.files
    requires s.files[s.memory.active.name].rows == [] && !Mentions(LogOf(s.files), id)
    ensures var name := s.memory.active.name;
            var s' := s.(files := s.files[name := AfterOne(s.files[name], text, id, now)]);
            StepTaken(HOUR_MS, s, AppendOf(text, id, now), s') && Inv(HOUR_MS, s')
  {
    hide Inv, AppendTransaction, FileOk, LogOf, Tiled, FreshIds, AfterOne, AlignedWindow, LastFile;
    HourAligned();
    InvTiled(HOUR_MS, s);
    DescribedName(HOUR_MS, s);
    LastOfTiled(s.files);
    OneTransaction(s.files[s.memory.active.name], HeadOf(s.files - {s.memory.active.name}), text, id, now);
    FreshOne(text, id, LogOf(s.files));
    StoreSteps.StepRefinesLog(HOUR_MS, s, AppendOf(text, id, now));
  }

  function NineDone(): State { Opened(FileOfHour(NINE), EventFile([FIRST], 1, Some(FIRST.id))) }

  function TenOpened(): State
  {
    var a, b := FileOfHour(NINE), FileOfHour(TEN);
    State(map[a.name := Range(a.name, 1, Some(1), true), b.name := OpenRange(b.name, 2)],
          map[a.name := EventFile([FIRST], 1, Some(FIRST.id)), b.name := EventFile([], 1, None)],
          Open(b))
  }

  lemma FirstHour()
    ensures Inv(HOUR_MS, NineDone())
    ensures StepTaken(HOUR_MS, Opened(FileOfHour(NINE), EventFile([], 0, None)), HOUR_STEPS[2], NineDone())
    ensures LogOf(NineDone().files) == [FIRST]
  {
    hide Inv, Enabled, Apply, LogOf, Describes, FloorToWindow, GeneratePartitionName, FileOfHour;
    var a := FileOfHour(NINE);
    var s := Opened(a, EventFile([], 0, None));
    Opening(a);
    OneFileLog(a, EventFile([], 0, None));
    OneAppend(s, "first", 7, NINE);
    assert s.files[a.name := AfterOne(s.files[a.name], "first", 7, NINE)] == NineDone().files;
    OneFileLog(a, EventFile([FIRST], 1, Some(7)));
  }

  lemma OneFileLog(a: Active, f: EventFile)
    ensures LogOf(Opened(a, f).files) == f.rows
    ensures forall id :: f.rows == [] ==> !Mentions(LogOf(Opened(a, f).files), id)
  {
    var files := Opened(a, f).files;
    assert a.name in files;
    assert LastFile(files) == a.name && files - {a.name} == map[];
    assert LogOf(map[]) == [];
  }

  lemma RotateToTen()
    ensures Enabled(HOUR_MS, NineDone(), Seal(TEN)) && Rotate(HOUR_MS, NineDone(), TEN) == TenOpened()
  {
    hide FloorToWindow, DetermineNext, GeneratePartitionName, TimestampInRange, Describes, DateAt, LogOf, Inv;
    HourFiles();
  }

  lemma SecondHour()
    requires Inv(HOUR_MS, TenOpened()) && LogOf(TenOpened().files) == [FIRST]
    ensures StepTaken(HOUR_MS, TenOpened(), HOUR_STEPS[7], TwoHours(FIRST, SECOND))
    ensures Inv(HOUR_MS, TwoHours(FIRST, SECOND))
  {
    hide Inv, Enabled, Apply, LogOf, FileOfHour, FloorToWindow, Describes, GeneratePartitionName;
    HourFiles();
    var s, b := TenOpened(), FileOfHour(TEN);
    assert !Mentions([FIRST], 8);
    OneAppend(s, "second", 8, TEN);
    assert s.files[b.name := AfterOne(s.files[b.name], "second", 8, TEN)] == TwoHours(FIRST, SECOND).files;
  }

  /** The run from an empty store to both hours. */
  lemma TwoHoursAreReached() returns (run: seq<State>)
    ensures IsRun(HOUR_MS, run, HOUR_STEPS) && run[8] == TwoHours(FIRST, SECOND) && Inv(HOUR_MS, run[8])
  {
    hide Inv, Enabled, Apply, LogOf, FileOfHour, FloorToWindow, Describes, GeneratePartitionName, Rotate;
    hide TwoHours, TenOpened;
    hide NineDone, Opened, Started;
    HourAligned();
    Opening(FileOfHour(NINE));
    FirstHour();
    RotateToTen();
    RotateIsItsSteps(HOUR_MS, NineDone(), TEN);
    RotateKeeps(HOUR_MS, NineDone(), TEN);
    SecondHour();
    var s4 := Apply(HOUR_MS, NineDone(), Seal(TEN));
    var s5 := Apply(HOUR_MS, s4, CreateNext);
    var s6 := Apply(HOUR_MS, s5, PublishNext);
    run := [EMPTY_STORE, Started(FileOfHour(NINE)), Opened(FileOfHour(NINE), EventFile([], 0, None)), NineDone(),
            s4, s5, s6, TenOpened(), TwoHours(FIRST, SECOND)];
  }

  /**
  The store reaches a state with one event in each of two hours, where the first page of one event
  is the first event. After a rotation at a reading that has fallen back to the first hour, that
  page is the second event, and a reader that goes on from there never sees the first.
  */
  lemma ReadSkipsAnEvent() returns (run: seq<State>)
    ensures IsRun(HOUR_MS, run, HOUR_STEPS) && run[8].memory.Open? && run[8].memory.active.name in run[8].files
    ensures FloorToWindow(NINE, HOUR_MS) < run[8].memory.active.startMs
    ensures run[8].catalog.Keys <= run[8].files.Keys && PageAt(run[8], 0, 1) == [FIRST]
    ensures var after := Rotate(HOUR_MS, run[8], NINE);
            && after.catalog.Keys <= after.files.Keys
            && PageAt(after, 0, 1) == [SECOND] && PageAt(after, SECOND.version, 1) == []
  {
    hide *;
    run := TwoHoursAreReached();
    FallenBack();
  }

  lemma FallenBack()
    ensures var s := TwoHours(FIRST, SECOND);
            && s.memory.Open? && s.memory.active.name in s.files
            && FloorToWindow(NINE, HOUR_MS) < s.memory.active.startMs
            && s.catalog.Keys <= s.files.Keys && PageAt(s, 0, 1) == [FIRST]
            && var after := Rotate(HOUR_MS, s, NINE);
               && after.catalog.Keys <= after.files.Keys
               && PageAt(after, 0, 1) == [SECOND] && PageAt(after, SECOND.version, 1) == []
  {
    hide FloorToWindow, Describes, GeneratePartitionName, DetermineNext, PageAt, KeysAfter;
    HourFiles();
    var a, b := FileOfHour(NINE).name, FileOfHour(TEN).name;
    var s := TwoHours(FIRST, SECOND);
    PageOfTwo(s, a, b, FIRST, SECOND);
    PageOfTwo(Rotate(HOUR_MS, s, NINE), b, a, SECOND, FIRST);
    PageOfNone(Rotate(HOUR_MS, s, NINE), a, FIRST, SECOND.version);
  }

  /** The page of one event from two listed files. */
  lemma PageOfTwo(s: State, a: string, b: string, first: Event, second: Event)
    requires a != b && s.catalog.Keys == s.files.Keys == {a, b}
    requires s.catalog[a].firstVersion < s.catalog[b].firstVersion
    requires s.files[a].rows == [first] && s.files[b].rows == [second]
    requires MayHoldAfter(s.catalog[a], 0) && MayHoldAfter(s.catalog[b], 0) && first.version > 0
    ensures PageAt(s, 0, 1) == [first]
  {
    hide RowsSeen, Select, VersionOrder.Sorted, SortByVersion, Collected;
    VersionOrder.SortedUnique(KeysAfter(s.catalog, 0), [a, b]);
    CollectedIsTaken(s.files, [a, b], None, 0, 1);
    RowsOfTwo(RowsOf(s.files), a, b);
    SelectAppend([first], [second], None, 0);
    SelectOne(first, 0);
    SelectOne(second, 0);
    assert Take([first] + [second], 1) == [first] == Take([first] + [], 1);
    SortOfAscending([first]);
  }

  /** The page from one listed file without a later event. */
  lemma PageOfNone(s: State, a: string, first: Event, cursor: int)
    requires a in s.catalog && s.catalog.Keys <= s.files.Keys
    requires forall n | n in s.catalog :: MayHoldAfter(s.catalog[n], cursor) <==> n == a
    requires s.files[a].rows == [first] && first.version <= cursor
    ensures PageAt(s, cursor, 1) == []
  {
    hide RowsSeen, Select, VersionOrder.Sorted, SortByVersion, Collected;
    VersionOrder.SortedUnique(KeysAfter(s.catalog, cursor), [a]);
    CollectedIsTaken(s.files, [a], None, cursor, 1);
    RowsOfOne(RowsOf(s.files), a);
    SelectOne(first, cursor);
    SortOfAscending([]);
  }

  lemma RowsOfOne(view: View, a: string)
    requires a in view
    ensures RowsSeen(view, [a]) == view[a]
  {
    assert [a][..0] == [];
    assert RowsSeen(view, []) == [];
  }

  lemma RowsOfTwo(view: View, a: string, b: string)
    requires a in view && b in view
    ensures RowsSeen(view, [a, b]) == view[a] + view[b]
  {
    assert [a, b][..1] == [a];
    RowsOfOne(view, a);
  }

  lemma SelectOne(e: Event, cursor: int)
    ensures Select([e], None, cursor) == if e.version > cursor then [e] else []
  {
    assert [e][..0] == [];
    assert Select([], None, cursor) == [];
  }
}
