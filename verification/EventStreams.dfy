/**
The event stream object: the catalog table and the event files it owns, and its active file,
changed in place by one caller at a time, as the lock on the active file makes them.
*/
module EventStreams {
  import opened Results
  import opened PartitionNames
  import TextOrder
  import VersionOrder
  import opened EventFiles
  import opened PartitionStore
  import StoreSteps
  import StoreRuns
  import opened Rotations
  import CatalogTable

  datatype Summary = Summary(name: string, firstVersion: int, currentVersion: int)

  /** Directory entries that the scan does not skip. */
  predicate LooksLikeEventFile(entry: string)
  {
    |entry| >= 10 && entry[..7] == "events_" && entry[|entry| - 3..] == ".db"
  }

  /** A listing of the directory: every event file once, and other entries that the scan skips. */
  predicate Lists(entries: seq<string>, files: Files)
  {
    && (forall i, j | 0 <= i < j < |entries| :: entries[i] != entries[j])
    && (forall n | n in files :: n in entries && LooksLikeEventFile(n))
    && (forall e <- entries :: LooksLikeEventFile(e) ==> e in files)
  }

  /** The scan keeps exactly the entries with this prefix and this suffix. */
  lemma ListsExactly(entries: seq<string>, files: Files)
    requires Lists(entries, files)
    ensures forall e <- entries :: e in files <==> |e| >= 10 && e[..7] == "events_" && e[|e| - 3..] == ".db"
  {
  }

  function SummaryOf(name: string, f: EventFile): Summary { Summary(name, FirstVersion(f), f.head) }

  // ----- loops over values

  /**
  The INSERT loop of an append, from the base sequence on; `stored` is the table it leaves inside
  the transaction.
  */
  method InsertEvents(rows: seq<Event>, events: seq<NewEvent>, ids: seq<Id>, current: int, now: int, fault: nat)
    returns (r: Result<seq<Event>>, stored: seq<Event>)
    requires |ids| == |events|
    ensures InsertAll(rows, Batch(events, ids, current, MaxSequence(rows), now), fault)
         == if r.Ok? then Ok(stored) else Err(r.error)
    ensures r.Ok? ==> r.value == Batch(events, ids, current, MaxSequence(rows), now)
    ensures r.Ok? ==> forall i | 0 <= i < |events| ::
              && r.value[i].id == ids[i] && r.value[i].version == current + 1 + i
              && r.value[i].createdAt == now && r.value[i].data == events[i].data
              && r.value[i].anchor == match events[i].workflow
                                      case NoWorkflow => None
                                      case StartsThisWorkflow => Some(ids[i])
                                      case Continues(startedBy) => Some(startedBy)
  {
    hide Batch, InsertAll, MaxSequence;
    var baseSequence := MaxSequence(rows);
    ghost var batch := Batch(events, ids, current, baseSequence, now);
    BatchColumns(events, ids, current, baseSequence, now);
    NothingInserted(rows, batch, fault);
    var results: seq<Event> := [];
    stored := rows;
    var i := 0;
    while i < |events|
      invariant 0 <= i <= |events| && results == batch[..i]
      invariant InsertAll(rows, batch[..i], fault) == Ok(stored)
    {
      var envelope := Envelope(events[i], ids[i], current + 1 + i, baseSequence + 1 + i, now);
      var inserted := InsertRow(stored, envelope);
      InsertNext(rows, batch, i, fault, stored);
      if fault == i || inserted.Err? {
        r := if fault == i then Err(Db) else Err(inserted.error);
        FailureStays(rows, batch, i + 1, fault);
        return;
      }
      stored := inserted.value;
      results := results + [envelope];
      i := i + 1;
    }
    assert batch[..i] == batch;
    r := Ok(results);
  }

  lemma BatchColumns(events: seq<NewEvent>, ids: seq<Id>, current: int, baseSequence: int, now: int)
    requires |ids| == |events|
    ensures var batch := Batch(events, ids, current, baseSequence, now);
            |batch| == |events| && forall i | 0 <= i < |batch| ::
              batch[i] == Envelope(events[i], ids[i], current + 1 + i, baseSequence + 1 + i, now)
  {
  }

  lemma NothingInserted(rows: seq<Event>, batch: seq<Event>, fault: nat)
    ensures InsertAll(rows, batch[..0], fault) == Ok(rows)
  {
  }

  lemma InsertNext(rows: seq<Event>, batch: seq<Event>, i: nat, fault: nat, stored: seq<Event>)
    requires i < |batch| && InsertAll(rows, batch[..i], fault) == Ok(stored)
    ensures InsertAll(rows, batch[..i + 1], fault) == if fault == i then Err(Db) else InsertRow(stored, batch[i])
  {
    assert batch[..i + 1][..i] == batch[..i];
  }

  /** The scan of the directory: it fails on an event file whose name does not parse, and summarises all the others. */
  method DiscoverSummaries(entries: seq<string>, files: Files) returns (r: Result<seq<Summary>>)
    requires Lists(entries, files)
    ensures r.Ok? <==> AllParse(files.Keys)
    ensures r.Err? ==> r.error == InvalidPartition
    ensures r.Ok? ==> (forall s <- r.value :: s.name in files && s == SummaryOf(s.name, files[s.name]))
    ensures r.Ok? ==> forall n | n in files :: SummaryOf(n, files[n]) in r.value
    ensures r.Ok? ==> forall e <- entries ::
              (|e| >= 10 && e[..7] == "events_" && e[|e| - 3..] == ".db")
              == (e in files && SummaryOf(e, files[e]) in r.value)
  {
    hide ParsePartitionName, LooksLikeEventFile, MinVersion;
    ListsExactly(entries, files);
    var summaries: seq<Summary> := [];
    var i := 0;
    while i < |entries|
      invariant 0 <= i <= |entries|
      invariant forall j | 0 <= j < i && LooksLikeEventFile(entries[j]) :: ParsePartitionName(entries[j]).Ok?
      invariant forall s <- summaries :: s.name in files && s == SummaryOf(s.name, files[s.name])
      invariant forall j | 0 <= j < i && LooksLikeEventFile(entries[j]) ::
                  entries[j] in files && SummaryOf(entries[j], files[entries[j]]) in summaries
    {
      var name := entries[i];
      if LooksLikeEventFile(name) {
        assert name in entries;
        if ParsePartitionName(name).Err? { return Err(InvalidPartition); }
        var f := files[name];
        var first := if f.rows == [] then f.head + 1 else MinVersion(f.rows);
        summaries := summaries + [Summary(name, first, f.head)];
      }
      i := i + 1;
    }
    forall n | n in files ensures SummaryOf(n, files[n]) in summaries && ParsePartitionName(n).Ok? {
      var j :| 0 <= j < |entries| && entries[j] == n;
    }
    r := Ok(summaries);
  }

  function ByName(summaries: seq<Summary>): map<string, Summary>
  {
    if summaries == [] then map[]
    else
      var last := summaries[|summaries| - 1];
      ByName(summaries[..|summaries| - 1])[last.name := last]
  }

  lemma {:induction false} ByNameMembers(summaries: seq<Summary>)
    ensures forall n | n in ByName(summaries) :: ByName(summaries)[n] in summaries && ByName(summaries)[n].name == n
    ensures forall s <- summaries :: s.name in ByName(summaries)
  {
    if summaries != [] {
      var front, last := summaries[..|summaries| - 1], summaries[|summaries| - 1];
      ByNameMembers(front);
      assert summaries == front + [last];
    }
  }

  /** Sorted by first version and name; all but the last become sealed ranges. */
  method SealAllButLast(summaries: seq<Summary>, ghost files: Files) returns (ranges: seq<Range>)
    requires forall s <- summaries :: s.name in files && s == SummaryOf(s.name, files[s.name])
    requires forall n | n in files :: SummaryOf(n, files[n]) in summaries
    ensures ranges == RebuiltRanges(files)
  {
    hide FirstVersion, VersionOrder.Sorted;
    var byName := ByName(summaries);
    ByNameMembers(summaries);
    var names := VersionOrder.Sorted(map n | n in byName :: byName[n].firstVersion);
    forall n | n in files ensures n in byName { assert SummaryOf(n, files[n]).name == n; }
    assert (map n | n in byName :: byName[n].firstVersion) == FileKeys(files);
    ranges := [];
    while |ranges| < |names|
      invariant |ranges| <= |names|
      invariant ranges == RebuiltRanges(files)[..|ranges|]
    {
      var i := |ranges|;
      assert names[i] in FileKeys(files);
      var s := byName[names[i]];
      var sealed := i != |names| - 1;
      ranges := ranges + [Range(s.name, s.firstVersion, if sealed then Some(s.currentVersion) else None, sealed)];
    }
  }

  /**
  The range of a file: from its least version on, or the next one when it is empty, and sealed at
  its head unless last.
  */
  ghost predicate IsRangeOf(r: Range, f: EventFile, last: bool)
  {
    && r.sealed == !last && r.lastVersion == (if last then None else Some(f.head))
    && (f.rows == [] ==> r.firstVersion == f.head + 1)
    && (forall i | 0 <= i < |f.rows| :: r.firstVersion <= f.rows[i].version)
    && (f.rows != [] ==> exists i :: 0 <= i < |f.rows| && r.firstVersion == f.rows[i].version)
  }

  /** The rebuilt ranges of any files, whatever state they are in: one for each file, by first version and name. */
  lemma RebuiltExactly(files: Files)
    ensures var ranges := RebuiltRanges(files);
            && |ranges| == |files| && (forall n | n in files :: exists i :: 0 <= i < |ranges| && ranges[i].path == n)
            && (forall i | 0 <= i < |ranges| ::
                  ranges[i].path in files && IsRangeOf(ranges[i], files[ranges[i].path], i == |ranges| - 1))
            && (forall i, j | 0 <= i < j < |ranges| ::
                  || ranges[i].firstVersion < ranges[j].firstVersion
                  || (ranges[i].firstVersion == ranges[j].firstVersion
                      && TextOrder.Less(ranges[i].path, ranges[j].path)))
  {
    hide VersionOrder.Sorted, IsRangeOf, RebuiltRanges, FirstVersion;
    RebuiltPaths(files);
    RangesPerName(files);
    var keys, ranges := FileKeys(files), RebuiltRanges(files);
    VersionOrder.SortedInOrder(keys);
    forall i | 0 <= i < |ranges|
      ensures ranges[i].path == VersionOrder.Sorted(keys)[i] && ranges[i].path in files
              && ranges[i].firstVersion == keys[ranges[i].path]
              && IsRangeOf(ranges[i], files[ranges[i].path], i == |ranges| - 1)
    {
      RangeAt(files, i);
    }
    forall n | n in files ensures exists i :: 0 <= i < |ranges| && ranges[i].path == n {
      assert n in keys;
      var i :| 0 <= i < |ranges| && VersionOrder.Sorted(keys)[i] == n;
      assert ranges[i].path == n;
    }
  }

  lemma RangesPerName(files: Files)
    ensures |RebuiltRanges(files)| == |VersionOrder.Sorted(FileKeys(files))|
  {
    hide VersionOrder.Sorted;
  }

  lemma RangeAt(files: Files, i: nat)
    requires i < |VersionOrder.Sorted(FileKeys(files))| == |RebuiltRanges(files)|
    ensures var ranges, n := RebuiltRanges(files), VersionOrder.Sorted(FileKeys(files))[i];
            && n in files && ranges[i].path == n && ranges[i].firstVersion == FirstVersion(files[n])
            && IsRangeOf(ranges[i], files[n], i == |ranges| - 1)
  {
    hide VersionOrder.Sorted, MinVersion;
    var n := VersionOrder.Sorted(FileKeys(files))[i];
    assert n in FileKeys(files);
    if files[n].rows != [] { var k := MinVersionIsLeast(files[n].rows); }
  }

  lemma RebuiltPaths(files: Files)
    ensures CatalogTable.DistinctPaths(RebuiltRanges(files)) && |RebuiltRanges(files)| == |files|
  {
    SortedDistinct(FileKeys(files));
    VersionOrder.SortedLength(FileKeys(files));
    assert FileKeys(files).Keys == files.Keys;
  }

  // ----- opening and rotating as functions

  /** A whole opening that nothing interrupts. */
  ghost function OpenStore(window: int, s: State, now: int): (State, Option<EsError>)
    requires window > 0
  {
    var (s', error) := InitializeActive(window, s, now);
    if s'.memory.Starting? then
      var a := s'.memory.first;
      (s'.(catalog := s'.catalog[a.name := OpenRange(a.name, 1)], memory := Open(a)), error)
    else (s', error)
  }

  lemma OpenStoreKeeps(window: int, s: State, now: int)
    requires AlignedWindow(window) && Inv(window, s) && s.memory.Closed? && now >= 0
    ensures var (s', error) := OpenStore(window, s, now);
            && Inv(window, s') && LogOf(s'.files) == LogOf(s.files)
            && (s'.memory.Open? ==> s'.memory.active.name in s'.files)
            && (error.None? <==> s'.memory.Open?) && (error.Some? ==> s'.memory.Closed?)
            && (s.files != map[] ==> error.None? && s'.files == s.files && s'.catalog == FullCatalog(s.files)
                                     && s'.memory.active.name == LastFile(s.files))
  {
    hide Inv, FullCatalog, LogOf, LastFile, FloorToWindow, GeneratePartitionName, ParsePartitionName, AllParse, Tiled;
    hide CatalogOf, RebuiltRanges, CreateFile;
    StoreSteps.StepRefinesLog(window, s, Initialize(now));
    StoreSteps.InitializeKeeps(window, s, now);
    var s1 := Apply(window, s, Initialize(now));
    if s1.memory.Starting? {
      StoreSteps.StepRefinesLog(window, s1, PublishFirst);
      DescribedName(window, Apply(window, s1, PublishFirst));
    } else if s1.memory.Open? {
      DescribedName(window, s1);
    }
  }

  lemma NamesParse(window: int, s: State)
    requires window > 0 && Inv(window, s)
    ensures AllParse(s.files.Keys) && AllParse(s.catalog.Keys)
  {
    hide ParsePartitionName, NamedBy, Tiled, FullCatalog, Describes;
    StoreSteps.AllFilesParse(window, s.files);
  }

  function ErrorOf<T>(r: Result<T>): Option<EsError> { if r.Err? then Some(r.error) else None }

  lemma AllOrOneFails(catalog: Catalog, names: seq<string>)
    requires names == VersionOrder.Sorted(CatalogKeys(catalog))
    ensures AllParse(catalog.Keys) <==> forall n <- names :: ParsePartitionName(n).Ok?
  {
    hide ParsePartitionName;
    forall n | n in catalog ensures n in names { assert n in CatalogKeys(catalog); }
  }

  lemma RotateKeepsAll(window: int, s: State, now: int)
    requires AlignedWindow(window) && Inv(window, s) && s.memory.Open? && s.memory.active.name in s.files && now >= 0
    requires s.memory.active.startMs <= FloorToWindow(now, window)
    ensures Inv(window, Rotate(window, s, now)) && LogOf(Rotate(window, s, now).files) == LogOf(s.files)
  {
    hide Inv, LogOf, FloorToWindow, DetermineNext;
    if DetermineNext(window, s.memory.active, now).Ok? { RotateKeeps(window, s, now); }
  }

  predicate ShouldRotate(window: int, startMs: int, checkedAt: int, fileSize: nat, maxBytes: Option<nat>)
    requires window > 0
  {
    FloorToWindow(checkedAt, window) != startMs || (maxBytes.Some? && fileSize >= maxBytes.value)
  }

  /** The clock readings of one append: to check for rotation, to rotate, and to stamp the events. */
  datatype Clock = Clock(checkedAt: int, rotatedAt: int, appendedAt: int)

  /** What an append reports; version 0 stands for the start of the stream. */
  datatype AppendResult = AppendResult(firstVersion: int, lastVersion: int, events: seq<Event>)

  lemma NextErrors(window: int, a: Active, now: int)
    requires window > 0
    ensures DetermineNext(window, a, now).Err? ==>
              DetermineNext(window, a, now).error in {Migration, RotationOrdinalExhausted(999_999)}
  {
    hide FloorToWindow, TimestampInRange;
  }

  lemma CommitKeeps(window: int, s: State, expected: ExpectedVersion, events: seq<NewEvent>, ids: seq<Id>, now: int,
                    fault: nat)
    requires AlignedWindow(window) && Inv(window, s) && s.memory.Open? && s.memory.active.name in s.files
    requires |ids| == |events| > 0 && FreshIds(ids, events, LogOf(s.files))
    ensures var (s', r) := AppendTo(s, expected, events, ids, now, fault);
            var n := |LogOf(s.files)|;
            && Inv(window, s') && s'.memory == s.memory && s'.catalog == s.catalog && s'.memory.active.name in s'.files
            && LogOf(s'.files) == LogOf(s.files) + (if r.Ok? then r.value else [])
            && (r.Ok? ==> && ValidateExpected(expected, n).Ok? && fault > |events| + 1 && |r.value| == |events|
                          && r.value[0].version == n + 1 && r.value[|events| - 1].version == n + |events|
                          && exists base :: r.value == Batch(events, ids, n, base, now))
            && (r.Err? ==> r.error == if ValidateExpected(expected, n).Ok? then Db
                                      else ValidateExpected(expected, n).error)
            && (r.Err? && ValidateExpected(expected, n).Ok? ==> fault <= |events| + 1)
  {
    hide Inv, LogOf, FreshIds, ValidateExpected;
    var step := Step.Append(expected, events, ids, now, fault);
    StoreSteps.AppendKeeps(window, s, step);
  }

  // ----- appending as functions

  /** A store that serves its active file. */
  predicate Serves(s: State) { s.memory.Open? && s.memory.active.name in s.files }

  function Rotated(window: int, s: State, now: int): (o: (State, Option<EsError>))
    requires window > 0 && Serves(s)
    ensures Serves(o.0)
  {
    (Rotate(window, s, now), ErrorOf(DetermineNext(window, s.memory.active, now)))
  }

  function MaybeRotated(window: int, s: State, checkedAt: int, fileSize: nat, maxBytes: Option<nat>, now: int)
    : (o: (State, Option<EsError>))
    requires window > 0 && Serves(s)
    ensures Serves(o.0)
  {
    if ShouldRotate(window, s.memory.active.startMs, checkedAt, fileSize, maxBytes) then Rotated(window, s, now)
    else (s, None)
  }

  /** One rotation is enough to come to the window of a reading, or it is refused. */
  function RotatedUntil(window: int, s: State, now: int): (o: (State, Option<EsError>))
    requires window > 0 && Serves(s)
    ensures Serves(o.0)
  {
    if s.memory.active.startMs == FloorToWindow(now, window) then (s, None) else Rotated(window, s, now)
  }

  /**
  The decision to rotate, for an active file that starts at a window start: nothing happens while the
  time looked at is in its window and the file is smaller than the maximum, if there is one; otherwise
  the file is rotated.
  */
  lemma RotationDecision(window: int, s: State, checkedAt: int, fileSize: nat, maxBytes: Option<nat>, now: int)
    requires window > 0 && Serves(s) && checkedAt >= 0
    requires s.memory.active.startMs >= 0 && s.memory.active.startMs % window == 0
    ensures var start := s.memory.active.startMs;
            MaybeRotated(window, s, checkedAt, fileSize, maxBytes, now)
            == if start <= checkedAt < start + window && (maxBytes.None? || fileSize < maxBytes.value)
               then (s, None) else Rotated(window, s, now)
  {
    hide FloorToWindow, Rotated;
    FloorIsTheStart(checkedAt, s.memory.active.startMs, window);
  }

  /** The same for coming to the window of a reading. */
  lemma WindowDecision(window: int, s: State, now: int)
    requires window > 0 && Serves(s) && now >= 0
    requires s.memory.active.startMs >= 0 && s.memory.active.startMs % window == 0
    ensures var start := s.memory.active.startMs;
            RotatedUntil(window, s, now) == if start <= now < start + window then (s, None) else Rotated(window, s, now)
  {
    hide FloorToWindow, Rotated;
    FloorIsTheStart(now, s.memory.active.startMs, window);
  }

  function Reported(events: seq<Event>): AppendResult
  {
    if events == [] then AppendResult(0, 0, [])
    else AppendResult(events[0].version, events[|events| - 1].version, events)
  }

  /** A whole append that nobody interrupts, at any clock readings. */
  function WholeAppend(window: int, s: State, expected: ExpectedVersion, events: seq<NewEvent>, ids: seq<Id>,
                       clock: Clock, fileSize: nat, maxBytes: Option<nat>, fault: nat): (State, Result<AppendResult>)
    requires window > 0 && Serves(s) && |ids| == |events|
  {
    var (s1, rotated) := MaybeRotated(window, s, clock.checkedAt, fileSize, maxBytes, clock.rotatedAt);
    if rotated.Some? then (s1, Err(rotated.value))
    else if events == [] then (s1, Ok(AppendResult(0, 0, [])))
    else
      var (s2, current) := RotatedUntil(window, s1, clock.appendedAt);
      if current.Some? then (s2, Err(current.value))
      else
        var (s3, committed) := AppendTo(s2, expected, events, ids, clock.appendedAt, fault);
        (s3, if committed.Err? then Err(committed.error) else Ok(Reported(committed.value)))
  }

  /**
  A reachable state, new ids, and rotating clock readings that do not fall in a window before the
  active one, or the second before the first.
  */
  ghost predicate Steady(window: int, s: State, events: seq<NewEvent>, ids: seq<Id>, clock: Clock)
    requires window > 0
  {
    && AlignedWindow(window) && Inv(window, s) && Serves(s) && FreshIds(ids, events, LogOf(s.files))
    && 0 <= clock.rotatedAt && 0 <= clock.appendedAt
    && s.memory.active.startMs <= FloorToWindow(clock.rotatedAt, window) <= FloorToWindow(clock.appendedAt, window)
  }

  /**
  An append under a steady clock: the log grows by exactly the events returned, which continue its versions,
  or stays as it was on an error.
  */
  lemma WholeAppendKeeps(window: int, s: State, expected: ExpectedVersion, events: seq<NewEvent>, ids: seq<Id>,
                         clock: Clock, fileSize: nat, maxBytes: Option<nat>, fault: nat)
    requires window > 0 && Steady(window, s, events, ids, clock) && |ids| == |events|
    ensures var (s', r) := WholeAppend(window, s, expected, events, ids, clock, fileSize, maxBytes, fault);
            var n := |LogOf(s.files)|;
            && AlignedWindow(window) && Inv(window, s') && Serves(s')
            && LogOf(s'.files) == LogOf(s.files) + (if r.Ok? then r.value.events else [])
            && (r.Ok? ==> r.value == if events == [] then AppendResult(0, 0, [])
                                     else AppendResult(n + 1, |LogOf(s'.files)|, r.value.events))
            && (r.Ok? && events != [] ==>
                  && ValidateExpected(expected, n).Ok? && fault > |events| + 1
                  && s'.memory.active.startMs == FloorToWindow(clock.appendedAt, window)
                  && exists base :: r.value.events == Batch(events, ids, n, base, clock.appendedAt))
            && (r.Err? ==> || r.error in {Migration, RotationOrdinalExhausted(999_999)}
                           || (events != [] && ValidateExpected(expected, n) == Err(r.error))
                           || (events != [] && ValidateExpected(expected, n).Ok?
                               && r.error == Db && fault <= |events| + 1))
  {
    hide Inv, LogOf, FloorToWindow, Rotated, FreshIds, Batch, AppendTo, ValidateExpected;
    var (s1, rotated) := MaybeRotated(window, s, clock.checkedAt, fileSize, maxBytes, clock.rotatedAt);
    RotatedKeeps(window, s, clock.rotatedAt);
    assert LogOf(s.files) + [] == LogOf(s.files);
    if rotated.None? && events != [] {
      RotatedKeeps(window, s1, clock.appendedAt);
      var (s2, current) := RotatedUntil(window, s1, clock.appendedAt);
      if current.None? {
        CommitKeeps(window, s2, expected, events, ids, clock.appendedAt, fault);
        var (s3, committed) := AppendTo(s2, expected, events, ids, clock.appendedAt, fault);
        assert LogOf(s2.files) == LogOf(s.files);
        assert LogOf(s3.files) == LogOf(s.files) + (if committed.Ok? then committed.value else []);
        assert WholeAppend(window, s, expected, events, ids, clock, fileSize, maxBytes, fault)
            == (s3, if committed.Err? then Err(committed.error) else Ok(Reported(committed.value)));
      }
    }
  }

  /**
  When an append rotates: never while the times it looks at are in the active window and the file is
  small, and also for an append of nothing when they are not.
  */
  lemma AppendDecides(window: int, s: State, expected: ExpectedVersion, events: seq<NewEvent>, ids: seq<Id>,
                      clock: Clock, fileSize: nat, maxBytes: Option<nat>, fault: nat)
    requires window > 0 && Serves(s) && |ids| == |events| && clock.checkedAt >= 0 && clock.appendedAt >= 0
    requires s.memory.active.startMs >= 0 && s.memory.active.startMs % window == 0
    ensures var (s', r) := WholeAppend(window, s, expected, events, ids, clock, fileSize, maxBytes, fault);
            var start := s.memory.active.startMs;
            var stays := start <= clock.checkedAt < start + window && (maxBytes.None? || fileSize < maxBytes.value);
            && (stays && (events == [] || start <= clock.appendedAt < start + window) ==>
                  s'.memory == s.memory && s'.catalog == s.catalog && s'.files.Keys == s.files.Keys)
            && (!stays && events == [] ==> s' == Rotate(window, s, clock.rotatedAt))
            && (!stays && DetermineNext(window, s.memory.active, clock.rotatedAt).Err? ==>
                  s' == s && r == Err(DetermineNext(window, s.memory.active, clock.rotatedAt).error))
  {
    hide FloorToWindow, AppendTransaction, DetermineNext;
    RotationDecision(window, s, clock.checkedAt, fileSize, maxBytes, clock.rotatedAt);
    WindowDecision(window, s, clock.appendedAt);
  }

  lemma RotatedKeeps(window: int, s: State, now: int)
    requires AlignedWindow(window) && Inv(window, s) && Serves(s) && 0 <= now
    requires s.memory.active.startMs <= FloorToWindow(now, window)
    ensures var (s', error) := Rotated(window, s, now);
            && Inv(window, s') && LogOf(s'.files) == LogOf(s.files)
            && (if error.None? then s'.memory.active.startMs == FloorToWindow(now, window) else s' == s)
            && (error.None? ==> s'.memory.active.name !in s.files)
            && (error.Some? ==> error.value in {Migration, RotationOrdinalExhausted(999_999)})
  {
    hide Inv, LogOf, FloorToWindow, DetermineNext;
    RotateKeepsAll(window, s, now);
    NextErrors(window, s.memory.active, now);
    if DetermineNext(window, s.memory.active, now).Ok? {
      StartOfNext(window, s.memory.active, now);
      RotateKeeps(window, s, now);
    }
  }

  // ----- the object

  class EventStream {
    const window: int
    const catalog: CatalogTable.CatalogDb
    var files: Files
    var open: bool
    var name: string
    var startMs: int
    var ordinal: Option<nat>

    ghost function View(): State
      reads this, catalog
    {
      State(catalog.rows, files, if open then Open(Active(name, startMs, ordinal)) else Closed)
    }

    /** The object is in a state between operations that the step machine can be in. */
    ghost predicate Valid()
      reads this, catalog
    {
      AlignedWindow(window) && Inv(window, View()) && (open ==> name in files)
    }

    constructor (window: int, catalog: CatalogTable.CatalogDb, files: Files)
      ensures this.window == window && this.catalog == catalog
      ensures View() == State(catalog.rows, files, Closed)
    {
      this.window, this.catalog, this.files := window, catalog, files;
      this.open, this.name, this.startMs, this.ordinal := false, "", 0, None;
    }

    /** Replaces the catalog by the ranges of the files found in the directory. */
    method RebuildEventFileRanges(entries: seq<string>, fault: nat) returns (r: Result<seq<Range>>)
      requires Lists(entries, files)
      modifies catalog
      ensures r.Ok? <==> AllParse(files.Keys) && fault > |files| + 1
      ensures r.Ok? ==> r.value == RebuiltRanges(files)
      ensures catalog.rows == if r.Ok? then CatalogOf(RebuiltRanges(files)) else old(catalog.rows)
      ensures r.Err? ==> r.error == if AllParse(files.Keys) then Db else InvalidPartition
    {
      hide RebuiltRanges, CatalogOf, Lists, AllParse, CatalogTable.DistinctPaths, FirstVersion;
      var summaries := DiscoverSummaries(entries, files);
      if summaries.Err? { return Err(summaries.error); }
      var ranges := SealAllButLast(summaries.value, files);
      RebuiltPaths(files);
      var ok := catalog.ReplaceEventFileRanges(ranges, fault);
      r := if ok then Ok(ranges) else Err(Db);
    }

    /** Opening: the whole of `initialize_active_partition`, with a catalog that may need a rebuild. */
    method InitializeActive(entries: seq<string>, now: int, fault: nat) returns (r: Option<EsError>)
      requires Valid() && !open && Lists(entries, files) && now >= 0
      modifies this, catalog
      ensures Valid() && (r.None? <==> open)
      ensures LogOf(files) == old(LogOf(files))
      ensures old(files) != map[] ==> files == old(files)
      ensures old(files) != map[] && r.None? ==> name == LastFile(files) && catalog.rows == FullCatalog(files)
      ensures fault > |old(files)| + 1 ==> (View(), r) == OpenStore(window, old(View()), now)
      ensures (View(), r) == OpenStore(window, old(View()), now) || (View() == old(View()) && r == Some(Db))
    {
      hide Inv, LogOf, FloorToWindow, GeneratePartitionName, ParsePartitionName, CreateFile, FullCatalog;
      hide LastFile, UnsealedKeys;
      hide RebuiltRanges, CatalogOf, Lists, Tiled, VersionOrder.Sorted, AllParse;
      ghost var s := View();
      OpenStoreKeeps(window, s, now);
      NamesParse(window, s);
      var names, ranges := catalog.GetAllEventFileRanges();
      AllOrOneFails(catalog.rows, names);
      var i := 0;
      while i < |ranges|
        invariant 0 <= i <= |ranges|
        invariant forall j | 0 <= j < i :: ParsePartitionName(names[j]).Ok?
      {
        if ParsePartitionName(names[i]).Err? { return Some(InvalidPartition); }
        i := i + 1;
      }
      if |UnsealedKeys(catalog.rows)| != 1 {
        var rebuilt := RebuildEventFileRanges(entries, fault);
        if rebuilt.Err? { return Some(rebuilt.error); }
      }
      var unsealed := UnsealedKeys(catalog.rows);
      if unsealed != map[] {
        var last := VersionOrder.Greatest(unsealed);
        var parsed := ParsePartitionName(last);
        if parsed.Err? { return Some(parsed.error); }
        open, name, startMs, ordinal := true, last, parsed.value.0, parsed.value.1;
      } else {
        var start := FloorToWindow(now, window);
        var first := GeneratePartitionName(start, window, None);
        if first.Err? { return Some(first.error); }
        files := CreateFile(files, first.value, 0);
        catalog.CreateEventFileRange(OpenRange(first.value, 1));
        open, name, startMs, ordinal := true, first.value, start, None;
      }
      r := None;
    }

    /**
    A whole rotation under the lock, at any clock reading: seals, creates, publishes, then switches
    the active file in place.
    */
    method RotatePartition(now: int) returns (r: Option<EsError>)
      requires window > 0 && open && name in files
      modifies this, catalog
      ensures open && name in files && (View(), r) == Rotated(window, old(View()), now)
      ensures if r.None? then startMs == FloorToWindow(now, window) else View() == old(View())
    {
      hide FloorToWindow, GeneratePartitionName, SealRange;
      var next := DetermineNext(window, Active(name, startMs, ordinal), now);
      if next.Err? { return Some(next.error); }
      var head := files[name].head;
      catalog.SealEventFileRange(name, head);
      files := CreateFile(files, next.value.name, head);
      catalog.CreateEventFileRange(OpenRange(next.value.name, head + 1));
      name, startMs, ordinal := next.value.name, next.value.startMs, next.value.ordinal;
      r := None;
    }

    /** Rotates until the active window is that of the reading: one rotation is enough. */
    method RotateUntilCurrentWindow(now: int) returns (r: Option<EsError>)
      requires window > 0 && open && name in files
      modifies this, catalog
      ensures open && name in files && (View(), r) == RotatedUntil(window, old(View()), now)
      ensures r.None? ==> startMs == FloorToWindow(now, window)
      ensures now >= 0 && old(startMs) >= 0 && old(startMs) % window == 0 ==>
                if old(startMs) <= now < old(startMs) + window then View() == old(View()) && r == None
                else (View(), r) == Rotated(window, old(View()), now)
    {
      hide FloorToWindow, Rotated;
      if now >= 0 && startMs >= 0 && startMs % window == 0 { FloorIsTheStart(now, startMs, window); }
      while true
        invariant open && name in files
        invariant || View() == old(View())
                  || (old(startMs) != FloorToWindow(now, window) == startMs
                      && (View(), None) == Rotated(window, old(View()), now))
        decreases startMs != FloorToWindow(now, window)
      {
        var floored := FloorToWindow(now, window);
        if floored == startMs { return None; }
        var error := RotatePartition(now);
        if error.Some? { return error; }
      }
    }

    /**
    Rotates when the time it looks at is not in the active window, or the file has reached its size
    limit; under the condition on the clock the new active file is then a new one.
    */
    method MaybeRotate(checkedAt: int, fileSize: nat, maxBytes: Option<nat>, now: int) returns (r: Option<EsError>)
      requires window > 0 && open && name in files
      modifies this, catalog
      ensures open && name in files
      ensures (View(), r) == MaybeRotated(window, old(View()), checkedAt, fileSize, maxBytes, now)
      ensures checkedAt >= 0 && old(startMs) >= 0 && old(startMs) % window == 0 ==>
                if old(startMs) <= checkedAt < old(startMs) + window && (maxBytes.None? || fileSize < maxBytes.value)
                then View() == old(View()) && r == None
                else && (View(), r) == Rotated(window, old(View()), now)
                     && (old(Valid()) && now >= 0 && FloorToWindow(now, window) >= old(startMs) && r.None? ==>
                           name !in old(files))
    {
      hide FloorToWindow, Rotated, Inv;
      if checkedAt >= 0 && startMs >= 0 && startMs % window == 0 {
        RotationDecision(window, View(), checkedAt, fileSize, maxBytes, now);
      }
      if Valid() && now >= 0 && FloorToWindow(now, window) >= startMs { RotatedKeeps(window, View(), now); }
      if !ShouldRotate(window, startMs, checkedAt, fileSize, maxBytes) { return None; }
      r := RotatePartition(now);
    }

    /** The transaction of an append on the active file, between taking and releasing the lock. */
    method CommitBatch(expected: ExpectedVersion, events: seq<NewEvent>, ids: seq<Id>, now: int, fault: nat)
      returns (r: Result<seq<Event>>)
      requires open && name in files && |ids| == |events| > 0
      modifies `files
      ensures name in files && (View(), r) == AppendTo(old(View()), expected, events, ids, now, fault)
      ensures r.Ok? ==> |r.value| == |events|
      ensures ValidateExpected(expected, old(files)[name].head).Err? ==>
                r == Err(ValidateExpected(expected, old(files)[name].head).error)
    {
      hide InsertAll, Batch, MaxSequence, ValidateExpected;
      var f := files[name];
      var current := ValidateExpected(expected, f.head);
      if current.Err? { return Err(current.error); }
      var inserted, stored := InsertEvents(f.rows, events, ids, current.value, now, fault);
      if inserted == Err(UniqueViolation) { return Err(IncorrectEventVersion(current.value, current.value)); }
      if inserted.Err? { return Err(inserted.error); }
      var last := inserted.value[|inserted.value| - 1];
      var updated := UpdateHead(f.(rows := stored), last.version, last.id);
      if fault == |events| || fault == |events| + 1 { return Err(Db); }
      files := files[name := updated];
      r := inserted;
    }

    /**
    The whole append. `clock` holds its three readings, whatever they are; `fault` is the statement of
    the transaction that fails by itself, if any.
    */
    method Append(expected: ExpectedVersion, events: seq<NewEvent>, ids: seq<Id>, clock: Clock, fileSize: nat,
                  maxBytes: Option<nat>, fault: nat)
      returns (r: Result<AppendResult>)
      requires window > 0 && open && name in files && |ids| == |events|
      modifies this, catalog
      ensures open && name in files
      ensures (View(), r) == WholeAppend(window, old(View()), expected, events, ids, clock, fileSize, maxBytes, fault)
      ensures Steady(window, old(View()), events, ids, clock) ==>
                Valid() && LogOf(files) == old(LogOf(files)) + (if r.Ok? then r.value.events else [])
    {
      hide Steady, Inv, LogOf, FloorToWindow, Rotated, FreshIds, Batch, AppendTo, ValidateExpected;
      if Steady(window, View(), events, ids, clock) {
        WholeAppendKeeps(window, View(), expected, events, ids, clock, fileSize, maxBytes, fault);
      }
      var rotated := MaybeRotate(clock.checkedAt, fileSize, maxBytes, clock.rotatedAt);
      if rotated.Some? { return Err(rotated.value); }
      if events == [] { return Ok(AppendResult(0, 0, [])); }
      var current := RotateUntilCurrentWindow(clock.appendedAt);
      if current.Some? { return Err(current.value); }
      var committed := CommitBatch(expected, events, ids, clock.appendedAt, fault);
      if committed.Err? { return Err(committed.error); }
      var stored := committed.value;
      r := Ok(AppendResult(stored[0].version, stored[|stored| - 1].version, stored));
    }

    /** The head of the active file is the length of the log. */
    method CurrentVersion() returns (version: int)
      requires Valid() && open
      ensures version == |LogOf(files)|
    {
      hide Inv, LogOf;
      DescribedName(window, View());
      StoreRuns.InvTiled(window, View());
      LogIsContiguous(files);
      version := files[name].head;
    }
  }
}
