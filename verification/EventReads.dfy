/** `load_after_version` and `load_workflow_after_version`, with every query at an instant of its own. */
module EventReads {
  import opened Results
  import opened PartitionNames
  import opened EventFiles
  import opened PartitionStore
  import opened StoreRuns
  import opened StoreReads

  /** A result that the log gave at some instant from `start` to `end`. */
  ghost predicate StoodDuring(run: seq<State>, start: nat, end: int, events: seq<Event>,
                              anchor: Option<Id>, cursor: int, limit: nat)
    requires end < |run|
  {
    exists t: nat :: start <= t <= end && events == ReadOf(LogOf(run[t].files), anchor, cursor, limit)
  }

  /** The instant of the last query, or of the catalog snapshot when no file was queried. */
  function EndOf(snap: nat, at: seq<int>, queries: nat): int
    requires queries <= |at|
  {
    if queries == 0 then snap else at[queries - 1]
  }

  /** The instants, in order and from the snapshot on, at which a read comes to each of its listed files. */
  ghost predicate InstantsOf(run: seq<State>, snap: nat, at: seq<int>, cursor: int)
    requires snap < |run|
  {
    && |at| == |RangesAfter(run[snap].catalog, cursor)|
    && forall i | 0 <= i < |at| :: EndOf(snap, at, i) <= at[i] < |run|
  }

  lemma {:induction false} InstantsFollow(run: seq<State>, snap: nat, at: seq<int>, cursor: int, i: nat)
    requires snap < |run| && InstantsOf(run, snap, at, cursor) && i <= |at|
    ensures |at| == |RangesAfter(run[snap].catalog, cursor)| && snap <= EndOf(snap, at, i) < |run|
    ensures i < |at| ==> EndOf(snap, at, i) <= at[i] < |run| && at[i] == EndOf(snap, at, i + 1)
  {
    if i > 0 { InstantsFollow(run, snap, at, cursor, i - 1); }
  }

  lemma TakeConcat<T>(a: seq<T>, b: seq<T>, limit: nat)
    ensures Take(a + b, limit) == Take(a, limit) + Take(b, limit - |Take(a, limit)|)
    ensures |Take(a, limit)| <= limit
  {
  }

  lemma FilesPersist(window: int, run: seq<State>, steps: seq<Step>, i: nat, j: nat, n: string)
    requires AlignedWindow(window) && IsRun(window, run, steps) && i <= j <= |steps|
    requires n in run[i].files
    ensures n in run[j].files
  {
    hide Inv, LogOf, IdsOk;
    if n == LastFile(run[i].files) {
      var t := LastFileStood(window, run, steps, i, j);
    } else {
      SealedFilesFrozen(window, run, steps, i, j, n);
    }
  }

  lemma FileInRun(window: int, run: seq<State>, steps: seq<Step>, i: nat, n: string) returns (base: int)
    requires AlignedWindow(window) && IsRun(window, run, steps) && i <= |steps| && n in run[i].files
    ensures FileOk(run[i].files[n], base)
  {
    hide Inv, FileOk;
    RunTiled(window, run, steps, i);
    base := FileInTiled(run[i].files, n);
  }

  lemma NamesDistinct(catalog: Catalog, cursor: int)
    ensures var names := NamesAfter(catalog, cursor);
            && (forall i, j | 0 <= i < j < |names| :: names[i] != names[j])
            && (forall n :: n in names <==> n in KeysAfter(catalog, cursor))
  {
    SortedDistinct(KeysAfter(catalog, cursor));
  }

  /** The listed range `i` is that of the `i`-th name, and its file exists from the snapshot on. */
  lemma RangeIsThere(window: int, run: seq<State>, steps: seq<Step>, snap: nat, cursor: int, i: nat, instant: int)
    requires AlignedWindow(window) && IsRun(window, run, steps) && snap <= instant <= |steps| && Serving(run[snap])
    requires i < |NamesAfter(run[snap].catalog, cursor)|
    ensures var n := NamesAfter(run[snap].catalog, cursor)[i];
            && n in KeysAfter(run[snap].catalog, cursor)
            && RangesAfter(run[snap].catalog, cursor)[i].path == n && n in run[instant].files
  {
    hide Inv, LogOf, IsRun, Tiled, Serving, NamesAfter;
    RunLength(window, run, steps);
    NamesDistinct(run[snap].catalog, cursor);
    var n := NamesAfter(run[snap].catalog, cursor)[i];
    RunTiled(window, run, steps, snap);
    CatalogCoversLog(window, run[snap]);
    NameIsThere(window, run, steps, snap, cursor, n, instant);
  }

  /** One more file: the rows seen grow by it, and the events collected grow by its query. */
  lemma OneMoreFile(seen: View, names: seq<string>, n: string, f: EventFile, base: int,
                    anchor: Option<Id>, cursor: int, limit: nat)
    requires (forall m <- names :: m in seen) && n !in names && FileOk(f, base)
    ensures var before := Take(Select(RowsSeen(seen, names), anchor, cursor), limit);
            && |before| <= limit
            && before + Query(f, anchor, cursor, limit - |before|)
            == Take(Select(RowsSeen(seen[n := f.rows], names + [n]), anchor, cursor), limit)
  {
    var rows := RowsSeen(seen, names);
    RowsSame(seen, seen[n := f.rows], names);
    assert (names + [n])[..|names|] == names;
    SelectAppend(rows, f.rows, anchor, cursor);
    TakeConcat(Select(rows, anchor, cursor), Select(f.rows, anchor, cursor), limit);
    QueryOfFile(f, base, anchor, cursor, limit - |Take(Select(rows, anchor, cursor), limit)|);
  }

  /** When the limit is reached, files not looked at cannot change the result. */
  lemma {:induction false} EnoughSeen(view: View, names: seq<string>, i: nat, anchor: Option<Id>, cursor: int,
                                      limit: nat)
    requires (forall n <- names :: n in view) && i <= |names|
    requires |Take(Select(RowsSeen(view, names[..i]), anchor, cursor), limit)| == limit || i == |names|
    ensures Take(Select(RowsSeen(view, names), anchor, cursor), limit)
         == Take(Select(RowsSeen(view, names[..i]), anchor, cursor), limit)
    decreases |names|
  {
    if i == |names| {
      assert names[..i] == names;
    } else {
      var front, last := names[..|names| - 1], names[|names| - 1];
      assert front[..i] == names[..i];
      EnoughSeen(view, front, i, anchor, cursor, limit);
      SelectAppend(RowsSeen(view, front), view[last], anchor, cursor);
    }
  }

  lemma ResultIsSorted(window: int, run: seq<State>, steps: seq<Step>, t: nat, anchor: Option<Id>, cursor: int,
                       limit: nat)
    requires AlignedWindow(window) && IsRun(window, run, steps) && t <= |steps|
    ensures var events := ReadOf(LogOf(run[t].files), anchor, cursor, limit);
            Take(SortByVersion(events), limit) == events
  {
    hide Inv, IdsOk, LogOf, IsRun, ReadOf, SortByVersion;
    RunLength(window, run, steps);
    RunIsAppendOnlyLog(window, run, steps, t);
    ReadAscends(LogOf(run[t].files), anchor, cursor, limit);
  }

  lemma ReadAscends(log: seq<Event>, anchor: Option<Id>, cursor: int, limit: nat)
    requires Ascending(log)
    ensures var events := ReadOf(log, anchor, cursor, limit);
            Take(SortByVersion(events), limit) == events
  {
    hide Select, SortByVersion;
    SelectAscends(log, anchor, cursor);
    SortOfAscending(ReadOf(log, anchor, cursor, limit));
  }

  /** Rows noted for a file are those it held at the instant noted for it, between the snapshot and `end`. */
  ghost predicate SeenThere(run: seq<State>, snap: nat, end: int, when: map<string, int>, seen: View)
  {
    && when.Keys == seen.Keys
    && forall n | n in when :: snap <= when[n] <= end < |run| && n in run[when[n]].files
                               && seen[n] == run[when[n]].files[n].rows
  }

  ghost predicate Covers(names: seq<string>, when: map<string, int>)
  {
    forall n :: n in when <==> n in names
  }

  /**
  How far a read has come: the instants at which it queried the first `i` listed files, the rows
  it saw there, and the events it has collected from them.
  */
  ghost predicate Progress(run: seq<State>, snap: nat, end: int, i: nat, when: map<string, int>, seen: View,
                           events: seq<Event>, anchor: Option<Id>, cursor: int, limit: nat)
    requires snap < |run|
  {
    var names := NamesAfter(run[snap].catalog, cursor);
    && i <= |names| && Covers(names[..i], when) && SeenThere(run, snap, end, when, seen)
    && events == Take(Select(RowsSeen(seen, names[..i]), anchor, cursor), limit)
  }

  lemma ProgressStart(run: seq<State>, snap: nat, end: int, anchor: Option<Id>, cursor: int, limit: nat)
    requires snap < |run|
    ensures Progress(run, snap, end, 0, map[], map[], [], anchor, cursor, limit)
  {
    var names := NamesAfter(run[snap].catalog, cursor);
    assert names[..0] == [];
  }

  /** Querying the next file at a later instant keeps the progress. */
  lemma ProgressStep(window: int, run: seq<State>, steps: seq<Step>, snap: nat, end: int, i: nat, instant: int,
                     when: map<string, int>, seen: View, events: seq<Event>, anchor: Option<Id>, cursor: int,
                     limit: nat)
    requires AlignedWindow(window) && IsRun(window, run, steps) && snap <= end <= instant <= |steps|
    requires Serving(run[snap])
    requires Progress(run, snap, end, i, when, seen, events, anchor, cursor, limit) && |events| <= limit
    requires i < |RangesAfter(run[snap].catalog, cursor)|
    ensures var n := RangesAfter(run[snap].catalog, cursor)[i].path;
            && n in run[instant].files
            && var f := run[instant].files[n];
               Progress(run, snap, instant, i + 1, when[n := instant], seen[n := f.rows],
                        events + Query(f, anchor, cursor, limit - |events|), anchor, cursor, limit)
  {
    hide Inv, IsRun, LogOf, FileOk, Serving, Query, Select, RowsSeen, Take, KeysAfter, NamesAfter;
    hide RangesAfter, SeenThere, Covers;
    RunLength(window, run, steps);
    var names := NamesAfter(run[snap].catalog, cursor);
    RangeIsThere(window, run, steps, snap, cursor, i, instant);
    var n := RangesAfter(run[snap].catalog, cursor)[i].path;
    var f := run[instant].files[n];
    NamesDistinct(run[snap].catalog, cursor);
    var base := FileInRun(window, run, steps, instant, n);
    OneMoreName(names, i, when, instant);
    OneMoreSeen(run, snap, end, instant, n, when, seen);
    CoveredSeen(run, snap, end, names[..i], when, seen);
    OneMoreFile(seen, names[..i], n, f, base, anchor, cursor, limit);
    assert names[..i + 1] == names[..i] + [n];
    CoveredSeen(run, snap, instant, names[..i + 1], when[n := instant], seen[n := f.rows]);
  }

  lemma CoveredSeen(run: seq<State>, snap: nat, end: int, names: seq<string>, when: map<string, int>, seen: View)
    requires Covers(names, when) && SeenThere(run, snap, end, when, seen)
    ensures forall n <- names :: n in seen
  {
    forall n <- names ensures n in seen { assert n in when; }
  }

  lemma OneMoreName(names: seq<string>, i: nat, when: map<string, int>, instant: int)
    requires i < |names| && Covers(names[..i], when)
    requires forall p, q | 0 <= p < q < |names| :: names[p] != names[q]
    ensures names[i] !in names[..i] && Covers(names[..i + 1], when[names[i] := instant])
  {
    assert names[..i + 1] == names[..i] + [names[i]];
  }

  lemma OneMoreSeen(run: seq<State>, snap: nat, end: int, instant: int, n: string, when: map<string, int>, seen: View)
    requires SeenThere(run, snap, end, when, seen) && snap <= end <= instant < |run| && n in run[instant].files
    ensures SeenThere(run, snap, instant, when[n := instant], seen[n := run[instant].files[n].rows])
  {
  }

  /** A read that has seen all files, or enough events, has what one instant of the read would have given. */
  lemma ProgressDone(window: int, run: seq<State>, steps: seq<Step>, snap: nat, end: int, i: nat,
                     when: map<string, int>, seen: View, events: seq<Event>, anchor: Option<Id>, cursor: int,
                     limit: nat)
    requires AlignedWindow(window) && IsRun(window, run, steps) && snap <= end <= |steps| && Serving(run[snap])
    requires Progress(run, snap, end, i, when, seen, events, anchor, cursor, limit)
    requires |events| >= limit || i == |RangesAfter(run[snap].catalog, cursor)|
    ensures StoodDuring(run, snap, end, events, anchor, cursor, limit)
    ensures Take(SortByVersion(events), limit) == events
  {
    hide Inv, LogOf, IsRun, Serving, Select, SortByVersion, RowsSeen, Take, NamesAfter, KeysAfter;
    RunLength(window, run, steps);
    var names := NamesAfter(run[snap].catalog, cursor);
    NamesDistinct(run[snap].catalog, cursor);
    var whole := WholeWhen(window, run, steps, snap, end, i, when, cursor);
    var view := SeenAt(run, snap, cursor, whole);
    forall n <- names[..i] ensures n in seen && n in view && seen[n] == view[n] { assert n in when; }
    RowsSame(seen, view, names[..i]);
    TakeBound(Select(RowsSeen(seen, names[..i]), anchor, cursor), limit);
    EnoughSeen(view, names, i, anchor, cursor, limit);
    var t := ReadIsLinearizable(window, run, steps, snap, end, whole, anchor, cursor);
    ResultIsSorted(window, run, steps, t, anchor, cursor, limit);
  }

  lemma TakeBound<T>(s: seq<T>, limit: nat)
    ensures |Take(s, limit)| <= limit
  {
  }

  /** Instants for all listed files: those of the queries made, and the end for the rest. */
  lemma WholeWhen(window: int, run: seq<State>, steps: seq<Step>, snap: nat, end: int, i: nat,
                  when: map<string, int>, cursor: int)
    returns (whole: map<string, int>)
    requires AlignedWindow(window) && IsRun(window, run, steps) && snap <= end <= |steps| && Serving(run[snap])
    requires i <= |NamesAfter(run[snap].catalog, cursor)|
    requires forall n :: n in when <==> n in NamesAfter(run[snap].catalog, cursor)[..i]
    requires forall n | n in when :: snap <= when[n] <= end && n in run[when[n]].files
    ensures whole.Keys == KeysAfter(run[snap].catalog, cursor).Keys
    ensures forall n | n in whole :: snap <= whole[n] <= end && n in run[whole[n]].files
    ensures forall n | n in when :: n in whole && whole[n] == when[n]
  {
    hide Inv, LogOf, IsRun, Serving, NamesAfter, KeysAfter;
    RunLength(window, run, steps);
    var keys := KeysAfter(run[snap].catalog, cursor);
    NamesDistinct(run[snap].catalog, cursor);
    whole := map n | n in keys :: if n in when then when[n] else end;
    forall n | n in keys ensures n in run[whole[n]].files {
      NameIsThere(window, run, steps, snap, cursor, n, whole[n]);
    }
    forall n | n in when ensures n in keys { assert n in NamesAfter(run[snap].catalog, cursor); }
  }

  /** A listed file exists from the snapshot on. */
  lemma NameIsThere(window: int, run: seq<State>, steps: seq<Step>, snap: nat, cursor: int, n: string, instant: int)
    requires AlignedWindow(window) && IsRun(window, run, steps) && snap <= instant <= |steps| && Serving(run[snap])
    requires n in KeysAfter(run[snap].catalog, cursor)
    ensures n in run[instant].files
  {
    hide Inv, LogOf, IsRun, Tiled, Serving;
    RunLength(window, run, steps);
    RunTiled(window, run, steps, snap);
    CatalogCoversLog(window, run[snap]);
    assert n in Listed(run[snap]);
    FilesPersist(window, run, steps, snap, instant, n);
  }

  /** The first `i` queries of a read at the given instants have collected these events. */
  ghost predicate HasRead(run: seq<State>, snap: nat, at: seq<int>, i: nat, events: seq<Event>,
                          anchor: Option<Id>, cursor: int, limit: nat)
    requires snap < |run| && i <= |at|
  {
    && |events| <= limit
    && exists when, seen :: Progress(run, snap, EndOf(snap, at, i), i, when, seen, events, anchor, cursor, limit)
  }

  lemma HasReadStart(run: seq<State>, snap: nat, at: seq<int>, anchor: Option<Id>, cursor: int, limit: nat)
    requires snap < |run|
    ensures HasRead(run, snap, at, 0, [], anchor, cursor, limit)
  {
    hide Progress;
    ProgressStart(run, snap, snap, anchor, cursor, limit);
    assert Progress(run, snap, EndOf(snap, at, 0), 0, map[], map[], [], anchor, cursor, limit);
  }

  lemma HasReadStep(window: int, run: seq<State>, steps: seq<Step>, snap: nat, at: seq<int>, i: nat, events: seq<Event>,
                    anchor: Option<Id>, cursor: int, limit: nat, remaining: nat)
    requires AlignedWindow(window) && IsRun(window, run, steps) && snap <= |steps| && Serving(run[snap])
    requires InstantsOf(run, snap, at, cursor) && i < |at| && remaining == limit - |events|
    requires HasRead(run, snap, at, i, events, anchor, cursor, limit)
    ensures RangesAfter(run[snap].catalog, cursor)[i].path in run[at[i]].files
    ensures var f := run[at[i]].files[RangesAfter(run[snap].catalog, cursor)[i].path];
            HasRead(run, snap, at, i + 1, events + Query(f, anchor, cursor, remaining), anchor, cursor, limit)
  {
    hide *;
    RunLength(window, run, steps);
    InstantsFollow(run, snap, at, cursor, i);
    var when, seen := HasReadTo(run, snap, at, i, events, anchor, cursor, limit);
    ProgressStep(window, run, steps, snap, EndOf(snap, at, i), i, at[i], when, seen, events, anchor, cursor, limit);
    var n := RangesAfter(run[snap].catalog, cursor)[i].path;
    QueryBound(run[at[i]].files[n], anchor, cursor, limit - |events|);
    HasReadFrom(run, snap, at, i + 1, at[i], when[n := at[i]], seen[n := run[at[i]].files[n].rows],
                events + Query(run[at[i]].files[n], anchor, cursor, limit - |events|), anchor, cursor, limit);
  }

  lemma HasReadTo(run: seq<State>, snap: nat, at: seq<int>, i: nat, events: seq<Event>,
                  anchor: Option<Id>, cursor: int, limit: nat)
    returns (when: map<string, int>, seen: View)
    requires snap < |run| && i <= |at|
    requires HasRead(run, snap, at, i, events, anchor, cursor, limit)
    ensures |events| <= limit
    ensures Progress(run, snap, EndOf(snap, at, i), i, when, seen, events, anchor, cursor, limit)
  {
    hide Progress;
    when, seen :| Progress(run, snap, EndOf(snap, at, i), i, when, seen, events, anchor, cursor, limit);
  }

  lemma HasReadFrom(run: seq<State>, snap: nat, at: seq<int>, i: nat, end: int, when: map<string, int>, seen: View,
                    events: seq<Event>, anchor: Option<Id>, cursor: int, limit: nat)
    requires snap < |run| && i <= |at| && end == EndOf(snap, at, i) && |events| <= limit
    requires Progress(run, snap, end, i, when, seen, events, anchor, cursor, limit)
    ensures HasRead(run, snap, at, i, events, anchor, cursor, limit)
  {
    hide Progress;
  }

  lemma HasReadAll(window: int, run: seq<State>, steps: seq<Step>, snap: nat, at: seq<int>, i: nat, events: seq<Event>,
                   anchor: Option<Id>, cursor: int, limit: nat)
    requires AlignedWindow(window) && IsRun(window, run, steps) && snap <= |steps| && Serving(run[snap])
    requires InstantsOf(run, snap, at, cursor) && i <= |at|
    requires HasRead(run, snap, at, i, events, anchor, cursor, limit) && (|events| == limit || i == |at|)
    ensures StoodDuring(run, snap, EndOf(snap, at, i), events, anchor, cursor, limit)
    ensures Take(SortByVersion(events), limit) == events
  {
    hide IsRun, Progress, Serving, AlignedWindow, RangesAfter, StoodDuring;
    RunLength(window, run, steps);
    InstantsFollow(run, snap, at, cursor, i);
    var when, seen :| Progress(run, snap, EndOf(snap, at, i), i, when, seen, events, anchor, cursor, limit);
    ProgressDone(window, run, steps, snap, EndOf(snap, at, i), i, when, seen, events, anchor, cursor, limit);
  }

  lemma ReadLimit()
    ensures MAX_READ_LIMIT == 10_000
  {
  }

  /** The read loop shared by both public reads. */
  method Load(window: int, run: seq<State>, ghost steps: seq<Step>, snap: nat, at: seq<int>,
              anchor: Option<Id>, cursor: int, limit: nat)
    returns (r: Result<seq<Event>>, queries: nat)
    requires AlignedWindow(window) && IsRun(window, run, steps) && snap <= |steps| && Serving(run[snap])
    requires InstantsOf(run, snap, at, cursor)
    ensures r.Err? <==> limit == 0 || limit > 10_000
    ensures r.Err? ==> r.error == InvalidReadLimit(limit, 10_000)
    ensures queries <= |at| && snap <= EndOf(snap, at, queries) < |run|
    ensures r.Ok? ==> StoodDuring(run, snap, EndOf(snap, at, queries), r.value, anchor, cursor, limit)
  {
    hide *;
    RunLength(window, run, steps);
    InstantsFollow(run, snap, at, cursor, 0);
    queries := 0;
    ReadLimit();
    if limit == 0 || limit > MAX_READ_LIMIT {
      return Err(InvalidReadLimit(limit, MAX_READ_LIMIT)), 0;
    }
    var events: seq<Event> := [];
    var ranges := RangesAfter(run[snap].catalog, cursor);
    HasReadStart(run, snap, at, anchor, cursor, limit);
    while queries < |ranges|
      invariant queries <= |ranges| == |at|
      invariant HasRead(run, snap, at, queries, events, anchor, cursor, limit)
    {
      HasReadLimit(run, snap, at, queries, events, anchor, cursor, limit);
      var remaining := limit - |events|;
      if remaining == 0 { break; }
      InstantsFollow(run, snap, at, cursor, queries);
      HasReadStep(window, run, steps, snap, at, queries, events, anchor, cursor, limit, remaining);
      events := events + Query(run[at[queries]].files[ranges[queries].path], anchor, cursor, remaining);
      queries := queries + 1;
    }
    InstantsFollow(run, snap, at, cursor, queries);
    HasReadAll(window, run, steps, snap, at, queries, events, anchor, cursor, limit);
    r := Ok(Take(SortByVersion(events), limit));
  }

  lemma HasReadLimit(run: seq<State>, snap: nat, at: seq<int>, i: nat, events: seq<Event>,
                     anchor: Option<Id>, cursor: int, limit: nat)
    requires snap < |run| && i <= |at| && HasRead(run, snap, at, i, events, anchor, cursor, limit)
    ensures |events| <= limit
  {
  }

  lemma QueryBound(f: EventFile, anchor: Option<Id>, cursor: int, limit: nat)
    ensures |Query(f, anchor, cursor, limit)| <= limit
  {
  }

  /** What stood at some instant is exactly what that instant's log holds behind the cursor, up to the limit. */
  lemma StoodExactly(window: int, run: seq<State>, steps: seq<Step>, start: nat, end: int, events: seq<Event>,
                     anchor: Option<Id>, cursor: int, limit: nat)
    returns (t: nat)
    requires AlignedWindow(window) && IsRun(window, run, steps) && end < |run| && 0 < limit
    requires StoodDuring(run, start, end, events, anchor, cursor, limit)
    ensures start <= t <= end < |run| && |events| <= limit
    ensures forall i, j | 0 <= i < j < |events| :: events[i].version < events[j].version
    ensures forall e <- events :: e in LogOf(run[t].files) && e.version > cursor && (anchor.None? || e.anchor == anchor)
    ensures forall e <- LogOf(run[t].files) |
              e.version > cursor && (anchor.None? || e.anchor == anchor)
              && (|events| < limit || e.version <= events[|events| - 1].version) :: e in events
  {
    hide Inv, IsRun, LogOf, ReadOf, IdsOk, Committed, AlignedWindow;
    RunLength(window, run, steps);
    t :| start <= t <= end && events == ReadOf(LogOf(run[t].files), anchor, cursor, limit);
    RunIsAppendOnlyLog(window, run, steps, t);
    ReadExactly(LogOf(run[t].files), anchor, cursor, limit);
  }

  /**
  A bounded read returns events behind the cursor only, in version order and at most the limit, and
  every event that the log held there at one instant `t` of the read: up to the last one returned,
  or to the log's end when fewer than the limit came back.
  */
  method LoadAfterVersion(window: int, run: seq<State>, ghost steps: seq<Step>, snap: nat, at: seq<int>, cursor: int,
                          limit: nat)
    returns (r: Result<seq<Event>>, queries: nat, ghost t: nat)
    requires AlignedWindow(window) && IsRun(window, run, steps) && snap <= |steps| && Serving(run[snap])
    requires InstantsOf(run, snap, at, cursor)
    ensures r.Err? <==> limit == 0 || limit > 10_000
    ensures queries <= |at| && snap <= EndOf(snap, at, queries) < |run|
    ensures r.Ok? ==> StoodDuring(run, snap, EndOf(snap, at, queries), r.value, None, cursor, limit)
    ensures r.Ok? ==> snap <= t <= EndOf(snap, at, queries) && |r.value| <= limit
    ensures r.Ok? ==> forall i, j | 0 <= i < j < |r.value| :: r.value[i].version < r.value[j].version
    ensures r.Ok? ==> forall e <- r.value :: e in LogOf(run[t].files) && e.version > cursor
    ensures r.Ok? ==> forall e <- LogOf(run[t].files) |
              e.version > cursor && (|r.value| < limit || e.version <= r.value[|r.value| - 1].version) :: e in r.value
  {
    hide *;
    r, queries := Load(window, run, steps, snap, at, None, cursor, limit);
    t := 0;
    if r.Ok? {
      t := StoodExactly(window, run, steps, snap, EndOf(snap, at, queries), r.value, None, cursor, limit);
    }
  }

  /** The same for one workflow run: its events, no others, and none of them left out. */
  method LoadWorkflowAfterVersion(window: int, run: seq<State>, ghost steps: seq<Step>, snap: nat, at: seq<int>,
                                  startedBy: Id, cursor: int, limit: nat)
    returns (r: Result<seq<Event>>, queries: nat, ghost t: nat)
    requires AlignedWindow(window) && IsRun(window, run, steps) && snap <= |steps| && Serving(run[snap])
    requires InstantsOf(run, snap, at, cursor)
    ensures r.Err? <==> limit == 0 || limit > 10_000
    ensures queries <= |at| && snap <= EndOf(snap, at, queries) < |run|
    ensures r.Ok? ==> StoodDuring(run, snap, EndOf(snap, at, queries), r.value, Some(startedBy), cursor, limit)
    ensures r.Ok? ==> snap <= t <= EndOf(snap, at, queries) && |r.value| <= limit
    ensures r.Ok? ==> forall i, j | 0 <= i < j < |r.value| :: r.value[i].version < r.value[j].version
    ensures r.Ok? ==> forall e <- r.value ::
              e in LogOf(run[t].files) && e.anchor == Some(startedBy) && e.version > cursor
    ensures r.Ok? ==> forall e <- LogOf(run[t].files) |
              e.anchor == Some(startedBy) && e.version > cursor
              && (|r.value| < limit || e.version <= r.value[|r.value| - 1].version) :: e in r.value
  {
    hide *;
    r, queries := Load(window, run, steps, snap, at, Some(startedBy), cursor, limit);
    t := 0;
    if r.Ok? {
      t := StoodExactly(window, run, steps, snap, EndOf(snap, at, queries), r.value, Some(startedBy), cursor, limit);
    }
  }
}
