/**
Reads. A read takes a snapshot of the catalog and then queries one file after another without a
lock, so appends, rotation steps, even a crash and a reopening, can fall between any two of its
queries. The model gives the read the whole run and the instants at which it looks.
*/
module StoreReads {
  import opened Results
  import TextOrder
  import opened PartitionNames
  import opened VersionOrder
  import opened EventFiles
  import opened PartitionStore
  import StoreSteps
  import opened StoreRuns

  /** `WHERE last_version IS NULL OR last_version > ?1`. */
  predicate MayHoldAfter(r: Range, cursor: int)
  {
    r.lastVersion.None? || r.lastVersion.value > cursor
  }

  function KeysAfter(catalog: Catalog, cursor: int): Keys
  {
    map n | n in catalog && MayHoldAfter(catalog[n], cursor) :: catalog[n].firstVersion
  }

  /** The names that a read goes through, by first version and name. */
  function NamesAfter(catalog: Catalog, cursor: int): seq<string> { Sorted(KeysAfter(catalog, cursor)) }

  /** The catalog query of a read: the rows that may hold later events, in that order. */
  function RangesAfter(catalog: Catalog, cursor: int): (ranges: seq<Range>)
    ensures |ranges| == |NamesAfter(catalog, cursor)|
  {
    var names := NamesAfter(catalog, cursor);
    seq(|names|, i requires 0 <= i < |names| => assert names[i] in KeysAfter(catalog, cursor); catalog[names[i]])
  }

  /**
  The ranges are exactly the rows without a last version or with one behind the cursor, each once, by
  first version and name.
  */
  lemma RangesAfterExactly(catalog: Catalog, cursor: int)
    ensures var ranges := RangesAfter(catalog, cursor);
            && (forall n | n in catalog && (catalog[n].lastVersion.None? || catalog[n].lastVersion.value > cursor) ::
                  catalog[n] in ranges)
            && (forall r <- ranges :: (r.lastVersion.None? || r.lastVersion.value > cursor)
                                      && exists n :: n in catalog && catalog[n] == r)
            && (forall i, j | 0 <= i < j < |ranges| :: ranges[i].firstVersion <= ranges[j].firstVersion)
    ensures var names, ranges := NamesAfter(catalog, cursor), RangesAfter(catalog, cursor);
            && (forall i | 0 <= i < |names| :: names[i] in catalog && ranges[i] == catalog[names[i]])
            && (forall i, j | 0 <= i < j < |names| :: names[i] != names[j]
                  && (ranges[i].firstVersion == ranges[j].firstVersion ==> TextOrder.Less(names[i], names[j])))
  {
    var keys, ranges := KeysAfter(catalog, cursor), RangesAfter(catalog, cursor);
    var names := NamesAfter(catalog, cursor);
    SortedInOrder(keys);
    SortedDistinct(keys);
    forall n | n in keys ensures catalog[n] in ranges {
      var i :| 0 <= i < |names| && names[i] == n;
      assert ranges[i] == catalog[n];
    }
    forall i | 0 <= i < |ranges| ensures names[i] in keys && ranges[i] == catalog[names[i]] {}
  }

  /** What a read of the log at one instant returns. */
  function ReadOf(log: seq<Event>, anchor: Option<Id>, cursor: int, limit: nat): seq<Event>
  {
    Take(Select(log, anchor, cursor), limit)
  }

  /**
  What a read of a log returns: at most the limit, in version order, only events behind the cursor and
  of the workflow asked for, and all of those up to the last one returned, or to the log's end when it
  returns fewer than the limit.
  */
  lemma ReadExactly(log: seq<Event>, anchor: Option<Id>, cursor: int, limit: nat)
    requires Ascending(log)
    ensures var page := ReadOf(log, anchor, cursor, limit);
            && |page| <= limit
            && (forall i, j | 0 <= i < j < |page| :: page[i].version < page[j].version)
            && (forall e <- page :: e in log && e.version > cursor && (anchor.None? || e.anchor == anchor))
            && (forall e <- log | e.version > cursor && (anchor.None? || e.anchor == anchor)
                                  && (|page| < limit || page == [] || e.version <= page[|page| - 1].version) ::
                  limit == 0 || e in page)
  {
    hide Select;
    var all, page := Select(log, anchor, cursor), ReadOf(log, anchor, cursor, limit);
    SelectMembers(log, anchor, cursor);
    SelectAscends(log, anchor, cursor);
    forall e <- page ensures e in all {}
    forall e <- log | e.version > cursor && (anchor.None? || e.anchor == anchor)
                      && (|page| < limit || page == [] || e.version <= page[|page| - 1].version)
      ensures limit == 0 || e in page
    {
      var i :| 0 <= i < |all| && all[i] == e;
      if i < |page| { assert page[i] == e; }
    }
  }

  /** Rows by file name, as a read saw them. */
  type View = map<string, seq<Event>>

  ghost function RowsSeen(view: View, names: seq<string>): seq<Event>
    requires forall n <- names :: n in view
  {
    if names == [] then []
    else RowsSeen(view, names[..|names| - 1]) + view[names[|names| - 1]]
  }

  // ----- how files change along a run

  /** One step leaves all files but the last untouched, and may only extend the last or add an empty one after it. */
  ghost predicate FilesGrow(files: Files, files': Files)
    requires files != map[] && files' != map[]
  {
    var m, m' := LastFile(files), LastFile(files');
    || (m' == m && files' - {m} == files - {m})
    || (m' !in files && files' - {m'} == files && files'[m'].rows == [])
  }

  lemma StepGrowsFiles(window: int, s: State, step: Step)
    requires AlignedWindow(window) && Inv(window, s) && s.files != map[] && Enabled(window, s, step)
    ensures var s' := Apply(window, s, step);
            s'.files != map[] && FilesGrow(s.files, s'.files)
  {
    hide NamedBy, Describes, AllParse, FullCatalog, SealedCatalog, LogOf, InitializeActive, AppendTo;
    hide DetermineNext, FloorToWindow;
    match step
    case Append(_, _, _, _, _) => AppendGrowsLast(window, s, step);
    case CreateNext => CreateGrows(window, s);
    case Initialize(now) => StoreSteps.InitializeKeeps(window, s, now);
    case _ =>
  }

  lemma CreateGrows(window: int, s: State)
    requires AlignedWindow(window) && Inv(window, s) && s.files != map[] && Enabled(window, s, CreateNext)
    ensures var s' := Apply(window, s, CreateNext);
            s'.files != map[] && FilesGrow(s.files, s'.files)
  {
    hide NamedBy, Describes, AllParse, FullCatalog, SealedCatalog, LogOf, FileOk;
    var b := s.memory.next;
    StoreSteps.AddEmptyLast(s.files, b.name);
  }

  lemma AppendGrowsLast(window: int, s: State, step: Step)
    requires AlignedWindow(window) && Inv(window, s) && step.Append? && Enabled(window, s, step)
    ensures var s' := Apply(window, s, step);
            s.files != map[] && s'.files != map[] && FilesGrow(s.files, s'.files)
  {
    hide NamedBy, Describes, AllParse, FullCatalog, SealedCatalog, LogOf, FileOk, Tiled, AppendTransaction;
    StoreSteps.AppendKeeps(window, s, step);
    var m := LastFile(s.files);
    var s' := Apply(window, s, step);
    assert s'.memory == s.memory;
    forall n | n in s.files - {m} ensures n in s'.files - {m} && (s'.files - {m})[n] == (s.files - {m})[n] {}
    assert s'.files - {m} == s.files - {m};
  }

  /** A file that is not the last one never changes again. */
  lemma {:induction false} SealedFilesFrozen(window: int, run: seq<State>, steps: seq<Step>, i: nat, j: nat, n: string)
    requires AlignedWindow(window) && IsRun(window, run, steps) && i <= j <= |steps|
    requires n in run[i].files && n != LastFile(run[i].files)
    ensures n in run[j].files && run[j].files[n] == run[i].files[n] && n != LastFile(run[j].files)
    decreases j
  {
    hide Inv, LogOf, Enabled, Apply, LastFile, IdsOk;
    if i < j {
      SealedFilesFrozen(window, run, steps, i, j - 1, n);
      StepInRun(window, run, steps, j - 1);
      var files, files' := run[j - 1].files, run[j].files;
      var m, m' := LastFile(files), LastFile(files');
      if m' == m {
        assert n in files - {m};
        assert n in files' - {m} && (files' - {m})[n] == (files - {m})[n];
      } else {
        assert n in files' - {m'} && (files' - {m'})[n] == files[n];
      }
    }
  }

  lemma StepInRun(window: int, run: seq<State>, steps: seq<Step>, i: nat)
    requires AlignedWindow(window) && IsRun(window, run, steps) && i < |steps| && run[i].files != map[]
    ensures run[i + 1].files != map[] && FilesGrow(run[i].files, run[i + 1].files)
  {
    hide Inv, LogOf, Enabled, Apply, IdsOk, FilesGrow;
    assert StepTaken(window, run[i], steps[i], run[i + 1]);
    RunIsAppendOnlyLog(window, run, steps, i);
    StepGrowsFiles(window, run[i], steps[i]);
  }

  /**
  At instant `t` the file `m` was still the last one, after the same files as at `i`, and held what
  it holds at `j`.
  */
  ghost predicate StoodAt(run: seq<State>, i: nat, j: nat, m: string, t: nat)
    requires i < |run| && j < |run|
  {
    && i <= t <= j && m in run[i].files && m in run[j].files && m in run[t].files && LastFile(run[t].files) == m
    && run[t].files - {m} == run[i].files - {m} && run[t].files[m] == run[j].files[m]
  }

  /** What the last file of one instant holds later, it held while it still was the last file. */
  lemma {:induction false} LastFileStood(window: int, run: seq<State>, steps: seq<Step>, i: nat, j: nat)
    returns (t: nat)
    requires AlignedWindow(window) && IsRun(window, run, steps) && i <= j <= |steps| && run[i].files != map[]
    ensures run[j].files != map[] && StoodAt(run, i, j, LastFile(run[i].files), t)
    ensures LastFile(run[j].files) == LastFile(run[i].files) ==> t == j
    decreases j
  {
    hide Inv, LogOf, Enabled, Apply, LastFile, IdsOk;
    t := j;
    if i < j {
      var u := LastFileStood(window, run, steps, i, j - 1);
      StepInRun(window, run, steps, j - 1);
      var m, files, files' := LastFile(run[i].files), run[j - 1].files, run[j].files;
      if LastFile(files') == m && LastFile(files) == m {
        t := j;
      } else if LastFile(files) == m {
        t := u;
        assert m in files' - {LastFile(files')};
      } else {
        t := u;
        SealedFilesFrozen(window, run, steps, j - 1, j, m);
      }
    }
  }

  // ----- the rows of sorted files

  lemma {:induction false} RowsAreLog(files: Files, view: View)
    requires forall n | n in files :: n in view && view[n] == files[n].rows
    ensures RowsSeen(view, Sorted(FileKeys(files))) == LogOf(files)
    decreases |files|
  {
    if files == map[] {
      assert FileKeys(files) == map[];
    } else {
      var m := LastFile(files);
      assert FileKeys(files) - {m} == FileKeys(files - {m});
      RowsAreLog(files - {m}, view);
    }
  }

  lemma {:induction false} RowsSame(view: View, view': View, names: seq<string>)
    requires forall n <- names :: n in view && n in view' && view[n] == view'[n]
    ensures RowsSeen(view, names) == RowsSeen(view', names)
  {
    if names != [] { RowsSame(view, view', names[..|names| - 1]); }
  }

  /** Leaving out files without selected rows does not change what is selected. */
  lemma {:induction false} SkippedFilesHoldNothing(keys: Keys, sub: Keys, view: View, anchor: Option<Id>, cursor: int)
    requires forall n | n in keys :: n in view
    requires forall n | n in sub :: n in keys && sub[n] == keys[n]
    requires forall n | n in keys && n !in sub :: Select(view[n], anchor, cursor) == []
    ensures Select(RowsSeen(view, Sorted(sub)), anchor, cursor) == Select(RowsSeen(view, Sorted(keys)), anchor, cursor)
    decreases |keys|
  {
    if keys == map[] {
      assert sub == map[];
    } else {
      var m := Greatest(keys);
      var rest := keys - {m};
      SelectAppend(RowsSeen(view, Sorted(rest)), view[m], anchor, cursor);
      if m in sub {
        assert IsGreatest(sub, m) by {
          forall n | n in sub && n != m ensures Before(sub, n, m) { assert Before(keys, n, m); }
        }
        GreatestIs(sub, m);
        SkippedFilesHoldNothing(rest, sub - {m}, view, anchor, cursor);
        SelectAppend(RowsSeen(view, Sorted(sub - {m})), view[m], anchor, cursor);
      } else {
        SkippedFilesHoldNothing(rest, sub, view, anchor, cursor);
      }
    }
  }

  // ----- what the catalog covers

  /** The files that the catalog lists: all of them, except one just created by a rotation. */
  function Listed(s: State): Files
  {
    if s.memory.Rotating? && s.memory.stage == Created then s.files - {s.memory.next.name} else s.files
  }

  predicate Serving(s: State) { s.memory.Open? || s.memory.Rotating? }

  /** The catalog lists files holding the whole log; only the last listed one can be without a last version. */
  lemma CatalogCoversLog(window: int, s: State)
    requires AlignedWindow(window) && Inv(window, s) && Serving(s)
    ensures var files := Listed(s);
            && files != map[] && Tiled(files) && LogOf(files) == LogOf(s.files)
            && s.files != map[] && (LastFile(s.files) in files ==> files == s.files)
            && s.catalog.Keys == files.Keys && CatalogKeys(s.catalog) == FileKeys(files)
            && (forall n | n in files :: n in s.files && files[n] == s.files[n])
            && (forall n | n in files :: s.catalog[n].path == n)
            && (forall n | n in files :: s.catalog[n].lastVersion == Some(files[n].head)
                                         || (n == LastFile(files) && s.catalog[n].lastVersion == None))
  {
    hide NamedBy, Describes, AllParse, FileOk;
    var files := Listed(s);
    if files != s.files {
      var b := s.memory.next.name;
      LastOfTiled(s.files);
      assert LogOf(s.files) == LogOf(files) + [];
    }
    assert s.catalog == FullCatalog(files) || s.catalog == SealedCatalog(files);
    CatalogShape(s.catalog, files);
  }

  lemma CatalogShape(catalog: Catalog, files: Files)
    requires files != map[] && (catalog == FullCatalog(files) || catalog == SealedCatalog(files))
    ensures catalog.Keys == files.Keys && CatalogKeys(catalog) == FileKeys(files)
    ensures forall n | n in files :: catalog[n].path == n
    ensures forall n | n in files :: catalog[n].lastVersion == Some(files[n].head)
                                     || (n == LastFile(files) && catalog[n].lastVersion == None)
  {
  }

  lemma {:induction false} FileInTiled(files: Files, n: string) returns (base: int)
    requires Tiled(files) && n in files
    ensures FileOk(files[n], base)
    decreases |files|
  {
    var m := LastFile(files);
    if n == m {
      base := HeadOf(files - {m});
    } else {
      base := FileInTiled(files - {m}, n);
    }
  }

  /** Files whose last version is not after the cursor hold nothing that the read wants. */
  lemma PassedOverFile(files: Files, n: string, anchor: Option<Id>, cursor: int)
    requires Tiled(files) && n in files && files[n].head <= cursor
    ensures Select(files[n].rows, anchor, cursor) == []
  {
    var base := FileInTiled(files, n);
    forall e | e in files[n].rows ensures !Selected(e, anchor, cursor) {
      var i :| 0 <= i < |files[n].rows| && files[n].rows[i] == e;
    }
    SelectNone(files[n].rows, anchor, cursor);
  }

  // ----- reads are linearizable

  /** The rows that a read sees when it queries each listed range at its own instant. */
  ghost function SeenAt(run: seq<State>, snap: nat, cursor: int, when: map<string, int>): (view: View)
    requires snap < |run|
    requires when.Keys == KeysAfter(run[snap].catalog, cursor).Keys
    requires forall n | n in when :: 0 <= when[n] < |run| && n in run[when[n]].files
  {
    map n | n in when :: run[when[n]].files[n].rows
  }

  /** The rows seen, completed by what the passed-over files held at the snapshot. */
  ghost function WholeView(run: seq<State>, snap: nat, cursor: int, when: map<string, int>): (view: View)
    requires snap < |run|
    requires when.Keys == KeysAfter(run[snap].catalog, cursor).Keys
    requires forall n | n in when :: 0 <= when[n] < |run| && n in run[when[n]].files
    ensures view.Keys == Listed(run[snap]).Keys
    ensures forall n | n in view ::
              view[n] == if n in when then run[when[n]].files[n].rows else Listed(run[snap])[n].rows
  {
    var files, seen := Listed(run[snap]), SeenAt(run, snap, cursor, when);
    map n | n in files :: if n in seen then seen[n] else files[n].rows
  }

  lemma SeenSelectsWhole(window: int, run: seq<State>, snap: nat, when: map<string, int>, anchor: Option<Id>,
                         cursor: int)
    requires AlignedWindow(window) && snap < |run| && Inv(window, run[snap]) && Serving(run[snap])
    requires when.Keys == KeysAfter(run[snap].catalog, cursor).Keys
    requires forall n | n in when :: 0 <= when[n] < |run| && n in run[when[n]].files
    ensures var files, view := Listed(run[snap]), WholeView(run, snap, cursor, when);
            && (forall n | n in FileKeys(files) :: n in view)
            && Select(RowsSeen(SeenAt(run, snap, cursor, when), NamesAfter(run[snap].catalog, cursor)), anchor, cursor)
            == Select(RowsSeen(view, Sorted(FileKeys(files))), anchor, cursor)
  {
    hide Inv, LogOf, LastFile, FileOk, Tiled, Select, Listed, Serving;
    var s := run[snap];
    var files, sub := Listed(s), KeysAfter(s.catalog, cursor);
    var seen, view := SeenAt(run, snap, cursor, when), WholeView(run, snap, cursor, when);
    CatalogCoversLog(window, s);
    forall n | n in files && n !in sub ensures Select(view[n], anchor, cursor) == [] {
      PassedOverFile(files, n, anchor, cursor);
    }
    assert forall n | n in sub :: n in CatalogKeys(s.catalog) && sub[n] == FileKeys(files)[n];
    SkippedFilesHoldNothing(FileKeys(files), sub, view, anchor, cursor);
    RowsSame(seen, view, Sorted(sub));
  }

  lemma SealedFilesSeenAsListed(window: int, run: seq<State>, steps: seq<Step>, snap: nat, when: map<string, int>,
                                cursor: int)
    requires AlignedWindow(window) && IsRun(window, run, steps) && snap <= |steps| && Serving(run[snap])
    requires when.Keys == KeysAfter(run[snap].catalog, cursor).Keys
    requires forall n | n in when :: snap <= when[n] <= |steps| && n in run[when[n]].files
    ensures var files, view := Listed(run[snap]), WholeView(run, snap, cursor, when);
            && run[snap].files != map[]
            && forall n | n in files && n != LastFile(run[snap].files) :: view[n] == files[n].rows
  {
    hide Inv, LogOf, Enabled, Apply, LastFile, IdsOk, Tiled, FilesGrow, Serving, Listed, MayHoldAfter;
    var s := run[snap];
    var files, view := Listed(s), WholeView(run, snap, cursor, when);
    RunIsAppendOnlyLog(window, run, steps, snap);
    CatalogCoversLog(window, s);
    forall n | n in files && n != LastFile(s.files) ensures view[n] == files[n].rows {
      if n in when { SealedFilesFrozen(window, run, steps, snap, when[n], n); }
    }
  }

  /** The completed view is the log as it stood at one instant between the snapshot and the end. */
  lemma WholeViewStood(window: int, run: seq<State>, steps: seq<Step>, snap: nat, end: int, when: map<string, int>,
                       cursor: int)
    returns (t: nat)
    requires AlignedWindow(window) && IsRun(window, run, steps) && snap <= end <= |steps| && Serving(run[snap])
    requires when.Keys == KeysAfter(run[snap].catalog, cursor).Keys
    requires forall n | n in when :: snap <= when[n] <= end && n in run[when[n]].files
    ensures snap <= t <= end
    ensures var files, view := Listed(run[snap]), WholeView(run, snap, cursor, when);
            (forall n | n in FileKeys(files) :: n in view)
            && RowsSeen(view, Sorted(FileKeys(files))) == LogOf(run[t].files)
  {
    hide Inv, LogOf, LastFile, Tiled, Serving, Listed, IsRun, KeysAfter, RowsSeen, Sorted, FirstVersion;
    hide WholeView, FileKeys;
    RunLength(window, run, steps);
    var s := run[snap];
    var files, view := Listed(s), WholeView(run, snap, cursor, when);
    RunTiled(window, run, steps, snap);
    CatalogCoversLog(window, s);
    SealedFilesSeenAsListed(window, run, steps, snap, when, cursor);
    var m := LastFile(files);
    if m == LastFile(s.files) && m in when {
      t := LastFileStood(window, run, steps, snap, when[m]);
      RunTiled(window, run, steps, t);
      StoodView(files, run[t].files, view);
    } else {
      t := snap;
      ListedView(files, view);
    }
  }

  lemma ListedView(files: Files, view: View)
    requires view.Keys == files.Keys && forall n | n in files :: view[n] == files[n].rows
    ensures (forall n | n in FileKeys(files) :: n in view)
         && RowsSeen(view, Sorted(FileKeys(files))) == LogOf(files)
  {
    hide LogOf, RowsSeen, Sorted;
    RowsAreLog(files, view);
  }

  lemma RunTiled(window: int, run: seq<State>, steps: seq<Step>, i: nat)
    requires AlignedWindow(window) && IsRun(window, run, steps) && i <= |steps|
    ensures Inv(window, run[i]) && Tiled(run[i].files)
  {
    hide Inv;
    RunIsAppendOnlyLog(window, run, steps, i);
    InvTiled(window, run[i]);
  }

  lemma FilesMatch(a: Files, b: Files, m: string)
    requires m in a && m in b && a - {m} == b - {m}
    ensures a.Keys == b.Keys && forall n | n in a && n != m :: a[n] == b[n]
  {
    forall n | n in a && n != m ensures n in b && a[n] == b[n] { assert n in a - {m}; }
    forall n | n in b && n != m ensures n in a { assert n in b - {m}; }
  }

  /** Files that differ only in their last one: a view of them is the log of those whose last file it shows. */
  lemma StoodView(files: Files, stood: Files, view: View)
    requires Tiled(files) && files != map[] && Tiled(stood) && stood != map[]
    requires LastFile(stood) == LastFile(files) && stood - {LastFile(files)} == files - {LastFile(files)}
    requires view.Keys == files.Keys
    requires forall n | n in files && n != LastFile(files) :: view[n] == files[n].rows
    requires view[LastFile(files)] == stood[LastFile(files)].rows
    ensures (forall n | n in FileKeys(files) :: n in view)
         && RowsSeen(view, Sorted(FileKeys(files))) == LogOf(stood)
  {
    hide Tiled, LogOf, HeadOf, LastFile, RowsSeen, InOrder, Sorted, FirstVersion, FileOk;
    KeysOfTiled(files);
    KeysOfTiled(stood);
    FilesMatch(stood, files, LastFile(files));
    RowsAreLog(stood, view);
  }

  /** The sort keys depend on the files before the last one only. */
  lemma KeysOfTiled(files: Files)
    requires Tiled(files) && files != map[]
    ensures var m := LastFile(files);
            FileKeys(files) == FileKeys(files - {m})[m := HeadOf(files - {m}) + 1]
  {
    LastOfTiled(files);
  }

  /**
  Whatever happens between the snapshot and the queries, and whenever each file is queried, the
  rows seen select exactly what the log held at one single instant of the read.
  */
  lemma ReadIsLinearizable(window: int, run: seq<State>, steps: seq<Step>, snap: nat, end: int,
                           when: map<string, int>, anchor: Option<Id>, cursor: int) returns (t: nat)
    requires AlignedWindow(window) && IsRun(window, run, steps) && snap <= end <= |steps| && Serving(run[snap])
    requires when.Keys == KeysAfter(run[snap].catalog, cursor).Keys
    requires forall n | n in when :: snap <= when[n] <= end && n in run[when[n]].files
    ensures snap <= t <= end
    ensures Select(RowsSeen(SeenAt(run, snap, cursor, when), NamesAfter(run[snap].catalog, cursor)), anchor, cursor)
         == Select(LogOf(run[t].files), anchor, cursor)
  {
    hide Inv, LogOf, Select, IdsOk, Serving, Listed, IsRun, MayHoldAfter, RowsSeen, Sorted;
    RunLength(window, run, steps);
    RunIsAppendOnlyLog(window, run, steps, snap);
    SeenSelectsWhole(window, run, snap, when, anchor, cursor);
    t := WholeViewStood(window, run, steps, snap, end, when, cursor);
  }
}
