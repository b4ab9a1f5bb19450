/** What a rebuild of the catalog from the event files alone gives in every reachable or crashed state. */
module Recovery {
  import opened Results
  import PartitionNames
  import opened VersionOrder
  import opened EventFiles
  import opened PartitionStore
  import StoreSteps
  import opened StoreReads
  import opened StoreRuns

  /** A range that starts at version 1 or right after the range before it, and is sealed unless it is the last. */
  predicate Adjoins(ranges: seq<Range>, i: nat)
    requires i < |ranges|
  {
    && (ranges[i].sealed <==> i != |ranges| - 1)
    && (ranges[i].lastVersion.Some? <==> ranges[i].sealed)
    && ranges[i].firstVersion == if i == 0 then 1
                                 else if ranges[i - 1].lastVersion.Some? then ranges[i - 1].lastVersion.value + 1
                                 else 0
  }

  /** Ranges that follow one another from version 1 on without gap or overlap, the last one open. */
  predicate Contiguous(ranges: seq<Range>) { forall i | 0 <= i < |ranges| :: Adjoins(ranges, i) }

  /** In sorted order each file starts right after the head of the one before it. */
  lemma {:induction false} NameFollows(files: Files, i: nat)
    requires Tiled(files) && i < |Sorted(FileKeys(files))|
    ensures var names := Sorted(FileKeys(files));
            && names[i] in files && (i > 0 ==> names[i - 1] in files)
            && FirstVersion(files[names[i]]) == if i == 0 then 1 else files[names[i - 1]].head + 1
    decreases files.Keys
  {
    hide FileOk, FirstVersion, LogOf, Sorted, FileKeys, Tiled, LastFile;
    NoneSorted(files);
    var m := LastFile(files);
    var rest := files - {m};
    LastOfTiled(files);
    var before := Sorted(FileKeys(rest));
    LastSortsLast(files);
    NoneSorted(rest);
    if i < |before| {
      NameFollows(rest, i);
    } else if i > 0 {
      SortedEndsWithLast(rest);
    }
  }

  lemma LastSortsLast(files: Files)
    requires Tiled(files) && files != map[]
    ensures Sorted(FileKeys(files)) == Sorted(FileKeys(files - {LastFile(files)})) + [LastFile(files)]
  {
    hide FileOk, FirstVersion;
    assert FileKeys(files) - {LastFile(files)} == FileKeys(files - {LastFile(files)});
  }

  lemma NoneSorted(files: Files)
    ensures Sorted(FileKeys(files)) == [] <==> files == map[]
  {
    if files != map[] { SortedEndsWithLast(files); }
  }

  /** The last file has the greatest head. */
  lemma {:induction false} HeadsBelow(files: Files)
    requires Tiled(files)
    ensures forall n | n in files :: files[n].head <= HeadOf(files)
    decreases |files|
  {
    if files != map[] {
      var rest := files - {LastFile(files)};
      HeadsBelow(rest);
      forall n | n in files && n != LastFile(files) ensures files[n].head <= HeadOf(files) { assert n in rest; }
    }
  }

  /** Rebuilding from tiled files gives contiguous ranges, one for each file. */
  lemma RebuiltContiguous(files: Files)
    requires Tiled(files)
    ensures |RebuiltRanges(files)| == |files| && Contiguous(RebuiltRanges(files))
  {
    hide Tiled, FirstVersion, Sorted;
    var ranges := RebuiltRanges(files);
    SortedLength(FileKeys(files));
    assert FileKeys(files).Keys == files.Keys;
    forall i | 0 <= i < |ranges| ensures Adjoins(ranges, i) { NameFollows(files, i); }
  }

  /**
  Whatever the catalog says, the rebuilt ranges are contiguous from version 1, exactly the last is
  unsealed, it names the file with the greatest head, and the rows inserted are those of a store
  that was never disturbed. With no rotation in flight those are the rows already there.
  */
  lemma RebuildRestores(window: int, run: seq<State>, steps: seq<Step>, n: nat)
    requires PartitionNames.AlignedWindow(window) && IsRun(window, run, steps) && n <= |steps|
    ensures var s, ranges := run[n], RebuiltRanges(run[n].files);
            && |ranges| == |s.files| && Contiguous(ranges)
            && CatalogOf(ranges) == FullCatalog(s.files)
            && (s.memory.Open? ==> CatalogOf(ranges) == s.catalog)
            && (s.files != map[] ==>
                  var active := ranges[|ranges| - 1].path;
                  active in s.files && forall f | f in s.files :: s.files[f].head <= s.files[active].head)
  {
    hide IsRun, LogOf, Tiled, FileOk, FirstVersion, FullCatalog, NamedBy, Describes, AllParse, IdsOk;
    hide SealedCatalog, Contiguous, CatalogOf;
    RunLength(window, run, steps);
    var s := run[n];
    RunIsAppendOnlyLog(window, run, steps, n);
    RebuiltContiguous(s.files);
    RebuildIsFull(s.files);
    HeadsBelow(s.files);
    if s.files != map[] { SortedEndsWithLast(s.files); }
  }

  /**
  Opening after a crash at any point, or after the catalog lost or opened rows, serves the same
  log again: the active file is the last one and the catalog is whole.
  */
  lemma ReopeningServesTheLog(window: int, run: seq<State>, steps: seq<Step>, n: nat, now: int)
    requires PartitionNames.AlignedWindow(window) && IsRun(window, run, steps) && n <= |steps| && now >= 0
    requires run[n].memory.Closed? && run[n].files != map[]
    ensures var s' := Apply(window, run[n], Initialize(now));
            && s'.memory.Open? && s'.memory.active.name == LastFile(run[n].files)
            && s'.catalog == FullCatalog(run[n].files) && s'.files == run[n].files
            && InitializeActive(window, run[n], now) == (s', None)
  {
    hide IsRun, LogOf, FileOk, FirstVersion, FullCatalog, NamedBy, Describes, AllParse, IdsOk, Tiled;
    hide RebuiltRanges, CatalogOf;
    RunLength(window, run, steps);
    RunIsAppendOnlyLog(window, run, steps, n);
    StoreSteps.InitializeKeeps(window, run[n], now);
  }

  lemma RowOf(window: int, s: State, n: string)
    requires PartitionNames.AlignedWindow(window) && Inv(window, s) && Serving(s) && n in Listed(s)
    ensures n in s.catalog && Listed(s) != map[]
    ensures var r, f := s.catalog[n], Listed(s)[n];
            && r.path == n && r.firstVersion == FirstVersion(f)
            && r.lastVersion == (if r.sealed then Some(f.head) else None)
            && (!r.sealed ==> n == LastFile(Listed(s)))
  {
    hide LogOf, FileOk, FirstVersion, NamedBy, Describes, AllParse, Tiled;
    CatalogCoversLog(window, s);
    assert s.catalog == FullCatalog(Listed(s)) || s.catalog == SealedCatalog(Listed(s));
  }

  /**
  The catalog of a store in use, row after row by first version and name: the first starts at
  version 1, each other right after the last version of the one before it, a sealed row ends at
  its file's head, only the last row can be unsealed, and the last file's head is the log's end.
  */
  lemma CatalogTiles(window: int, run: seq<State>, steps: seq<Step>, n: nat, i: nat)
    requires PartitionNames.AlignedWindow(window) && IsRun(window, run, steps) && n <= |steps| && Serving(run[n])
    requires i < |Sorted(CatalogKeys(run[n].catalog))|
    ensures var s, names := run[n], Sorted(CatalogKeys(run[n].catalog));
            && names[i] in s.catalog && names[i] in s.files
            && s.catalog[names[i]].path == names[i]
            && (s.catalog[names[i]].sealed <==> s.catalog[names[i]].lastVersion.Some?)
            && (s.catalog[names[i]].sealed ==> s.catalog[names[i]].lastVersion == Some(s.files[names[i]].head))
            && (!s.catalog[names[i]].sealed ==> i == |names| - 1)
            && (if i == 0 then s.catalog[names[i]].firstVersion == 1
                else names[i - 1] in s.catalog
                     && s.catalog[names[i - 1]].lastVersion == Some(s.catalog[names[i]].firstVersion - 1))
            && (i == |names| - 1 ==> s.files[names[i]].head == |LogOf(s.files)|)
  {
    hide Inv, IsRun, LogOf, FileOk, FirstVersion, IdsOk, Tiled, Sorted, Listed, Serving;
    RunLength(window, run, steps);
    RunIsAppendOnlyLog(window, run, steps, n);
    var s := run[n];
    var files := Listed(s);
    CatalogCoversLog(window, s);
    NameFollows(files, i);
    var names := Sorted(FileKeys(files));
    RowOf(window, s, names[i]);
    LastComesLast(files, i);
    if i > 0 {
      RowOf(window, s, names[i - 1]);
      LastComesLast(files, i - 1);
    }
    LogIsContiguous(files);
  }

  lemma LastComesLast(files: Files, i: nat)
    requires files != map[] && i < |Sorted(FileKeys(files))|
    ensures Sorted(FileKeys(files))[i] == LastFile(files) <==> i == |Sorted(FileKeys(files))| - 1
  {
    SortedDistinct(FileKeys(files));
    SortedEndsWithLast(files);
  }
}
