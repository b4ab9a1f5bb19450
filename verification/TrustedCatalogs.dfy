/**
Opening over a damaged catalog. A catalog that does not have exactly one unsealed row is rebuilt; one
that does is trusted, whatever else it says. What is then served, and exactly when it is the log.
*/
module TrustedCatalogs {
  import opened Results
  import opened PartitionNames
  import opened VersionOrder
  import opened EventFiles
  import opened PartitionStore
  import opened CatalogReads
  import opened StaleClock
  import AnyClock
  import StoreReads
  import StoreSteps

  /** A catalog with exactly one unsealed row opens the file of that row and stays as it is. */
  lemma TrustedOpens(window: int, s: State, now: int)
    requires window > 0 && AllParse(s.catalog.Keys) && |UnsealedKeys(s.catalog)| == 1
    ensures UnsealedKeys(s.catalog) != map[]
    ensures var name := Greatest(UnsealedKeys(s.catalog));
            var parsed := ParsePartitionName(name);
            && name in s.catalog && parsed.Ok?
            && InitializeActive(window, s, now)
               == (s.(memory := Open(Active(name, parsed.value.0, parsed.value.1))), None)
  {
    hide ParsePartitionName;
  }

  lemma OnlyOne(keys: Keys, n: string)
    requires |keys| == 1 && n in keys
    ensures Greatest(keys) == n
  {
    var m := Greatest(keys);
    assert keys.Keys == {m, n} + (keys.Keys - {m, n});
  }

  /** A rebuilt catalog opens the last file and is whole. */
  lemma RebuiltOpens(window: int, s: State, catalog: Catalog, now: int)
    requires AlignedWindow(window) && Inv(window, s) && s.memory.Closed? && s.files != map[] && now >= 0
    requires AllParse(catalog.Keys) && |UnsealedKeys(catalog)| != 1
    ensures var (s', error) := InitializeActive(window, s.(catalog := catalog), now);
            && error == None && s'.memory.Open? && s'.memory.active.name == LastFile(s.files)
            && s'.files == s.files && s'.catalog == FullCatalog(s.files)
  {
    hide NamedBy, Describes, Tiled, FullCatalog, RebuiltRanges, CatalogOf, ParsePartitionName, FloorToWindow;
    StoreSteps.InitializeKeeps(window, s.(catalog := catalog), now);
  }

  /** The active file is the last one exactly when the catalog is rebuilt or its one unsealed row is that file's. */
  lemma OpensLastExactly(window: int, s: State, catalog: Catalog, now: int)
    requires AlignedWindow(window) && Inv(window, s) && s.memory.Closed? && s.files != map[] && now >= 0
    requires AllParse(catalog.Keys)
    ensures var (s', error) := InitializeActive(window, s.(catalog := catalog), now);
            && error == None && s'.memory.Open?
            && (s'.memory.active.name == LastFile(s.files)
                <==> |UnsealedKeys(catalog)| != 1 || LastFile(s.files) in UnsealedKeys(catalog))
  {
    hide Inv, InitializeActive, UnsealedKeys, LastFile, ParsePartitionName;
    if |UnsealedKeys(catalog)| != 1 {
      RebuiltOpens(window, s, catalog, now);
    } else {
      TrustedOpens(window, s.(catalog := catalog), now);
      if LastFile(s.files) in UnsealedKeys(catalog) { OnlyOne(UnsealedKeys(catalog), LastFile(s.files)); }
    }
  }

  lemma FilesParse(window: int, s: State, catalog: Catalog)
    requires window > 0 && Inv(window, s) && catalog.Keys <= s.files.Keys
    ensures AllParse(catalog.Keys)
  {
    hide ParsePartitionName, NamedBy, Tiled, FullCatalog, Describes;
    StoreSteps.AllFilesParse(window, s.files);
  }

  /**
  After opening, every read gives what the log says and the active file has the log's head if and
  only if the catalog is rebuilt, or shows the log and has its one unsealed row at a file with that
  head.
  */
  lemma OpeningServesExactly(window: int, s: State, catalog: Catalog, now: int)
    requires AlignedWindow(window) && Inv(window, s) && s.memory.Closed? && s.files != map[] && now >= 0
    requires catalog.Keys <= s.files.Keys
    ensures var (s', error) := InitializeActive(window, s.(catalog := catalog), now);
            var log := LogOf(s.files);
            && error == None && s'.memory.Open? && s'.files == s.files
            && s'.catalog.Keys <= s.files.Keys && s'.memory.active.name in s.files
            && (PagesServe(s.files, s'.catalog, log) && s.files[s'.memory.active.name].head == |log|
                <==> || |UnsealedKeys(catalog)| != 1
                     || (Shows(RowsOf(s.files), catalog)
                         && forall n | n in UnsealedKeys(catalog) :: n in s.files && s.files[n].head == |log|))
  {
    hide Inv, InitializeActive, UnsealedKeys, LastFile, ParsePartitionName, PagesServe, Shows, LogOf, Tiled;
    hide FullCatalog, AllParse;
    FilesParse(window, s, catalog);
    InvIsTiled(window, s);
    AnyClock.TiledSplits(s.files);
    LogIsContiguous(s.files);
    if |UnsealedKeys(catalog)| != 1 {
      RebuiltOpens(window, s, catalog, now);
      AnyClock.FullKeys(s.files);
      AnyClock.FullShows(s.files);
      AnyClock.HeadOfLast(s.files);
      PagesServeExactly(s.files, FullCatalog(s.files), LogOf(s.files));
    } else {
      TrustedOpens(window, s.(catalog := catalog), now);
      PagesServeExactly(s.files, catalog, LogOf(s.files));
      forall n | n in UnsealedKeys(catalog) ensures n == Greatest(UnsealedKeys(catalog)) {
        OnlyOne(UnsealedKeys(catalog), n);
      }
    }
  }

  lemma InvIsTiled(window: int, s: State)
    requires window > 0 && Inv(window, s)
    ensures Tiled(s.files)
  {
  }

  /**
  An append to a file that holds the end of the log keeps reads right if and only if the catalog
  shows the longer log too: the row must not end before the new events, nor come before a file of
  earlier ones.
  */
  lemma AppendServesExactly(files: Files, catalog: Catalog, log: seq<Event>, a: string, f: EventFile, batch: seq<Event>)
    requires catalog.Keys <= files.Keys && Split(RowsOf(files), log) && a in files && Numbered(log + batch)
    requires files[a].rows != [] ==> LastOf(files[a].rows) == |log|
    requires f.rows == files[a].rows + batch
    ensures catalog.Keys <= files[a := f].Keys
    ensures PagesServe(files[a := f], catalog, log + batch) <==> Shows(RowsOf(files)[a := f.rows], catalog)
  {
    hide PagesServe, Shows, Split, LastOf;
    var view := RowsOf(files);
    AnyClock.SplitGrows(view, log, a, batch);
    assert RowsOf(files[a := f]) == view[a := f.rows];
    PagesServeExactly(files[a := f], catalog, log + batch);
  }

  // ----- a catalog that is trusted and wrong

  /** Both hours of events, closed, and a catalog that has lost the row of the second hour. */
  function Damaged(): State
  {
    var a := FileOfHour(NINE);
    TwoHours(FIRST, SECOND).(catalog := map[a.name := OpenRange(a.name, 1)], memory := Closed)
  }

  const AGAIN: Event := Event(9, 2, 2, None, TEN, "again")

  /**
  The catalog has one unsealed row, that of the first hour, so opening trusts it: the event of the
  second hour is not read any more, and the next append issues its version a second time.
  */
  lemma TrustedCatalogLosesAnEvent()
    ensures var (s, error) := InitializeActive(HOUR_MS, Damaged(), TEN);
            && error == None && s.memory == Open(FileOfHour(NINE)) && s.files == TwoHours(FIRST, SECOND).files
            && s.catalog.Keys <= s.files.Keys && PageAt(s, 0, 2) == [FIRST]
            && var (s', r) := AppendTo(s, Any, [NewEvent("again", NoWorkflow)], [9], TEN, 3);
               && r == Ok([AGAIN]) && AGAIN.version == SECOND.version && AGAIN != SECOND
               && AGAIN in s'.files[FileOfHour(NINE).name].rows && SECOND in s'.files[FileOfHour(TEN).name].rows
  {
    hide GeneratePartitionName, ParsePartitionName, FloorToWindow, Describes, AppendTransaction, Page;
    HourFiles();
    var a := FileOfHour(NINE);
    StoreSteps.DescribedNameParses(HOUR_MS, a);
    var s := Damaged();
    assert UnsealedKeys(s.catalog) == map[a.name := 1];
    TrustedOpens(HOUR_MS, s, TEN);
    OnlyOne(UnsealedKeys(s.catalog), a.name);
    FirstOnly(s.(memory := Open(a)), a.name);
    AppendAgain();
  }

  lemma FirstOnly(s: State, a: string)
    requires s.catalog.Keys == {a} && a in s.files && s.files[a].rows == [FIRST] && s.catalog[a] == OpenRange(a, 1)
    ensures s.catalog.Keys <= s.files.Keys && PageAt(s, 0, 2) == [FIRST]
  {
    hide SortByVersion, Collected, Sorted, Select;
    SortedUnique(StoreReads.KeysAfter(s.catalog, 0), [a]);
    CollectedIsTaken(s.files, [a], None, 0, 2);
    RowsOfOne(RowsOf(s.files), a);
    SelectOne(FIRST, 0);
    SortOfAscending([FIRST]);
  }

  lemma AppendAgain()
    ensures AppendTransaction(EventFile([FIRST], 1, Some(FIRST.id)), Any, [NewEvent("again", NoWorkflow)], [9], TEN, 3)
         == Ok((EventFile([FIRST, AGAIN], 2, Some(9)), [AGAIN]))
  {
    var f, events := EventFile([FIRST], 1, Some(FIRST.id)), [NewEvent("again", NoWorkflow)];
    assert !Mentions([FIRST], 9);
    AppendOutcome(f, 0, Any, events, [9], TEN, 3);
    assert Batch(events, [9], 1, 1, TEN) == [AGAIN];
    assert [FIRST] + [AGAIN] == [FIRST, AGAIN];
  }
}
