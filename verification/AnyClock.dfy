/**
Appends and rotations at any clock readings at all. What keeps reads right is not the clock itself
but which file a rotation takes up: exactly when it takes up one whose rows are not the end of the
log, reads lose events.
*/
module AnyClock {
  import opened Results
  import opened PartitionNames
  import VersionOrder
  import opened EventFiles
  import opened PartitionStore
  import opened StoreReads
  import opened CatalogReads
  import StoreSteps
  import Recovery
  import Rotations

  /** A sound file, whatever its head row says of the last event's id. */
  predicate RowsSound(f: EventFile)
  {
    FileOk(f.(lastId := if f.rows == [] then None else Some(f.rows[|f.rows| - 1].id)), f.head - |f.rows|)
  }

  /**
  An open store whose files hold the log and whose catalog shows it, with the head of the log in an
  active file that follows, in the catalog, every other file that holds rows. Names and times play
  no part in it.
  */
  ghost predicate Laid(s: State, log: seq<Event>)
  {
    && s.memory.Open? && s.memory.active.name in s.files && s.catalog.Keys == s.files.Keys
    && Split(RowsOf(s.files), log) && Shows(RowsOf(s.files), s.catalog)
    && (forall n | n in s.files :: RowsSound(s.files[n]))
    && (var a := s.memory.active.name;
        && s.files[a].head == |log|
        && s.catalog[a].lastVersion == None && s.catalog[a].firstVersion <= |log| + 1
        && forall n | n in s.files && s.files[n].rows != [] ::
             && s.catalog[n].firstVersion <= |log|
             && (n != a ==> s.catalog[n].firstVersion < s.catalog[a].firstVersion))
  }

  /** A rotation to this file takes up no rows, or only rows that end the log. */
  predicate TakesUpNoneBehind(s: State, b: string)
    requires s.memory.Open? && s.memory.active.name in s.files
  {
    b !in s.files || s.files[b].rows == [] || s.files[b].head == s.files[s.memory.active.name].head
  }

  lemma LaidServes(s: State, log: seq<Event>)
    requires Laid(s, log)
    ensures PagesServe(s.files, s.catalog, log)
  {
    hide PagesServe, Split, Shows;
    PagesServeExactly(s.files, s.catalog, log);
  }

  // ----- the store's own states are laid out

  lemma {:induction false} TiledSplits(files: Files)
    requires Tiled(files)
    ensures Split(RowsOf(files), LogOf(files))
    decreases files.Keys
  {
    hide FirstVersion, HeadOf, FileOk, Tiled, LastFile, LogOf, Split;
    LogIsContiguous(files);
    if files == map[] {
      StoreSteps.EmptyFull();
      NoneSplit();
    } else {
      var m := LastFile(files);
      var rest := files - {m};
      LastOfTiled(files);
      TiledSplits(rest);
      assert RowsOf(files) == RowsOf(rest)[m := files[m].rows];
      LogIsContiguous(rest);
      SplitGrows(RowsOf(rest), LogOf(rest), m, files[m].rows);
      assert [] + files[m].rows == files[m].rows;
    }
  }

  lemma NoneSplit()
    ensures Split(RowsOf(map[]), [])
  {
  }

  function RowsAt(view: View, m: string): seq<Event> { if m in view then view[m] else [] }

  /** Adding the next rows of the log to a file that is empty, or new, or holds the log's end. */
  lemma SplitGrows(view: View, log: seq<Event>, m: string, batch: seq<Event>)
    requires Split(view, log) && Numbered(log + batch)
    requires RowsAt(view, m) != [] ==> LastOf(RowsAt(view, m)) == |log|
    ensures Split(view[m := RowsAt(view, m) + batch], log + batch)
  {
    hide Earlier, Stretch;
    var before, whole := RowsAt(view, m), log + batch;
    var after := view[m := before + batch];
    forall n | n in after ensures Stretch(after[n], whole) {
      if n == m {
        GrownStretch(view, log, m, batch);
      } else {
        StretchOfMore(view[n], log, batch);
      }
    }
    forall a, b | a in after && b in after && a != b && after[a] != [] && after[b] != []
      ensures Earlier(after, a, b) || Earlier(after, b, a)
    {
      if a == m {
        GrownIsLater(view, log, m, batch, b);
      } else if b == m {
        GrownIsLater(view, log, m, batch, a);
      } else {
        assert Earlier(view, a, b) || Earlier(view, b, a);
        SameEarlier(view, after, a, b);
      }
    }
    forall e <- whole ensures exists n :: n in after && e in after[n] { HeldSomewhere(view, log, m, batch, e); }
  }

  lemma SameEarlier(view: View, after: View, a: string, b: string)
    requires a in view && b in view && a in after && b in after && view[a] == after[a] && view[b] == after[b]
    ensures Earlier(view, a, b) == Earlier(after, a, b) && Earlier(view, b, a) == Earlier(after, b, a)
  {
  }

  lemma StretchOfMore(rows: seq<Event>, log: seq<Event>, batch: seq<Event>)
    requires Stretch(rows, log)
    ensures Stretch(rows, log + batch)
  {
    assert (log + batch)[..|log|] == log;
  }

  lemma GrownStretch(view: View, log: seq<Event>, m: string, batch: seq<Event>)
    requires Split(view, log) && Numbered(log + batch)
    requires RowsAt(view, m) != [] ==> LastOf(RowsAt(view, m)) == |log|
    ensures Stretch(RowsAt(view, m) + batch, log + batch)
  {
    var before, whole := RowsAt(view, m), log + batch;
    if before != [] {
      StretchVersions(before, log, |before| - 1);
      assert whole[FirstOf(before) - 1..] == before + batch;
    } else if batch != [] {
      assert batch[0] == whole[|log|] && whole[|log|..] == batch;
    }
  }

  lemma GrownIsLater(view: View, log: seq<Event>, m: string, batch: seq<Event>, n: string)
    requires Split(view, log) && Numbered(log + batch) && n in view && n != m && view[n] != []
    requires RowsAt(view, m) != [] ==> LastOf(RowsAt(view, m)) == |log|
    requires RowsAt(view, m) + batch != []
    ensures Earlier(view[m := RowsAt(view, m) + batch], n, m)
  {
    HoldsBetween(view, log, n, view[n][|view[n]| - 1]);
    if RowsAt(view, m) == [] {
      assert batch[0] == (log + batch)[|log|];
    } else {
      HoldsBetween(view, log, m, view[m][0]);
      assert Earlier(view, n, m) || Earlier(view, m, n);
    }
  }

  lemma HeldSomewhere(view: View, log: seq<Event>, m: string, batch: seq<Event>, e: Event)
    requires Split(view, log) && e in log + batch
    ensures var after := view[m := RowsAt(view, m) + batch]; exists n :: n in after && e in after[n]
  {
    var after := view[m := RowsAt(view, m) + batch];
    if e in batch {
      assert m in after && e in after[m];
    } else {
      assert e in log;
      var n :| n in view && e in view[n];
      assert n in after && e in after[n];
    }
  }

  /** Rows of a sound file end at its head. */
  lemma SoundEnds(f: EventFile)
    requires RowsSound(f)
    ensures f.rows != [] ==> LastOf(f.rows) == f.head && FirstOf(f.rows) == f.head - |f.rows| + 1 == FirstVersion(f)
    ensures f.rows == [] ==> FirstVersion(f) == f.head + 1
  {
    FirstOfRows(f.(lastId := if f.rows == [] then None else Some(f.rows[|f.rows| - 1].id)), f.head - |f.rows|);
  }

  lemma TiledSound(files: Files, n: string)
    requires Tiled(files) && n in files
    ensures RowsSound(files[n])
  {
    var base := FileInTiled(files, n);
  }

  /** What the state machine's invariant says of an open store's files and catalog, file by file. */
  lemma TiledRow(files: Files, n: string)
    requires Tiled(files) && files != map[] && n in files
    ensures FullCatalog(files)[n].firstVersion == FirstVersion(files[n])
    ensures FullCatalog(files)[n].lastVersion == if n == LastFile(files) then None else Some(files[n].head)
    ensures files[n].head <= HeadOf(files)
    ensures n != LastFile(files) && files[n].rows != [] ==>
              FirstVersion(files[n]) < FirstVersion(files[LastFile(files)])
  {
    hide FirstVersion, FileOk;
    var m := LastFile(files);
    Recovery.HeadsBelow(files);
    LastOfTiled(files);
    if n != m {
      Recovery.HeadsBelow(files - {m});
      assert n in files - {m};
      TiledSound(files, n);
      SoundEnds(files[n]);
    }
  }

  lemma FullShows(files: Files)
    requires Tiled(files) && files != map[]
    ensures Shows(RowsOf(files), FullCatalog(files))
  {
    hide FirstVersion, FileOk, Tiled, FullCatalog;
    var view, catalog := RowsOf(files), FullCatalog(files);
    FullKeys(files);
    forall n | n in files ensures catalog[n].lastVersion.None? || catalog[n].lastVersion == Some(files[n].head) {
      TiledRow(files, n);
    }
    forall n | n in view && view[n] != []
      ensures n in catalog && (catalog[n].lastVersion.None? || catalog[n].lastVersion.value >= LastOf(view[n]))
    {
      TiledSound(files, n);
      SoundEnds(files[n]);
    }
    forall m, n | Earlier(view, m, n) && m in catalog && n in catalog
      ensures VersionOrder.Before(CatalogKeys(catalog), m, n)
    {
      TiledRow(files, m);
      TiledRow(files, n);
      TiledSound(files, m);
      TiledSound(files, n);
      SoundEnds(files[m]);
      SoundEnds(files[n]);
    }
  }

  lemma FullKeys(files: Files)
    requires files != map[]
    ensures FullCatalog(files).Keys == files.Keys
  {
  }

  /** Every open state the store reaches is laid out. */
  lemma InvIsLaid(window: int, s: State)
    requires window > 0 && Inv(window, s) && s.memory.Open?
    ensures Laid(s, LogOf(s.files))
  {
    hide FirstVersion, FileOk, Tiled, LogOf, Split, Shows, RowsSound, Describes, NamedBy, AllParse, HeadOf;
    var files := s.files;
    TiledSplits(files);
    FullShows(files);
    LogIsContiguous(files);
    FullKeys(files);
    HeadOfLast(files);
    forall n | n in files ensures RowsSound(files[n]) { TiledSound(files, n); }
    TiledRow(files, LastFile(files));
    TiledSound(files, LastFile(files));
    SoundEnds(files[LastFile(files)]);
    forall n | n in files && files[n].rows != []
      ensures s.catalog[n].firstVersion <= |LogOf(files)|
      ensures n != LastFile(files) ==> s.catalog[n].firstVersion < s.catalog[LastFile(files)].firstVersion
    {
      TiledRow(files, n);
      TiledSound(files, n);
      SoundEnds(files[n]);
    }
  }

  lemma HeadOfLast(files: Files)
    requires files != map[]
    ensures HeadOf(files) == files[LastFile(files)].head
  {
  }

  // ----- one rotation

  lemma RotatedRows(window: int, s: State, log: seq<Event>, now: int)
    requires window > 0 && Laid(s, log) && DetermineNext(window, s.memory.active, now).Ok?
    ensures var b := DetermineNext(window, s.memory.active, now).value.name;
            var s' := Rotations.Rotate(window, s, now);
            var view' := RowsOf(s'.files);
            && s'.catalog.Keys == s'.files.Keys && Split(view', log) && b in view'
            && view'[b] == RowsAt(RowsOf(s.files), b)
            && (forall n | n != b :: n in view' <==> n in s.files)
            && (forall n | n in s.files && n != b :: view'[n] == s.files[n].rows)
  {
    hide DetermineNext, Shows, Split, RowsSound, SealRange;
    var b := DetermineNext(window, s.memory.active, now).value.name;
    var s', view := Rotations.Rotate(window, s, now), RowsOf(s.files);
    assert SealRange(s.catalog, s.memory.active.name, s.files[s.memory.active.name].head).Keys == s.catalog.Keys by {
      SealedKeys(s.catalog, s.memory.active.name, s.files[s.memory.active.name].head);
    }
    if b in s.files {
      assert RowsOf(s'.files) == view;
    } else {
      SplitNumbered(view, log);
      assert log + [] == log;
      SplitGrows(view, log, b, []);
      assert RowsAt(view, b) + [] == [];
      assert s'.files == s.files[b := EventFile([], s.files[s.memory.active.name].head, None)];
      assert RowsOf(s'.files) == view[b := []];
    }
  }

  lemma SealedKeys(catalog: Catalog, name: string, lastVersion: int)
    ensures SealRange(catalog, name, lastVersion).Keys == catalog.Keys
  {
  }

  /** The catalog rows that a rotation leaves: the old active file sealed at the head, the new one open behind it. */
  lemma RotatedRow(window: int, s: State, log: seq<Event>, now: int, n: string)
    requires window > 0 && Laid(s, log) && DetermineNext(window, s.memory.active, now).Ok?
    ensures var b := DetermineNext(window, s.memory.active, now).value.name;
            var s' := Rotations.Rotate(window, s, now);
            && b in s'.catalog && s'.catalog[b] == OpenRange(b, |log| + 1)
            && (n in s.catalog && n != b ==>
                  && n in s'.catalog && s'.catalog[n].firstVersion == s.catalog[n].firstVersion
                  && s'.catalog[n].lastVersion
                     == if n == s.memory.active.name then Some(|log|) else s.catalog[n].lastVersion)
  {
    hide DetermineNext, Shows, Split, RowsSound;
  }

  lemma NoneBehindShows(window: int, s: State, log: seq<Event>, now: int)
    requires window > 0 && Laid(s, log) && DetermineNext(window, s.memory.active, now).Ok?
    requires TakesUpNoneBehind(s, DetermineNext(window, s.memory.active, now).value.name)
    ensures Shows(RowsOf(Rotations.Rotate(window, s, now).files), Rotations.Rotate(window, s, now).catalog)
  {
    hide DetermineNext, Split, Rotations.Rotate, RowsSound, Laid, TakesUpNoneBehind;
    LaidIsOpen(s, log);
    RotatedRows(window, s, log, now);
    var s' := Rotations.Rotate(window, s, now);
    var view' := RowsOf(s'.files);
    forall n | n in view' && view'[n] != []
      ensures n in s'.catalog
      ensures s'.catalog[n].lastVersion.None? || s'.catalog[n].lastVersion.value >= LastOf(view'[n])
    {
      RotatedListed(window, s, log, now, n);
    }
    forall m, n | Earlier(view', m, n) && m in s'.catalog && n in s'.catalog
      ensures VersionOrder.Before(CatalogKeys(s'.catalog), m, n)
    {
      RotatedOrder(window, s, log, now, m, n);
    }
  }

  lemma LaidIsOpen(s: State, log: seq<Event>)
    requires Laid(s, log)
    ensures s.memory.Open? && s.memory.active.name in s.files
  {
  }

  lemma RotatedListed(window: int, s: State, log: seq<Event>, now: int, n: string)
    requires window > 0 && Laid(s, log) && DetermineNext(window, s.memory.active, now).Ok?
    requires n in Rotations.Rotate(window, s, now).files && Rotations.Rotate(window, s, now).files[n].rows != []
    ensures var s' := Rotations.Rotate(window, s, now);
            && n in s'.catalog
            && (s'.catalog[n].lastVersion.None? || s'.catalog[n].lastVersion.value >= LastOf(s'.files[n].rows))
  {
    hide DetermineNext, Split, Rotations.Rotate, RowsSound;
    var b := DetermineNext(window, s.memory.active, now).value.name;
    RotatedRows(window, s, log, now);
    RotatedRow(window, s, log, now, n);
    var view' := RowsOf(Rotations.Rotate(window, s, now).files);
    if n != b {
      assert view'[n] == s.files[n].rows && n in RowsOf(s.files);
      SoundEnds(s.files[n]);
    }
  }

  lemma RotatedOrder(window: int, s: State, log: seq<Event>, now: int, m: string, n: string)
    requires window > 0 && Laid(s, log) && DetermineNext(window, s.memory.active, now).Ok?
    requires TakesUpNoneBehind(s, DetermineNext(window, s.memory.active, now).value.name)
    requires Earlier(RowsOf(Rotations.Rotate(window, s, now).files), m, n)
    requires m in Rotations.Rotate(window, s, now).catalog && n in Rotations.Rotate(window, s, now).catalog
    ensures VersionOrder.Before(CatalogKeys(Rotations.Rotate(window, s, now).catalog), m, n)
  {
    hide DetermineNext, Split, Rotations.Rotate, RowsSound;
    var b := DetermineNext(window, s.memory.active, now).value.name;
    var view, view' := RowsOf(s.files), RowsOf(Rotations.Rotate(window, s, now).files);
    RotatedRows(window, s, log, now);
    RotatedRow(window, s, log, now, m);
    RotatedRow(window, s, log, now, n);
    EarlierDiffers(view', log, m, n);
    if m == b {
      SoundEnds(s.files[b]);
      HoldsBetween(view', log, n, view'[n][0]);
    } else if n != b {
      SameEarlier(view, view', m, n);
    }
  }

  /** Some file holds the end of the log. */
  lemma EndHolder(view: View, log: seq<Event>) returns (n: string)
    requires Split(view, log) && log != []
    ensures n in view && view[n] != [] && LastOf(view[n]) == |log|
  {
    var e := log[|log| - 1];
    assert e in log;
    n :| n in view && e in view[n];
    HoldsBetween(view, log, n, e);
  }

  lemma BehindDoesNotShow(window: int, s: State, log: seq<Event>, now: int)
    requires window > 0 && Laid(s, log) && DetermineNext(window, s.memory.active, now).Ok?
    requires !TakesUpNoneBehind(s, DetermineNext(window, s.memory.active, now).value.name)
    ensures !Shows(RowsOf(Rotations.Rotate(window, s, now).files), Rotations.Rotate(window, s, now).catalog)
  {
    hide DetermineNext, Rotations.Rotate, RowsSound, Stretch;
    var b := DetermineNext(window, s.memory.active, now).value.name;
    var s', view := Rotations.Rotate(window, s, now), RowsOf(s.files);
    var view' := RowsOf(s'.files);
    RotatedRows(window, s, log, now);
    SoundEnds(s.files[b]);
    HoldsBetween(view, log, b, view[b][0]);
    var n := EndHolder(view, log);
    assert n != b && Earlier(view', b, n) by {
      assert Earlier(view', b, n) || Earlier(view', n, b);
    }
    RotatedRow(window, s, log, now, n);
    assert !VersionOrder.Before(CatalogKeys(s'.catalog), b, n);
  }

  /**
  Whatever the clock said: after a rotation every read is as the log says if and only if the file it
  took up is new, or empty, or holds the end of the log.
  */
  lemma RotationServesExactly(window: int, s: State, log: seq<Event>, now: int)
    requires window > 0 && Laid(s, log) && DetermineNext(window, s.memory.active, now).Ok?
    ensures var s' := Rotations.Rotate(window, s, now);
            && s'.catalog.Keys <= s'.files.Keys
            && (PagesServe(s'.files, s'.catalog, log)
                <==> TakesUpNoneBehind(s, DetermineNext(window, s.memory.active, now).value.name))
  {
    hide DetermineNext, Rotations.Rotate, PagesServe, Shows, Split, TakesUpNoneBehind, RowsSound;
    var s' := Rotations.Rotate(window, s, now);
    RotatedRows(window, s, log, now);
    PagesServeExactly(s'.files, s'.catalog, log);
    if TakesUpNoneBehind(s, DetermineNext(window, s.memory.active, now).value.name) {
      NoneBehindShows(window, s, log, now);
    } else {
      BehindDoesNotShow(window, s, log, now);
    }
  }

  /** A rotation to a new or an empty file leaves the store laid out, ready for all that may follow. */
  lemma FreshRotationKeepsLaid(window: int, s: State, log: seq<Event>, now: int)
    requires window > 0 && Laid(s, log) && DetermineNext(window, s.memory.active, now).Ok?
    requires var b := DetermineNext(window, s.memory.active, now).value.name;
             b !in s.files || s.files[b].rows == []
    ensures Laid(Rotations.Rotate(window, s, now), log)
  {
    hide DetermineNext, Split, Shows, FileOk;
    var b := DetermineNext(window, s.memory.active, now).value.name;
    var s' := Rotations.Rotate(window, s, now);
    RotatedRows(window, s, log, now);
    NoneBehindShows(window, s, log, now);
    EmptyIsSound(|log|);
    forall n | n in s'.files ensures RowsSound(s'.files[n]) {
      if n != b { assert s'.files[n] == s.files[n]; }
    }
    forall n | n in s'.files && s'.files[n].rows != []
      ensures s'.catalog[n].firstVersion <= |log| && s'.catalog[n].firstVersion < s'.catalog[b].firstVersion
    {
      RotatedRow(window, s, log, now, n);
    }
  }

  lemma EmptyIsSound(head: int)
    ensures RowsSound(EventFile([], head, None)) && forall id :: RowsSound(EventFile([], head, id))
  {
  }

  // ----- one append

  /** The head row's record of the last event id plays no part in an append. */
  lemma LastIdPlaysNoPart(f: EventFile, lastId: Option<Id>, expected: ExpectedVersion, events: seq<NewEvent>,
                          ids: seq<Id>, now: int, fault: nat)
    requires |ids| == |events| > 0
    ensures AppendTransaction(f, expected, events, ids, now, fault)
         == AppendTransaction(f.(lastId := lastId), expected, events, ids, now, fault)
  {
    hide InsertAll, MaxSequence;
  }

  lemma RowInLog(view: View, log: seq<Event>, n: string, e: Event)
    requires Split(view, log) && n in view && e in view[n]
    ensures e in log
  {
    HoldsBetween(view, log, n, e);
  }

  lemma FreshInFile(view: View, log: seq<Event>, n: string, ids: seq<Id>, events: seq<NewEvent>)
    requires Split(view, log) && n in view && FreshIds(ids, events, log)
    ensures FreshIds(ids, events, view[n])
  {
    forall i | 0 <= i < |ids| ensures !Mentions(view[n], ids[i]) {
      if r :| r in view[n] && (r.id == ids[i] || r.anchor == Some(ids[i])) {
        RowInLog(view, log, n, r);
      }
    }
  }

  /** What an append does to the active file of a store that is laid out. */
  lemma LaidAppend(s: State, log: seq<Event>, expected: ExpectedVersion, events: seq<NewEvent>, ids: seq<Id>,
                   now: int, fault: nat)
    requires Laid(s, log) && events != [] && FreshIds(ids, events, log)
    ensures |ids| == |events|
    ensures var (s', r) := AppendTo(s, expected, events, ids, now, fault);
            var a := s.memory.active.name;
            && (r.Err? ==> s' == s)
            && (r.Ok? <==> ValidateExpected(expected, |log|).Ok? && fault > |events| + 1)
            && (r.Ok? ==> && r.value != [] && Numbered(log + r.value)
                          && s'.memory == s.memory && s'.catalog == s.catalog && s'.files.Keys == s.files.Keys
                          && (forall n | n in s.files && n != a :: s'.files[n] == s.files[n])
                          && s'.files[a].rows == s.files[a].rows + r.value
                          && s'.files[a].head == |log| + |r.value| && RowsSound(s'.files[a]))
  {
    hide AppendTransaction, Split, Shows, RowsSound, FreshIds, ValidateExpected, Numbered;
    FreshLength(ids, events, log);
    FreshInFile(RowsOf(s.files), log, s.memory.active.name, ids, events);
    SoundAppend(s.files[s.memory.active.name], expected, events, ids, now, fault);
    SplitNumbered(RowsOf(s.files), log);
    var r := AppendTo(s, expected, events, ids, now, fault).1;
    if r.Ok? { NumberedOn(log, r.value); }
  }

  lemma NumberedOn(log: seq<Event>, batch: seq<Event>)
    requires Numbered(log) && forall i | 0 <= i < |batch| :: batch[i].version == |log| + 1 + i
    ensures Numbered(log + batch)
  {
  }

  lemma SoundAppend(f: EventFile, expected: ExpectedVersion, events: seq<NewEvent>, ids: seq<Id>, now: int, fault: nat)
    requires RowsSound(f) && events != [] && FreshIds(ids, events, f.rows)
    ensures |ids| == |events|
    ensures var r := AppendTransaction(f, expected, events, ids, now, fault);
            && (r.Ok? <==> ValidateExpected(expected, f.head).Ok? && fault > |events| + 1)
            && (r.Ok? ==> && r.value.1 != [] && r.value.0.rows == f.rows + r.value.1
                          && r.value.0.head == f.head + |r.value.1| && RowsSound(r.value.0)
                          && forall i | 0 <= i < |r.value.1| :: r.value.1[i].version == f.head + 1 + i)
  {
    hide AppendTransaction, FileOk, Batch, FreshIds, ValidateExpected;
    var lastId := if f.rows == [] then None else Some(f.rows[|f.rows| - 1].id);
    FreshLength(ids, events, f.rows);
    LastIdPlaysNoPart(f, lastId, expected, events, ids, now, fault);
    AppendOutcome(f.(lastId := lastId), f.head - |f.rows|, expected, events, ids, now, fault);
    BatchContinues(f.rows, f.head, events, ids, now);
    var r := AppendTransaction(f, expected, events, ids, now, fault);
    if r.Ok? { OkIsSound(r.value.0, f.head - |f.rows|); }
  }

  lemma OkIsSound(f: EventFile, base: int)
    requires FileOk(f, base)
    ensures RowsSound(f)
  {
  }

  lemma GrownShows(s: State, log: seq<Event>, batch: seq<Event>)
    requires Laid(s, log) && batch != [] && Numbered(log + batch)
    ensures var a, view := s.memory.active.name, RowsOf(s.files);
            var view' := view[a := view[a] + batch];
            Split(view', log + batch) && Shows(view', s.catalog)
  {
    hide Split, RowsSound, Stretch;
    var a, view := s.memory.active.name, RowsOf(s.files);
    var view' := view[a := view[a] + batch];
    SoundEnds(s.files[a]);
    SplitGrows(view, log, a, batch);
    forall m, n | Earlier(view', m, n) && m in s.catalog && n in s.catalog
      ensures VersionOrder.Before(CatalogKeys(s.catalog), m, n)
    {
      EarlierDiffers(view', log + batch, m, n);
      if m == a {
        GrownIsLater(view, log, a, batch, n);
        HoldsBetween(view', log + batch, m, view'[m][0]);
        HoldsBetween(view', log + batch, n, view'[n][0]);
      } else if n != a {
        SameEarlier(view, view', m, n);
      }
    }
  }

  /** An append keeps the store laid out, with the appended events at the end of the log. */
  lemma AppendKeepsLaid(s: State, log: seq<Event>, expected: ExpectedVersion, events: seq<NewEvent>, ids: seq<Id>,
                        now: int, fault: nat)
    requires Laid(s, log) && |ids| == |events| && FreshIds(ids, events, log)
    ensures var (s', r) := AppendTo(s, expected, events, ids, now, fault);
            Laid(s', log + if r.Ok? then r.value else []) && s'.memory == s.memory
  {
    hide AppendTo, Split, Shows, RowsSound, FreshIds;
    var (s', r) := AppendTo(s, expected, events, ids, now, fault);
    if events == [] {
      NoEventsChangeNothing(s, expected, ids, now, fault);
      assert log + [] == log;
    } else {
      LaidAppend(s, log, expected, events, ids, now, fault);
      if r.Ok? {
        GrownShows(s, log, r.value);
        var a := s.memory.active.name;
        assert RowsOf(s'.files) == RowsOf(s.files)[a := RowsOf(s.files)[a] + r.value];
      } else {
        assert log + [] == log;
      }
    }
  }

  lemma NoEventsChangeNothing(s: State, expected: ExpectedVersion, ids: seq<Id>, now: int, fault: nat)
    requires s.memory.Open? && s.memory.active.name in s.files && ids == []
    ensures AppendTo(s, expected, [], ids, now, fault) == (s, Ok([]))
  {
  }

  // ----- runs at any clock

  datatype Act =
    | Turn(now: int)
    | Put(expected: ExpectedVersion, events: seq<NewEvent>, ids: seq<Id>, now: int, fault: nat)

  /** An append or a rotation, from a store holding one log to a store holding the next. */
  ghost predicate ActTaken(window: int, s: State, log: seq<Event>, act: Act, s': State, log': seq<Event>)
    requires window > 0
  {
    && s.memory.Open? && s.memory.active.name in s.files
    && match act
       case Turn(now) => s' == Rotations.Rotate(window, s, now) && log' == log
       case Put(expected, events, ids, now, fault) =>
         && |ids| == |events| && FreshIds(ids, events, log)
         && var r := AppendTo(s, expected, events, ids, now, fault);
            s' == r.0 && log' == log + if r.1.Ok? then r.1.value else []
  }

  /** The rotation, if it is one, takes up a new or an empty file. */
  predicate TakesUpNoRows(window: int, s: State, act: Act)
    requires window > 0
  {
    act.Turn? && s.memory.Open? && DetermineNext(window, s.memory.active, act.now).Ok? ==>
      var b := DetermineNext(window, s.memory.active, act.now).value.name;
      b !in s.files || s.files[b].rows == []
  }

  ghost predicate IsActRun(window: int, run: seq<State>, logs: seq<seq<Event>>, acts: seq<Act>)
    requires window > 0
  {
    && |run| == |logs| == |acts| + 1
    && forall i {:trigger acts[i]} | 0 <= i < |acts| ::
         ActTaken(window, run[i], logs[i], acts[i], run[i + 1], logs[i + 1])
  }

  lemma ActOf(window: int, run: seq<State>, logs: seq<seq<Event>>, acts: seq<Act>, i: nat)
    requires window > 0 && IsActRun(window, run, logs, acts) && i < |acts|
    ensures |run| == |logs| == |acts| + 1
    ensures ActTaken(window, run[i], logs[i], acts[i], run[i + 1], logs[i + 1])
  {
  }

  /**
  Appends and rotations at any clock readings, forwards and backwards: as long as no rotation takes
  up a file that holds rows, every read at every point is as the log says.
  */
  lemma {:induction false} AnyClockServes(window: int, run: seq<State>, logs: seq<seq<Event>>, acts: seq<Act>, n: nat)
    requires window > 0 && IsActRun(window, run, logs, acts) && n <= |acts| && Laid(run[0], logs[0])
    requires forall i {:trigger acts[i]} | 0 <= i < n :: TakesUpNoRows(window, run[i], acts[i])
    ensures Laid(run[n], logs[n]) && PagesServe(run[n].files, run[n].catalog, logs[n])
  {
    hide PagesServe, Laid, AppendTo, Rotations.Rotate, DetermineNext, FreshIds;
    if n > 0 {
      AnyClockServes(window, run, logs, acts, n - 1);
      ActOf(window, run, logs, acts, n - 1);
      var s, act := run[n - 1], acts[n - 1];
      match act
      case Turn(now) =>
        if DetermineNext(window, s.memory.active, now).Ok? {
          FreshRotationKeepsLaid(window, s, logs[n - 1], now);
        } else {
          RefusedRotation(window, s, now);
        }
      case Put(expected, events, ids, now, fault) =>
        AppendKeepsLaid(s, logs[n - 1], expected, events, ids, now, fault);
    }
    LaidServes(run[n], logs[n]);
  }

  lemma RefusedRotation(window: int, s: State, now: int)
    requires window > 0 && s.memory.Open? && s.memory.active.name in s.files
    requires DetermineNext(window, s.memory.active, now).Err?
    ensures Rotations.Rotate(window, s, now) == s
  {
  }

  // ----- what the clock has to do with it

  /** Under the guard on the clock a rotation takes up a new file. */
  lemma GuardTakesUpNew(window: int, s: State, now: int)
    requires AlignedWindow(window) && Inv(window, s) && s.memory.Open? && s.memory.active.name in s.files && now >= 0
    requires DetermineNext(window, s.memory.active, now).Ok? && FloorToWindow(now, window) >= s.memory.active.startMs
    ensures DetermineNext(window, s.memory.active, now).value.name !in s.files
  {
    hide Inv, DetermineNext, FloorToWindow;
    StoreSteps.NextIsFresh(window, s, now);
  }

  /**
  In every open state that the store reaches, a rotation at any reading leaves all reads right if
  and only if the file it takes up is new, or empty, or has the head of the active file. A reading
  in the active window or a later one always takes up a new file.
  */
  lemma StoreRotationServesExactly(window: int, s: State, now: int)
    requires AlignedWindow(window) && Inv(window, s) && s.memory.Open? && s.memory.active.name in s.files && now >= 0
    requires DetermineNext(window, s.memory.active, now).Ok?
    ensures var s', b := Rotations.Rotate(window, s, now), DetermineNext(window, s.memory.active, now).value.name;
            && s'.catalog.Keys <= s'.files.Keys
            && (PagesServe(s'.files, s'.catalog, LogOf(s.files))
                <==> b !in s.files || s.files[b].rows == [] || s.files[b].head == s.files[s.memory.active.name].head)
            && (FloorToWindow(now, window) >= s.memory.active.startMs ==>
                  PagesServe(s'.files, s'.catalog, LogOf(s.files)))
  {
    hide Inv, DetermineNext, FloorToWindow, LogOf, PagesServe, Rotations.Rotate, Laid;
    InvIsLaid(window, s);
    RotationServesExactly(window, s, LogOf(s.files), now);
    if FloorToWindow(now, window) >= s.memory.active.startMs { GuardTakesUpNew(window, s, now); }
  }

  /** The file that a rotation goes back to once the clock has recovered. */
  lemma ClockRecovers(window: int, a: Active, b: Active, now: int, later: int)
    requires AlignedWindow(window) && Describes(window, a) && a.ordinal == None
    requires DetermineNext(window, a, now) == Ok(b) && FloorToWindow(now, window) < a.startMs
    requires FloorToWindow(later, window) == a.startMs
    ensures DetermineNext(window, b, later) == Ok(a)
  {
    hide FloorToWindow, GeneratePartitionName;
  }

  /**
  What a clock that falls back costs, even when the rotation takes up a new file and harms nothing
  itself: once something has been appended there, the rotation that follows when the clock has
  recovered takes up the former active file again, and reads lose events.
  */
  lemma FallingBackCosts(window: int, s: State, now: int, expected: ExpectedVersion, events: seq<NewEvent>,
                         ids: seq<Id>, at: int, fault: nat, later: int)
    requires AlignedWindow(window) && Inv(window, s) && s.memory.Open? && s.memory.active.name in s.files
    requires s.memory.active.ordinal == None && s.files[s.memory.active.name].rows != []
    requires DetermineNext(window, s.memory.active, now).Ok? && FloorToWindow(now, window) < s.memory.active.startMs
    requires DetermineNext(window, s.memory.active, now).value.name !in s.files
    requires FloorToWindow(later, window) == s.memory.active.startMs
    requires |ids| == |events| > 0 && FreshIds(ids, events, LogOf(s.files))
    requires AppendTo(Rotations.Rotate(window, s, now), expected, events, ids, at, fault).1.Ok?
    ensures var s1 := Rotations.Rotate(window, s, now);
            var (s2, r) := AppendTo(s1, expected, events, ids, at, fault);
            var log := LogOf(s.files);
            && s1.catalog.Keys <= s1.files.Keys && PagesServe(s1.files, s1.catalog, log)
            && s2.catalog.Keys <= s2.files.Keys && PagesServe(s2.files, s2.catalog, log + r.value)
            && s2.memory.Open? && s2.memory.active.name in s2.files
            && var s3 := Rotations.Rotate(window, s2, later);
               s3.catalog.Keys <= s3.files.Keys && !PagesServe(s3.files, s3.catalog, log + r.value)
  {
    hide FloorToWindow, DetermineNext, LogOf, PagesServe, Split, Shows, RowsSound, FreshIds, AppendTo;
    hide Describes, NamedBy, Tiled, FullCatalog, AllParse;
    var log, a := LogOf(s.files), s.memory.active;
    InvIsLaid(window, s);
    FreshRotationKeepsLaid(window, s, log, now);
    var s1 := Rotations.Rotate(window, s, now);
    LaidServes(s1, log);
    LaidAppend(s1, log, expected, events, ids, at, fault);
    AppendKeepsLaid(s1, log, expected, events, ids, at, fault);
    var (s2, r) := AppendTo(s1, expected, events, ids, at, fault);
    LaidServes(s2, log + r.value);
    ClockRecovers(window, a, s1.memory.active, now, later);
    assert s2.files[a.name].rows == s.files[a.name].rows && s2.files[a.name].head == |log|;
    RotationServesExactly(window, s2, log + r.value, later);
  }
}
