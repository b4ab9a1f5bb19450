/** Every step of the partition store keeps the invariant and either keeps the log or appends to it. */
module StoreSteps {
  import opened Results
  import opened TextOrder
  import opened PartitionNames
  import VersionOrder
  import opened EventFiles
  import opened PartitionStore

  // ----- names

  lemma DescribedNameParses(window: int, a: Active)
    requires window > 0 && Describes(window, a)
    ensures ParsePartitionName(a.name) == Ok((a.startMs, a.ordinal))
    ensures NamedBy(window, a.name)
  {
    NonNegativeYear(a.startMs);
    RoundTripExactly(a.startMs, window, a.ordinal);
  }

  lemma GeneratedIsDescribed(window: int, now: int, ordinal: Option<nat>)
    requires AlignedWindow(window) && now >= 0
    requires GeneratePartitionName(FloorToWindow(now, window), window, ordinal).Ok?
    ensures Describes(window, Active(GeneratePartitionName(FloorToWindow(now, window), window, ordinal).value,
                                     FloorToWindow(now, window), ordinal))
  {
    FloorIsWindowStart(now, window);
  }

  /**
  The next file's name describes its start and ordinal, and it follows the active name in text
  order exactly when the clock reading has not fallen back before the active window.
  */
  lemma NextFollows(window: int, a: Active, now: int)
    requires AlignedWindow(window) && Describes(window, a) && now >= 0
    requires DetermineNext(window, a, now).Ok?
    ensures var b := DetermineNext(window, a, now).value;
            Describes(window, b) && (Less(a.name, b.name) <==> FloorToWindow(now, window) >= a.startMs)
  {
    hide DateAt, TimestampInRange, FloorToWindow, GeneratePartitionName, CutTo, Granule;
    var b := DetermineNext(window, a, now).value;
    GeneratedIsDescribed(window, now, b.ordinal);
    NonNegativeYear(a.startMs);
    NonNegativeYear(b.startMs);
    TextOrderIsTimeOrder(a.startMs, a.ordinal, b.startMs, b.ordinal, window);
  }

  /** The name chosen by a rotation is new and follows the names of all files. */
  lemma NextIsFresh(window: int, s: State, now: int)
    requires AlignedWindow(window) && Inv(window, s) && s.memory.Open? && now >= 0
    requires DetermineNext(window, s.memory.active, now).Ok?
    ensures var b := DetermineNext(window, s.memory.active, now).value;
            ((b.name !in s.files && forall n | n in s.files :: Less(n, b.name))
              <==> FloorToWindow(now, window) >= s.memory.active.startMs)
  {
    hide Describes, DetermineNext, NamedBy, AllParse, FullCatalog, FloorToWindow;
    var a, b := s.memory.active, DetermineNext(window, s.memory.active, now).value;
    NextFollows(window, a, now);
    if Less(a.name, b.name) { NamesBefore(s.files, b.name); }
  }

  // ----- each step keeps the invariant

  lemma InitializeKeeps(window: int, s: State, now: int)
    requires AlignedWindow(window) && Inv(window, s) && Enabled(window, s, Initialize(now))
    ensures var s' := Apply(window, s, Initialize(now));
            && Inv(window, s') && LogOf(s'.files) == LogOf(s.files)
            && (s.files != map[] ==> s'.memory.Open? && s'.files == s.files && s'.catalog == FullCatalog(s.files))
  {
    hide Describes, FullCatalog, FloorToWindow, RebuiltRanges, CatalogOf, GeneratePartitionName, ParsePartitionName;
    hide NamedBy, Tiled, CreateFile;
    AllFilesParse(window, s.files);
    RebuildIsFull(s.files);
    if s.files != map[] {
      OpensLast(window, s.files);
    } else {
      EmptyFull();
      var name := GeneratePartitionName(FloorToWindow(now, window), window, None);
      if name.Ok? {
        GeneratedIsDescribed(window, now, None);
        FirstFileKeeps(window, Active(name.value, FloorToWindow(now, window), None));
      }
    }
  }

  /**
  Opening refuses exactly what it cannot name: it fails with InvalidPartition and changes nothing when a
  name in the catalog does not parse, or, if the catalog has to be rebuilt, a name of a file.
  */
  lemma OpeningRefuses(window: int, s: State, now: int)
    requires window > 0
    ensures InitializeActive(window, s, now).1 == Some(InvalidPartition) <==>
              || (exists n :: n in s.catalog && ParsePartitionName(n).Err?)
              || (|UnsealedKeys(s.catalog)| != 1 && exists n :: n in s.files && ParsePartitionName(n).Err?)
    ensures InitializeActive(window, s, now).1 == Some(InvalidPartition) ==> InitializeActive(window, s, now).0 == s
  {
    hide ParsePartitionName, FloorToWindow, RebuiltRanges, CatalogOf, GeneratePartitionName;
    NamesExactly(FloorToWindow(now, window), window, None);
    RebuildIsFull(s.files);
    assert FullCatalog(s.files).Keys == s.files.Keys;
    hide FullCatalog, LastFile;
  }

  /** An empty store opens with one empty file, named without an ordinal by the window of the reading. */
  lemma FirstFile(window: int, now: int)
    requires window > 0 && now >= 0
    requires GeneratePartitionName(now - now % window, window, None).Ok?
    ensures var name := GeneratePartitionName(now - now % window, window, None).value;
            InitializeActive(window, State(map[], map[], Closed), now)
            == (State(map[], map[name := EventFile([], 0, None)], Starting(Active(name, now - now % window, None))),
                None)
  {
    hide ParsePartitionName, FloorToWindow, GeneratePartitionName;
    FloorIsWindowStart(now, window);
    NoRanges();
  }

  lemma NoRanges()
    ensures CatalogOf(RebuiltRanges(map[])) == map[] && UnsealedKeys(map[]) == map[] && |UnsealedKeys(map[])| == 0
  {
    assert FileKeys(map[]) == map[];
  }

  lemma AllFilesParse(window: int, files: Files)
    requires window > 0 && forall n | n in files :: NamedBy(window, n)
    ensures AllParse(files.Keys)
  {
    hide ParsePartitionName, NamedBy;
    forall n | n in files ensures ParsePartitionName(n).Ok? { NamedParses(window, n); }
  }

  lemma EmptyFull()
    ensures FullCatalog(map[]) == map[] && UnsealedKeys(FullCatalog(map[])) == map[]
    ensures LogOf(map[]) == []
  {
  }

  /** The single unsealed row of a full catalog names the last file, and its name gives back what it describes. */
  lemma OpensLast(window: int, files: Files)
    requires window > 0 && files != map[] && forall n | n in files :: NamedBy(window, n)
    ensures var catalog := FullCatalog(files);
            var unsealed := UnsealedKeys(catalog);
            && |unsealed| == 1 && unsealed != map[] && VersionOrder.Greatest(unsealed) == LastFile(files)
            && (var p := ParsePartitionName(LastFile(files));
                p.Ok? && Describes(window, Active(LastFile(files), p.value.0, p.value.1)))
            && AllParse(catalog.Keys)
  {
    hide ParsePartitionName, Describes;
    FullHasOneUnsealed(files);
    AllFilesParse(window, files);
    assert FullCatalog(files).Keys == files.Keys;
    assert NamedBy(window, LastFile(files));
  }

  lemma FirstFileKeeps(window: int, a: Active)
    requires window > 0 && Describes(window, a)
    ensures var files: Files := map[a.name := EventFile([], 0, None)];
            && CreateFile(map[], a.name, 0) == files
            && Tiled(files) && LastFile(files) == a.name && LogOf(files) == []
            && NamedBy(window, a.name) && ParsePartitionName(a.name).Ok?
            && map[a.name := OpenRange(a.name, 1)] == FullCatalog(files)
  {
    hide NamedBy, Describes, ParsePartitionName, Tiled, LogOf, LastFile, FullCatalog;
    var files: Files := map[a.name := EventFile([], 0, None)];
    OneFile(a.name);
    assert map[][a.name := EventFile([], 0, None)] == files;
    DescribedNameParses(window, a);
  }

  lemma OneFile(name: string)
    ensures var files: Files := map[name := EventFile([], 0, None)];
            && name in files && Tiled(files) && LastFile(files) == name && LogOf(files) == []
            && FullCatalog(files) == map[name := OpenRange(name, 1)]
  {
    hide LogOf, LastFile;
    var f := EventFile([], 0, None);
    EmptyFull();
    AddLast(map[], name, f);
    assert map[][name := f] == map[name := f];
    assert SealedCatalog(map[name := f])[name := OpenRange(name, 1)] == map[name := OpenRange(name, 1)];
  }

  lemma PublishFirstKeeps(window: int, s: State)
    requires AlignedWindow(window) && Inv(window, s) && Enabled(window, s, PublishFirst)
    ensures Inv(window, Apply(window, s, PublishFirst))
  {
    hide Describes, NamedBy, FullCatalog, Tiled, LogOf, ParsePartitionName;
    var a := s.memory.first;
    FirstFileKeeps(window, a);
    assert s.catalog[a.name := OpenRange(a.name, 1)] == map[a.name := OpenRange(a.name, 1)];
  }

  lemma SealKeeps(window: int, s: State, now: int)
    requires AlignedWindow(window) && Inv(window, s) && Enabled(window, s, Seal(now))
    ensures Inv(window, Apply(window, s, Seal(now)))
  {
    hide Describes, NamedBy, DetermineNext, ParsePartitionName, Tiled, FloorToWindow, FirstVersion;
    NextFollows(window, s.memory.active, now);
    assert Apply(window, s, Seal(now)).catalog == SealedCatalog(s.files);
  }

  lemma CreateNextKeeps(window: int, s: State)
    requires AlignedWindow(window) && Inv(window, s) && Enabled(window, s, CreateNext)
    ensures var s' := Apply(window, s, CreateNext);
            Inv(window, s') && LogOf(s'.files) == LogOf(s.files)
  {
    hide Describes, NamedBy, AllParse, FullCatalog, SealedCatalog, FileOk, Tiled, LogOf;
    AddEmptyLast(s.files, s.memory.next.name);
    DescribedNameParses(window, s.memory.next);
  }

  lemma NamesBefore(files: Files, name: string)
    requires Tiled(files) && files != map[] && Less(LastFile(files), name)
    ensures name !in files && forall n | n in files :: Less(n, name)
  {
    hide FileOk, LastFile;
    var m := LastFile(files);
    forall n | n in files ensures Less(n, name) {
      if n != m {
        assert n in files - {m};
        Transitive(n, m, name);
      }
    }
    Irreflexive(name);
  }

  /** Adding an empty file under a later name keeps the files tiled and their log. */
  lemma AddEmptyLast(files: Files, name: string)
    requires Tiled(files) && files != map[] && Less(LastFile(files), name)
    ensures name !in files
    ensures var files' := files[name := EventFile([], HeadOf(files), None)];
            && Tiled(files') && LastFile(files') == name && files' - {name} == files && LogOf(files') == LogOf(files)
  {
    hide Tiled, LastFile, LogOf, HeadOf;
    NamesBefore(files, name);
    AddLast(files, name, EventFile([], HeadOf(files), None));
    assert LogOf(files) + [] == LogOf(files);
  }

  lemma PublishNextKeeps(window: int, s: State)
    requires AlignedWindow(window) && Inv(window, s) && Enabled(window, s, PublishNext)
    ensures Inv(window, Apply(window, s, PublishNext))
  {
    hide Describes, NamedBy, ParsePartitionName, Tiled;
    var a, b := s.memory.prev, s.memory.next;
    AllFilesParse(window, s.files);
    assert Apply(window, s, PublishNext).catalog == FullCatalog(s.files);
  }

  lemma NamedParses(window: int, n: string)
    requires window > 0 && NamedBy(window, n)
    ensures ParsePartitionName(n).Ok?
  {
  }

  lemma AppendKeeps(window: int, s: State, step: Step)
    requires AlignedWindow(window) && Inv(window, s) && step.Append? && s.memory.Open?
    requires s.memory.active.name in s.files && FreshIds(step.ids, step.events, LogOf(s.files))
    requires |step.ids| == |step.events|
    ensures var (s', r) := AppendTo(s, step.expected, step.events, step.ids, step.now, step.fault);
            && Inv(window, s') && (r.Err? ==> s' == s)
            && LogOf(s'.files) == LogOf(s.files) + (if r.Ok? then r.value else [])
            && (r.Ok? <==> step.events == [] ||
                           (ValidateExpected(step.expected, |LogOf(s.files)|).Ok? && step.fault > |step.events| + 1))
            && (r.Err? ==> r.error == if ValidateExpected(step.expected, |LogOf(s.files)|).Ok? then Db
                                      else ValidateExpected(step.expected, |LogOf(s.files)|).error)
            && (r.Ok? && step.events != [] ==>
                  r.value == Batch(step.events, step.ids, |LogOf(s.files)|,
                                   |s.files[s.memory.active.name].rows|, step.now))
  {
    hide Describes, NamedBy, AllParse, FileOk, AppendTransaction, Batch, ValidateExpected, FullCatalog, LogOf, Tiled;
    var name := s.memory.active.name;
    var f, rest := s.files[name], s.files - {name};
    LastOfTiled(s.files);
    assert |LogOf(s.files)| == f.head by {
      LogIsContiguous(s.files);
    }
    if step.events == [] {
      assert LogOf(s.files) == LogOf(s.files) + [];
    } else {
      FreshForLast(step.ids, step.events, LogOf(rest), f.rows);
      AppendOutcome(f, HeadOf(rest), step.expected, step.events, step.ids, step.now, step.fault);
      var r := AppendTransaction(f, step.expected, step.events, step.ids, step.now, step.fault);
      if r.Ok? {
        LastFileReplaced(s.files, r.value.0);
        assert LogOf(rest) + (f.rows + r.value.1) == LogOf(rest) + f.rows + r.value.1;
      } else {
        assert LogOf(s.files) == LogOf(s.files) + [];
      }
    }
  }

  /** Replacing the last file by one that also continues the others changes only the end of the log. */
  lemma LastFileReplaced(files: Files, f: EventFile)
    requires Tiled(files) && files != map[] && FileOk(f, HeadOf(files - {LastFile(files)}))
    ensures var m := LastFile(files);
            var files' := files[m := f];
            && Tiled(files') && files' != map[] && LastFile(files') == m && FullCatalog(files') == FullCatalog(files)
            && LogOf(files') == LogOf(files - {m}) + f.rows
  {
    hide LogOf, FullCatalog, FileOk;
    var m := LastFile(files);
    var rest := files - {m};
    LastOfTiled(files);
    AddLast(rest, m, f);
    assert files[m := f] == rest[m := f];
    SameFull(files, files[m := f]);
  }

  lemma FreshForLast(ids: seq<Id>, events: seq<NewEvent>, log: seq<Event>, rows: seq<Event>)
    requires FreshIds(ids, events, log + rows)
    ensures FreshIds(ids, events, rows)
  {
    forall i | 0 <= i < |ids| ensures !Mentions(rows, ids[i]) {
      MentionsMore(log, rows, ids[i]);
    }
  }

  lemma MentionsMore(log: seq<Event>, rows: seq<Event>, id: Id)
    ensures Mentions(rows, id) ==> Mentions(log + rows, id)
  {
    if Mentions(rows, id) {
      var r :| r in rows && (r.id == id || r.anchor == Some(id));
      assert r in log + rows;
    }
  }

  /** The full catalog does not depend on how many rows its last file holds. */
  lemma SameFull(files: Files, files': Files)
    requires files != map[] && files'.Keys == files.Keys && LastFile(files) == LastFile(files')
    requires forall n | n in files && n != LastFile(files) :: files'[n] == files[n]
    requires FirstVersion(files[LastFile(files)]) == FirstVersion(files'[LastFile(files)])
    ensures FullCatalog(files') == FullCatalog(files)
  {
    var full, full' := FullCatalog(files), FullCatalog(files');
    forall n | n in full ensures n in full' && full[n] == full'[n] {}
  }

  lemma CrashKeeps(window: int, s: State)
    requires AlignedWindow(window) && Inv(window, s)
    ensures Inv(window, s.(memory := Closed))
  {
    hide Describes, NamedBy, ParsePartitionName, Tiled, FullCatalog, SealedCatalog;
    match s.memory
    case Closed =>
    case Starting(_) => assert UnsealedKeys(s.catalog) == map[];
    case Open(_) =>
    case Rotating(a, b, stage) =>
      SealedHasNoUnsealed(s.files);
      SealedHasNoUnsealed(s.files - {b.name});
  }

  /**
  One step, whatever it is: the invariant is kept, and the log either stays as it is or grows by
  the batch of a successful append.
  */
  lemma StepRefinesLog(window: int, s: State, step: Step)
    requires AlignedWindow(window) && Inv(window, s) && Enabled(window, s, step)
    ensures var s' := Apply(window, s, step);
            && Inv(window, s')
            && LogOf(s'.files) == LogOf(s.files) + AppendedBy(s, step)
  {
    hide Inv, AppendTo, LogOf, InitializeActive, SealRange, CreateFile, FloorToWindow, DetermineNext;
    assert LogOf(s.files) == LogOf(s.files) + [];
    match step
    case Initialize(now) => InitializeKeeps(window, s, now);
    case PublishFirst => PublishFirstKeeps(window, s);
    case Seal(now) => SealKeeps(window, s, now);
    case CreateNext => CreateNextKeeps(window, s);
    case PublishNext => PublishNextKeeps(window, s);
    case SwapActive => SwapKeeps(window, s);
    case RefuseRotation(_) =>
    case Append(_, events, ids, _, _) =>
      FreshLength(ids, events, LogOf(s.files));
      AppendKeeps(window, s, step);
    case Crash => CrashKeeps(window, s);
    case DamageCatalog(catalog) => DamageKeeps(window, s, catalog);
  }

  lemma SwapKeeps(window: int, s: State)
    requires AlignedWindow(window) && Inv(window, s) && Enabled(window, s, SwapActive)
    ensures Inv(window, Apply(window, s, SwapActive))
  {
    hide Describes, NamedBy, ParsePartitionName, Tiled, FullCatalog;
  }

  lemma DamageKeeps(window: int, s: State, catalog: Catalog)
    requires AlignedWindow(window) && Inv(window, s) && Enabled(window, s, DamageCatalog(catalog))
    ensures Inv(window, Apply(window, s, DamageCatalog(catalog)))
  {
    hide NamedBy, ParsePartitionName, Tiled, FullCatalog;
  }

  /** The events that a step commits. */
  ghost function AppendedBy(s: State, step: Step): seq<Event>
  {
    if step.Append? && s.memory.Open? && s.memory.active.name in s.files && |step.ids| == |step.events| then
      var r := AppendTo(s, step.expected, step.events, step.ids, step.now, step.fault).1;
      if r.Ok? then r.value else []
    else []
  }
}
