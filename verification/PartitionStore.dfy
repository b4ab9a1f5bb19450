/**
One partition store as a state machine. Durable state is the catalog table and the event files;
volatile state is the active file and the progress of a rotation. Every step is one atomic
database or file operation, so a crash can fall between any two of them.
*/
module PartitionStore {
  import opened Results
  import TextOrder
  import opened PartitionNames
  import opened VersionOrder
  import opened EventFiles

  datatype Range = Range(path: string, firstVersion: int, lastVersion: Option<int>, sealed: bool)

  /** The `event_file_ranges` table, keyed by name. */
  type Catalog = map<string, Range>

  type Files = map<string, EventFile>

  datatype Active = Active(name: string, startMs: int, ordinal: Option<nat>)

  datatype Stage = Sealed | Created | Inserted

  /** What the process holds: nothing, a first file not yet in the catalog, an active file, or a rotation under way. */
  datatype Memory =
    | Closed
    | Starting(first: Active)
    | Open(active: Active)
    | Rotating(prev: Active, next: Active, stage: Stage)

  datatype State = State(catalog: Catalog, files: Files, memory: Memory)

  // ----- catalog and file operations

  function FileKeys(files: Files): Keys { map n | n in files :: FirstVersion(files[n]) }

  function CatalogKeys(catalog: Catalog): Keys { map n | n in catalog :: catalog[n].firstVersion }

  function SealRange(catalog: Catalog, name: string, lastVersion: int): Catalog
  {
    if name in catalog then catalog[name := catalog[name].(lastVersion := Some(lastVersion), sealed := true)]
    else catalog
  }

  /** Opening creates a missing file with an empty table; the head row is inserted or overwritten. */
  function CreateFile(files: Files, name: string, current: int): Files
  {
    if name in files then files[name := files[name].(head := current, lastId := None)]
    else files[name := EventFile([], current, None)]
  }

  function OpenRange(name: string, firstVersion: int): Range { Range(name, firstVersion, None, false) }

  function UnsealedKeys(catalog: Catalog): Keys
  {
    map n | n in catalog && !catalog[n].sealed :: catalog[n].firstVersion
  }

  /** The rows that a rebuild inserts: every file by first version and name, all sealed but the last. */
  function RebuiltRanges(files: Files): (ranges: seq<Range>)
  {
    var names := Sorted(FileKeys(files));
    seq(|names|, i requires 0 <= i < |names| =>
      assert names[i] in FileKeys(files);
      var f := files[names[i]];
      var sealed := i != |names| - 1;
      Range(names[i], FirstVersion(f), if sealed then Some(f.head) else None, sealed))
  }

  /** The table after deleting all rows and inserting these, each under its path as name. */
  function CatalogOf(ranges: seq<Range>): Catalog
  {
    if ranges == [] then map[]
    else
      var last := ranges[|ranges| - 1];
      CatalogOf(ranges[..|ranges| - 1])[last.path := last]
  }

  predicate AllParse(names: set<string>) { forall n | n in names :: ParsePartitionName(n).Ok? }

  // ----- the steps

  datatype Step =
    | Initialize(now: int)
    | PublishFirst
    | Seal(now: int)
    | CreateNext
    | PublishNext
    | SwapActive
    | RefuseRotation(now: int)
    | Append(expected: ExpectedVersion, events: seq<NewEvent>, ids: seq<Id>, now: int, fault: nat)
    | Crash
    | DamageCatalog(catalog: Catalog)

  /** The name, start and ordinal of the file that a rotation at `now` would switch to. */
  function DetermineNext(window: int, active: Active, now: int): Result<Active>
    requires window > 0
  {
    var start := FloorToWindow(now, window);
    if start == active.startMs then
      var ordinal := NextOrdinal(active.ordinal);
      if ordinal.None? then Err(RotationOrdinalExhausted(MAX_OVERFLOW_ORDINAL))
      else
        var name := GeneratePartitionName(start, window, ordinal);
        if name.Err? then Err(name.error) else Ok(Active(name.value, start, ordinal))
    else
      var name := GeneratePartitionName(start, window, None);
      if name.Err? then Err(name.error) else Ok(Active(name.value, start, None))
  }

  /**
  Opening: the catalog is trusted when it has exactly one unsealed row and rebuilt from the files
  otherwise; the last unsealed row names the active file; a store without files gets its first.
  An error after the rebuild leaves the rebuilt catalog behind.
  */
  function InitializeActive(window: int, s: State, now: int): (State, Option<EsError>)
    requires window > 0
  {
    if !AllParse(s.catalog.Keys) then (s, Some(InvalidPartition))
    else if |UnsealedKeys(s.catalog)| != 1 && !AllParse(s.files.Keys) then (s, Some(InvalidPartition))
    else
      var catalog := if |UnsealedKeys(s.catalog)| != 1 then CatalogOf(RebuiltRanges(s.files)) else s.catalog;
      var unsealed := UnsealedKeys(catalog);
      if unsealed != map[] then
        var name := Greatest(unsealed);
        var parsed := ParsePartitionName(name);
        if parsed.Err? then (s.(catalog := catalog), Some(parsed.error))
        else (State(catalog, s.files, Open(Active(name, parsed.value.0, parsed.value.1))), None)
      else
        var start := FloorToWindow(now, window);
        var name := GeneratePartitionName(start, window, None);
        if name.Err? then (s.(catalog := catalog), Some(name.error))
        else (State(catalog, CreateFile(s.files, name.value, 0), Starting(Active(name.value, start, None))), None)
  }

  function AppendTo(s: State, expected: ExpectedVersion, events: seq<NewEvent>, ids: seq<Id>, now: int, fault: nat)
    : (State, Result<seq<Event>>)
    requires s.memory.Open? && s.memory.active.name in s.files && |ids| == |events|
  {
    if events == [] then (s, Ok([]))
    else
      var name := s.memory.active.name;
      var r := AppendTransaction(s.files[name], expected, events, ids, now, fault);
      if r.Err? then (s, Err(r.error))
      else (s.(files := s.files[name := r.value.0]), Ok(r.value.1))
  }

  /**
  When a step can happen. A clock reading is from 1970 on, and a rotation's reading does not fall
  in a window before the active one.
  */
  ghost predicate Enabled(window: int, s: State, step: Step)
    requires window > 0
  {
    match step
    case Initialize(now) => s.memory.Closed? && now >= 0
    case PublishFirst => s.memory.Starting?
    case Seal(now) =>
      && s.memory.Open? && s.memory.active.name in s.files && now >= 0
      && FloorToWindow(now, window) >= s.memory.active.startMs
      && DetermineNext(window, s.memory.active, now).Ok?
    case CreateNext => s.memory.Rotating? && s.memory.stage == Sealed && s.memory.prev.name in s.files
    case PublishNext => s.memory.Rotating? && s.memory.stage == Created && s.memory.prev.name in s.files
    case SwapActive => s.memory.Rotating? && s.memory.stage == Inserted
    case RefuseRotation(now) => s.memory.Open? && DetermineNext(window, s.memory.active, now).Err?
    case Append(_, events, ids, _, _) =>
      s.memory.Open? && s.memory.active.name in s.files && FreshIds(ids, events, LogOf(s.files))
    case Crash => true
    case DamageCatalog(catalog) => s.memory.Closed? && |UnsealedKeys(catalog)| != 1 && AllParse(catalog.Keys)
  }

  ghost function Apply(window: int, s: State, step: Step): State
    requires window > 0 && Enabled(window, s, step)
  {
    match step
    case Initialize(now) => InitializeActive(window, s, now).0
    case PublishFirst =>
      var a := s.memory.first;
      s.(catalog := s.catalog[a.name := OpenRange(a.name, 1)], memory := Open(a))
    case Seal(now) =>
      var a := s.memory.active;
      s.(catalog := SealRange(s.catalog, a.name, s.files[a.name].head),
         memory := Rotating(a, DetermineNext(window, a, now).value, Sealed))
    case CreateNext =>
      s.(files := CreateFile(s.files, s.memory.next.name, s.files[s.memory.prev.name].head),
         memory := s.memory.(stage := Created))
    case PublishNext =>
      var next := s.memory.next;
      s.(catalog := s.catalog[next.name := OpenRange(next.name, s.files[s.memory.prev.name].head + 1)],
         memory := s.memory.(stage := Inserted))
    case SwapActive => s.(memory := Open(s.memory.next))
    case RefuseRotation(_) => s
    case Append(expected, events, ids, now, fault) => AppendTo(s, expected, events, ids, now, fault).0
    case Crash => s.(memory := Closed)
    case DamageCatalog(catalog) => s.(catalog := catalog)
  }

  // ----- the log that the files hold

  function LastFile(files: Files): (m: string)
    requires files != map[]
    ensures m in files
  {
    assert FileKeys(files) != map[] by {
      var n :| n in files;
      assert n in FileKeys(files);
    }
    Greatest(FileKeys(files))
  }

  /** The rows of all files, file after file in version order. */
  function LogOf(files: Files): seq<Event>
    decreases |files|
  {
    if files == map[] then []
    else
      var m := LastFile(files);
      LogOf(files - {m}) + files[m].rows
  }

  function HeadOf(files: Files): int
  {
    if files == map[] then 0 else files[LastFile(files)].head
  }

  /** The files tile the versions from 1 on, and their names ascend with them. */
  ghost predicate Tiled(files: Files)
    decreases |files|
  {
    files == map[] ||
    var m := LastFile(files);
    var rest := files - {m};
    Tiled(rest) && FileOk(files[m], HeadOf(rest)) && forall n | n in rest :: TextOrder.Less(n, m)
  }

  /** Every file as a sealed row. */
  function SealedCatalog(files: Files): Catalog
  {
    map n | n in files :: Range(n, FirstVersion(files[n]), Some(files[n].head), true)
  }

  /** The rows an undisturbed store holds: every file sealed except the last. */
  function FullCatalog(files: Files): Catalog
  {
    if files == map[] then map[]
    else
      var m := LastFile(files);
      SealedCatalog(files)[m := OpenRange(m, FirstVersion(files[m]))]
  }

  /** A name together with exactly the start and ordinal it prints. */
  predicate Describes(window: int, a: Active)
    requires window > 0
  {
    && a.startMs >= 0 && TimestampInRange(a.startMs) && ShownInFull(a.startMs, window)
    && ValidOrdinal(a.ordinal)
    && GeneratePartitionName(a.startMs, window, a.ordinal) == Ok(a.name)
  }

  predicate NamedBy(window: int, name: string)
    requires window > 0
  {
    var p := ParsePartitionName(name);
    p.Ok? && Describes(window, Active(name, p.value.0, p.value.1))
  }

  /** What holds in every reachable state, at every point of an initialisation or a rotation. */
  ghost predicate Inv(window: int, s: State)
    requires window > 0
  {
    && Tiled(s.files)
    && (forall n | n in s.files :: NamedBy(window, n))
    && AllParse(s.catalog.Keys)
    && match s.memory
       case Closed =>
         |UnsealedKeys(s.catalog)| == 1 ==> s.files != map[] && s.catalog == FullCatalog(s.files)
       case Starting(a) =>
         s.catalog == map[] && s.files == map[a.name := EventFile([], 0, None)] && Describes(window, a)
       case Open(a) =>
         s.files != map[] && a.name == LastFile(s.files) && Describes(window, a) && s.catalog == FullCatalog(s.files)
       case Rotating(a, b, stage) =>
         && Describes(window, a) && Describes(window, b) && TextOrder.Less(a.name, b.name)
         && s.files != map[] && a.name in s.files
         && match stage
            case Sealed => a.name == LastFile(s.files) && s.catalog == SealedCatalog(s.files)
            case Created => NextIsNew(s.files, a, b) && s.catalog == SealedCatalog(s.files - {b.name})
            case Inserted => NextIsNew(s.files, a, b) && s.catalog == FullCatalog(s.files)
  }

  /** The rotation has created its next file: it comes last, is empty, and continues the old one. */
  ghost predicate NextIsNew(files: Files, a: Active, b: Active)
  {
    && a.name in files && b.name in files && files != map[] && LastFile(files) == b.name
    && files - {b.name} != map[] && LastFile(files - {b.name}) == a.name
    && files[b.name] == EventFile([], files[a.name].head, None)
  }

  // ----- building up tiled files

  lemma GreatestIs(keys: Keys, m: string)
    requires IsGreatest(keys, m)
    ensures keys != map[] && Greatest(keys) == m
  {
    GreatestUnique(keys, Greatest(keys), m);
  }

  lemma {:induction false} FirstsBelowHead(files: Files)
    requires Tiled(files)
    ensures forall n | n in files :: FirstVersion(files[n]) <= HeadOf(files) + 1
    decreases |files|
  {
    if files != map[] {
      var m := LastFile(files);
      var rest := files - {m};
      FirstsBelowHead(rest);
      FirstOfRows(files[m], HeadOf(rest));
      forall n | n in files ensures FirstVersion(files[n]) <= HeadOf(files) + 1 {
        if n != m { assert n in rest && rest[n] == files[n]; }
      }
    }
  }

  /** Putting a file that continues the others, under a later name, after them. */
  lemma AddLast(rest: Files, name: string, f: EventFile)
    requires Tiled(rest) && name !in rest
    requires FileOk(f, HeadOf(rest))
    requires forall n | n in rest :: TextOrder.Less(n, name)
    ensures var files := rest[name := f];
            && Tiled(files) && LastFile(files) == name && files - {name} == rest
            && LogOf(files) == LogOf(rest) + f.rows && HeadOf(files) == f.head
            && FirstVersion(f) == HeadOf(rest) + 1
  {
    var files := rest[name := f];
    assert files - {name} == rest;
    FirstsBelowHead(rest);
    FirstOfRows(f, HeadOf(rest));
    var keys := FileKeys(files);
    assert IsGreatest(keys, name) by {
      forall n | n in keys && n != name ensures Before(keys, n, name) {
        assert n in rest && files[n] == rest[n];
      }
    }
    GreatestIs(keys, name);
  }

  /** The last file of tiled files can be taken off and put back, as it is or changed. */
  lemma LastOfTiled(files: Files)
    requires Tiled(files) && files != map[]
    ensures var m := LastFile(files);
            var rest := files - {m};
            && Tiled(rest) && m !in rest && files == rest[m := files[m]]
            && FileOk(files[m], HeadOf(rest)) && FirstVersion(files[m]) == HeadOf(rest) + 1
            && (forall n | n in rest :: TextOrder.Less(n, m))
            && LogOf(files) == LogOf(rest) + files[m].rows
  {
    var m := LastFile(files);
    FirstOfRows(files[m], HeadOf(files - {m}));
  }

  /** The log of tiled files is exactly the versions 1..head, in order. */
  lemma {:induction false} LogIsContiguous(files: Files)
    requires Tiled(files)
    ensures |LogOf(files)| == HeadOf(files)
    ensures forall i | 0 <= i < |LogOf(files)| :: LogOf(files)[i].version == i + 1
    decreases |files|
  {
    if files != map[] { LogIsContiguous(files - {LastFile(files)}); }
  }

  // ----- counting unsealed rows

  lemma SealedHasNoUnsealed(files: Files)
    ensures UnsealedKeys(SealedCatalog(files)) == map[]
  {
  }

  lemma FullHasOneUnsealed(files: Files)
    requires files != map[]
    ensures UnsealedKeys(FullCatalog(files)) == map[LastFile(files) := FirstVersion(files[LastFile(files)])]
    ensures |UnsealedKeys(FullCatalog(files))| == 1
    ensures Greatest(UnsealedKeys(FullCatalog(files))) == LastFile(files)
  {
    var m := LastFile(files);
    var keys := UnsealedKeys(FullCatalog(files));
    assert keys == map[m := FirstVersion(files[m])];
    assert IsGreatest(keys, m);
    GreatestIs(keys, m);
  }

  // ----- the catalog rebuilt from the files alone

  lemma SortedEndsWithLast(files: Files)
    requires files != map[]
    ensures var names := Sorted(FileKeys(files));
            names != [] && names[|names| - 1] == LastFile(files)
  {
    assert LastFile(files) in FileKeys(files);
  }

  lemma SortedDistinct(keys: Keys)
    ensures forall i, j | 0 <= i < j < |Sorted(keys)| :: Sorted(keys)[i] != Sorted(keys)[j]
  {
    SortedInOrder(keys);
    forall i, j | 0 <= i < j < |Sorted(keys)| ensures Sorted(keys)[i] != Sorted(keys)[j] {
      assert Before(keys, Sorted(keys)[i], Sorted(keys)[j]);
      TextOrder.Irreflexive(Sorted(keys)[i]);
    }
  }

  lemma RebuiltRangeAt(files: Files, i: nat)
    requires i < |Sorted(FileKeys(files))|
    ensures files != map[] && Sorted(FileKeys(files))[i] in files
    ensures var n := Sorted(FileKeys(files))[i];
            RebuiltRanges(files)[i].path == n && RebuiltRanges(files)[i] == FullCatalog(files)[n]
  {
    var names := Sorted(FileKeys(files));
    assert names[i] in FileKeys(files);
    SortedEndsWithLast(files);
    SortedDistinct(FileKeys(files));
  }

  lemma {:induction false} CatalogListed(ranges: seq<Range>, catalog: Catalog)
    requires forall i, j | 0 <= i < j < |ranges| :: ranges[i].path != ranges[j].path
    requires forall i | 0 <= i < |ranges| :: ranges[i].path in catalog && catalog[ranges[i].path] == ranges[i]
    requires forall n | n in catalog :: exists i :: 0 <= i < |ranges| && ranges[i].path == n
    ensures CatalogOf(ranges) == catalog
    decreases |ranges|
  {
    if ranges == [] {
      assert catalog == map[];
    } else {
      var front, last := ranges[..|ranges| - 1], ranges[|ranges| - 1];
      var rest := catalog - {last.path};
      forall n | n in rest ensures exists i :: 0 <= i < |front| && front[i].path == n {
        var i :| 0 <= i < |ranges| && ranges[i].path == n;
        assert front[i].path == n;
      }
      CatalogListed(front, rest);
      assert catalog == rest[last.path := last];
    }
  }

  /** Rebuilding from any set of files gives the rows of an undisturbed store over those files. */
  lemma RebuildIsFull(files: Files)
    ensures CatalogOf(RebuiltRanges(files)) == FullCatalog(files)
  {
    var names, ranges, full := Sorted(FileKeys(files)), RebuiltRanges(files), FullCatalog(files);
    forall i | 0 <= i < |names| ensures names[i] in full && ranges[i].path == names[i] && ranges[i] == full[names[i]] {
      RebuiltRangeAt(files, i);
    }
    forall n | n in full ensures exists i :: 0 <= i < |ranges| && ranges[i].path == n {
      assert n in FileKeys(files) && n in names;
      var i :| 0 <= i < |names| && names[i] == n;
      assert ranges[i].path == n;
    }
    SortedDistinct(FileKeys(files));
    CatalogListed(ranges, full);
  }
}
