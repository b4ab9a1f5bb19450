/**
One event file: its `events` table, its append head, the append transaction on them, and the
query that reads after a cursor. Ids stand for UUIDs and `data` for the columns that the store
only copies.
*/
module EventFiles {
  import opened Results

  const MAX_READ_LIMIT: nat := 10_000

  type Id = nat

  datatype WorkflowRef = NoWorkflow | StartsThisWorkflow | Continues(startedBy: Id)

  datatype NewEvent = NewEvent(data: string, workflow: WorkflowRef)

  datatype Event = Event(id: Id, version: int, sequence: int, anchor: Option<Id>, createdAt: int, data: string)

  /** `rows` is the table in insertion order; `head` and `lastId` are the singleton append-head row. */
  datatype EventFile = EventFile(rows: seq<Event>, head: int, lastId: Option<Id>)

  datatype ExpectedVersion = NoStream | Any | Exact(version: int)

  // ----- the append transaction

  /** Passes on the head version if it is the expected one; version 0, the start, cannot be expected exactly. */
  function ValidateExpected(expected: ExpectedVersion, current: int): (r: Result<int>)
    ensures r.Ok? <==>
              expected == Any || (expected == NoStream && current == 0) || (expected == Exact(current) && current != 0)
    ensures r.Ok? ==> r.value == current
    ensures r.Err? ==> (r.error == InvalidVersion <==> expected == Exact(0))
    ensures r.Err? && expected == NoStream ==> r.error == IncorrectEventVersion(0, current)
    ensures r.Err? && expected.Exact? && expected.version != 0 ==>
              r.error == IncorrectEventVersion(expected.version, current)
  {
    match expected
    case NoStream => if current != 0 then Err(IncorrectEventVersion(0, current)) else Ok(current)
    case Exact(v) =>
      if v == 0 then Err(InvalidVersion)
      else if v != current then Err(IncorrectEventVersion(v, current))
      else Ok(current)
    case Any => Ok(current)
  }

  /** `COALESCE(MAX(sequence), 0)`. */
  function MaxSequence(rows: seq<Event>): int
  {
    if rows == [] then 0
    else
      var front := MaxSequence(rows[..|rows| - 1]);
      var last := rows[|rows| - 1].sequence;
      if |rows| == 1 || last > front then last else front
  }

  /** `MIN(version)`. */
  function MinVersion(rows: seq<Event>): int
    requires rows != []
  {
    var last := rows[|rows| - 1].version;
    if |rows| == 1 then last
    else
      var front := MinVersion(rows[..|rows| - 1]);
      if front < last then front else last
  }

  /** On any rows, the least version stored; `k` is where it is. */
  lemma {:induction false} MinVersionIsLeast(rows: seq<Event>) returns (k: nat)
    requires rows != []
    ensures k < |rows| && rows[k].version == MinVersion(rows)
    ensures forall i | 0 <= i < |rows| :: MinVersion(rows) <= rows[i].version
  {
    k := |rows| - 1;
    if |rows| > 1 {
      var j := MinVersionIsLeast(rows[..|rows| - 1]);
      if rows[j].version < rows[k].version { k := j; }
    }
  }

  /** On any rows, the greatest sequence stored, and 0 on none. */
  lemma {:induction false} MaxSequenceIsGreatest(rows: seq<Event>) returns (k: nat)
    ensures rows == [] ==> MaxSequence(rows) == 0
    ensures rows != [] ==> k < |rows| && rows[k].sequence == MaxSequence(rows)
    ensures forall i | 0 <= i < |rows| :: rows[i].sequence <= MaxSequence(rows)
  {
    k := if rows == [] then 0 else |rows| - 1;
    if |rows| > 1 {
      var j := MaxSequenceIsGreatest(rows[..|rows| - 1]);
      if rows[j].sequence >= rows[k].sequence { k := j; }
    }
  }

  /** First stored version, or the next one to be stored. */
  function FirstVersion(f: EventFile): int
  {
    if f.rows == [] then f.head + 1 else MinVersion(f.rows)
  }

  function Envelope(e: NewEvent, id: Id, version: int, sequence: int, now: int): Event
  {
    var anchor := match e.workflow
      case NoWorkflow => None
      case StartsThisWorkflow => Some(id)
      case Continues(startedBy) => Some(startedBy);
    Event(id, version, sequence, anchor, now, e.data)
  }

  /** The envelopes of one append. */
  function Batch(events: seq<NewEvent>, ids: seq<Id>, current: int, baseSequence: int, now: int): (b: seq<Event>)
    requires |ids| == |events|
    ensures |b| == |events|
  {
    seq(|events|, i requires 0 <= i < |events| =>
      Envelope(events[i], ids[i], current + 1 + i, baseSequence + 1 + i, now))
  }

  /** One INSERT under the table's PRIMARY KEY and UNIQUE constraints. */
  function InsertRow(rows: seq<Event>, e: Event): Result<seq<Event>>
  {
    if exists r <- rows :: r.version == e.version then Err(UniqueViolation)
    else if exists r <- rows :: r.id == e.id || r.sequence == e.sequence then Err(Db)
    else Ok(rows + [e])
  }

  /** The INSERTs of a batch; the database fails by itself at statement number `fault`. */
  function InsertAll(rows: seq<Event>, batch: seq<Event>, fault: nat): Result<seq<Event>>
  {
    if batch == [] then Ok(rows)
    else
      var front := InsertAll(rows, batch[..|batch| - 1], fault);
      if front.Err? then front
      else if fault == |batch| - 1 then Err(Db)
      else InsertRow(front.value, batch[|batch| - 1])
  }

  /** No two rows share an id, a version or a sequence: what the table's constraints demand. */
  predicate KeysDistinct(rows: seq<Event>)
  {
    forall i, j | 0 <= i < j < |rows| ::
      rows[i].id != rows[j].id && rows[i].version != rows[j].version && rows[i].sequence != rows[j].sequence
  }

  /** Whatever is inserted, the constraints hold of the table that results. */
  lemma {:induction false} InsertsKeepKeys(rows: seq<Event>, batch: seq<Event>, fault: nat)
    requires KeysDistinct(rows) && InsertAll(rows, batch, fault).Ok?
    ensures KeysDistinct(InsertAll(rows, batch, fault).value) && InsertAll(rows, batch, fault).value == rows + batch
  {
    if batch == [] {
      assert rows + batch == rows;
    } else {
      var front := batch[..|batch| - 1];
      InsertsKeepKeys(rows, front, fault);
      var before := rows + front;
      assert forall i | 0 <= i < |before| :: before[i] in before;
      assert rows + batch == before + [batch[|batch| - 1]];
    }
  }

  /** `UPDATE ... WHERE id = 1 AND ?1 >= current_version`: the head never falls. */
  function UpdateHead(f: EventFile, version: int, lastId: Id): (f': EventFile)
    ensures f'.rows == f.rows && f'.head >= f.head && f'.head >= version && f'.head in {f.head, version}
  {
    if version >= f.head then f.(head := version, lastId := Some(lastId)) else f
  }

  /**
  The transaction from `BEGIN IMMEDIATE` to `COMMIT`. Statements 0..|events|-1 are the inserts,
  then come the head update and the commit; a fault number beyond those means no fault. An error
  leaves the file as it was, because the caller rolls back.
  */
  function AppendTransaction(f: EventFile, expected: ExpectedVersion, events: seq<NewEvent>, ids: seq<Id>, now: int,
                             fault: nat)
    : Result<(EventFile, seq<Event>)>
    requires |ids| == |events| > 0
  {
    var current := ValidateExpected(expected, f.head);
    if current.Err? then Err(current.error)
    else
      var batch := Batch(events, ids, current.value, MaxSequence(f.rows), now);
      var inserted := InsertAll(f.rows, batch, fault);
      if inserted == Err(UniqueViolation) then Err(IncorrectEventVersion(current.value, current.value))
      else if inserted.Err? then Err(inserted.error)
      else if fault == |events| || fault == |events| + 1 then Err(Db)
      else
        var last := batch[|batch| - 1];
        Ok((UpdateHead(f.(rows := inserted.value), last.version, last.id), batch))
  }

  /**
  A version conflict is reported as what it is, on any file and whatever the database does: the head
  found there against the one expected. Nothing but a met expectation comes to the statements.
  */
  lemma ConflictIsReported(f: EventFile, expected: ExpectedVersion, events: seq<NewEvent>, ids: seq<Id>, now: int,
                           fault: nat)
    requires |ids| == |events| > 0
    ensures var r := AppendTransaction(f, expected, events, ids, now, fault);
            && (expected == NoStream && f.head != 0 ==> r == Err(IncorrectEventVersion(0, f.head)))
            && (expected == Exact(0) ==> r == Err(InvalidVersion))
            && (forall v | expected == Exact(v) && v != 0 && v != f.head :: r == Err(IncorrectEventVersion(v, f.head)))
            && (r == Err(Db) ==>
                  expected == Any || (expected == NoStream && f.head == 0) || expected == Exact(f.head))
  {
    hide InsertAll, MaxSequence, Batch;
  }

  lemma {:induction false} FailureStays(rows: seq<Event>, batch: seq<Event>, n: nat, fault: nat)
    requires n <= |batch| && InsertAll(rows, batch[..n], fault).Err?
    ensures InsertAll(rows, batch, fault) == InsertAll(rows, batch[..n], fault)
    decreases |batch|
  {
    if n == |batch| {
      assert batch[..n] == batch;
    } else {
      assert batch[..|batch| - 1][..n] == batch[..n];
      FailureStays(rows, batch[..|batch| - 1], n, fault);
    }
  }

  /** A head that has fallen behind its rows is found out by the table: the next version is taken. */
  lemma VersionIsTaken(f: EventFile, events: seq<NewEvent>, ids: seq<Id>, now: int, fault: nat)
    requires |ids| == |events| > 0 && fault != 0 && exists r <- f.rows :: r.version == f.head + 1
    ensures AppendTransaction(f, Any, events, ids, now, fault) == Err(IncorrectEventVersion(f.head, f.head))
  {
    hide MaxSequence;
    var batch := Batch(events, ids, f.head, MaxSequence(f.rows), now);
    assert batch[..1][..0] == [] && batch[0].version == f.head + 1;
    assert InsertAll(f.rows, batch[..1], fault) == Err(UniqueViolation);
    FailureStays(f.rows, batch, 1, fault);
  }

  // ----- what every file keeps

  /** A file that continues after version `base`: contiguous versions, sequences from 1, and an exact head. */
  predicate FileOk(f: EventFile, base: int)
  {
    && f.head == base + |f.rows|
    && (forall i | 0 <= i < |f.rows| :: f.rows[i].version == base + 1 + i && f.rows[i].sequence == i + 1)
    && (forall i, j | 0 <= i < j < |f.rows| :: f.rows[i].id != f.rows[j].id)
    && f.lastId == if f.rows == [] then None else Some(f.rows[|f.rows| - 1].id)
  }

  /** Every id that occurs in some rows, as an event's own id or as the anchor it refers to. */
  predicate Mentions(rows: seq<Event>, id: Id)
  {
    exists r <- rows :: r.id == id || r.anchor == Some(id)
  }

  /** Newly generated ids: distinct, and not yet mentioned by the stored rows or by the new events. */
  predicate FreshIds(ids: seq<Id>, events: seq<NewEvent>, rows: seq<Event>)
  {
    && |ids| == |events|
    && (forall i, j | 0 <= i < j < |ids| :: ids[i] != ids[j])
    && (forall i | 0 <= i < |ids| :: !Mentions(rows, ids[i]))
    && (forall i, j | 0 <= i < |ids| && 0 <= j < |events| :: events[j].workflow != Continues(ids[i]))
  }

  lemma {:induction false} SequenceOfRows(f: EventFile, base: int)
    requires FileOk(f, base)
    ensures MaxSequence(f.rows) == |f.rows|
    decreases |f.rows|
  {
    if f.rows != [] {
      var rows := f.rows[..|f.rows| - 1];
      SequenceOfRows(EventFile(rows, f.head - 1, if rows == [] then None else Some(rows[|rows| - 1].id)), base);
    }
  }

  lemma {:induction false} FirstOfRows(f: EventFile, base: int)
    requires FileOk(f, base)
    ensures FirstVersion(f) == base + 1
    decreases |f.rows|
  {
    if |f.rows| > 1 {
      var rows := f.rows[..|f.rows| - 1];
      FirstOfRows(EventFile(rows, f.head - 1, Some(rows[|rows| - 1].id)), base);
    }
  }

  /** A batch that continues some rows: next versions, next sequences, ids seen nowhere before. */
  predicate Continuation(rows: seq<Event>, head: int, batch: seq<Event>)
  {
    && (forall i | 0 <= i < |batch| :: batch[i].version == head + 1 + i && batch[i].sequence == |rows| + 1 + i)
    && (forall i, j | 0 <= i < j < |batch| :: batch[i].id != batch[j].id)
    && (forall i | 0 <= i < |batch| :: !Mentions(rows, batch[i].id))
  }

  lemma BatchContinues(rows: seq<Event>, head: int, events: seq<NewEvent>, ids: seq<Id>, now: int)
    requires FreshIds(ids, events, rows)
    ensures |ids| == |events|
    ensures var batch := Batch(events, ids, head, |rows|, now);
            && Continuation(rows, head, batch)
            && (forall i | 0 <= i < |batch| :: batch[i].id == ids[i] && batch[i].version == head + 1 + i)
  {
  }

  /** The last event of a continuation shares no version, id or sequence with the rows before it. */
  lemma NoCollision(f: EventFile, base: int, batch: seq<Event>)
    requires FileOk(f, base) && Continuation(f.rows, f.head, batch) && batch != []
    ensures var last := batch[|batch| - 1];
            forall r <- f.rows + batch[..|batch| - 1] ::
              r.version != last.version && r.id != last.id && r.sequence != last.sequence
  {
    var front, last := batch[..|batch| - 1], batch[|batch| - 1];
    forall r | r in f.rows + front ensures r.version != last.version && r.id != last.id && r.sequence != last.sequence {
      if r in front {
        var i :| 0 <= i < |front| && front[i] == r;
        assert front[i] == batch[i];
      } else {
        assert r in f.rows && !Mentions(f.rows, last.id);
      }
    }
  }

  lemma FrontContinues(rows: seq<Event>, head: int, batch: seq<Event>)
    requires Continuation(rows, head, batch) && batch != []
    ensures Continuation(rows, head, batch[..|batch| - 1])
  {
  }

  /** Inserting the batch never meets a constraint, so only a database fault can stop it. */
  lemma {:induction false} InsertsSucceed(f: EventFile, base: int, batch: seq<Event>, fault: nat)
    requires FileOk(f, base)
    requires Continuation(f.rows, f.head, batch)
    ensures InsertAll(f.rows, batch, fault) == if fault < |batch| then Err(Db) else Ok(f.rows + batch)
    decreases |batch|
  {
    hide FileOk, Continuation;
    if batch == [] {
      assert f.rows + batch == f.rows;
    } else {
      var front, last := batch[..|batch| - 1], batch[|batch| - 1];
      FrontContinues(f.rows, f.head, batch);
      InsertsSucceed(f, base, front, fault);
      NoCollision(f, base, batch);
      assert f.rows + batch == f.rows + front + [last];
    }
  }

  /**
  The whole outcome of the append transaction on a sound file: it fails with the mismatch if the
  expectation is not met, with the database's error if that fails, and otherwise stores the batch
  after the old rows, with the next versions and sequences, and moves the head to its end.
  */
  lemma AppendOutcome(f: EventFile, base: int, expected: ExpectedVersion, events: seq<NewEvent>, ids: seq<Id>,
                      now: int, fault: nat)
    requires FileOk(f, base) && FreshIds(ids, events, f.rows) && events != []
    ensures var r := AppendTransaction(f, expected, events, ids, now, fault);
            var batch := Batch(events, ids, f.head, |f.rows|, now);
            && (r.Ok? <==> ValidateExpected(expected, f.head).Ok? && fault > |events| + 1)
            && (r.Err? ==> r.error == if ValidateExpected(expected, f.head).Ok? then Db
                                      else ValidateExpected(expected, f.head).error)
            && (r.Ok? ==> r.value == (EventFile(f.rows + batch, f.head + |batch|, Some(ids[|ids| - 1])), batch)
                          && FileOk(r.value.0, base))
  {
    hide FileOk, Mentions, InsertAll, MaxSequence, Batch, FreshIds, Continuation;
    SequenceOfRows(f, base);
    FreshLength(ids, events, f.rows);
    if ValidateExpected(expected, f.head).Ok? {
      var batch := Batch(events, ids, f.head, |f.rows|, now);
      BatchContinues(f.rows, f.head, events, ids, now);
      InsertsSucceed(f, base, batch, fault);
      ExtendedFileOk(f, base, batch);
    }
  }

  lemma FreshLength(ids: seq<Id>, events: seq<NewEvent>, rows: seq<Event>)
    requires FreshIds(ids, events, rows)
    ensures |ids| == |events|
  {
  }

  lemma ExtendedFileOk(f: EventFile, base: int, batch: seq<Event>)
    requires FileOk(f, base) && batch != []
    requires Continuation(f.rows, f.head, batch)
    ensures FileOk(EventFile(f.rows + batch, f.head + |batch|, Some(batch[|batch| - 1].id)), base)
  {
    var rows := f.rows + batch;
    forall i, j | 0 <= i < j < |rows| ensures rows[i].id != rows[j].id {
      if i < |f.rows| <= j {
        assert f.rows[i] in f.rows && !Mentions(f.rows, batch[j - |f.rows|].id);
      }
    }
  }

  // ----- the queries

  /** The WHERE clause: after the cursor and, for a workflow read, of that workflow run. */
  predicate Selected(e: Event, anchor: Option<Id>, cursor: int)
  {
    e.version > cursor && (anchor.Some? ==> e.anchor == anchor)
  }

  function Select(rows: seq<Event>, anchor: Option<Id>, cursor: int): seq<Event>
  {
    if rows == [] then []
    else
      var front := Select(rows[..|rows| - 1], anchor, cursor);
      var last := rows[|rows| - 1];
      if Selected(last, anchor, cursor) then front + [last] else front
  }

  function Take<T>(s: seq<T>, limit: nat): seq<T> { if |s| <= limit then s else s[..limit] }

  /** Insertion after the last row with a version that is not larger. */
  function InsertByVersion(s: seq<Event>, e: Event): seq<Event>
  {
    if s != [] && s[|s| - 1].version > e.version
    then InsertByVersion(s[..|s| - 1], e) + [s[|s| - 1]]
    else s + [e]
  }

  /** `ORDER BY version`, and `sort_by_key` on the version. */
  function SortByVersion(s: seq<Event>): seq<Event>
  {
    if s == [] then [] else InsertByVersion(SortByVersion(s[..|s| - 1]), s[|s| - 1])
  }

  function Query(f: EventFile, anchor: Option<Id>, cursor: int, limit: nat): seq<Event>
  {
    Take(SortByVersion(Select(f.rows, anchor, cursor)), limit)
  }

  predicate Ascending(s: seq<Event>)
  {
    forall i, j | 0 <= i < j < |s| :: s[i].version < s[j].version
  }

  predicate NonDescending(s: seq<Event>)
  {
    forall i, j | 0 <= i < j < |s| :: s[i].version <= s[j].version
  }

  lemma {:induction false} InsertSorts(s: seq<Event>, e: Event)
    requires NonDescending(s)
    ensures NonDescending(InsertByVersion(s, e)) && multiset(InsertByVersion(s, e)) == multiset(s) + multiset{e}
    ensures forall x <- InsertByVersion(s, e) :: x == e || x in s
  {
    if s != [] {
      var front, last := s[..|s| - 1], s[|s| - 1];
      assert s == front + [last];
      if last.version > e.version {
        InsertSorts(front, e);
        var t := InsertByVersion(front, e);
        forall i | 0 <= i < |t| ensures t[i].version <= last.version { assert t[i] in t; }
      }
    }
  }

  /** Sorting orders any rows by version and keeps each of them. */
  lemma {:induction false} SortSorts(s: seq<Event>)
    ensures NonDescending(SortByVersion(s)) && multiset(SortByVersion(s)) == multiset(s)
  {
    if s != [] {
      var front, last := s[..|s| - 1], s[|s| - 1];
      SortSorts(front);
      InsertSorts(SortByVersion(front), last);
      assert s == front + [last];
    }
  }

  /** However the rows are stored, a query returns them in version order. */
  lemma QuerySorts(f: EventFile, anchor: Option<Id>, cursor: int, limit: nat)
    ensures NonDescending(Query(f, anchor, cursor, limit)) && |Query(f, anchor, cursor, limit)| <= limit
  {
    SortSorts(Select(f.rows, anchor, cursor));
  }

  lemma InsertLargest(s: seq<Event>, e: Event)
    requires s != [] ==> s[|s| - 1].version < e.version
    ensures InsertByVersion(s, e) == s + [e]
  {
  }

  lemma {:induction false} SortOfAscending(s: seq<Event>)
    requires Ascending(s)
    ensures SortByVersion(s) == s
  {
    hide InsertByVersion;
    if s != [] {
      var front, last := s[..|s| - 1], s[|s| - 1];
      SortOfAscending(front);
      InsertLargest(front, last);
      assert s == front + [last];
    }
  }

  lemma {:induction false} SelectAppend(a: seq<Event>, b: seq<Event>, anchor: Option<Id>, cursor: int)
    ensures Select(a + b, anchor, cursor) == Select(a, anchor, cursor) + Select(b, anchor, cursor)
  {
    if b == [] {
      assert a + b == a;
    } else {
      var front := b[..|b| - 1];
      SelectAppend(a, front, anchor, cursor);
      assert (a + b)[..|a + b| - 1] == a + front;
    }
  }

  /**
  `picked` are, in their order, exactly the rows behind the cursor that have the anchor asked for, or
  any anchor when none is asked for; `at` are their positions.
  */
  ghost predicate PicksExactly(rows: seq<Event>, anchor: Option<Id>, cursor: int, picked: seq<Event>, at: seq<nat>)
  {
    && |at| == |picked|
    && (forall k | 0 <= k < |at| :: at[k] < |rows| && picked[k] == rows[at[k]])
    && (forall j, k | 0 <= j < k < |at| :: at[j] < at[k])
    && (forall i | 0 <= i < |rows| && rows[i].version > cursor && (anchor.None? || rows[i].anchor == anchor) :: i in at)
    && (forall e <- picked :: e.version > cursor && (anchor.None? || e.anchor == anchor))
  }

  /** A query selects those rows. */
  lemma {:induction false} SelectsExactly(rows: seq<Event>, anchor: Option<Id>, cursor: int) returns (at: seq<nat>)
    ensures PicksExactly(rows, anchor, cursor, Select(rows, anchor, cursor), at)
  {
    hide PicksExactly;
    if rows == [] {
      at := [];
      PicksNone(anchor, cursor);
    } else {
      var front, last := rows[..|rows| - 1], rows[|rows| - 1];
      var before := SelectsExactly(front, anchor, cursor);
      assert rows == front + [last];
      PicksOneMore(front, anchor, cursor, Select(front, anchor, cursor), before, last);
      at := if Selected(last, anchor, cursor) then before + [|front|] else before;
    }
  }

  lemma PicksNone(anchor: Option<Id>, cursor: int)
    ensures PicksExactly([], anchor, cursor, [], [])
  {
  }

  lemma PicksOneMore(front: seq<Event>, anchor: Option<Id>, cursor: int, picked: seq<Event>, at: seq<nat>, last: Event)
    requires PicksExactly(front, anchor, cursor, picked, at)
    ensures if Selected(last, anchor, cursor)
            then PicksExactly(front + [last], anchor, cursor, picked + [last], at + [|front|])
            else PicksExactly(front + [last], anchor, cursor, picked, at)
  {
    var rows, at' := front + [last], at + [|front|];
    forall i | 0 <= i < |rows| && rows[i].version > cursor && (anchor.None? || rows[i].anchor == anchor)
      ensures i in if Selected(last, anchor, cursor) then at' else at
    {
      if i < |front| {
        assert i in at;
      } else {
        assert at'[|at|] == i;
      }
    }
  }

  /** A workflow query selects exactly the workflow's rows behind the cursor, a plain one all rows behind it. */
  lemma SelectMembers(rows: seq<Event>, anchor: Option<Id>, cursor: int)
    ensures forall e :: e in Select(rows, anchor, cursor) <==>
              e in rows && e.version > cursor && (anchor.None? || e.anchor == anchor)
  {
    SelectedMembers(rows, anchor, cursor);
  }

  /** Selecting keeps exactly the rows that qualify. */
  lemma {:induction false} SelectedMembers(rows: seq<Event>, anchor: Option<Id>, cursor: int)
    ensures forall e :: e in Select(rows, anchor, cursor) <==> e in rows && Selected(e, anchor, cursor)
  {
    hide Selected;
    if rows != [] {
      var front, last := rows[..|rows| - 1], rows[|rows| - 1];
      SelectedMembers(front, anchor, cursor);
      assert rows == front + [last];
    }
  }

  /** Selecting keeps the order. */
  lemma {:induction false} SelectAscends(rows: seq<Event>, anchor: Option<Id>, cursor: int)
    requires Ascending(rows)
    ensures Ascending(Select(rows, anchor, cursor))
  {
    hide Selected;
    if rows != [] {
      var front, last := rows[..|rows| - 1], rows[|rows| - 1];
      var s := Select(front, anchor, cursor);
      SelectAscends(front, anchor, cursor);
      SelectedMembers(front, anchor, cursor);
      forall i | 0 <= i < |s| ensures s[i].version < last.version {
        assert s[i] in s && s[i] in front;
        var k :| 0 <= k < |front| && front[k] == s[i];
        assert rows[k].version < rows[|rows| - 1].version;
      }
    }
  }

  lemma {:induction false} SelectNone(rows: seq<Event>, anchor: Option<Id>, cursor: int)
    requires forall e <- rows :: !Selected(e, anchor, cursor)
    ensures Select(rows, anchor, cursor) == []
  {
    if rows != [] {
      assert rows[|rows| - 1] in rows;
      SelectNone(rows[..|rows| - 1], anchor, cursor);
    }
  }

  lemma RowsAscend(f: EventFile, base: int)
    requires FileOk(f, base)
    ensures Ascending(f.rows)
  {
  }

  /** On rows stored in ascending order the query is the selected ones of them, cut to the limit. */
  lemma QueryOfRows(f: EventFile, anchor: Option<Id>, cursor: int, limit: nat)
    requires Ascending(f.rows)
    ensures Query(f, anchor, cursor, limit) == Take(Select(f.rows, anchor, cursor), limit)
  {
    SelectAscends(f.rows, anchor, cursor);
    SortOfAscending(Select(f.rows, anchor, cursor));
  }

  /** On a sound file the query is the selected rows in stored order, cut to the limit. */
  lemma QueryOfFile(f: EventFile, base: int, anchor: Option<Id>, cursor: int, limit: nat)
    requires FileOk(f, base)
    ensures Query(f, anchor, cursor, limit) == Take(Select(f.rows, anchor, cursor), limit)
  {
    RowsAscend(f, base);
    QueryOfRows(f, anchor, cursor, limit);
  }

  // ----- numbered logs

  predicate Numbered(log: seq<Event>) { forall i | 0 <= i < |log| :: log[i].version == i + 1 }

  /** Selecting behind a cursor from a numbered log drops exactly the events up to the cursor. */
  lemma {:induction false} SelectNumbered(log: seq<Event>, cursor: nat)
    requires Numbered(log) && cursor <= |log|
    ensures Select(log, None, cursor) == log[cursor..]
    decreases |log|
  {
    if cursor == |log| {
      SelectNone(log, None, cursor);
    } else {
      SelectNumbered(log[..|log| - 1], cursor);
      assert log[..|log| - 1][cursor..] + [log[|log| - 1]] == log[cursor..];
    }
  }
}
