/**
The notification table: the latest stream event of each request, kept for a time to live in whole
seconds. Payload, step counts, texts and times of an event are copied unread and stand as `body`.
*/
module Notifications {
  import opened Results

  datatype Kind = InProgress | Completed | Failed

  datatype StreamEvent =
    StreamEvent(requestId: string, kind: Kind, retriable: Option<bool>, items: seq<string>, body: string)

  /** A table row: the kind as text, the flag as a number, and no items as NULL. */
  datatype Row = Row(kind: string, retriable: Option<int>, items: Option<seq<string>>, body: string, expiresAt: int)

  type Table = map<string, Row>

  // ----- writing and reading one row

  function KindText(kind: Kind): string
  {
    match kind case InProgress => "progress" case Completed => "completed" case Failed => "failed"
  }

  function ReadKind(text: string): Kind
  {
    if text == "progress" then InProgress else if text == "completed" then Completed else Failed
  }

  function WriteRow(event: StreamEvent, now: int, ttl: nat): Row
  {
    Row(KindText(event.kind),
        if event.retriable.None? then None else Some(if event.retriable.value then 1 else 0),
        if event.items == [] then None else Some(event.items),
        event.body, now + ttl)
  }

  function ReadRow(requestId: string, row: Row): StreamEvent
  {
    StreamEvent(requestId, ReadKind(row.kind),
                if row.retriable.None? then None else Some(row.retriable.value != 0),
                if row.items.None? then [] else row.items.value,
                row.body)
  }

  /** Reading a written row gives the event back. */
  lemma RowRoundTrip(event: StreamEvent, now: int, ttl: nat)
    ensures ReadRow(event.requestId, WriteRow(event, now, ttl)) == event
  {
    match event.kind case InProgress => case Completed => case Failed =>
  }

  // ----- the operations on the table

  datatype Op = Record(event: StreamEvent, at: int) | Cleanup(at: int)

  function Recorded(table: Table, event: StreamEvent, now: int, ttl: nat): Table
  {
    table[event.requestId := WriteRow(event, now, ttl)]
  }

  function CleanedUp(table: Table, now: int): Table { map r | r in table && table[r].expiresAt >= now :: table[r] }

  function LookUp(table: Table, requestId: string, now: int): Option<StreamEvent>
  {
    if requestId in table && table[requestId].expiresAt > now then Some(ReadRow(requestId, table[requestId])) else None
  }

  /** The table after some operations on an empty one. */
  function TableAfter(ops: seq<Op>, ttl: nat): Table
  {
    if ops == [] then map[]
    else
      var table := TableAfter(ops[..|ops| - 1], ttl);
      match ops[|ops| - 1]
      case Record(event, at) => Recorded(table, event, at, ttl)
      case Cleanup(at) => CleanedUp(table, at)
  }

  /** The position of the last record for a request. */
  function LastRecord(ops: seq<Op>, requestId: string): (i: Option<nat>)
    ensures i.Some? ==> i.value < |ops| && ops[i.value].Record? && ops[i.value].event.requestId == requestId
    ensures i.Some? ==> forall j | i.value < j < |ops| && ops[j].Record? :: ops[j].event.requestId != requestId
    ensures i.None? ==> forall j | 0 <= j < |ops| && ops[j].Record? :: ops[j].event.requestId != requestId
  {
    if ops == [] then None
    else
      var last := ops[|ops| - 1];
      if last.Record? && last.event.requestId == requestId then Some(|ops| - 1)
      else LastRecord(ops[..|ops| - 1], requestId)
  }

  /** Some clean-up after the record at `i` came later than its time to live. */
  predicate CleanedAfter(ops: seq<Op>, i: nat, ttl: nat)
    requires i < |ops|
  {
    exists j | i < j < |ops| :: ops[j].Cleanup? && ops[j].at > ops[i].at + ttl
  }

  /** The row of a request is that of its last record, as long as no clean-up has found it expired. */
  lemma {:induction false} RowIsLastRecord(ops: seq<Op>, ttl: nat, requestId: string)
    ensures var i := LastRecord(ops, requestId);
            var table := TableAfter(ops, ttl);
            && (requestId in table <==> i.Some? && !CleanedAfter(ops, i.value, ttl))
            && (requestId in table ==> table[requestId] == WriteRow(ops[i.value].event, ops[i.value].at, ttl))
  {
    if ops != [] {
      var front, last := ops[..|ops| - 1], ops[|ops| - 1];
      RowIsLastRecord(front, ttl, requestId);
      var i := LastRecord(ops, requestId);
      if i.Some? && i.value < |front| { CleanedByLast(ops, i.value, ttl); }
    }
  }

  lemma CleanedByLast(ops: seq<Op>, i: nat, ttl: nat)
    requires i < |ops| - 1
    ensures var front, last := ops[..|ops| - 1], ops[|ops| - 1];
            CleanedAfter(ops, i, ttl) <==> CleanedAfter(front, i, ttl) || (last.Cleanup? && last.at > ops[i].at + ttl)
  {
    var front := ops[..|ops| - 1];
    if CleanedAfter(front, i, ttl) {
      var j :| i < j < |front| && front[j].Cleanup? && front[j].at > front[i].at + ttl;
      assert ops[j] == front[j];
    }
    if CleanedAfter(ops, i, ttl) {
      var j :| i < j < |ops| && ops[j].Cleanup? && ops[j].at > ops[i].at + ttl;
      assert j == |ops| - 1 || front[j] == ops[j];
    }
  }

  /**
  For any clock and any interleaving, a lookup gives the last event recorded for the request exactly
  when its record time plus the time to live is later than now and no clean-up since then read a
  time beyond that.
  */
  lemma LookUpExactly(ops: seq<Op>, ttl: nat, requestId: string, now: int)
    ensures var i := LastRecord(ops, requestId);
            LookUp(TableAfter(ops, ttl), requestId, now)
            == if i.Some? && ops[i.value].at + ttl > now && !CleanedAfter(ops, i.value, ttl)
               then Some(ops[i.value].event) else None
  {
    RowIsLastRecord(ops, ttl, requestId);
    var i := LastRecord(ops, requestId);
    if i.Some? { RowRoundTrip(ops[i.value].event, ops[i.value].at, ttl); }
  }

  predicate ClockNeverFallsBack(ops: seq<Op>, now: int)
  {
    && (forall i, j | 0 <= i < j < |ops| :: ops[i].at <= ops[j].at)
    && (forall i | 0 <= i < |ops| :: ops[i].at <= now)
  }

  /**
  With a clock that never falls back, clean-ups are invisible: a lookup gives the last event
  recorded for the request exactly while its time to live lasts.
  */
  lemma CleanupIsInvisible(ops: seq<Op>, ttl: nat, requestId: string, now: int)
    requires ClockNeverFallsBack(ops, now)
    ensures var i := LastRecord(ops, requestId);
            LookUp(TableAfter(ops, ttl), requestId, now)
            == if i.Some? && ops[i.value].at + ttl > now then Some(ops[i.value].event) else None
  {
    LookUpExactly(ops, ttl, requestId, now);
  }

  /** With a clock that falls back, a clean-up can take away an event whose time to live still lasts. */
  lemma CleanupIsVisibleWhenClockFallsBack(event: StreamEvent)
    ensures var ops := [Record(event, 0), Cleanup(2)];
            && LookUp(TableAfter(ops[..1], 1), event.requestId, 0) == Some(event)
            && LookUp(TableAfter(ops, 1), event.requestId, 0) == None
  {
    var ops := [Record(event, 0), Cleanup(2)];
    assert ops[..1] == [Record(event, 0)];
    assert CleanedAfter(ops, 0, 1) by { assert ops[1].Cleanup?; }
    LookUpExactly(ops[..1], 1, event.requestId, 0);
    LookUpExactly(ops, 1, event.requestId, 0);
  }

  // ----- the store

  class NotificationsStore {
    const ttl: nat
    var rows: Table
    /** Every operation so far. */
    ghost var history: seq<Op>

    ghost predicate Valid()
      reads this
    {
      rows == TableAfter(history, ttl)
    }

    constructor (ttl: nat)
      ensures Valid() && this.ttl == ttl && history == []
    {
      this.ttl, this.rows, this.history := ttl, map[], [];
    }

    /** Later events of a request replace earlier ones. */
    method RecordEvent(event: StreamEvent, now: int)
      requires Valid()
      modifies this
      ensures Valid() && history == old(history) + [Record(event, now)]
      ensures rows == Recorded(old(rows), event, now, ttl)
    {
      rows := rows[event.requestId := WriteRow(event, now, ttl)];
      history := history + [Record(event, now)];
      assert history[..|history| - 1] == old(history);
    }

    method Get(requestId: string, now: int) returns (event: Option<StreamEvent>)
      requires Valid()
      ensures var i := LastRecord(history, requestId);
              event == if i.Some? && history[i.value].at + ttl > now && !CleanedAfter(history, i.value, ttl)
                       then Some(history[i.value].event) else None
    {
      LookUpExactly(history, ttl, requestId, now);
      if requestId in rows && rows[requestId].expiresAt > now {
        return Some(ReadRow(requestId, rows[requestId]));
      }
      event := None;
    }

    /** Deletes the rows that have expired before now, and returns how many there were. */
    method CleanupExpired(now: int) returns (deleted: nat)
      requires Valid()
      modifies this
      ensures Valid() && history == old(history) + [Cleanup(now)]
      ensures rows == CleanedUp(old(rows), now) && deleted == |old(rows)| - |rows|
    {
      var expired := set r | r in rows && rows[r].expiresAt < now;
      deleted := |expired|;
      rows := rows - expired;
      history := history + [Cleanup(now)];
      assert history[..|history| - 1] == old(history);
      assert rows.Keys == old(rows).Keys - expired;
      assert rows == CleanedUp(old(rows), now);
    }
  }
}
