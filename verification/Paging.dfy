/** Bounded reads put together: paging, draining and workflow reads of one log. */
module Paging {
  import opened Results
  import opened EventFiles
  import PartitionNames
  import opened PartitionStore
  import opened StoreReads
  import opened StoreRuns

  /** The cursor to go on from after a page. */
  function NextCursor(page: seq<Event>, cursor: int): int
  {
    if page == [] then cursor else page[|page| - 1].version
  }

  /** After the version of the k-th selected event, the selected events are those behind it. */
  lemma {:induction false} SelectBehind(log: seq<Event>, anchor: Option<Id>, cursor: int, k: nat)
    requires Ascending(log) && 0 < k <= |Select(log, anchor, cursor)|
    ensures Select(log, anchor, Select(log, anchor, cursor)[k - 1].version) == Select(log, anchor, cursor)[k..]
    decreases |log|
  {
    hide Selected;
    var front, last := log[..|log| - 1], log[|log| - 1];
    var before := Select(front, anchor, cursor);
    if k <= |before| {
      SelectBehind(front, anchor, cursor, k);
      SelectedEarlier(log, anchor, cursor, k - 1);
      SelectedStill(last, anchor, cursor, before[k - 1].version);
      assert (before + [last])[k..] == before[k..] + [last];
    } else {
      SelectNoneUpTo(log, anchor);
    }
  }

  lemma SelectedEarlier(log: seq<Event>, anchor: Option<Id>, cursor: int, i: nat)
    requires Ascending(log) && log != [] && i < |Select(log[..|log| - 1], anchor, cursor)|
    ensures cursor < Select(log[..|log| - 1], anchor, cursor)[i].version < log[|log| - 1].version
  {
    var front := log[..|log| - 1];
    var e := Select(front, anchor, cursor)[i];
    SelectMembers(front, anchor, cursor);
    assert e in Select(front, anchor, cursor);
  }

  /** An event behind both cursors is selected from both or from neither. */
  lemma SelectedStill(e: Event, anchor: Option<Id>, cursor: int, later: int)
    requires cursor < e.version && later < e.version
    ensures Selected(e, anchor, later) == Selected(e, anchor, cursor)
  {
  }

  lemma SelectNoneUpTo(log: seq<Event>, anchor: Option<Id>)
    requires Ascending(log) && log != []
    ensures Select(log, anchor, log[|log| - 1].version) == []
  {
    SelectNone(log, anchor, log[|log| - 1].version);
  }

  /**
  Pages compose: a page of `a`, then a page of `b` from the last version returned, are together
  the page of `a + b`, for plain and for workflow reads.
  */
  lemma PagesCompose(log: seq<Event>, anchor: Option<Id>, cursor: int, a: nat, b: nat)
    requires Ascending(log) && 0 < a
    ensures var page := ReadOf(log, anchor, cursor, a);
            page + ReadOf(log, anchor, NextCursor(page, cursor), b) == ReadOf(log, anchor, cursor, a + b)
  {
    var all := Select(log, anchor, cursor);
    var page := ReadOf(log, anchor, cursor, a);
    if all != [] {
      SelectBehind(log, anchor, cursor, |page|);
      assert page == all[..|page|];
      assert page[|page| - 1] == all[|page| - 1];
      assert all == all[..|page|] + all[|page|..];
    }
  }

  /** Repeated bounded reads until an empty one; the distance from the cursor to the head shrinks with every page. */
  ghost function Drain(log: seq<Event>, anchor: Option<Id>, cursor: int, limit: nat): seq<Event>
    requires Ascending(log) && 0 < limit
    decreases |Select(log, anchor, cursor)|
  {
    var page := ReadOf(log, anchor, cursor, limit);
    if page == [] then []
    else
      SelectBehind(log, anchor, cursor, |page|);
      page + Drain(log, anchor, NextCursor(page, cursor), limit)
  }

  /** Draining returns everything behind the cursor exactly once, whatever the page size. */
  lemma {:induction false} DrainIsAll(log: seq<Event>, anchor: Option<Id>, cursor: int, limit: nat)
    requires Ascending(log) && 0 < limit
    ensures Drain(log, anchor, cursor, limit) == Select(log, anchor, cursor)
    decreases |Select(log, anchor, cursor)|
  {
    var all := Select(log, anchor, cursor);
    var page := ReadOf(log, anchor, cursor, limit);
    if page != [] {
      SelectBehind(log, anchor, cursor, |page|);
      DrainIsAll(log, anchor, NextCursor(page, cursor), limit);
      assert all == all[..|page|] + all[|page|..];
    }
  }

  /** From the start, draining a stream returns its whole log. */
  lemma DrainFromStart(log: seq<Event>, limit: nat)
    requires Ascending(log) && 0 < limit && forall e <- log :: e.version > 0
    ensures Drain(log, None, 0, limit) == log
  {
    DrainIsAll(log, None, 0, limit);
    SelectAll(log);
  }

  lemma {:induction false} SelectAll(log: seq<Event>)
    requires forall e <- log :: e.version > 0
    ensures Select(log, None, 0) == log
  {
    if log != [] {
      SelectAll(log[..|log| - 1]);
      assert log == log[..|log| - 1] + [log[|log| - 1]];
    }
  }

  /** The events that belong to the workflow run that this event started. */
  function OfWorkflow(events: seq<Event>, startedBy: Id): seq<Event>
  {
    if events == [] then []
    else
      var front, last := OfWorkflow(events[..|events| - 1], startedBy), events[|events| - 1];
      if last.anchor == Some(startedBy) then front + [last] else front
  }

  /** A workflow read is a plain read of all later events, filtered afterwards. */
  lemma {:induction false} WorkflowReadFilters(log: seq<Event>, startedBy: Id, cursor: int)
    ensures Select(log, Some(startedBy), cursor) == OfWorkflow(Select(log, None, cursor), startedBy)
  {
    if log != [] {
      var front, last := log[..|log| - 1], log[|log| - 1];
      var plain := Select(front, None, cursor);
      WorkflowReadFilters(front, startedBy, cursor);
      assert (plain + [last])[..|plain|] == plain;
    }
  }

  /** A page that is not empty moves the cursor forward, at most to the last version of the log. */
  lemma PageMovesCursor(log: seq<Event>, anchor: Option<Id>, cursor: int, limit: nat)
    requires Ascending(log) && ReadOf(log, anchor, cursor, limit) != []
    ensures cursor < NextCursor(ReadOf(log, anchor, cursor, limit), cursor) <= log[|log| - 1].version
  {
    var page := ReadOf(log, anchor, cursor, limit);
    SelectMembers(log, anchor, cursor);
    var last := page[|page| - 1];
    assert last in Select(log, anchor, cursor);
    var i :| 0 <= i < |log| && log[i] == last;
  }

  /**
  At every point of every run, however many rotated and empty files there are: draining from the
  start in pages of any size gives all events committed so far, once and in order.
  */
  lemma DrainOfRun(window: int, run: seq<State>, steps: seq<Step>, n: nat, limit: nat)
    requires PartitionNames.AlignedWindow(window) && IsRun(window, run, steps) && n <= |steps| && 0 < limit
    ensures Ascending(LogOf(run[n].files))
    ensures Drain(LogOf(run[n].files), None, 0, limit) == Committed(window, run, steps, n)
  {
    hide Inv, LogOf, IsRun, IdsOk, Drain, Committed;
    RunLength(window, run, steps);
    RunIsAppendOnlyLog(window, run, steps, n);
    DrainFromStart(LogOf(run[n].files), limit);
  }
}
