/**
Bounded reads one after another while the store goes on: each starts its catalog snapshot after the
last query of the one before, from the cursor that one left, and appends, rotations and reopenings
fall anywhere in between and within them.
*/
module StreamReads {
  import opened Results
  import opened PartitionNames
  import opened EventFiles
  import opened PartitionStore
  import opened StoreRuns
  import StoreReads
  import EventReads
  import Paging
  import PoolWorkers

  /** One bounded read: the instants of its snapshot and of its last query, its limit, and what it returned. */
  datatype Read = Read(snap: nat, end: int, limit: nat, events: seq<Event>)

  function Joined(pages: seq<Read>): seq<Event>
  {
    if pages == [] then [] else Joined(pages[..|pages| - 1]) + pages[|pages| - 1].events
  }

  /** Successive pages, each as `EventReads.Load` promises it. */
  ghost predicate Successive(run: seq<State>, pages: seq<Read>, anchor: Option<Id>, cursor: int)
  {
    pages != [] ==>
      var front, last := pages[..|pages| - 1], pages[|pages| - 1];
      && Successive(run, front, anchor, cursor)
      && (front != [] ==> front[|front| - 1].end <= last.snap)
      && last.limit > 0 && last.snap <= last.end < |run|
      && EventReads.StoodDuring(run, last.snap, last.end, last.events, anchor,
                                Paging.NextCursor(Joined(front), cursor), last.limit)
  }

  /** A longer log selects the same events first. */
  lemma SelectGrows(log: seq<Event>, later: seq<Event>, anchor: Option<Id>, cursor: int)
    requires log <= later
    ensures Select(log, anchor, cursor) <= Select(later, anchor, cursor)
  {
    assert later == log + later[|log|..];
    SelectAppend(log, later[|log|..], anchor, cursor);
  }

  /** What has been read of an earlier log, and a page of a later log behind it, is read of the later log. */
  lemma OneMorePage(log: seq<Event>, later: seq<Event>, anchor: Option<Id>, cursor: int, before: seq<Event>, limit: nat)
    requires log <= later && Ascending(later) && before <= Select(log, anchor, cursor)
    ensures var page := StoreReads.ReadOf(later, anchor, Paging.NextCursor(before, cursor), limit);
            && before + page <= Select(later, anchor, cursor)
            && (|page| < limit ==> before + page == Select(later, anchor, cursor))
            && page == Take(Select(later, anchor, cursor)[|before|..], limit)
  {
    SelectGrows(log, later, anchor, cursor);
    var all := Select(later, anchor, cursor);
    if before != [] {
      assert before[|before| - 1] == all[|before| - 1];
      Paging.SelectBehind(later, anchor, cursor, |before|);
    }
    assert all == before + all[|before|..];
  }

  lemma LogAscends(window: int, run: seq<State>, steps: seq<Step>, t: nat)
    requires AlignedWindow(window) && IsRun(window, run, steps) && t < |run|
    ensures Ascending(LogOf(run[t].files)) && Numbered(LogOf(run[t].files))
  {
    hide Inv, IsRun, LogOf, IdsOk, Committed;
    RunLength(window, run, steps);
    RunIsAppendOnlyLog(window, run, steps, t);
  }

  /** A read returned what the log held at this instant of it. */
  ghost predicate StoodAt(run: seq<State>, page: Read, before: seq<Event>, t: nat, log: seq<Event>, anchor: Option<Id>,
                          cursor: int)
  {
    && page.snap <= t <= page.end < |run| && log == LogOf(run[t].files)
    && page.events == StoreReads.ReadOf(log, anchor, Paging.NextCursor(before, cursor), page.limit)
  }

  lemma StoodThen(run: seq<State>, page: Read, before: seq<Event>, anchor: Option<Id>, cursor: int) returns (t: nat)
    requires page.end < |run|
    requires EventReads.StoodDuring(run, page.snap, page.end, page.events, anchor,
                                    Paging.NextCursor(before, cursor), page.limit)
    ensures t < |run| && page.snap <= t && StoodAt(run, page, before, t, LogOf(run[t].files), anchor, cursor)
  {
    hide LogOf, StoreReads.ReadOf;
    t :| page.snap <= t <= page.end
      && page.events == StoreReads.ReadOf(LogOf(run[t].files), anchor, Paging.NextCursor(before, cursor), page.limit);
  }

  /**
  Whatever is appended meanwhile, successive reads lose nothing, repeat nothing and keep the order:
  joined, they are the first events behind the cursor that the log held at one instant of the last
  read, and all of them when that read returned fewer than its limit.
  */
  lemma {:induction false} ReadsJoin(window: int, run: seq<State>, steps: seq<Step>, pages: seq<Read>,
                                     anchor: Option<Id>, cursor: int)
    returns (t: nat)
    requires AlignedWindow(window) && IsRun(window, run, steps)
    requires pages != [] && Successive(run, pages, anchor, cursor)
    ensures var last := pages[|pages| - 1];
            && last.snap <= t <= last.end < |run|
            && Joined(pages) <= Select(LogOf(run[t].files), anchor, cursor)
            && (|last.events| < last.limit ==> Joined(pages) == Select(LogOf(run[t].files), anchor, cursor))
  {
    hide IsRun, LogOf, Inv, Select, AlignedWindow;
    RunLength(window, run, steps);
    var front, last := pages[..|pages| - 1], pages[|pages| - 1];
    var before := Joined(front);
    t := StoodThen(run, last, before, anchor, cursor);
    LogAscends(window, run, steps, t);
    if front == [] {
      OneMorePage(LogOf(run[t].files), LogOf(run[t].files), anchor, cursor, before, last.limit);
    } else {
      var t' := ReadsJoin(window, run, steps, front, anchor, cursor);
      LogsOnlyGrow(window, run, steps, t', t);
      OneMorePage(LogOf(run[t'].files), LogOf(run[t].files), anchor, cursor, before, last.limit);
    }
  }

  /** From the start of a stream to a page that is not full, that is every event committed up to then. */
  lemma ReadsFromStart(window: int, run: seq<State>, steps: seq<Step>, pages: seq<Read>) returns (t: nat)
    requires AlignedWindow(window) && IsRun(window, run, steps)
    requires pages != [] && Successive(run, pages, None, 0)
    ensures pages[|pages| - 1].snap <= t <= pages[|pages| - 1].end < |run| == |steps| + 1
    ensures Joined(pages) <= Committed(window, run, steps, t)
    ensures |pages[|pages| - 1].events| < pages[|pages| - 1].limit ==> Joined(pages) == Committed(window, run, steps, t)
  {
    hide IsRun, LogOf, Inv, AlignedWindow, IdsOk, Successive, Joined, Committed;
    RunLength(window, run, steps);
    t := ReadsJoin(window, run, steps, pages, None, 0);
    RunIsAppendOnlyLog(window, run, steps, t);
    Paging.SelectAll(LogOf(run[t].files));
  }

  /** Successive reads are loads of a growing log, one log for each, as a worker's drain takes them. */
  lemma {:induction false} ReadsAreLoads(window: int, run: seq<State>, steps: seq<Step>, pages: seq<Read>,
                                         anchor: Option<Id>, cursor: int)
    returns (logs: seq<seq<Event>>, at: seq<nat>)
    requires AlignedWindow(window) && IsRun(window, run, steps)
    requires pages != [] && Successive(run, pages, anchor, cursor)
    ensures |logs| == |at| == |pages| && PoolWorkers.Growing(logs)
    ensures forall i | 0 <= i < |pages| :: StoodAt(run, pages[i], Joined(pages[..i]), at[i], logs[i], anchor, cursor)
  {
    hide IsRun, LogOf, AlignedWindow, Joined, StoodAt, EventReads.StoodDuring, PoolWorkers.Growing;
    RunLength(window, run, steps);
    var front, last := pages[..|pages| - 1], pages[|pages| - 1];
    var t := StoodThen(run, last, Joined(front), anchor, cursor);
    var log := LogOf(run[t].files);
    LogAscends(window, run, steps, t);
    if front == [] {
      logs, at := [log], [t];
      GrowingOne(log);
    } else {
      var earlier, instants := ReadsAreLoads(window, run, steps, front, anchor, cursor);
      var t' := instants[|front| - 1];
      StoodBefore(run, front[|front| - 1], Joined(front[..|front| - 1]), t', earlier[|front| - 1], anchor, cursor);
      LogsOnlyGrow(window, run, steps, t', t);
      logs, at := earlier + [log], instants + [t];
      GrowingOn(earlier, log);
      forall i | 0 <= i < |front| ensures StoodAt(run, pages[i], Joined(pages[..i]), at[i], logs[i], anchor, cursor) {
        assert front[..i] == pages[..i];
      }
    }
  }

  lemma StoodBefore(run: seq<State>, page: Read, before: seq<Event>, t: nat, log: seq<Event>, anchor: Option<Id>,
                    cursor: int)
    requires StoodAt(run, page, before, t, log, anchor, cursor)
    ensures t <= page.end < |run| && log == LogOf(run[t].files)
  {
    hide LogOf, StoreReads.ReadOf;
  }

  lemma GrowingOne(log: seq<Event>)
    requires Numbered(log)
    ensures PoolWorkers.Growing([log])
  {
  }

  lemma GrowingOn(logs: seq<seq<Event>>, later: seq<Event>)
    requires PoolWorkers.Growing(logs) && logs[|logs| - 1] <= later && Numbered(later)
    ensures PoolWorkers.Growing(logs + [later])
  {
    hide Numbered;
    forall i | 0 <= i < |logs| ensures logs[i] <= later {
      assert logs[i] <= logs[|logs| - 1];
    }
  }
}
