/**
Which catalogs serve a log. A read with nothing between its queries, over any catalog and any files,
and the exact condition on the two under which every such read gives what the log would.
*/
module CatalogReads {
  import opened Results
  import TextOrder
  import opened VersionOrder
  import opened EventFiles
  import opened PartitionStore
  import opened StoreReads
  import EventReads

  // ----- the read

  /** The events collected by querying these files one after another until there are enough. */
  function Collected(files: Files, names: seq<string>, anchor: Option<Id>, cursor: int, limit: nat)
    : (events: seq<Event>)
    requires forall n <- names :: n in files
    ensures |events| <= limit
  {
    if names == [] then []
    else
      var front := Collected(files, names[..|names| - 1], anchor, cursor, limit);
      EventReads.QueryBound(files[names[|names| - 1]], anchor, cursor, limit - |front|);
      front + Query(files[names[|names| - 1]], anchor, cursor, limit - |front|)
  }

  /** One bounded read that no other operation interleaves with. */
  function Page(files: Files, catalog: Catalog, anchor: Option<Id>, cursor: int, limit: nat): seq<Event>
    requires catalog.Keys <= files.Keys
  {
    Take(SortByVersion(Collected(files, NamesAfter(catalog, cursor), anchor, cursor, limit)), limit)
  }

  /** Whatever the files and the catalog are, a page comes in version order and within its limit. */
  lemma PageSorts(files: Files, catalog: Catalog, anchor: Option<Id>, cursor: int, limit: nat)
    requires catalog.Keys <= files.Keys
    ensures NonDescending(Page(files, catalog, anchor, cursor, limit))
    ensures |Page(files, catalog, anchor, cursor, limit)| <= limit
  {
    hide Collected;
    SortSorts(Collected(files, NamesAfter(catalog, cursor), anchor, cursor, limit));
  }

  /** Every plain and every workflow read, from every cursor and of every size, is as the log says. */
  ghost predicate PagesServe(files: Files, catalog: Catalog, log: seq<Event>)
    requires catalog.Keys <= files.Keys
  {
    forall anchor: Option<Id>, cursor: nat, limit: nat | 1 <= limit ::
      Page(files, catalog, anchor, cursor, limit) == ReadOf(log, anchor, cursor, limit)
  }

  // ----- files that hold a log

  function RowsOf(files: Files): View { map n | n in files :: files[n].rows }

  function FirstOf(rows: seq<Event>): int
    requires rows != []
  {
    rows[0].version
  }

  function LastOf(rows: seq<Event>): int
    requires rows != []
  {
    rows[|rows| - 1].version
  }

  /** All rows of `n` come after all rows of `m`. */
  predicate Earlier(view: View, m: string, n: string)
  {
    m in view && n in view && view[m] != [] && view[n] != [] && LastOf(view[m]) < FirstOf(view[n])
  }

  /** Rows that are a stretch of the log. */
  predicate Stretch(rows: seq<Event>, log: seq<Event>)
  {
    rows != [] ==> 1 <= FirstOf(rows) && FirstOf(rows) - 1 + |rows| <= |log|
                   && rows == log[FirstOf(rows) - 1..FirstOf(rows) - 1 + |rows|]
  }

  /** The files hold the log between them: each a stretch of it, no two the same part, and nothing left out. */
  ghost predicate Split(view: View, log: seq<Event>)
  {
    && Numbered(log)
    && (forall n | n in view :: Stretch(view[n], log))
    && (forall m, n | m in view && n in view && m != n && view[m] != [] && view[n] != [] ::
          Earlier(view, m, n) || Earlier(view, n, m))
    && (forall e <- log :: exists n :: n in view && e in view[n])
  }

  /** Files that come earlier in the log come earlier in this order. */
  ghost predicate InLogOrder(view: View, keys: Keys)
  {
    forall m, n | Earlier(view, m, n) && m in keys && n in keys :: Before(keys, m, n)
  }

  /**
  What a catalog must say to serve a log: it lists every file that holds rows, to its last row at
  least, and in the order of the log. Empty files may be listed or not, anywhere.
  */
  ghost predicate Shows(view: View, catalog: Catalog)
  {
    && (forall n | n in view && view[n] != [] ::
          n in catalog && (catalog[n].lastVersion.None? || catalog[n].lastVersion.value >= LastOf(view[n])))
    && InLogOrder(view, CatalogKeys(catalog))
  }

  lemma StretchVersions(rows: seq<Event>, log: seq<Event>, i: nat)
    requires Numbered(log) && Stretch(rows, log) && i < |rows|
    ensures rows[i].version == FirstOf(rows) + i && LastOf(rows) == FirstOf(rows) + |rows| - 1 <= |log|
    ensures rows[i] == log[FirstOf(rows) - 1 + i]
  {
  }

  lemma StretchAscends(rows: seq<Event>, log: seq<Event>)
    requires Numbered(log) && Stretch(rows, log)
    ensures Ascending(rows)
  {
    forall i, j | 0 <= i < j < |rows| ensures rows[i].version < rows[j].version {
      StretchVersions(rows, log, i);
      StretchVersions(rows, log, j);
    }
  }

  /** A file that holds rows of a log holds exactly the versions from its first to its last. */
  lemma HoldsBetween(view: View, log: seq<Event>, n: string, e: Event)
    requires Split(view, log) && n in view && e in view[n]
    ensures view[n] != [] && 1 <= FirstOf(view[n]) <= e.version <= LastOf(view[n]) <= |log|
    ensures e == log[e.version - 1]
  {
    var i :| 0 <= i < |view[n]| && view[n][i] == e;
    StretchVersions(view[n], log, i);
  }

  /** No event is in two files. */
  lemma InOneFile(view: View, log: seq<Event>, m: string, n: string, e: Event)
    requires Split(view, log) && m in view && n in view && e in view[m] && e in view[n]
    ensures m == n
  {
    HoldsBetween(view, log, m, e);
    HoldsBetween(view, log, n, e);
  }

  lemma EarlierDiffers(view: View, log: seq<Event>, m: string, n: string)
    requires Split(view, log) && Earlier(view, m, n)
    ensures m != n
  {
    HoldsBetween(view, log, m, view[m][0]);
  }

  // ----- what a read gives

  lemma RowsMember(view: View, names: seq<string>, e: Event)
    requires forall n <- names :: n in view
    requires e in RowsSeen(view, names)
    ensures exists n :: n in names && e in view[n]
  {
    var front, last := names[..|names| - 1], names[|names| - 1];
    if e in view[last] {
      assert last in names;
    } else {
      RowsMember(view, front, e);
      var n :| n in front && e in view[n];
      assert n in names;
    }
  }

  lemma {:induction false} RowsContain(view: View, names: seq<string>, n: string, e: Event)
    requires forall n <- names :: n in view
    requires n in names && e in view[n]
    ensures e in RowsSeen(view, names)
  {
    if n != names[|names| - 1] { RowsContain(view, names[..|names| - 1], n, e); }
  }

  /** The events collected are the first selected ones of the rows seen. */
  lemma {:induction false} CollectedIsTaken(files: Files, names: seq<string>, anchor: Option<Id>, cursor: int,
                                            limit: nat)
    requires forall n <- names :: n in files && Ascending(files[n].rows)
    ensures Collected(files, names, anchor, cursor, limit)
         == Take(Select(RowsSeen(RowsOf(files), names), anchor, cursor), limit)
  {
    hide Query, Select;
    if names == [] {
      assert Select([], anchor, cursor) == [] by { SelectNone([], anchor, cursor); }
    } else {
      var front, last := names[..|names| - 1], names[|names| - 1];
      var rows := RowsSeen(RowsOf(files), front);
      CollectedIsTaken(files, front, anchor, cursor, limit);
      SelectAppend(rows, files[last].rows, anchor, cursor);
      EventReads.TakeConcat(Select(rows, anchor, cursor), Select(files[last].rows, anchor, cursor), limit);
      QueryOfRows(files[last], anchor, cursor, limit - |Take(Select(rows, anchor, cursor), limit)|);
    }
  }

  /** The greatest file by keys in log order holds the end of the log. */
  lemma LastHoldsEnd(view: View, keys: Keys, log: seq<Event>)
    requires keys != map[] && keys.Keys == view.Keys && Split(view, log) && InLogOrder(view, keys)
    requires view[Greatest(keys)] != []
    ensures LastOf(view[Greatest(keys)]) == |log|
    ensures forall n | n in view && n != Greatest(keys) && view[n] != [] :: Earlier(view, n, Greatest(keys))
  {
    var m := Greatest(keys);
    forall n | n in view && n != m && view[n] != [] ensures Earlier(view, n, m) {
      if Earlier(view, m, n) {
        TextOrder.Asymmetric(m, n) by { assert Before(keys, m, n) && Before(keys, n, m); }
      }
    }
    HoldsBetween(view, log, m, view[m][|view[m]| - 1]);
    var e := log[|log| - 1];
    assert e in log;
    var n :| n in view && e in view[n];
    HoldsBetween(view, log, n, e);
  }

  lemma HeldBefore(view: View, log: seq<Event>, m: string, front: seq<Event>, e: Event)
    requires Split(view, log) && m in view && e in front
    requires front == if view[m] == [] then log else log[..FirstOf(view[m]) - 1]
    requires view[m] != [] ==> FirstOf(view[m]) - 1 <= |log|
    ensures exists n :: n in view - {m} && e in (view - {m})[n]
  {
    var i :| 0 <= i < |front| && front[i] == e;
    assert log[i] == e && e in log;
    var n :| n in view && e in view[n];
    HoldsBetween(view, log, n, e);
    assert n in view - {m};
  }

  lemma StretchOfFront(rows: seq<Event>, log: seq<Event>, end: nat)
    requires Stretch(rows, log) && end <= |log| && (rows != [] ==> FirstOf(rows) - 1 + |rows| <= end)
    ensures Stretch(rows, log[..end])
  {
    if rows != [] {
      var start := FirstOf(rows) - 1;
      assert log[..end][start..start + |rows|] == log[start..start + |rows|];
    }
  }

  /** Taking that file off leaves files that hold the log before it. */
  lemma SplitFront(view: View, log: seq<Event>, m: string) returns (front: seq<Event>)
    requires Split(view, log) && m in view
    requires view[m] != [] ==>
               LastOf(view[m]) == |log| && forall n | n in view && n != m && view[n] != [] :: Earlier(view, n, m)
    ensures Split(view - {m}, front) && log == front + view[m]
  {
    front := if view[m] == [] then log else log[..FirstOf(view[m]) - 1];
    if view[m] != [] { StretchVersions(view[m], log, |view[m]| - 1); }
    var rest := view - {m};
    assert front == log[..|front|];
    forall n | n in rest ensures Stretch(rest[n], front) {
      if rest[n] != [] { StretchVersions(view[n], log, |view[n]| - 1); }
      StretchOfFront(rest[n], log, |front|);
    }
    forall e <- front ensures exists n :: n in rest && e in rest[n] { HeldBefore(view, log, m, front, e); }
    forall a, b | a in rest && b in rest && a != b && rest[a] != [] && rest[b] != []
      ensures Earlier(rest, a, b) || Earlier(rest, b, a)
    {
      assert Earlier(view, a, b) || Earlier(view, b, a);
    }
  }

  lemma FirstIn(log: seq<Event>)
    ensures log != [] ==> log[0] in log
  {
  }

  /** Files put in the order of the log show it. */
  lemma {:induction false} InOrderIsLog(view: View, keys: Keys, log: seq<Event>)
    requires keys.Keys == view.Keys && Split(view, log) && InLogOrder(view, keys)
    ensures RowsSeen(view, Sorted(keys)) == log
    decreases |keys|
  {
    if keys == map[] {
      FirstIn(log);
    } else {
      var m := Greatest(keys);
      var rest := keys - {m};
      if view[m] != [] { LastHoldsEnd(view, keys, log); }
      var front := SplitFront(view, log, m);
      forall a, b | Earlier(view - {m}, a, b) && a in rest && b in rest ensures Before(rest, a, b) {
        assert Earlier(view, a, b);
      }
      InOrderIsLog(view - {m}, rest, front);
      RowsSame(view, view - {m}, Sorted(rest));
    }
  }

  // ----- catalogs that show the log serve it

  /** The rows of the listed files hold the log, as unlisted files are empty. */
  lemma ListedSplit(view: View, catalog: Catalog, log: seq<Event>) returns (listed: View)
    requires Split(view, log) && Shows(view, catalog) && catalog.Keys <= view.Keys
    ensures listed.Keys == catalog.Keys && forall n | n in listed :: listed[n] == view[n]
    ensures Split(listed, log) && InLogOrder(listed, CatalogKeys(catalog))
  {
    listed := map n | n in catalog :: view[n];
    forall e <- log ensures exists n :: n in listed && e in listed[n] {
      var n :| n in view && e in view[n];
      assert n in listed;
    }
    forall m, n | m in listed && n in listed && m != n && listed[m] != [] && listed[n] != []
      ensures Earlier(listed, m, n) || Earlier(listed, n, m)
    {
      assert Earlier(view, m, n) || Earlier(view, n, m);
    }
    forall m, n | Earlier(listed, m, n) && m in catalog && n in catalog ensures Before(CatalogKeys(catalog), m, n) {
      assert Earlier(view, m, n);
    }
  }

  /** A file that the catalog query passes over holds nothing the read wants. */
  lemma PassedOverRows(view: View, catalog: Catalog, log: seq<Event>, n: string, anchor: Option<Id>, cursor: int)
    requires Split(view, log) && Shows(view, catalog) && n in view && n in catalog && !MayHoldAfter(catalog[n], cursor)
    ensures Select(view[n], anchor, cursor) == []
  {
    forall e <- view[n] ensures !Selected(e, anchor, cursor) { HoldsBetween(view, log, n, e); }
    SelectNone(view[n], anchor, cursor);
  }

  lemma LogAscends(log: seq<Event>)
    requires Numbered(log)
    ensures Ascending(log)
  {
  }

  lemma PageWhenShown(files: Files, catalog: Catalog, log: seq<Event>, anchor: Option<Id>, cursor: int, limit: nat)
    requires catalog.Keys <= files.Keys && Split(RowsOf(files), log) && Shows(RowsOf(files), catalog)
    ensures Page(files, catalog, anchor, cursor, limit) == ReadOf(log, anchor, cursor, limit)
  {
    hide Split, Shows, Stretch, Select, RowsSeen, Sorted, Collected, SortByVersion, Ascending, InLogOrder;
    var view, keys, sub := RowsOf(files), CatalogKeys(catalog), KeysAfter(catalog, cursor);
    forall n | n in files ensures Ascending(files[n].rows) { FileAscends(view, log, n); }
    CollectedIsTaken(files, NamesAfter(catalog, cursor), anchor, cursor, limit);
    forall n | n in keys && n !in sub ensures Select(view[n], anchor, cursor) == [] {
      PassedOverRows(view, catalog, log, n, anchor, cursor);
    }
    SkippedFilesHoldNothing(keys, sub, view, anchor, cursor);
    var listed := ListedSplit(view, catalog, log);
    InOrderIsLog(listed, keys, log);
    RowsSame(view, listed, Sorted(keys));
    SplitNumbered(view, log);
    LogAscends(log);
    EventReads.ReadAscends(log, anchor, cursor, limit);
  }

  lemma FileAscends(view: View, log: seq<Event>, n: string)
    requires Split(view, log) && n in view
    ensures Ascending(view[n])
  {
    StretchAscends(view[n], log);
  }

  lemma SplitNumbered(view: View, log: seq<Event>)
    requires Split(view, log)
    ensures Numbered(log)
  {
  }

  // ----- catalogs that serve the log show it

  /** Every event of a page is a row of a listed file that the catalog query returned. */
  lemma PageFromListed(files: Files, catalog: Catalog, log: seq<Event>, cursor: int, limit: nat, e: Event)
    requires catalog.Keys <= files.Keys && Split(RowsOf(files), log)
    requires e in Page(files, catalog, None, cursor, limit)
    ensures exists n :: n in NamesAfter(catalog, cursor) && e in files[n].rows
  {
    hide Split, Stretch, Select, RowsSeen, Sorted, Collected, SortByVersion, Ascending;
    var view, names := RowsOf(files), NamesAfter(catalog, cursor);
    forall n | n in files ensures Ascending(files[n].rows) { FileAscends(view, log, n); }
    CollectedIsTaken(files, names, None, cursor, limit);
    var collected := Collected(files, names, None, cursor, limit);
    SortSorts(collected);
    SameElements(SortByVersion(collected), collected, e);
    SelectMembers(RowsSeen(view, names), None, cursor);
    RowsMember(view, names, e);
  }

  lemma SameElements(a: seq<Event>, b: seq<Event>, e: Event)
    requires multiset(a) == multiset(b) && e in a
    ensures e in b
  {
    assert e in multiset(a);
  }

  /** What the log gives right behind a version is the next event. */
  lemma NextOfLog(log: seq<Event>, cursor: nat)
    requires Numbered(log) && cursor < |log|
    ensures ReadOf(log, None, cursor, 1) == [log[cursor]]
  {
    SelectNumbered(log, cursor);
  }

  /** A file that is not listed to its last row is missed by the read of that row. */
  lemma MissedFile(files: Files, catalog: Catalog, log: seq<Event>, n: string)
    requires catalog.Keys <= files.Keys && Split(RowsOf(files), log) && n in files && files[n].rows != []
    requires n !in catalog || (catalog[n].lastVersion.Some? && catalog[n].lastVersion.value < LastOf(files[n].rows))
    ensures !PagesServe(files, catalog, log)
  {
    hide Page, Select, Sorted, Stretch;
    var view, last := RowsOf(files), LastOf(files[n].rows);
    var e := files[n].rows[|files[n].rows| - 1];
    HoldsBetween(view, log, n, e);
    NextOfLog(log, last - 1);
    if e in Page(files, catalog, None, last - 1, 1) {
      PageFromListed(files, catalog, log, last - 1, 1, e);
      var k :| k in NamesAfter(catalog, last - 1) && e in files[k].rows;
      InOneFile(view, log, k, n, e);
    }
    assert e in ReadOf(log, None, last - 1, 1);
  }

  /** Files listed against the order of the log make the read of the earlier one start with the later. */
  lemma OutOfOrder(files: Files, catalog: Catalog, log: seq<Event>, m: string, n: string)
    requires catalog.Keys <= files.Keys && Split(RowsOf(files), log) && Earlier(RowsOf(files), m, n)
    requires m in catalog && n in catalog && !Before(CatalogKeys(catalog), m, n)
    requires MayHoldAfter(catalog[m], FirstOf(files[m].rows) - 1)
    requires MayHoldAfter(catalog[n], FirstOf(files[m].rows) - 1)
    ensures !PagesServe(files, catalog, log)
  {
    hide Select, Sorted, Stretch, RowsSeen, Collected, SortByVersion;
    var view, cursor := RowsOf(files), FirstOf(files[m].rows) - 1;
    var e := files[m].rows[0];
    HoldsBetween(view, log, m, e);
    NextOfLog(log, cursor);
    if e in Page(files, catalog, None, cursor, 1) {
      LaterComesFirst(files, catalog, log, m, n);
      assert false;
    }
    assert e in ReadOf(log, None, cursor, 1);
  }

  lemma FrontListed(files: Files, catalog: Catalog, cursor: int, j: nat)
    requires catalog.Keys <= files.Keys && j <= |NamesAfter(catalog, cursor)|
    ensures forall k <- NamesAfter(catalog, cursor)[..j] :: k in NamesAfter(catalog, cursor) && k in RowsOf(files)
  {
    hide NamesAfter;
    var names := NamesAfter(catalog, cursor);
    EventReads.NamesDistinct(catalog, cursor);
    forall k <- names[..j] ensures k in names && k in RowsOf(files) {
      assert k in names;
      assert k in KeysAfter(catalog, cursor);
    }
  }

  lemma LaterComesFirst(files: Files, catalog: Catalog, log: seq<Event>, m: string, n: string)
    requires catalog.Keys <= files.Keys && Split(RowsOf(files), log) && Earlier(RowsOf(files), m, n)
    requires m in catalog && n in catalog && !Before(CatalogKeys(catalog), m, n)
    requires MayHoldAfter(catalog[m], FirstOf(files[m].rows) - 1)
    requires MayHoldAfter(catalog[n], FirstOf(files[m].rows) - 1)
    ensures files[m].rows[0] !in Page(files, catalog, None, FirstOf(files[m].rows) - 1, 1)
  {
    hide Select, Sorted, Stretch, RowsSeen, Collected, SortByVersion, Split;
    var view, cursor := RowsOf(files), FirstOf(files[m].rows) - 1;
    var names := NamesAfter(catalog, cursor);
    EarlierDiffers(view, log, m, n);
    var j := PlaceAfter(catalog, cursor, m, n);
    var front := names[..j];
    FrontListed(files, catalog, cursor, j);
    forall k | k in files ensures Ascending(files[k].rows) { FileAscends(view, log, k); }
    var rows := RowsSeen(view, front);
    var next := files[n].rows[0];
    RowsContain(view, front, n, next);
    SelectMembers(rows, None, cursor);
    assert next in Select(rows, None, cursor);
    EventReads.EnoughSeen(view, names, j, None, cursor, 1);
    CollectedIsTaken(files, names, None, cursor, 1);
    var collected := Collected(files, names, None, cursor, 1);
    SortSorts(collected);
    var e := files[m].rows[0];
    if e in Page(files, catalog, None, cursor, 1) {
      SameElements(SortByVersion(collected), collected, e);
      RowsMember(view, front, e);
      var k :| k in front && e in view[k];
      InOneFile(view, log, k, m, e);
    }
  }

  /** The place of `m` among the names that a read goes through, when `n` does not come after it. */
  lemma PlaceAfter(catalog: Catalog, cursor: int, m: string, n: string) returns (j: nat)
    requires m in catalog && n in catalog && m != n && !Before(CatalogKeys(catalog), m, n)
    requires MayHoldAfter(catalog[m], cursor) && MayHoldAfter(catalog[n], cursor)
    ensures var names := NamesAfter(catalog, cursor);
            j < |names| && names[j] == m && n in names[..j] && m !in names[..j]
  {
    var keys, names := KeysAfter(catalog, cursor), NamesAfter(catalog, cursor);
    assert m in keys && n in keys;
    SortedInOrder(keys);
    SortedDistinct(keys);
    TextOrder.Total(m, n);
    j :| 0 <= j < |names| && names[j] == m;
    var i :| 0 <= i < |names| && names[i] == n;
    assert i < j;
    assert names[..j][i] == n;
  }

  // ----- the exact condition

  /** Every read of every size is as the log says if and only if the catalog shows the log. */
  lemma PagesServeExactly(files: Files, catalog: Catalog, log: seq<Event>)
    requires catalog.Keys <= files.Keys && Split(RowsOf(files), log)
    ensures PagesServe(files, catalog, log) <==> Shows(RowsOf(files), catalog)
  {
    hide Page, Split, LastOf, FirstOf, ReadOf;
    var view := RowsOf(files);
    if Shows(view, catalog) {
      forall anchor: Option<Id>, cursor: nat, limit: nat | 1 <= limit
        ensures Page(files, catalog, anchor, cursor, limit) == ReadOf(log, anchor, cursor, limit)
      {
        PageWhenShown(files, catalog, log, anchor, cursor, limit);
      }
    } else {
      NotShown(files, catalog, log);
    }
  }

  lemma NotShown(files: Files, catalog: Catalog, log: seq<Event>)
    requires catalog.Keys <= files.Keys && Split(RowsOf(files), log) && !Shows(RowsOf(files), catalog)
    ensures !PagesServe(files, catalog, log)
  {
    hide PagesServe, Stretch;
    var view := RowsOf(files);
    if n :| n in view && view[n] != []
            && (n !in catalog || (catalog[n].lastVersion.Some? && catalog[n].lastVersion.value < LastOf(view[n]))) {
      MissedFile(files, catalog, log, n);
    } else {
      var m, n :| Earlier(view, m, n) && m in catalog && n in catalog && !Before(CatalogKeys(catalog), m, n);
      HoldsBetween(view, log, m, view[m][0]);
      HoldsBetween(view, log, n, view[n][0]);
      OutOfOrder(files, catalog, log, m, n);
    }
  }
}
