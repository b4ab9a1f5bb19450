/** The catalog database of one partition store: its single table, changed in place. */
module CatalogTable {
  import opened Results
  import VersionOrder
  import opened PartitionStore
  import StoreReads

  /** Rows with distinct names: the ones that plain INSERTs can put into an empty table. */
  predicate DistinctPaths(ranges: seq<Range>)
  {
    forall i, j | 0 <= i < j < |ranges| :: ranges[i].path != ranges[j].path
  }

  lemma {:induction false} CatalogOfNames(ranges: seq<Range>)
    ensures forall n :: n in CatalogOf(ranges) <==> exists i :: 0 <= i < |ranges| && ranges[i].path == n
  {
    if ranges != [] {
      var front := ranges[..|ranges| - 1];
      CatalogOfNames(front);
      forall n | n in CatalogOf(front) ensures exists i :: 0 <= i < |ranges| && ranges[i].path == n {
        var i :| 0 <= i < |front| && front[i].path == n;
        assert ranges[i].path == n;
      }
      forall i | 0 <= i < |front| ensures ranges[i].path in CatalogOf(front) { assert front[i].path == ranges[i].path; }
    }
  }

  lemma {:induction false} CatalogOfValues(ranges: seq<Range>)
    requires DistinctPaths(ranges)
    ensures forall i | 0 <= i < |ranges| ::
              ranges[i].path in CatalogOf(ranges) && CatalogOf(ranges)[ranges[i].path] == ranges[i]
  {
    if ranges != [] {
      var front := ranges[..|ranges| - 1];
      CatalogOfValues(front);
      forall i | 0 <= i < |front|
        ensures ranges[i].path in CatalogOf(ranges) && CatalogOf(ranges)[ranges[i].path] == ranges[i]
      {
        assert front[i] == ranges[i] && ranges[i].path != ranges[|ranges| - 1].path;
      }
    }
  }

  class CatalogDb {
    var rows: Catalog

    constructor (rows: Catalog)
      ensures this.rows == rows
    {
      this.rows := rows;
    }

    /** INSERT ... ON CONFLICT(name) DO UPDATE. */
    method CreateEventFileRange(range: Range)
      modifies this
      ensures rows == old(rows)[range.path := range]
    {
      rows := rows[range.path := range];
    }

    /** UPDATE ... WHERE name = ?: a missing name changes nothing. */
    method SealEventFileRange(name: string, lastVersion: int)
      modifies this
      ensures name !in old(rows) ==> rows == old(rows)
      ensures name in old(rows) ==>
                var row := old(rows)[name];
                rows == old(rows)[name := Range(row.path, row.firstVersion, Some(lastVersion), true)]
      ensures rows == SealRange(old(rows), name, lastVersion)
    {
      if name in rows {
        rows := rows[name := rows[name].(lastVersion := Some(lastVersion), sealed := true)];
      }
    }

    /**
    One transaction: delete everything, then plain INSERTs, which a repeated name makes fail. The
    database fails by itself at statement number `fault`, if it comes to that: 0 is the DELETE and
    |ranges| + 1 the COMMIT. Any failure rolls back.
    */
    method ReplaceEventFileRanges(ranges: seq<Range>, fault: nat) returns (ok: bool)
      modifies this
      ensures ok <==> DistinctPaths(ranges) && fault > |ranges| + 1
      ensures rows == if ok then CatalogOf(ranges) else old(rows)
      ensures ok ==> forall n :: n in rows <==> exists i :: 0 <= i < |ranges| && ranges[i].path == n
      ensures ok ==> forall i | 0 <= i < |ranges| :: ranges[i].path in rows && rows[ranges[i].path] == ranges[i]
    {
      var saved := rows;
      if fault == 0 { return false; }
      rows := map[];
      var i := 0;
      while i < |ranges|
        invariant 0 <= i <= |ranges| && fault > i && saved == old(rows)
        invariant DistinctPaths(ranges[..i]) && rows == CatalogOf(ranges[..i])
      {
        assert ranges[..i + 1][..i] == ranges[..i];
        CatalogOfNames(ranges[..i]);
        if ranges[i].path in rows || fault == i + 1 {
          rows := saved;
          return false;
        }
        forall j | 0 <= j < i ensures ranges[j].path != ranges[i].path { assert ranges[..i][j].path in rows; }
        rows := rows[ranges[i].path := ranges[i]];
        i := i + 1;
      }
      assert ranges[..i] == ranges;
      CatalogOfNames(ranges);
      CatalogOfValues(ranges);
      if fault == |ranges| + 1 {
        rows := saved;
        return false;
      }
      ok := true;
    }

    /** All rows with their names, by first version and name. */
    method GetAllEventFileRanges() returns (names: seq<string>, ranges: seq<Range>)
      ensures names == VersionOrder.Sorted(CatalogKeys(rows)) && |ranges| == |names|
      ensures forall i | 0 <= i < |ranges| :: names[i] in rows && ranges[i] == rows[names[i]]
    {
      names, ranges := VersionOrder.Sorted(CatalogKeys(rows)), [];
      while |ranges| < |names|
        invariant |ranges| <= |names|
        invariant forall i | 0 <= i < |ranges| :: names[i] in rows && ranges[i] == rows[names[i]]
      {
        assert names[|ranges|] in CatalogKeys(rows);
        ranges := ranges + [rows[names[|ranges|]]];
      }
    }

    /** The rows that may hold events after a version, by first version and name. */
    method GetEventFileRangesAfterVersion(version: int) returns (ranges: seq<Range>)
      ensures ranges == StoreReads.RangesAfter(rows, version)
    {
      var names := StoreReads.NamesAfter(rows, version);
      ranges := [];
      while |ranges| < |names|
        invariant |ranges| <= |names|
        invariant ranges == StoreReads.RangesAfter(rows, version)[..|ranges|]
      {
        assert names[|ranges|] in StoreReads.KeysAfter(rows, version);
        ranges := ranges + [rows[names[|ranges|]]];
      }
    }
  }
}
