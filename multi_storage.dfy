/** A test backend that fans the index's reads out over several SQLite backends and supports
    nothing else. */
module MultiStorage {
  import opened Base
  import opened Storage

  /** The rows of every table, table after table. */
  function AllRows(tables: seq<map<Bytes, Bytes>>, uids: seq<Bytes>): (r: seq<(Bytes, Bytes)>)
    decreases |tables|
  {
    if tables == [] then [] else AllRows(tables[..|tables| - 1], uids) + Rows(tables[|tables| - 1], uids)
  }

  lemma AllRowsSnoc(tables: seq<map<Bytes, Bytes>>, t: map<Bytes, Bytes>, uids: seq<Bytes>)
    ensures AllRows(tables + [t], uids) == AllRows(tables, uids) + Rows(t, uids)
  {
    assert (tables + [t])[..|tables|] == tables;
  }

  /** How many of the tables hold the uid `u`. */
  function Holding(tables: seq<map<Bytes, Bytes>>, u: Bytes): (r: nat)
    ensures r <= |tables|
    decreases |tables|
  {
    if tables == [] then 0 else Holding(tables[..|tables| - 1], u) + (if u in tables[|tables| - 1] then 1 else 0)
  }

  /** Nothing is merged: a requested uid comes back once per backend that holds it, and an
      uid that was not requested does not come back. */
  lemma {:induction false} AllRowsRepeatUids(tables: seq<map<Bytes, Bytes>>, uids: seq<Bytes>, u: Bytes)
    ensures Occurrences(AllRows(tables, uids), u) == if u in uids then Holding(tables, u) else 0
    decreases |tables|
  {
    if tables != [] {
      var init, last := tables[..|tables| - 1], tables[|tables| - 1];
      AllRowsRepeatUids(init, uids, u);
      RowsAreTheRequestedPresentUids(last, uids, u);
      OccurrencesAppend(AllRows(init, uids), Rows(last, uids), u);
    }
  }

  /** One table of each backend, in list order. */
  function TablesOf(dbs: seq<Sqlite>, table: Table): (r: seq<map<Bytes, Bytes>>)
    reads dbs
    ensures |r| == |dbs| && forall i :: 0 <= i < |dbs| ==> r[i] == dbs[i].Get(table)
  {
    seq(|dbs|, i reads dbs requires 0 <= i < |dbs| => dbs[i].Get(table))
  }

  class MultiSqlite {
    const dbList: seq<Sqlite>

    constructor (dbList: seq<Sqlite>)
      ensures this.dbList == dbList
    {
      this.dbList := dbList;
    }

    /** The rows of every backend for `uids`, appended backend after backend. */
    method FetchFromAll(table: Table, uids: seq<Bytes>) returns (output: seq<(Bytes, Bytes)>)
      ensures output == AllRows(TablesOf(dbList, table), uids)
    {
      ghost var tables := TablesOf(dbList, table);
      output := [];
      for i := 0 to |dbList|
        invariant output == AllRows(tables[..i], uids)
      {
        var rows := dbList[i].FetchRows(table, uids);
        assert tables[..i + 1] == tables[..i] + [tables[i]];
        AllRowsSnoc(tables[..i], tables[i], uids);
        output := output + rows;
      }
      assert tables[..|dbList|] == tables;
    }

    /** `fetchEntries`. */
    method FetchEntries(uids: seq<Bytes>) returns (output: seq<(Bytes, Bytes)>)
      ensures output == AllRows(TablesOf(dbList, EntryTable), uids)
    {
      output := FetchFromAll(EntryTable, uids);
    }

    /** `fetchChains`. */
    method FetchChains(uids: seq<Bytes>) returns (output: seq<(Bytes, Bytes)>)
      ensures output == AllRows(TablesOf(dbList, ChainTable), uids)
    {
      output := FetchFromAll(ChainTable, uids);
    }

    /** `searchProgress`: lets the search go on, whatever it has found. */
    method SearchProgress(indexedValues: seq<Bytes>) returns (r: bool)
      ensures r
    {
      r := true;
    }

    method ListRemovedLocations(locations: seq<Bytes>) returns (r: Result<seq<Bytes>>)
      ensures r == Err(NotImplemented)
    {
      r := Err(NotImplemented);
    }

    method FetchAllEntryTableUids() returns (r: Result<set<Bytes>>)
      ensures r == Err(NotImplemented)
    {
      r := Err(NotImplemented);
    }

    method UpsertEntries(updates: map<Bytes, EntryUpdate>) returns (r: Result<map<Bytes, Bytes>>)
      ensures r == Err(NotImplemented)
    {
      r := Err(NotImplemented);
    }

    method UpsertChains(chains: map<Bytes, Bytes>) returns (r: Result<()>)
      ensures r == Err(NotImplemented)
    {
      r := Err(NotImplemented);
    }

    method UpdateTables(removedChains: seq<Bytes>, newEntries: map<Bytes, Bytes>, newChains: map<Bytes, Bytes>)
      returns (r: Result<()>)
      ensures r == Err(NotImplemented)
    {
      r := Err(NotImplemented);
    }
  }
}
