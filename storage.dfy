/** The reference storage backend of the index: an SQLite database holding the entry table, the
    chain table (both uid -> value, uid the primary key) and the `users` table that the indexed
    locations point into. Each SQL statement the backend issues is modelled by its effect on
    these tables. */
module Storage {
  import opened Base

  /** The two index tables, named by the `tableName` argument of the Java methods. */
  datatype Table = EntryTable | ChainTable

  function Other(table: Table): Table {
    if table == EntryTable then ChainTable else EntryTable
  }

  /** `Tuple<EntryTableValue, EntryTableValue>` of a conditional upsert: the value the caller
      believes is stored (left) and the value to store (right). */
  datatype EntryUpdate = EntryUpdate(previous: Bytes, next: Bytes)

  // ---------------------------------------------------------------- rows of a table

  /** `set(uids)`: the uids of a request. */
  function UidSet(uids: seq<Bytes>): set<Bytes> {
    set u | u in uids
  }

  /** The rows a `SELECT uid, value ... WHERE uid IN (uids)` returns, listed in the order the
      uids are first requested, each row once. */
  function Rows(t: map<Bytes, Bytes>, uids: seq<Bytes>): (r: seq<(Bytes, Bytes)>)
    ensures |r| <= |uids|
    decreases |uids|
  {
    if uids == [] then []
    else
      var init, u := uids[..|uids| - 1], uids[|uids| - 1];
      Rows(t, init) + (if u in t && u !in init then [(u, t[u])] else [])
  }

  /** How many rows of `rows` carry the uid `u`. */
  function Occurrences(rows: seq<(Bytes, Bytes)>, u: Bytes): (r: nat)
    ensures r <= |rows|
    decreases |rows|
  {
    if rows == [] then 0
    else Occurrences(rows[..|rows| - 1], u) + (if rows[|rows| - 1].0 == u then 1 else 0)
  }

  lemma {:induction false} OccurrencesAppend(a: seq<(Bytes, Bytes)>, b: seq<(Bytes, Bytes)>, u: Bytes)
    ensures Occurrences(a + b, u) == Occurrences(a, u) + Occurrences(b, u)
    decreases |b|
  {
    if b != [] {
      assert (a + b)[..|a + b| - 1] == a + b[..|b| - 1];
      assert (a + b)[|a + b| - 1] == b[|b| - 1];
      OccurrencesAppend(a, b[..|b| - 1], u);
    } else {
      assert a + b == a;
    }
  }

  /** A select returns each requested uid present in the table exactly once, with its stored
      value, and nothing else. */
  lemma {:induction false} RowsAreTheRequestedPresentUids(t: map<Bytes, Bytes>, uids: seq<Bytes>, u: Bytes)
    ensures Occurrences(Rows(t, uids), u) == if u in t && u in uids then 1 else 0
    ensures forall i :: 0 <= i < |Rows(t, uids)| ==>
              Rows(t, uids)[i].0 in t && Rows(t, uids)[i].0 in uids && Rows(t, uids)[i].1 == t[Rows(t, uids)[i].0]
    decreases |uids|
  {
    if uids != [] {
      var init, v := uids[..|uids| - 1], uids[|uids| - 1];
      assert uids == init + [v];
      RowsAreTheRequestedPresentUids(t, init, u);
      OccurrencesAppend(Rows(t, init), if v in t && v !in init then [(v, t[v])] else [], u);
    }
  }

  // ---------------------------------------------------------------- compare-and-swap

  /** The updates of `updates` whose uid lies in `done`. */
  function Restrict(updates: map<Bytes, EntryUpdate>, done: set<Bytes>): (r: map<Bytes, EntryUpdate>)
    ensures r.Keys == updates.Keys * done
  {
    map k | k in updates && k in done :: updates[k]
  }

  /** `INSERT ... ON CONFLICT(uid) DO UPDATE SET value = new WHERE value = previous` for one uid:
      the table afterwards, and whether the statement changed a row. */
  function CasStep(t: map<Bytes, Bytes>, k: Bytes, u: EntryUpdate): (r: (map<Bytes, Bytes>, bool))
    ensures r.1 <==> k !in t || t[k] == u.previous
    ensures r.1 ==> k in r.0 && r.0[k] == u.next
    ensures !r.1 ==> r.0 == t
  {
    if k !in t || t[k] == u.previous then (t[k := u.next], true) else (t, false)
  }

  /** The table after a batch of conditional upserts, uid by uid: an absent uid is inserted, a
      present uid is overwritten when its stored value is the expected one, and is left as it is
      otherwise. */
  function CasStore(t: map<Bytes, Bytes>, updates: map<Bytes, EntryUpdate>): (r: map<Bytes, Bytes>)
    ensures forall k :: k in t && k !in updates ==> k in r && r[k] == t[k]
  {
    map k | k in t.Keys + updates.Keys ::
      if k in updates && (k !in t || t[k] == updates[k].previous) then updates[k].next else t[k]
  }

  /** The uids whose compare fails: present, and holding something else than expected. */
  function Lost(t: map<Bytes, Bytes>, updates: map<Bytes, EntryUpdate>): (r: set<Bytes>)
    ensures r <= updates.Keys && r <= t.Keys
  {
    set k | k in updates && k in t && t[k] != updates[k].previous
  }

  /** What a conditional upsert reports: each uid that lost the compare, with the value stored. */
  function CasFailures(t: map<Bytes, Bytes>, updates: map<Bytes, EntryUpdate>): (r: map<Bytes, Bytes>)
    ensures r.Keys <= updates.Keys
    ensures forall k :: k in r ==> k in t && r[k] == t[k] && t[k] != updates[k].previous
  {
    map k | k in Lost(t, updates) :: t[k]
  }

  /** The batch processed uid by uid: applying one more update to the outcome of the others
      gives the outcome of all of them. */
  lemma CasStoreStep(t: map<Bytes, Bytes>, updates: map<Bytes, EntryUpdate>, done: set<Bytes>, k: Bytes)
    requires k in updates && k !in done
    ensures CasStep(CasStore(t, Restrict(updates, done)), k, updates[k]).0
         == CasStore(t, Restrict(updates, done + {k}))
    ensures CasStep(CasStore(t, Restrict(updates, done)), k, updates[k]).1
        <==> k !in Lost(t, updates)
  {
    var before := CasStore(t, Restrict(updates, done));
    assert k !in Restrict(updates, done);
    assert k in before <==> k in t;
    assert k in t ==> before[k] == t[k];
    var after := CasStep(before, k, updates[k]).0;
    var all := CasStore(t, Restrict(updates, done + {k}));
    assert after.Keys == all.Keys;
    forall j | j in after
      ensures after[j] == all[j]
    {
      if j != k {
        assert j in Restrict(updates, done + {k}) <==> j in Restrict(updates, done);
      }
    }
  }

  /** Per uid, in terms of the source's three cases, together with what is reported. */
  lemma CasPerUid(t: map<Bytes, Bytes>, updates: map<Bytes, EntryUpdate>, k: Bytes)
    ensures k in updates && k !in t ==> CasStore(t, updates)[k] == updates[k].next && k !in CasFailures(t, updates)
    ensures k in updates && k in t && t[k] == updates[k].previous ==>
              CasStore(t, updates)[k] == updates[k].next && k !in CasFailures(t, updates)
    ensures k in updates && k in t && t[k] != updates[k].previous ==>
              CasStore(t, updates)[k] == t[k] && k in CasFailures(t, updates) && CasFailures(t, updates)[k] == t[k]
    ensures k !in updates ==> (k in CasStore(t, updates) <==> k in t) && k !in CasFailures(t, updates)
    ensures k !in updates && k in t ==> CasStore(t, updates)[k] == t[k]
  {
  }

  /** An empty batch changes nothing and reports nothing. */
  lemma CasEmpty(t: map<Bytes, Bytes>)
    ensures CasStore(t, map[]) == t && CasFailures(t, map[]) == map[]
  {
    assert CasStore(t, map[]).Keys == t.Keys;
  }

  /** As many failures are reported as there are present uids whose expected value is not the
      stored one. */
  lemma CasFailureCount(t: map<Bytes, Bytes>, updates: map<Bytes, EntryUpdate>)
    ensures |CasFailures(t, updates)| == |Lost(t, updates)|
  {
    assert CasFailures(t, updates).Keys == Lost(t, updates);
  }

  /** The new values of a batch, by uid. */
  function NewValues(updates: map<Bytes, EntryUpdate>): (r: map<Bytes, Bytes>)
    ensures r.Keys == updates.Keys
  {
    map k | k in updates :: updates[k].next
  }

  /** Inserting into an empty table always succeeds and stores every new value. */
  lemma CasIntoEmpty(updates: map<Bytes, EntryUpdate>)
    ensures CasStore(map[], updates) == NewValues(updates)
    ensures CasFailures(map[], updates) == map[]
  {
    assert Lost(map[], updates) == {};
  }

  /** A second batch over the values of a first one fails exactly on the uids the first batch
      wrote whose expected value is not the value stored there; a uid the first batch did not
      write is inserted with its new value. */
  lemma CasSecondBatch(first: map<Bytes, EntryUpdate>, second: map<Bytes, EntryUpdate>)
    ensures CasFailures(NewValues(first), second).Keys
         == set k | k in second && k in first && second[k].previous != first[k].next
    ensures forall k :: k in second && k !in first ==>
              CasStore(NewValues(first), second)[k] == second[k].next
  {
    CasIntoEmpty(first);
  }

  /** The retry a caller issues for the lost uids: the reported value is now the expected one. */
  function Retry(lost: map<Bytes, Bytes>, updates: map<Bytes, EntryUpdate>): (r: map<Bytes, EntryUpdate>)
    requires lost.Keys <= updates.Keys
    ensures r.Keys == lost.Keys
  {
    map k | k in lost :: EntryUpdate(lost[k], updates[k].next)
  }

  /** Retrying the lost uids, with the reported values as the expected ones, succeeds on every
      uid when nothing else writes in between: the table then holds every new value of the batch. */
  lemma CasRetrySucceeds(t: map<Bytes, Bytes>, updates: map<Bytes, EntryUpdate>)
    ensures CasFailures(t, updates).Keys <= updates.Keys
    ensures CasFailures(CasStore(t, updates), Retry(CasFailures(t, updates), updates)) == map[]
    ensures CasStore(CasStore(t, updates), Retry(CasFailures(t, updates), updates)) == t + NewValues(updates)
  {
    var retry := Retry(CasFailures(t, updates), updates);
    var once := CasStore(t, updates);
    assert Lost(once, retry) == {} by {
      forall k | k in retry ensures k in once && once[k] == retry[k].previous {
        CasPerUid(t, updates, k);
      }
    }
    CasRetryStore(t, updates, once, retry);
  }

  lemma CasRetryStore(t: map<Bytes, Bytes>, updates: map<Bytes, EntryUpdate>, once: map<Bytes, Bytes>, retry: map<Bytes, EntryUpdate>)
    requires once == CasStore(t, updates) && CasFailures(t, updates).Keys <= updates.Keys
    requires retry == Retry(CasFailures(t, updates), updates)
    requires Lost(once, retry) == {}
    ensures CasStore(once, retry) == t + NewValues(updates)
  {
    var twice := CasStore(once, retry);
    var goal := t + NewValues(updates);
    assert twice.Keys == goal.Keys;
    forall k | k in twice
      ensures twice[k] == goal[k]
    {
      CasPerUid(t, updates, k);
      CasPerUid(once, retry, k);
    }
  }

  // ---------------------------------------------------------------- locations of the users table

  /** `ByteBuffer.wrap(location).getInt()`: the first four bytes, big-endian, as a Java `int`;
      fewer than four bytes is a BufferUnderflowException. */
  function LocationToId(location: Bytes): (r: Result<int>)
    ensures r.Ok? <==> |location| >= 4
    ensures r.Ok? ==> IsInt(r.value)
    ensures r.Err? ==> r.error == BufferUnderflow
  {
    if |location| < 4 then Err(BufferUnderflow)
    else Ok(ToInt(Int32BE(location)))
  }

  /** The unsigned value of four big-endian bytes. */
  function Int32BE(b: Bytes): (r: nat)
    requires |b| >= 4
    ensures r < TWO_TO_32
  {
    b[0] as int * 0x100_0000 + b[1] as int * 0x1_0000 + b[2] as int * 0x100 + b[3] as int
  }

  /** `ByteBuffer.allocate(32).putInt(id).array()`: the id big-endian in two's complement,
      then 28 zero bytes. */
  function IdToLocation(id: int): (r: Bytes)
    ensures |r| == 32
  {
    var v := id % TWO_TO_32;
    [v / 0x100_0000, v / 0x1_0000 % 0x100, v / 0x100 % 0x100, v % 0x100] + Zeros(28)
  }

  lemma BigEndian4(v: nat)
    requires v < TWO_TO_32
    ensures v / 0x100_0000 * 0x100_0000 + v / 0x1_0000 % 0x100 * 0x1_0000 + v / 0x100 % 0x100 * 0x100 + v % 0x100 == v
  {
  }

  /** Every `int` id survives the trip through a location. */
  lemma IdRoundTrip(id: int)
    requires IsInt(id)
    ensures LocationToId(IdToLocation(id)) == Ok(id)
  {
    var v := id % TWO_TO_32;
    assert v == if id >= 0 then id else id + TWO_TO_32;
    BigEndian4(v);
    var l := IdToLocation(id);
    assert Int32BE(l) == v;
    assert v % TWO_TO_32 == v;
  }

  /** A location written by the backend (32 bytes, zeros after the id) reads back as itself. */
  lemma LocationRoundTrip(location: Bytes)
    requires |location| == 32 && forall i :: 4 <= i < 32 ==> location[i] == 0
    ensures LocationToId(location).Ok? && IdToLocation(LocationToId(location).value) == location
  {
    var v := Int32BE(location);
    assert ToInt(v) % TWO_TO_32 == v;
    SplitBytes(location[0], location[1], location[2], location[3]);
    var l := IdToLocation(ToInt(v));
    assert l[..4] == location[..4];
    assert l[4..] == location[4..];
    assert l == l[..4] + l[4..];
    assert location == location[..4] + location[4..];
  }

  /** The four bytes of a big-endian value are its base-256 digits. */
  lemma SplitBytes(b0: byte, b1: byte, b2: byte, b3: byte)
    ensures var v := b0 as int * 0x100_0000 + b1 as int * 0x1_0000 + b2 as int * 0x100 + b3 as int;
            v / 0x100_0000 == b0 && v / 0x1_0000 % 0x100 == b1 && v / 0x100 % 0x100 == b2 && v % 0x100 == b3
  {
    var v := b0 as int * 0x100_0000 + b1 as int * 0x1_0000 + b2 as int * 0x100 + b3 as int;
    var hi, lo := b0 as int * 0x100 + b1 as int, b2 as int * 0x100 + b3 as int;
    assert v == hi * 0x1_0000 + lo;
    assert v / 0x1_0000 == hi;
    assert v / 0x100 == hi * 0x100 + b2 as int;
  }

  /** `questionMarks(count)`: `count` placeholders separated by commas. */
  method QuestionMarks(count: nat) returns (s: string)
    ensures |s| == if count == 0 then 0 else 2 * count - 1
    ensures forall i :: 0 <= i < |s| ==> s[i] == if i % 2 == 0 then '?' else ','
  {
    s := "";
    var i := 0;
    while i < count
      invariant i <= count
      invariant |s| == if i == 0 then 0 else if i < count then 2 * i else 2 * i - 1
      invariant forall j :: 0 <= j < |s| ==> s[j] == if j % 2 == 0 then '?' else ','
    {
      s := s + "?";
      if i != count - 1 {
        s := s + ",";
      }
      i := i + 1;
    }
  }

  // ---------------------------------------------------------------- the backend

  class Sqlite {
    var entryTable: map<Bytes, Bytes>
    var chainTable: map<Bytes, Bytes>
    /** The ids of the `users` table, the system of record the indexed locations point into. */
    var users: set<int>

    /** A fresh in-memory database with empty index tables; `users` stands for the rows the test
        fixture inserts. */
    constructor (users: set<int>)
      ensures entryTable == map[] && chainTable == map[] && this.users == users
    {
      entryTable := map[];
      chainTable := map[];
      this.users := users;
    }

    /** The table a statement names, `entry_table` or `chain_table`. */
    function Get(table: Table): (r: map<Bytes, Bytes>)
      reads this
      ensures table == EntryTable ==> r == entryTable
      ensures table == ChainTable ==> r == chainTable
    {
      if table == EntryTable then entryTable else chainTable
    }

    /** Replaces the content of one table. */
    method Put(table: Table, t: map<Bytes, Bytes>)
      modifies this
      ensures Get(table) == t && Get(Other(table)) == old(Get(Other(table))) && users == old(users)
    {
      if table == EntryTable {
        entryTable := t;
      } else {
        chainTable := t;
      }
    }

    /** `fetchEntryTableItems` / `fetchChainTableItems`: the requested uids that are present,
        with their values; absent uids are skipped. */
    method Fetch(table: Table, uids: seq<Bytes>) returns (r: map<Bytes, Bytes>)
      ensures r.Keys == UidSet(uids) * Get(table).Keys
      ensures forall u :: u in r ==> r[u] == Get(table)[u]
    {
      var t := Get(table);
      r := map[];
      for i := 0 to |uids|
        invariant r.Keys == UidSet(uids[..i]) * t.Keys
        invariant forall u :: u in r ==> r[u] == t[u]
      {
        assert UidSet(uids[..i + 1]) == UidSet(uids[..i]) + {uids[i]} by {
          assert uids[..i + 1] == uids[..i] + [uids[i]];
        }
        if uids[i] in t {
          r := r[uids[i] := t[uids[i]]];
        }
      }
      assert uids[..|uids|] == uids;
    }

    /** The same select, as the list of rows a caller of the backend receives. */
    method FetchRows(table: Table, uids: seq<Bytes>) returns (rows: seq<(Bytes, Bytes)>)
      ensures rows == Rows(Get(table), uids)
    {
      var t := Get(table);
      rows := [];
      for i := 0 to |uids|
        invariant rows == Rows(t, uids[..i])
      {
        assert uids[..i + 1][..i] == uids[..i];
        if uids[i] in t && uids[i] !in uids[..i] {
          rows := rows + [(uids[i], t[uids[i]])];
        }
      }
      assert uids[..|uids|] == uids;
    }

    /** `fetchAllEntryTableItems`: the whole entry table. */
    method FetchAllEntryTableItems() returns (r: map<Bytes, Bytes>)
      ensures r == entryTable
    {
      r := map[];
      var rest := entryTable.Keys;
      while rest != {}
        invariant rest <= entryTable.Keys
        invariant r.Keys == entryTable.Keys - rest
        invariant forall u :: u in r ==> r[u] == entryTable[u]
        decreases rest
      {
        var u :| u in rest;
        r := r[u := entryTable[u]];
        rest := rest - {u};
      }
    }

    /** `upsert`: insert-or-replace every pair of `m`. */
    method Upsert(m: map<Bytes, Bytes>, table: Table)
      modifies this
      ensures Get(table) == old(Get(table)) + m
      ensures Get(Other(table)) == old(Get(Other(table))) && users == old(users)
    {
      var t := Get(table);
      var rest := m.Keys;
      while rest != {}
        invariant rest <= m.Keys
        invariant t.Keys == old(Get(table)).Keys + (m.Keys - rest)
        invariant forall u :: u in t ==> t[u] == if u in m && u !in rest then m[u] else old(Get(table))[u]
        decreases rest
      {
        var u :| u in rest;
        t := t[u := m[u]];
        rest := rest - {u};
      }
      Put(table, t);
    }

    /** `conditionalUpsert`: a compare-and-swap per uid; reports the uids whose compare failed,
        with the value they hold. */
    method ConditionalUpsert(updates: map<Bytes, EntryUpdate>, table: Table) returns (failed: map<Bytes, Bytes>)
      modifies this
      ensures Get(table) == CasStore(old(Get(table)), updates)
      ensures failed == CasFailures(old(Get(table)), updates)
      ensures Get(Other(table)) == old(Get(Other(table))) && users == old(users)
    {
      var t0 := Get(table);
      if |updates| == 0 {
        EmptyBatch(t0, updates);
        return map[];
      }
      var t, failedUids := ExecuteBatch(t0, updates);
      Put(table, t);
      if |failedUids| == 0 {
        NoFailure(t0, updates);
        return map[];
      }
      failed := Select(t, failedUids);
      SelectedFailures(t0, updates, failed);
    }

    /** `remove`: deletes the listed uids that are present. */
    method Remove(uids: seq<Bytes>, table: Table)
      modifies this
      ensures Get(table) == old(Get(table)) - UidSet(uids)
      ensures Get(Other(table)) == old(Get(Other(table))) && users == old(users)
    {
      var t := Get(table);
      for i := 0 to |uids|
        invariant t == old(Get(table)) - UidSet(uids[..i])
      {
        assert UidSet(uids[..i + 1]) == UidSet(uids[..i]) + {uids[i]} by {
          assert uids[..i + 1] == uids[..i] + [uids[i]];
        }
        t := t - {uids[i]};
      }
      assert uids[..|uids|] == uids;
      Put(table, t);
    }

    /** Running `remove` twice with the same uids leaves what one run leaves. */
    method RemoveTwice(uids: seq<Bytes>, table: Table)
      modifies this
      ensures Get(table) == old(Get(table)) - UidSet(uids)
      ensures Get(Other(table)) == old(Get(Other(table))) && users == old(users)
    {
      Remove(uids, table);
      ghost var once := Get(table);
      Remove(uids, table);
      assert Get(table) == once;
    }

    /** `truncate`: empties the table. */
    method Truncate(table: Table)
      modifies this
      ensures Get(table) == map[]
      ensures Get(Other(table)) == old(Get(Other(table))) && users == old(users)
    {
      Put(table, map[]);
    }

    /** The `updateLines` callback of a compaction: truncate the entry table, write the new
        entries, write the new chains, then delete the removed chains. */
    method UpdateLines(removedChains: seq<Bytes>, newEntries: map<Bytes, Bytes>, newChains: map<Bytes, Bytes>)
      modifies this
      ensures entryTable == newEntries
      ensures chainTable == (old(chainTable) + newChains) - UidSet(removedChains)
      ensures users == old(users)
    {
      Truncate(EntryTable);
      Upsert(newEntries, EntryTable);
      Upsert(newChains, ChainTable);
      Remove(removedChains, ChainTable);
    }

    /** `deleteUser`. */
    method DeleteUser(userId: int)
      modifies this
      ensures users == old(users) - {userId}
      ensures entryTable == old(entryTable) && chainTable == old(chainTable)
    {
      users := users - {userId};
    }

    /** `listRemovedIds`: the requested ids that no longer name a user, each once. */
    method ListRemovedIds(ids: seq<int>) returns (r: seq<int>)
      ensures forall x :: x in r <==> x in ids && x !in users
      ensures forall i, j :: 0 <= i < j < |r| ==> r[i] != r[j]
    {
      var removedIds: set<int> := {};
      for i := 0 to |ids|
        invariant removedIds == set x | x in ids[..i]
      {
        assert ids[..i + 1] == ids[..i] + [ids[i]];
        removedIds := removedIds + {ids[i]};
      }
      assert ids[..|ids|] == ids;
      ghost var requested := removedIds;
      // the rows of `SELECT id FROM users WHERE id IN (ids)`
      var rows := Listing(users * removedIds);
      for i := 0 to |rows|
        invariant removedIds == requested - set x | x in rows[..i]
      {
        assert rows[..i + 1] == rows[..i] + [rows[i]];
        removedIds := removedIds - {rows[i]};
      }
      assert rows[..|rows|] == rows;
      r := Listing(removedIds);
    }

    /** The `listRemovedLocations` callback: the locations whose user is gone, rebuilt from their
        ids. A location shorter than four bytes aborts the call. */
    method ListRemovedLocations(locations: seq<Bytes>) returns (r: Result<seq<Bytes>>)
      ensures r.Err? <==> exists i :: 0 <= i < |locations| && |locations[i]| < 4
      ensures r.Err? ==> r.error == BufferUnderflow
      ensures r.Ok? ==> forall i :: 0 <= i < |locations| && LocationToId(locations[i]).value !in users ==>
                          IdToLocation(LocationToId(locations[i]).value) in r.value
      ensures r.Ok? ==> forall l :: l in r.value ==>
                          exists i :: 0 <= i < |locations| && LocationToId(locations[i]).value !in users &&
                                      l == IdToLocation(LocationToId(locations[i]).value)
      ensures r.Ok? ==> forall i, j :: 0 <= i < j < |r.value| ==> r.value[i] != r.value[j]
    {
      var ids: seq<int> := [];
      for i := 0 to |locations|
        invariant |ids| == i
        invariant forall j :: 0 <= j < i ==> |locations[j]| >= 4 && ids[j] == LocationToId(locations[j]).value
      {
        var id := LocationToId(locations[i]);
        if id.Err? {
          return Err(id.error);
        }
        ids := ids + [id.value];
      }
      var removed := ListRemovedIds(ids);
      assert forall j :: 0 <= j < |removed| ==> IsInt(removed[j]) by {
        forall j | 0 <= j < |removed| ensures IsInt(removed[j]) {
          assert removed[j] in removed;
        }
      }
      var out: seq<Bytes> := [];
      for i := 0 to |removed|
        invariant |out| == i
        invariant forall j :: 0 <= j < i ==> out[j] == IdToLocation(removed[j])
      {
        out := out + [IdToLocation(removed[i])];
      }
      LocationsOfDistinctIds(removed, out);
      forall i | 0 <= i < |locations| && ids[i] !in users
        ensures IdToLocation(ids[i]) in out
      {
        assert ids[i] in removed;
        var k :| 0 <= k < |removed| && removed[k] == ids[i];
        assert out[k] == IdToLocation(ids[i]);
      }
      forall l | l in out
        ensures exists i :: 0 <= i < |ids| && ids[i] !in users && l == IdToLocation(ids[i])
      {
        var k :| 0 <= k < |out| && out[k] == l;
        assert removed[k] in ids;
        var i :| 0 <= i < |ids| && ids[i] == removed[k];
      }
      r := Ok(out);
    }
  }

  /** `executeBatch` of the conditional upserts, one statement per uid in an order the model
      leaves open: the table afterwards, and the uids whose statement changed no row. */
  method ExecuteBatch(t0: map<Bytes, Bytes>, updates: map<Bytes, EntryUpdate>) returns (t: map<Bytes, Bytes>, failedUids: set<Bytes>)
    ensures t == CasStore(t0, updates)
    ensures failedUids == Lost(t0, updates)
  {
    t := t0;
    var done: set<Bytes> := {};
    var rest := updates.Keys;
    failedUids := {};
    while rest != {}
      invariant done <= updates.Keys && rest == updates.Keys - done
      invariant t == CasStore(t0, Restrict(updates, done))
      invariant failedUids == Lost(t0, updates) * done
      decreases rest
    {
      var u :| u in rest;
      CasStoreStep(t0, updates, done, u);
      var changed;
      t, changed := CasStep(t, u, updates[u]).0, CasStep(t, u, updates[u]).1;
      if !changed {
        failedUids := failedUids + {u};
      }
      done := done + {u};
      rest := rest - {u};
    }
    assert done == updates.Keys;
    assert Restrict(updates, done) == updates;
  }

  /** `SELECT uid, value FROM table WHERE uid IN (uids)`, collected into a map. */
  method Select(t: map<Bytes, Bytes>, uids: set<Bytes>) returns (r: map<Bytes, Bytes>)
    ensures r.Keys == uids * t.Keys
    ensures forall u :: u in r ==> r[u] == t[u]
  {
    r := map[];
    var rest := uids;
    while rest != {}
      invariant rest <= uids
      invariant r.Keys == (uids - rest) * t.Keys
      invariant forall u :: u in r ==> r[u] == t[u]
      decreases rest
    {
      var u :| u in rest;
      if u in t {
        r := r[u := t[u]];
      }
      rest := rest - {u};
    }
  }

  /** The values reported for the lost uids are the ones still stored once the batch has run. */
  lemma CasFailuresAreStored(t: map<Bytes, Bytes>, updates: map<Bytes, EntryUpdate>)
    ensures Lost(t, updates) <= CasStore(t, updates).Keys
    ensures forall k :: k in Lost(t, updates) ==> CasFailures(t, updates)[k] == CasStore(t, updates)[k]
  {
  }

  lemma EmptyBatch(t: map<Bytes, Bytes>, updates: map<Bytes, EntryUpdate>)
    requires |updates| == 0
    ensures CasStore(t, updates) == t && CasFailures(t, updates) == map[]
  {
    assert updates == map[];
    CasEmpty(t);
  }

  lemma NoFailure(t: map<Bytes, Bytes>, updates: map<Bytes, EntryUpdate>)
    requires |Lost(t, updates)| == 0
    ensures CasFailures(t, updates) == map[]
  {
    assert Lost(t, updates) == {};
  }

  /** Selecting the lost uids from the table after the batch gives what a conditional upsert
      reports. */
  lemma SelectedFailures(t: map<Bytes, Bytes>, updates: map<Bytes, EntryUpdate>, r: map<Bytes, Bytes>)
    requires r.Keys == Lost(t, updates) * CasStore(t, updates).Keys
    requires forall u :: u in r ==> r[u] == CasStore(t, updates)[u]
    ensures r == CasFailures(t, updates)
  {
    CasFailuresAreStored(t, updates);
  }

  /** Distinct `int` ids give distinct locations. */
  lemma LocationsOfDistinctIds(ids: seq<int>, locations: seq<Bytes>)
    requires |locations| == |ids|
    requires forall j :: 0 <= j < |ids| ==> locations[j] == IdToLocation(ids[j])
    requires forall i, j :: 0 <= i < j < |ids| ==> ids[i] != ids[j]
    requires forall j :: 0 <= j < |ids| ==> IsInt(ids[j])
    ensures forall i, j :: 0 <= i < j < |locations| ==> locations[i] != locations[j]
  {
    forall i, j | 0 <= i < j < |locations|
      ensures locations[i] != locations[j]
    {
      IdRoundTrip(ids[i]);
      IdRoundTrip(ids[j]);
    }
  }
}
