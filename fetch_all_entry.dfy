/** The `fetchAllEntry` callback of a compaction: the native engine pulls the whole entry table
    through it, a chunk of at most `numberOfEntries` entries per call, until it returns 0. */
module FetchAllEntryCallback {
  import opened Base
  import opened Leb128
  import opened Jna

  /** `rows` lists the pairs of `m`, each key once: what iterating `m.entrySet()` yields. */
  ghost predicate IsListing(rows: seq<(Bytes, Bytes)>, m: map<Bytes, Bytes>) {
    (forall i, j :: 0 <= i < j < |rows| ==> rows[i].0 != rows[j].0)
    && (forall i :: 0 <= i < |rows| ==> rows[i].0 in m && m[rows[i].0] == rows[i].1)
    && (forall k :: k in m ==> exists i :: 0 <= i < |rows| && rows[i].0 == k)
  }

  /** A listing holds as many rows as the map has keys. */
  lemma ListingSize(rows: seq<(Bytes, Bytes)>, m: map<Bytes, Bytes>)
    requires IsListing(rows, m)
    ensures |rows| == |m|
  {
    var keys := seq(|rows|, i requires 0 <= i < |rows| => rows[i].0);
    DistinctSize(keys);
    assert (set i | 0 <= i < |keys| :: keys[i]) == m.Keys by {
      forall k | k in m ensures k in (set i | 0 <= i < |keys| :: keys[i]) {
        var i :| 0 <= i < |rows| && rows[i].0 == k;
        assert keys[i] == k;
      }
    }
  }

  lemma {:induction false} DistinctSize(keys: seq<Bytes>)
    requires forall i, j :: 0 <= i < j < |keys| ==> keys[i] != keys[j]
    ensures |set i | 0 <= i < |keys| :: keys[i]| == |keys|
    decreases |keys|
  {
    if keys != [] {
      var init := keys[..|keys| - 1];
      DistinctSize(init);
      var s := set i | 0 <= i < |init| :: init[i];
      var all := set i | 0 <= i < |keys| :: keys[i];
      assert all == s + {keys[|keys| - 1]} by {
        forall x | x in all ensures x in s + {keys[|keys| - 1]} {
          var i :| 0 <= i < |keys| && keys[i] == x;
          if i < |init| {
            assert init[i] == x;
          }
        }
      }
      assert keys[|keys| - 1] !in s;
    }
  }

  /** The serialization of a chunk: a count, then the key and the value of each entry. */
  function SerializeChunk(chunk: seq<(Bytes, Bytes)>): (r: Bytes)
    ensures DecodeRecords(r, 2) == Ok(PairRecords(chunk))
  {
    var r := EncodeRecords(PairRecords(chunk));
    DecodeEncodedRecords(PairRecords(chunk), 2, []);
    assert r + [] == r;
    r
  }

  /** The entry set of a map, in the iteration order of the map. */
  method EntryListing(m: map<Bytes, Bytes>) returns (rows: seq<(Bytes, Bytes)>)
    ensures IsListing(rows, m)
  {
    var keys := Listing(m.Keys);
    rows := [];
    for i := 0 to |keys|
      invariant |rows| == i
      invariant forall j :: 0 <= j < i ==> rows[j] == (keys[j], m[keys[j]])
    {
      rows := rows + [(keys[i], m[keys[i]])];
    }
    forall k | k in m
      ensures exists i :: 0 <= i < |rows| && rows[i].0 == k
    {
      var i :| 0 <= i < |keys| && keys[i] == k;
      assert rows[i].0 == k;
    }
  }

  /** Moving a chunk from the pending entries to the emitted ones keeps the listing. */
  lemma Regroup(emitted: seq<(Bytes, Bytes)>, pending: seq<(Bytes, Bytes)>,
                chunk: seq<(Bytes, Bytes)>, rest: seq<(Bytes, Bytes)>, m: map<Bytes, Bytes>)
    requires IsListing(emitted + pending, m) && chunk + rest == pending
    ensures IsListing((emitted + chunk) + rest, m)
  {
    assert emitted + pending == (emitted + chunk) + rest;
  }

  /** The chunk loop of `apply`: entries are taken off the iterator while the chunk holds fewer
      than `n` of them and the iterator has more. */
  method TakeChunk(pending: seq<(Bytes, Bytes)>, n: int)
    returns (chunk: seq<(Bytes, Bytes)>, rest: seq<(Bytes, Bytes)>)
    ensures chunk + rest == pending
    ensures |chunk| == Min(Max(n, 0), |pending|)
  {
    chunk := [];
    rest := pending;
    while |chunk| < n && rest != []
      invariant chunk + rest == pending
      invariant |chunk| <= Max(n, 0)
      decreases |rest|
    {
      assert chunk + rest == (chunk + [rest[0]]) + rest[1..];
      chunk := chunk + [rest[0]];
      rest := rest[1..];
    }
  }

  /** `fetch.fetch().entrySet()`: the delegate returns the table, returns `null` (and the call
      on it throws a `NullPointerException`) or throws. */
  function EntrySet(fetched: Result<Option<map<Bytes, Bytes>>>): (r: Result<map<Bytes, Bytes>>)
    ensures r.Ok? <==> fetched.Ok? && fetched.value.Some?
    ensures r.Ok? ==> r.value == fetched.value.value
    ensures fetched.Err? ==> r == Err(fetched.error)
    ensures fetched.Ok? && fetched.value.None? ==> r == Err(NullPointer)
  {
    match fetched
    case Err(e) => Err(e)
    case Ok(None) => Err(NullPointer)
    case Ok(Some(table)) => Ok(table)
  }

  class FetchAllEntry {
    /** `entrySetIterator != null`. */
    var started: bool
    /** The entries the iterator has yet to yield. */
    var pending: seq<(Bytes, Bytes)>
    /** The entry table as fetched by the first successful call. */
    ghost var snapshot: map<Bytes, Bytes>
    /** The entries handed out so far, in order. */
    ghost var emitted: seq<(Bytes, Bytes)>

    ghost predicate Valid()
      reads this
    {
      if started then IsListing(emitted + pending, snapshot) else emitted == [] && pending == []
    }

    constructor ()
      ensures !started && Valid()
    {
      started := false;
      pending := [];
      snapshot := map[];
      emitted := [];
    }

    /** `entrySetIterator = this.fetch.fetch().entrySet().iterator()`. The delegate reads the live
        table, so what it answers is a parameter: `fetched`. When it throws or returns `null`, the
        exception leaves `apply` and the iterator stays `null`: the next call fetches again. */
    method Start(fetched: Result<Option<map<Bytes, Bytes>>>) returns (r: Result<()>)
      requires Valid() && !started
      modifies this
      ensures r.Ok? <==> EntrySet(fetched).Ok?
      ensures r.Err? ==> r.error == EntrySet(fetched).error && unchanged(this)
      ensures r.Ok? ==> Valid() && started && emitted == [] && snapshot == EntrySet(fetched).value
    {
      var table := EntrySet(fetched);
      if table.Err? {
        return Err(table.error);
      }
      var rows := EntryListing(table.value);
      assert emitted + rows == rows;
      pending := rows;
      snapshot := table.value;
      started := true;
      r := Ok(());
    }

    /** The iterator part of `apply`: the table is fetched on the first call (and on every call
        after a failed fetch), then the next chunk of at most `n` entries is taken. */
    method NextChunk(n: int, fetched: Result<Option<map<Bytes, Bytes>>>)
      returns (r: Result<seq<(Bytes, Bytes)>>)
      requires Valid()
      modifies this
      ensures Valid()
      ensures r.Ok? <==> old(started) || EntrySet(fetched).Ok?
      ensures r.Err? ==> r.error == EntrySet(fetched).error && unchanged(this)
      ensures r.Ok? ==> started
      ensures r.Ok? && !old(started) ==> snapshot == EntrySet(fetched).value
      ensures old(started) ==> snapshot == old(snapshot)
      ensures r.Ok? ==> emitted == old(emitted) + r.value
      ensures r.Ok? ==> |emitted| + |pending| == |snapshot|
      ensures r.Ok? ==> |r.value| == Min(Max(n, 0), |snapshot| - |old(emitted)|)
    {
      if !started {
        var fetch := Start(fetched);
        if fetch.Err? {
          return Err(fetch.error);
        }
      }
      ListingSize(emitted + pending, snapshot);
      var chunk, rest := TakeChunk(pending, n);
      Regroup(emitted, pending, chunk, rest, snapshot);
      emitted := emitted + chunk;
      pending := rest;
      r := Ok(chunk);
    }

    /** `apply`: on the first call fetches the whole entry table; then takes the next chunk of at
        most `numberOfEntries` entries, writes its serialization into `output` when it is not
        empty, sets `outputSize`, and tells whether entries remain. A failed fetch writes
        nothing and leaves the callback as it was. */
    method Apply(output: NativeBuffer, outputSize: IntRef, numberOfEntries: int,
                 fetched: Result<Option<map<Bytes, Bytes>>>) returns (r: Result<int>)
      requires Valid()
      modifies this, output, outputSize
      ensures Valid()
      ensures r.Ok? <==> old(started) || EntrySet(fetched).Ok?
      ensures r.Err? ==>
                r.error == EntrySet(fetched).error
                && unchanged(this) && unchanged(output) && unchanged(outputSize)
      ensures r.Ok? && !old(started) ==> snapshot == EntrySet(fetched).value
      ensures old(started) ==> snapshot == old(snapshot)
      ensures r.Ok? ==> started
      ensures r.Ok? ==> |old(emitted)| <= |emitted| && emitted[..|old(emitted)|] == old(emitted)
      ensures r.Ok? ==>
                |emitted| - |old(emitted)| == Min(Max(numberOfEntries, 0), |snapshot| - |old(emitted)|)
      ensures r.Ok? ==>
                var chunk := emitted[|old(emitted)|..];
                if chunk != [] then
                  output.data == Overwrite(old(output.data), SerializeChunk(chunk))
                  && outputSize.value == |SerializeChunk(chunk)|
                else
                  output.data == old(output.data) && outputSize.value == 0
      ensures r.Ok? ==> r.value == if pending != [] then 1 else 0
      ensures old(started) && old(pending) == [] ==>
                r == Ok(0) && emitted == old(emitted)
    {
      if started && pending == [] {
        Exhausted();
      }
      var next := NextChunk(numberOfEntries, fetched);
      if next.Err? {
        return Err(next.error);
      }
      var chunk := next.value;
      assert emitted[|old(emitted)|..] == chunk;
      assert emitted[..|old(emitted)|] == old(emitted);
      if |chunk| > 0 {
        var bytes := SerializeChunk(chunk);
        output.Write(bytes);
        outputSize.value := |bytes|;
      } else {
        outputSize.value := 0;
      }
      r := Ok(if pending != [] then 1 else 0);
    }

    /** Once the last chunk has gone out, every entry of the table has been handed out exactly
        once, and every later call hands out nothing and returns 0. */
    lemma Exhausted()
      requires Valid() && started && pending == []
      ensures IsListing(emitted, snapshot) && |emitted| == |snapshot|
    {
      assert emitted + pending == emitted;
      ListingSize(emitted, snapshot);
    }
  }
}
