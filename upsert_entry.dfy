/** The `upsertEntry` callback the native index engine calls during an upsert: it decodes the
    batch of conditional entry-table updates the engine sends, hands them to the storage, and
    serializes the entries whose update failed. */
module UpsertEntryCallback {
  import opened Base
  import opened Leb128
  import opened Jna

  /** One decoded update: the entry-table uid, the value the engine expects to be stored, and the
      value to store. */
  datatype EntryUpsert = EntryUpsert(uid: Bytes, previous: Bytes, next: Bytes)

  /** The three fields of an update, in the order they travel. */
  function Fields(e: EntryUpsert): seq<Bytes> {
    [e.uid, e.previous, e.next]
  }

  function ToUpserts(rs: seq<seq<Bytes>>): (es: seq<EntryUpsert>)
    requires HasArity(rs, 3)
    ensures |es| == |rs|
    ensures forall i :: 0 <= i < |rs| ==> Fields(es[i]) == rs[i]
  {
    seq(|rs|, i requires 0 <= i < |rs| => EntryUpsert(rs[i][0], rs[i][1], rs[i][2]))
  }

  /** The encoding the engine produces: a count, then uid, previous value and new value of each
      update. */
  function EncodeUpserts(es: seq<EntryUpsert>): (r: Bytes)
    ensures DecodeRecords(r, 3).Ok? && ToUpserts(DecodeRecords(r, 3).value) == es
  {
    var rs := seq(|es|, i requires 0 <= i < |es| => Fields(es[i]));
    var r := EncodeRecords(rs);
    DecodeEncodedRecords(rs, 3, []);
    assert r + [] == r;
    assert ToUpserts(rs) == es;
    r
  }

  /** What the input buffer decodes to. The count is read as an unsigned integer and narrowed to a
      Java `int`; a negative count is refused by the `HashMap` constructor; the input ending
      before the last update is an IOException. Bytes after the last update are not looked at. */
  function ParseUpserts(s: Bytes): (r: Result<seq<EntryUpsert>>)
    ensures r.Err? ==> r.error == Truncated || r.error == IllegalArgument
  {
    match DecodeUnsigned(s, 0)
    case Err(e) => Err(e)
    case Ok((n, start)) =>
      if ToInt(n) < 0 then Err(IllegalArgument)
      else
        match ReadRecords(s, start, ToInt(n), 3)
        case Err(e) => Err(e)
        case Ok((rs, _)) =>
          ReadRecordsHaveArity(s, start, ToInt(n), 3);
          Ok(ToUpserts(rs))
  }

  /** The decoding, stage by stage: the count, its narrowing, then the updates. */
  lemma ParseUpsertsStages(s: Bytes, n: nat, start: nat)
    requires DecodeUnsigned(s, 0) == Ok((n, start))
    ensures ToInt(n) < 0 ==> ParseUpserts(s) == Err(IllegalArgument)
    ensures ToInt(n) >= 0 && ReadRecords(s, start, ToInt(n), 3).Err? ==> ParseUpserts(s) == Err(Truncated)
    ensures ToInt(n) >= 0 && ReadRecords(s, start, ToInt(n), 3).Ok? ==>
              HasArity(ReadRecords(s, start, ToInt(n), 3).value.0, 3)
              && ParseUpserts(s) == Ok(ToUpserts(ReadRecords(s, start, ToInt(n), 3).value.0))
  {
    if ToInt(n) >= 0 && ReadRecords(s, start, ToInt(n), 3).Ok? {
      ReadRecordsHaveArity(s, start, ToInt(n), 3);
    }
  }

  /** Round trip: a batch of fewer than 2^31 updates, followed by anything, decodes to itself,
      in order and with repeated uids kept. */
  lemma ParseEncodedUpserts(es: seq<EntryUpsert>, rest: Bytes)
    requires |es| <= INT_MAX
    ensures ParseUpserts(EncodeUpserts(es) + rest) == Ok(es)
  {
    var rs := seq(|es|, i requires 0 <= i < |es| => Fields(es[i]));
    ReadEncodedRecordSequence(rs, 3, rest);
    ParseUpsertsStages(EncodeRecords(rs) + rest, |rs|, |EncodeUnsigned(|rs|)|);
    assert ToUpserts(rs) == es;
  }

  /** Truncation: a batch cut anywhere short of its end is an IOException, never a shorter or
      different batch. */
  lemma TruncatedUpsertsFail(es: seq<EntryUpsert>, k: nat)
    requires |es| <= INT_MAX && k < |EncodeUpserts(es)|
    ensures ParseUpserts(EncodeUpserts(es)[..k]) == Err(Truncated)
  {
    var rs := seq(|es|, i requires 0 <= i < |es| => Fields(es[i]));
    assert EncodeUpserts(es) == EncodeRecords(rs);
    TruncatedRecordSequence(rs, 3, k);
    var t := EncodeRecords(rs)[..k];
    if DecodeUnsigned(t, 0).Ok? {
      ParseUpsertsStages(t, |rs|, |EncodeUnsigned(|rs|)|);
    }
  }

  /** A count that narrows to a negative `int` is refused before any update is read. */
  lemma NegativeCountRefused(n: nat, rest: Bytes)
    requires ToInt(n) < 0
    ensures ParseUpserts(EncodeUnsigned(n) + rest) == Err(IllegalArgument)
  {
    var s := EncodeUnsigned(n) + rest;
    assert s[0..|EncodeUnsigned(n)|] == EncodeUnsigned(n);
    DecodeEncodedUnsigned(n, s, 0);
  }

  /** `Leb128.readByteArray` three times: the uid, the previous value, the new value. */
  method ReadUpsert(s: Bytes, pos: nat) returns (r: Result<(seq<Bytes>, nat)>)
    requires pos <= |s|
    ensures r == ReadFields(s, pos, 3)
  {
    assert ReadFields(s, pos, 0) == Ok(([], pos));
    var uid := ReadBytes(s, pos);
    if uid.Err? {
      ReadFieldsStepFails(s, pos, [], pos);
      ReadFieldsFailurePersists(s, pos, 1, 3);
      return Err(uid.error);
    }
    var a := uid.value.0;
    ReadFieldsStep(s, pos, [], a, pos, uid.value.1);
    assert [] + [a] == [a];
    var previous := ReadBytes(s, uid.value.1);
    if previous.Err? {
      ReadFieldsStepFails(s, pos, [a], uid.value.1);
      ReadFieldsFailurePersists(s, pos, 2, 3);
      return Err(previous.error);
    }
    var b := previous.value.0;
    ReadFieldsStep(s, pos, [a], b, uid.value.1, previous.value.1);
    assert [a] + [b] == [a, b];
    var next := ReadBytes(s, previous.value.1);
    if next.Err? {
      ReadFieldsStepFails(s, pos, [a, b], previous.value.1);
      return Err(next.error);
    }
    var c := next.value.0;
    ReadFieldsStep(s, pos, [a, b], c, previous.value.1, next.value.1);
    assert [a, b] + [c] == [a, b, c];
    r := Ok(([a, b, c], next.value.1));
  }

  /** The decoding of `apply`: the count, then that many updates read one after the other. */
  method DecodeUpserts(s: Bytes) returns (r: Result<seq<EntryUpsert>>)
    ensures r == ParseUpserts(s)
  {
    var header := DecodeUnsigned(s, 0);
    if header.Err? {
      return Err(header.error);
    }
    var start := header.value.1;
    var numEntries := ToInt(header.value.0);
    ParseUpsertsStages(s, header.value.0, start);
    if numEntries < 0 {
      return Err(IllegalArgument);
    }
    r := ReadUpserts(s, start, numEntries);
    if r.Ok? {
      assert r.value == ToUpserts(ReadRecords(s, start, numEntries, 3).value.0);
    }
  }

  /** `entries` are the records `rs`, update by update. */
  predicate Decoded(entries: seq<EntryUpsert>, rs: seq<seq<Bytes>>) {
    |entries| == |rs| && forall j :: 0 <= j < |rs| ==> Fields(entries[j]) == rs[j]
  }

  lemma DecodedSnoc(entries: seq<EntryUpsert>, rs: seq<seq<Bytes>>, fs: seq<Bytes>)
    requires Decoded(entries, rs) && |fs| == 3
    ensures Decoded(entries + [EntryUpsert(fs[0], fs[1], fs[2])], rs + [fs])
  {
    assert Fields(EntryUpsert(fs[0], fs[1], fs[2])) == fs;
  }

  /** The loop of `apply` reading `count` updates from `start`. */
  method ReadUpserts(s: Bytes, start: nat, count: nat) returns (r: Result<seq<EntryUpsert>>)
    requires start <= |s|
    ensures ReadRecords(s, start, count, 3).Err? ==> r == Err(Truncated)
    ensures ReadRecords(s, start, count, 3).Ok? ==>
              r.Ok? && |r.value| == count && Decoded(r.value, ReadRecords(s, start, count, 3).value.0)
  {
    var entries: seq<EntryUpsert> := [];
    ghost var rs: seq<seq<Bytes>> := [];
    var pos := start;
    for i := 0 to count
      invariant pos <= |s|
      invariant ReadRecords(s, start, i, 3) == Ok((rs, pos))
      invariant Decoded(entries, rs)
    {
      var triple := ReadUpsert(s, pos);
      if triple.Err? {
        ReadRecordsFailurePersists(s, start, i + 1, count, 3);
        return Err(triple.error);
      }
      var fs := triple.value.0;
      ReadRecordsStep(s, start, rs, fs, 3, pos, triple.value.1);
      DecodedSnoc(entries, rs, fs);
      entries := entries + [EntryUpsert(fs[0], fs[1], fs[2])];
      rs := rs + [fs];
      pos := triple.value.1;
    }
    assert ReadRecords(s, start, count, 3) == Ok((rs, pos));
    r := Ok(entries);
  }

  // ---------------------------------------------------------------- the failed entries

  /** The pairs written one after the other, key then value, both length-prefixed. */
  function EncodePairsBody(pairs: seq<(Bytes, Bytes)>): (r: Bytes)
    decreases |pairs|
  {
    if pairs == [] then []
    else
      var last := pairs[|pairs| - 1];
      EncodePairsBody(pairs[..|pairs| - 1]) + EncodeBytes(last.0) + EncodeBytes(last.1)
  }

  /** Writing the pairs directly is writing them as two-field records. */
  lemma {:induction false} EncodePairsBodyIsRecords(pairs: seq<(Bytes, Bytes)>)
    ensures EncodePairsBody(pairs) == EncodeRecordsBody(PairRecords(pairs))
    decreases |pairs|
  {
    if pairs != [] {
      var n := |pairs| - 1;
      EncodePairsBodyIsRecords(pairs[..n]);
      var rs := PairRecords(pairs);
      assert rs[..n] == PairRecords(pairs[..n]);
      assert rs[n] == [pairs[n].0, pairs[n].1];
      EncodeTwoFields(pairs[n].0, pairs[n].1);
    }
  }

  /** The serialization of the failed entries: the count, then the uid and the value of each,
      both length-prefixed. */
  method EncodeFailures(failed: seq<(Bytes, Bytes)>) returns (out: Bytes)
    ensures out == EncodeRecords(PairRecords(failed))
  {
    out := EncodeUnsigned(|failed|);
    for i := 0 to |failed|
      invariant out == EncodeUnsigned(|failed|) + EncodePairsBody(failed[..i])
    {
      assert failed[..i + 1][..i] == failed[..i];
      out := out + EncodeBytes(failed[i].0) + EncodeBytes(failed[i].1);
    }
    assert failed[..|failed|] == failed;
    EncodePairsBodyIsRecords(failed);
  }

  /** The failure buffer decodes back, as two-field records, to the failed entries. */
  lemma DecodeEncodedFailures(failed: seq<(Bytes, Bytes)>)
    ensures DecodeRecords(EncodeRecords(PairRecords(failed)), 2) == Ok(PairRecords(failed))
  {
    assert EncodeRecords(PairRecords(failed)) + [] == EncodeRecords(PairRecords(failed));
    DecodeEncodedRecords(PairRecords(failed), 2, []);
  }

  class UpsertEntry {
    /** The storage's conditional upsert: the failed entries (uid, value stored), or `None` for a
        `null` map, or the exception it throws. */
    const upsert: seq<EntryUpsert> -> Result<Option<seq<(Bytes, Bytes)>>>

    constructor (upsert: seq<EntryUpsert> -> Result<Option<seq<(Bytes, Bytes)>>>)
      ensures this.upsert == upsert
    {
      this.upsert := upsert;
    }

    /** `apply`: copies `entriesLength` bytes out of the native `entries`, decodes the updates,
        runs the upsert and serializes the failures into `serialized`. That buffer is dropped
        there: neither `outputs` nor `outputsLength` is written, and success returns 0. */
    method Apply(entries: Bytes, entriesLength: int, outputs: NativeBuffer, outputsLength: IntRef)
      returns (r: Result<int>, serialized: Bytes)
      requires entriesLength <= |entries|
      ensures entriesLength < 0 ==> r == Err(NegativeArraySize)
      ensures entriesLength >= 0 && ParseUpserts(entries[..entriesLength]).Err? ==>
                r == Err(ParseUpserts(entries[..entriesLength]).error)
      ensures entriesLength >= 0 && ParseUpserts(entries[..entriesLength]).Ok? ==>
                var failed := upsert(ParseUpserts(entries[..entriesLength]).value);
                (failed.Err? ==> r == Err(failed.error))
                && (failed.Ok? && failed.value.None? ==> r == Err(NullPointer))
                && (failed.Ok? && failed.value.Some? ==>
                      r == Ok(0) && serialized == EncodeRecords(PairRecords(failed.value.value)))
    {
      serialized := [];
      if entriesLength < 0 {
        return Err(NegativeArraySize), serialized;
      }
      var entriesBytes := entries[..entriesLength];
      var decoded := DecodeUpserts(entriesBytes);
      if decoded.Err? {
        return Err(decoded.error), serialized;
      }
      var failed := upsert(decoded.value);
      if failed.Err? {
        return Err(failed.error), serialized;
      }
      if failed.value.None? {
        return Err(NullPointer), serialized;
      }
      serialized := EncodeFailures(failed.value.value);
      r := Ok(0);
    }
  }
}
