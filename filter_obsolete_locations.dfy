/** The `filterObsoleteLocations` callback of a compaction: the engine sends a collection of
    locations, the application answers with those among them that no longer exist. */
module FilterObsoleteLocationsCallback {
  import opened Base
  import opened Leb128
  import opened Jna

  /** A collection of locations travels as a count followed by one length-prefixed byte string
      per location, that is as records of one field each. */
  function Singletons(ls: seq<Bytes>): (rs: seq<seq<Bytes>>)
    ensures |rs| == |ls| && HasArity(rs, 1)
    ensures forall i :: 0 <= i < |ls| ==> rs[i] == [ls[i]]
  {
    seq(|ls|, i requires 0 <= i < |ls| => [ls[i]])
  }

  /** `Leb128Serializer.serializeCollection` of locations. */
  function EncodeLocations(ls: seq<Bytes>): (r: Bytes)
    ensures DecodeRecords(r, 1) == Ok(Singletons(ls))
  {
    var r := EncodeRecords(Singletons(ls));
    DecodeEncodedRecords(Singletons(ls), 1, []);
    assert r + [] == r;
    r
  }

  /** `Leb128Reader.deserializeCollection(Location.class, bytes)`. */
  function DecodeLocations(s: Bytes): (r: Result<seq<Bytes>>)
    ensures r.Ok? <==> DecodeRecords(s, 1).Ok?
    ensures r.Err? ==> r.error == Truncated
    ensures r.Ok? ==> DecodeRecords(s, 1) == Ok(Singletons(r.value))
  {
    match DecodeRecords(s, 1)
    case Err(e) => Err(e)
    case Ok(rs) =>
      var ls := seq(|rs|, i requires 0 <= i < |rs| => rs[i][0]);
      assert forall i :: 0 <= i < |rs| ==> rs[i] == [rs[i][0]];
      assert Singletons(ls) == rs;
      Ok(ls)
  }

  /** A collection of locations, followed by anything, decodes to itself, in order. */
  lemma DecodeEncodedLocations(ls: seq<Bytes>, rest: Bytes)
    ensures DecodeLocations(EncodeLocations(ls) + rest) == Ok(ls)
  {
    DecodeEncodedRecords(Singletons(ls), 1, rest);
    var r := DecodeLocations(EncodeLocations(ls) + rest);
    assert Singletons(r.value) == Singletons(ls);
    forall i | 0 <= i < |ls|
      ensures r.value[i] == ls[i]
    {
      assert Singletons(r.value)[i] == [r.value[i]];
    }
    assert |r.value| == |ls|;
    assert r.value == ls;
  }

  /** The encoding of the empty collection is a single zero count byte: it is written even when
      nothing was removed. */
  lemma EncodeNoLocations()
    ensures EncodeLocations([]) == [0]
  {
    assert Singletons([]) == [];
    assert EncodeRecordsBody([]) == [];
  }

  class FilterObsoleteLocations {
    /** The application's `list`: the removed locations among those given, `null` (None), or
        the `CloudproofException` it throws. */
    const list: seq<Bytes> -> Result<Option<seq<Bytes>>>
    /** `FindexCallbackException.record`: the error code reported for an exception. */
    const record: Error -> int

    constructor (list: seq<Bytes> -> Result<Option<seq<Bytes>>>, record: Error -> int)
      ensures this.list == list && this.record == record
    {
      this.list := list;
      this.record := record;
    }

    /** `apply`: reads `itemsLength` bytes of `items`, decodes the locations, asks `list` for the
        removed ones and writes their encoding at offset 0 of `output`, whatever its capacity and
        even when none was removed; `outputSize` is the encoded length only when at least one
        location was removed. A `CloudproofException` becomes the recorded error code; a negative
        length (`NegativeArraySizeException`) and a `null` answer, which `serializeCollection`
        dereferences (`NullPointerException`), are not caught. */
    method Apply(output: NativeBuffer, outputSize: IntRef, items: Bytes, itemsLength: int)
      returns (r: Result<int>)
      requires itemsLength <= |items|
      modifies output, outputSize
      ensures itemsLength < 0 ==>
                r == Err(NegativeArraySize) && unchanged(output, outputSize)
      ensures itemsLength >= 0 && DecodeLocations(items[..itemsLength]).Err? ==>
                r == Ok(record(DecodeLocations(items[..itemsLength]).error))
                && unchanged(output, outputSize)
      ensures itemsLength >= 0 && DecodeLocations(items[..itemsLength]).Ok? ==>
                var removed := list(DecodeLocations(items[..itemsLength]).value);
                (removed.Err? ==> r == Ok(record(removed.error)) && unchanged(output, outputSize))
                && (removed.Ok? && removed.value.None? ==>
                      r == Err(NullPointer) && unchanged(output, outputSize))
                && (removed.Ok? && removed.value.Some? ==>
                      var ls := removed.value.value;
                      r == Ok(0)
                      && output.data == Overwrite(old(output.data), EncodeLocations(ls))
                      && outputSize.value == if |ls| > 0 then |EncodeLocations(ls)| else 0)
    {
      if itemsLength < 0 {
        return Err(NegativeArraySize);
      }
      var itemsBytes := items[..itemsLength];
      var locations := DecodeLocations(itemsBytes);
      if locations.Err? {
        return Ok(record(locations.error));
      }
      var removedLocations := list(locations.value);
      if removedLocations.Err? {
        return Ok(record(removedLocations.error));
      }
      if removedLocations.value.None? {
        return Err(NullPointer);
      }
      var removed := removedLocations.value.value;
      var bytes := EncodeLocations(removed);
      output.Write(bytes);
      if |removed| > 0 {
        outputSize.value := |bytes|;
      } else {
        outputSize.value := 0;
      }
      r := Ok(0);
    }
  }

  /** Nothing bounds the write by the engine's allocation: an answer with nothing removed still
      writes its count byte, so a zero-capacity output is overrun while the call succeeds. */
  method EmptyAnswerOverrunsEmptyOutput() returns (r: Result<int>, overrun: bool)
    ensures r == Ok(0) && overrun
  {
    var filter := new FilterObsoleteLocations(_ => Ok(Some([])), _ => 0);
    var output := new NativeBuffer(0);
    var outputSize := new IntRef(0);
    EncodeNoLocations();
    DecodeEncodedLocations([], []);
    assert [0] + [] == [0];
    r := filter.Apply(output, outputSize, [0], 1);
    overrun := output.Overrun();
  }
}
