/** The result of a hybrid decryption: the plaintext and the metadata found in the encrypted
    header. */
module DecryptedDataModel {
  import opened Base
  import opened Leb128

  /** The two final fields. The constructor stores each argument in the other's field, and the
      getters read them crossed back, so the fields below hold the values their names do not
      say. */
  datatype DecryptedData = DecryptedData(headerMetadata: Bytes, plaintext: Bytes)

  /** `new DecryptedData(plaintext, headerMetadata)`. */
  function New(plaintext: Bytes, headerMetadata: Bytes): (d: DecryptedData)
    ensures d.headerMetadata == plaintext && d.plaintext == headerMetadata
    ensures GetPlaintext(d) == plaintext && GetHeaderMetaData(d) == headerMetadata
  {
    DecryptedData(plaintext, headerMetadata)
  }

  /** `getPlaintext()` reads the field the constructor filled with the plaintext. */
  function GetPlaintext(d: DecryptedData): (r: Bytes)
    ensures r == d.headerMetadata
  {
    d.headerMetadata
  }

  /** `getHeaderMetaData()` reads the field the constructor filled with the metadata. */
  function GetHeaderMetaData(d: DecryptedData): (r: Bytes)
    ensures r == d.plaintext
  {
    d.plaintext
  }

  /** The serialized form: the metadata, length-prefixed, then the plaintext up to the end. */
  function Serialize(plaintext: Bytes, headerMetadata: Bytes): (r: Bytes)
    ensures |r| == |EncodeBytes(headerMetadata)| + |plaintext|
    ensures r[..|EncodeBytes(headerMetadata)|] == EncodeBytes(headerMetadata)
    ensures r[|EncodeBytes(headerMetadata)|..] == plaintext
  {
    var r := EncodeBytes(headerMetadata) + plaintext;
    assert r[..|EncodeBytes(headerMetadata)|] == EncodeBytes(headerMetadata);
    r
  }

  /** What `fromBytes` reads: one length-prefixed byte string as the metadata, every byte left as
      the plaintext. */
  function Parse(bytes: Bytes): (r: Result<DecryptedData>)
    ensures r.Ok? <==> ReadBytes(bytes, 0).Ok?
    ensures r.Err? ==> r.error == Truncated
  {
    match ReadBytes(bytes, 0)
    case Err(e) => Err(e)
    case Ok((headerMetadata, pos)) => Ok(New(bytes[pos..], headerMetadata))
  }

  /** `fromBytes`: the metadata is read from a stream over `bytes`, then the bytes still
      available are the plaintext. A read that runs past the end fails. */
  method FromBytes(bytes: Bytes) returns (r: Result<DecryptedData>)
    ensures r == Parse(bytes)
    ensures r.Ok? ==>
              var pos := ReadBytes(bytes, 0).value.1;
              GetHeaderMetaData(r.value) == bytes[pos - |GetHeaderMetaData(r.value)|..pos]
              && GetPlaintext(r.value) == bytes[pos..]
  {
    var header := ReadBytes(bytes, 0);
    if header.Err? {
      return Err(header.error);
    }
    ReadBytesIsSlice(bytes, 0);
    var headerMetadata := header.value.0;
    var available := |bytes| - header.value.1;
    var plaintext := bytes[header.value.1..header.value.1 + available];
    assert plaintext == bytes[header.value.1..];
    r := Ok(New(plaintext, headerMetadata));
  }

  /** Round trip: the serialized form of a plaintext and its metadata parses back to them. */
  lemma ParseSerialized(plaintext: Bytes, headerMetadata: Bytes)
    ensures Parse(Serialize(plaintext, headerMetadata)).Ok?
    ensures GetPlaintext(Parse(Serialize(plaintext, headerMetadata)).value) == plaintext
    ensures GetHeaderMetaData(Parse(Serialize(plaintext, headerMetadata)).value) == headerMetadata
  {
    var s := Serialize(plaintext, headerMetadata);
    var e := EncodeBytes(headerMetadata);
    assert s[0..|e|] == e;
    ReadEncodedBytes(headerMetadata, s, 0);
    assert s[|e|..] == plaintext;
  }

  /** Input that ends right after the metadata gives an empty plaintext. */
  lemma MetadataOnly(headerMetadata: Bytes)
    ensures Parse(EncodeBytes(headerMetadata)).Ok?
    ensures GetPlaintext(Parse(EncodeBytes(headerMetadata)).value) == []
    ensures GetHeaderMetaData(Parse(EncodeBytes(headerMetadata)).value) == headerMetadata
  {
    assert Serialize([], headerMetadata) == EncodeBytes(headerMetadata);
    ParseSerialized([], headerMetadata);
  }

  /** Input cut short inside the metadata fails to decode. */
  lemma TruncatedMetadataFails(plaintext: Bytes, headerMetadata: Bytes, k: nat)
    requires k < |EncodeBytes(headerMetadata)|
    ensures Parse(Serialize(plaintext, headerMetadata)[..k]) == Err(Truncated)
  {
    assert Serialize(plaintext, headerMetadata)[..k] == EncodeBytes(headerMetadata)[..k];
    TruncatedBytesFail(headerMetadata, k);
  }

  /** Distinct plaintext and metadata pairs serialize differently. */
  lemma SerializeInjective(p1: Bytes, m1: Bytes, p2: Bytes, m2: Bytes)
    requires Serialize(p1, m1) == Serialize(p2, m2)
    ensures p1 == p2 && m1 == m2
  {
    ParseSerialized(p1, m1);
    ParseSerialized(p2, m2);
  }
}
