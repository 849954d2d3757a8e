/** The binary framing every callback buffer uses. The integer layer is unsigned LEB128 as defined
    in section 7.6 ("Variable Length Data") of the DWARF Debugging Information Format, version 4:
    seven data bits per byte, least significant group first, the high bit set on every byte but
    the last. On top of it: a byte string is its length followed by its bytes, and a sequence of
    records is a count followed by the records, each record being a fixed number of byte strings
    ("fields") written one after the other. */
module Leb128 {
  import opened Base

  /** Splitting a slice that holds `x + y` into the slice holding `x` and the one holding `y`. */
  lemma SplitSlice(s: Bytes, pos: nat, x: Bytes, y: Bytes)
    requires pos + |x| + |y| <= |s| && s[pos..pos + |x| + |y|] == x + y
    ensures s[pos..pos + |x|] == x && s[pos + |x|..pos + |x| + |y|] == y
  {
    assert s[pos..pos + |x|] == (x + y)[..|x|];
    assert s[pos + |x|..pos + |x| + |y|] == (x + y)[|x|..];
  }

  // ---------------------------------------------------------------- unsigned integers

  function EncodeUnsigned(n: nat): (r: Bytes)
    ensures |r| >= 1 && r[|r| - 1] < 128
    decreases n
  {
    if n < 128 then [n]
    else
      var tail := EncodeUnsigned(n / 128);
      assert ([128 + n % 128] + tail)[|tail|] == tail[|tail| - 1];
      [128 + n % 128] + tail
  }

  /** Reads one unsigned LEB128 integer starting at `pos`; on success gives the value and the
      position just after its last byte. */
  function DecodeUnsigned(s: Bytes, pos: nat): (r: Result<(nat, nat)>)
    ensures r.Ok? ==> pos < r.value.1 <= |s|
    ensures r.Err? ==> r.error == Truncated
    decreases |s| - pos
  {
    if pos >= |s| then Err(Truncated)
    else if s[pos] < 128 then Ok((s[pos], pos + 1))
    else
      match DecodeUnsigned(s, pos + 1)
      case Err(e) => Err(e)
      case Ok((v, next)) => Ok((s[pos] - 128 + 128 * v, next))
  }

  /** Every byte of an encoding but the last carries the continuation bit. */
  lemma {:induction false} ContinuationBits(n: nat)
    ensures forall i :: 0 <= i < |EncodeUnsigned(n)| - 1 ==> EncodeUnsigned(n)[i] >= 128
    decreases n
  {
    if n >= 128 {
      ContinuationBits(n / 128);
    }
  }

  lemma DivMod128(n: nat)
    ensures n % 128 + 128 * (n / 128) == n
  {
  }

  /** Reading a continuation byte for `n` followed by the encoding of `n / 128` gives `n`. */
  lemma DecodeStep(s: Bytes, pos: nat, n: nat, next: nat)
    requires pos < |s| && n >= 128 && s[pos] == 128 + n % 128
    requires DecodeUnsigned(s, pos + 1) == Ok((n / 128, next))
    ensures DecodeUnsigned(s, pos) == Ok((n, next))
  {
    DivMod128(n);
  }

  /** Round trip: an encoded integer, wherever it stands in a buffer, reads back as itself and
      the read stops right after it. */
  lemma {:induction false} DecodeEncodedUnsigned(n: nat, s: Bytes, pos: nat)
    requires pos + |EncodeUnsigned(n)| <= |s|
    requires s[pos..pos + |EncodeUnsigned(n)|] == EncodeUnsigned(n)
    ensures DecodeUnsigned(s, pos) == Ok((n, pos + |EncodeUnsigned(n)|))
    decreases n
  {
    var e := EncodeUnsigned(n);
    if n < 128 {
      assert s[pos] == e[0] == n;
    } else {
      var t := EncodeUnsigned(n / 128);
      assert e == [128 + n % 128] + t;
      assert s[pos] == e[0];
      var end: nat := pos + 1 + |t|;
      assert end == pos + |e|;
      assert s[pos + 1..end] == e[1..];
      DecodeEncodedUnsigned(n / 128, s, pos + 1);
      DecodeStep(s, pos, n, end);
    }
  }

  /** A read that meets only continuation bytes before the end of the buffer fails. */
  lemma {:induction false} DecodeWithoutLastByteFails(s: Bytes, pos: nat)
    requires forall i :: pos <= i < |s| ==> s[i] >= 128
    ensures DecodeUnsigned(s, pos).Err?
    decreases |s| - pos
  {
    if pos < |s| {
      DecodeWithoutLastByteFails(s, pos + 1);
    }
  }

  /** Truncation: every strict prefix of an encoded integer fails to decode. */
  lemma TruncatedUnsignedFails(n: nat, k: nat)
    requires k < |EncodeUnsigned(n)|
    ensures DecodeUnsigned(EncodeUnsigned(n)[..k], 0) == Err(Truncated)
  {
    ContinuationBits(n);
    DecodeWithoutLastByteFails(EncodeUnsigned(n)[..k], 0);
  }

  /** Distinct integers have distinct encodings. */
  lemma EncodeUnsignedInjective(m: nat, n: nat)
    requires EncodeUnsigned(m) == EncodeUnsigned(n)
    ensures m == n
  {
    DecodeEncodedUnsigned(m, EncodeUnsigned(m), 0);
    DecodeEncodedUnsigned(n, EncodeUnsigned(n), 0);
  }

  // ---------------------------------------------------------------- byte strings

  /** `Leb128.writeArray`: the length, then the bytes. */
  function EncodeBytes(b: Bytes): (r: Bytes)
  {
    EncodeUnsigned(|b|) + b
  }

  /** The bytes of `s` from `lo` up to, not including, `hi`; built from the last one back so that
      reasoning about a read does not unfold into slices of the whole buffer. */
  function Span(s: Bytes, lo: nat, hi: nat): (r: Bytes)
    requires lo <= hi <= |s|
    ensures |r| == hi - lo
    decreases hi - lo
  {
    if lo == hi then [] else Span(s, lo, hi - 1) + [s[hi - 1]]
  }

  lemma {:induction false} SpanIsSlice(s: Bytes, lo: nat, hi: nat)
    requires lo <= hi <= |s|
    ensures Span(s, lo, hi) == s[lo..hi]
    decreases hi - lo
  {
    if lo < hi {
      SpanIsSlice(s, lo, hi - 1);
      assert s[lo..hi] == s[lo..hi - 1] + [s[hi - 1]];
    }
  }

  /** `Leb128.readByteArray`: a length, then that many bytes; fails if the buffer ends first. */
  function ReadBytes(s: Bytes, pos: nat): (r: Result<(Bytes, nat)>)
    ensures r.Ok? ==> pos < r.value.1 <= |s| && |r.value.0| < r.value.1 - pos
    ensures r.Err? ==> r.error == Truncated
  {
    match DecodeUnsigned(s, pos)
    case Err(e) => Err(e)
    case Ok((n, next)) => if n <= |s| - next then Ok((Span(s, next, next + n), next + n)) else Err(Truncated)
  }

  /** A byte string read is the bytes of the buffer right before where the read stops. */
  lemma ReadBytesIsSlice(s: Bytes, pos: nat)
    requires ReadBytes(s, pos).Ok?
    ensures ReadBytes(s, pos).value.0
            == s[ReadBytes(s, pos).value.1 - |ReadBytes(s, pos).value.0|..ReadBytes(s, pos).value.1]
  {
    var (n, next) := DecodeUnsigned(s, pos).value;
    SpanIsSlice(s, next, next + n);
  }

  lemma ReadEncodedBytes(b: Bytes, s: Bytes, pos: nat)
    requires pos + |EncodeBytes(b)| <= |s|
    requires s[pos..pos + |EncodeBytes(b)|] == EncodeBytes(b)
    ensures ReadBytes(s, pos) == Ok((b, pos + |EncodeBytes(b)|))
  {
    var h := EncodeUnsigned(|b|);
    SplitSlice(s, pos, h, b);
    DecodeEncodedUnsigned(|b|, s, pos);
    SpanIsSlice(s, pos + |h|, pos + |h| + |b|);
  }

  // ---------------------------------------------------------------- records of fields

  /** A non-empty sequence is its prefix followed by its last element. */
  lemma SnocSplit<T>(xs: seq<T>)
    requires xs != []
    ensures xs[..|xs| - 1] + [xs[|xs| - 1]] == xs
  {
  }

  /** A record: its fields as byte strings, one after the other, with no wrapper. */
  function EncodeFields(fs: seq<Bytes>): (r: Bytes)
    decreases |fs|
  {
    if fs == [] then [] else EncodeFields(fs[..|fs| - 1]) + EncodeBytes(fs[|fs| - 1])
  }

  /** Reads the `k` fields of one record. */
  function ReadFields(s: Bytes, pos: nat, k: nat): (r: Result<(seq<Bytes>, nat)>)
    requires pos <= |s|
    ensures r.Ok? ==> |r.value.0| == k && pos <= r.value.1 <= |s|
    ensures r.Err? ==> r.error == Truncated
    decreases k
  {
    if k == 0 then Ok(([], pos))
    else
      match ReadFields(s, pos, k - 1)
      case Err(e) => Err(e)
      case Ok((fs, next)) =>
        match ReadBytes(s, next)
        case Err(e) => Err(e)
        case Ok((f, after)) => Ok((fs + [f], after))
  }

  /** One more field read after `k` of them. */
  lemma ReadFieldsStep(s: Bytes, pos: nat, fs: seq<Bytes>, f: Bytes, mid: nat, end: nat)
    requires pos <= mid <= |s|
    requires ReadFields(s, pos, |fs|) == Ok((fs, mid))
    requires ReadBytes(s, mid) == Ok((f, end))
    ensures ReadFields(s, pos, |fs| + 1) == Ok((fs + [f], end))
  {
  }

  /** A field that cannot be read makes the read of the record fail. */
  lemma ReadFieldsStepFails(s: Bytes, pos: nat, fs: seq<Bytes>, mid: nat)
    requires pos <= mid <= |s|
    requires ReadFields(s, pos, |fs|) == Ok((fs, mid))
    requires ReadBytes(s, mid).Err?
    ensures ReadFields(s, pos, |fs| + 1) == Err(Truncated)
  {
  }

  /** Once a read of fields fails, reading more of them fails too. */
  lemma {:induction false} ReadFieldsFailurePersists(s: Bytes, pos: nat, k: nat, n: nat)
    requires pos <= |s| && k <= n
    requires ReadFields(s, pos, k).Err?
    ensures ReadFields(s, pos, n) == Err(Truncated)
    decreases n - k
  {
    if k < n {
      ReadFieldsFailurePersists(s, pos, k, n - 1);
    }
  }

  lemma {:induction false} ReadEncodedFields(fs: seq<Bytes>, s: Bytes, pos: nat)
    requires pos + |EncodeFields(fs)| <= |s|
    requires s[pos..pos + |EncodeFields(fs)|] == EncodeFields(fs)
    ensures ReadFields(s, pos, |fs|) == Ok((fs, pos + |EncodeFields(fs)|))
    decreases |fs|
  {
    if fs != [] {
      var init, last := fs[..|fs| - 1], fs[|fs| - 1];
      var a, b := EncodeFields(init), EncodeBytes(last);
      assert EncodeFields(fs) == a + b;
      SplitSlice(s, pos, a, b);
      ReadEncodedFields(init, s, pos);
      ReadEncodedFieldsSnoc(init, last, s, pos, pos + |a|);
      SnocSplit(fs);
    }
  }

  lemma {:induction false} ReadEncodedFieldsSnoc(init: seq<Bytes>, last: Bytes, s: Bytes, pos: nat, mid: nat)
    requires pos <= mid && mid + |EncodeBytes(last)| <= |s|
    requires ReadFields(s, pos, |init|) == Ok((init, mid))
    requires s[mid..mid + |EncodeBytes(last)|] == EncodeBytes(last)
    ensures ReadFields(s, pos, |init| + 1) == Ok((init + [last], mid + |EncodeBytes(last)|))
  {
    ReadEncodedBytes(last, s, mid);
    ReadFieldsStep(s, pos, init, last, mid, mid + |EncodeBytes(last)|);
  }

  /** Every record has `arity` fields. */
  predicate HasArity(rs: seq<seq<Bytes>>, arity: nat) {
    forall i :: 0 <= i < |rs| ==> |rs[i]| == arity
  }

  lemma {:induction false} HasArityPrefix(rs: seq<seq<Bytes>>, arity: nat)
    requires rs != [] && HasArity(rs, arity)
    ensures HasArity(rs[..|rs| - 1], arity) && |rs[|rs| - 1]| == arity
  {
    var init := rs[..|rs| - 1];
    forall i | 0 <= i < |init| ensures |init[i]| == arity { assert init[i] == rs[i]; }
  }

  /** The records of a sequence, without the count in front. */
  function EncodeRecordsBody(rs: seq<seq<Bytes>>): (r: Bytes)
    decreases |rs|
  {
    if rs == [] then [] else EncodeRecordsBody(rs[..|rs| - 1]) + EncodeFields(rs[|rs| - 1])
  }

  /** A sequence of records: the count, then the records in order. */
  function EncodeRecords(rs: seq<seq<Bytes>>): (r: Bytes)
  {
    EncodeUnsigned(|rs|) + EncodeRecordsBody(rs)
  }

  /** Reads `n` records of `arity` fields each. */
  function ReadRecords(s: Bytes, pos: nat, n: nat, arity: nat): (r: Result<(seq<seq<Bytes>>, nat)>)
    requires pos <= |s|
    ensures r.Ok? ==> |r.value.0| == n && pos <= r.value.1 <= |s|
    ensures r.Err? ==> r.error == Truncated
    decreases n
  {
    if n == 0 then Ok(([], pos))
    else
      match ReadRecords(s, pos, n - 1, arity)
      case Err(e) => Err(e)
      case Ok((rs, next)) =>
        match ReadFields(s, next, arity)
        case Err(e) => Err(e)
        case Ok((fs, after)) => Ok((rs + [fs], after))
  }

  /** Every record read has the requested number of fields. */
  lemma {:induction false} ReadRecordsHaveArity(s: Bytes, pos: nat, n: nat, arity: nat)
    requires pos <= |s|
    requires ReadRecords(s, pos, n, arity).Ok?
    ensures HasArity(ReadRecords(s, pos, n, arity).value.0, arity)
    decreases n
  {
    if n > 0 {
      ReadRecordsHaveArity(s, pos, n - 1, arity);
    }
  }

  /** Once a read of records fails, reading more of them fails too. */
  lemma {:induction false} ReadRecordsFailurePersists(s: Bytes, pos: nat, k: nat, n: nat, arity: nat)
    requires pos <= |s| && k <= n
    requires ReadRecords(s, pos, k, arity).Err?
    ensures ReadRecords(s, pos, n, arity).Err?
    decreases n - k
  {
    if k < n {
      ReadRecordsFailurePersists(s, pos, k, n - 1, arity);
    }
  }

  /** One more record read after `k` of them. */
  lemma ReadRecordsStep(s: Bytes, pos: nat, rs: seq<seq<Bytes>>, fs: seq<Bytes>, arity: nat, mid: nat, end: nat)
    requires pos <= mid <= |s|
    requires ReadRecords(s, pos, |rs|, arity) == Ok((rs, mid))
    requires ReadFields(s, mid, arity) == Ok((fs, end))
    ensures ReadRecords(s, pos, |rs| + 1, arity) == Ok((rs + [fs], end))
  {
  }

  /** `e` stands in `s` from `pos` on, byte by byte. */
  predicate EncodedAt(s: Bytes, pos: nat, e: Bytes)
    decreases |e|
  {
    if e == [] then pos <= |s|
    else EncodedAt(s, pos, e[..|e| - 1]) && pos + |e| <= |s| && s[pos + |e| - 1] == e[|e| - 1]
  }

  /** `EncodedAt` is the slice of `s` from `pos` being `e`. */
  lemma {:induction false} EncodedAtSlice(s: Bytes, pos: nat, e: Bytes)
    ensures EncodedAt(s, pos, e) <==> pos + |e| <= |s| && s[pos..pos + |e|] == e
    decreases |e|
  {
    if e != [] {
      var init := e[..|e| - 1];
      EncodedAtSlice(s, pos, init);
      if pos + |e| <= |s| {
        assert s[pos..pos + |e|] == s[pos..pos + |init|] + [s[pos + |e| - 1]];
        assert e == init + [e[|e| - 1]];
      }
    }
  }

  /** Where `x + y` stands, `x` stands, and `y` right after it. */
  lemma EncodedAtSplit(s: Bytes, pos: nat, x: Bytes, y: Bytes)
    requires EncodedAt(s, pos, x + y)
    ensures EncodedAt(s, pos, x) && EncodedAt(s, pos + |x|, y)
  {
    EncodedAtSlice(s, pos, x + y);
    SplitSlice(s, pos, x, y);
    EncodedAtSlice(s, pos, x);
    EncodedAtSlice(s, pos + |x|, y);
  }

  /** `HasArity`, record by record from the last. */
  predicate RecordsOfArity(rs: seq<seq<Bytes>>, arity: nat)
    decreases |rs|
  {
    rs != [] ==> RecordsOfArity(rs[..|rs| - 1], arity) && |rs[|rs| - 1]| == arity
  }

  lemma {:induction false} HasArityRecords(rs: seq<seq<Bytes>>, arity: nat)
    requires HasArity(rs, arity)
    ensures RecordsOfArity(rs, arity)
    decreases |rs|
  {
    if rs != [] {
      HasArityPrefix(rs, arity);
      HasArityRecords(rs[..|rs| - 1], arity);
    }
  }

  lemma {:induction false} ReadEncodedRecords(rs: seq<seq<Bytes>>, arity: nat, s: Bytes, pos: nat)
    requires RecordsOfArity(rs, arity)
    requires pos + |EncodeRecordsBody(rs)| <= |s|
    requires EncodedAt(s, pos, EncodeRecordsBody(rs))
    ensures ReadRecords(s, pos, |rs|, arity) == Ok((rs, pos + |EncodeRecordsBody(rs)|))
    decreases |rs|
  {
    if rs != [] {
      var mid: nat, end: nat := pos + |EncodeRecordsBody(rs[..|rs| - 1])|, pos + |EncodeRecordsBody(rs)|;
      EncodedRecordsSplit(rs, arity, s, pos, mid, end);
      ReadEncodedRecords(rs[..|rs| - 1], arity, s, pos);
      ReadLastRecord(rs, arity, s, pos, mid, end);
    } else {
      assert ReadRecords(s, pos, 0, arity) == Ok(([], pos));
    }
  }

  /** Encoded records split into the records but the last, encoded where all of them are, and
      the last record, which reads back right after them. */
  lemma {:induction false} EncodedRecordsSplit(rs: seq<seq<Bytes>>, arity: nat, s: Bytes, pos: nat, mid: nat, end: nat)
    requires rs != [] && |rs[|rs| - 1]| == arity
    requires mid == pos + |EncodeRecordsBody(rs[..|rs| - 1])| && end == pos + |EncodeRecordsBody(rs)|
    requires end <= |s|
    requires EncodedAt(s, pos, EncodeRecordsBody(rs))
    ensures pos <= mid <= |s|
    ensures EncodedAt(s, pos, EncodeRecordsBody(rs[..|rs| - 1]))
    ensures ReadFields(s, mid, arity) == Ok((rs[|rs| - 1], end))
  {
    var a, b := EncodeRecordsBody(rs[..|rs| - 1]), EncodeFields(rs[|rs| - 1]);
    assert EncodeRecordsBody(rs) == a + b;
    EncodedAtSplit(s, pos, a, b);
    ReadEncodedRecordAt(rs[|rs| - 1], arity, s, mid, end);
  }

  /** A record encoded at `mid` is read back there, as a record of its own arity. */
  lemma {:induction false} ReadEncodedRecordAt(fs: seq<Bytes>, arity: nat, s: Bytes, mid: nat, end: nat)
    requires |fs| == arity && end == mid + |EncodeFields(fs)| && end <= |s|
    requires EncodedAt(s, mid, EncodeFields(fs))
    ensures ReadFields(s, mid, arity) == Ok((fs, end))
  {
    EncodedAtSlice(s, mid, EncodeFields(fs));
    ReadEncodedFields(fs, s, mid);
  }

  /** A record read right after the records but the last completes them. */
  lemma {:induction false} ReadLastRecord(rs: seq<seq<Bytes>>, arity: nat, s: Bytes, pos: nat, mid: nat, end: nat)
    requires rs != [] && pos <= mid <= |s|
    requires ReadRecords(s, pos, |rs[..|rs| - 1]|, arity) == Ok((rs[..|rs| - 1], mid))
    requires ReadFields(s, mid, arity) == Ok((rs[|rs| - 1], end))
    ensures ReadRecords(s, pos, |rs|, arity) == Ok((rs, end))
  {
    SnocSplit(rs);
  }

  /** Reads a count and that many records from the start of the buffer; bytes after the last
      record are not looked at. */
  function DecodeRecords(s: Bytes, arity: nat): (r: Result<seq<seq<Bytes>>>)
    ensures r.Ok? ==> HasArity(r.value, arity)
    ensures r.Err? ==> r.error == Truncated
  {
    match DecodeUnsigned(s, 0)
    case Err(e) => Err(e)
    case Ok((n, next)) =>
      match ReadRecords(s, next, n, arity)
      case Err(e) => Err(e)
      case Ok((rs, _)) => ReadRecordsHaveArity(s, next, n, arity); Ok(rs)
  }

  /** A header, a body and anything after them: the header at the start, the body right after. */
  lemma HeaderAndBody(h: Bytes, body: Bytes, rest: Bytes)
    ensures (h + body + rest)[0..|h|] == h
    ensures EncodedAt(h + body + rest, |h|, body)
  {
    var s := h + body + rest;
    assert s[|h|..|h| + |body|] == body;
    EncodedAtSlice(s, |h|, body);
  }

  /** An encoded sequence of records, followed by anything, reads back stage by stage: the
      count, then the records. */
  lemma ReadEncodedRecordSequence(rs: seq<seq<Bytes>>, arity: nat, rest: Bytes)
    requires HasArity(rs, arity)
    ensures DecodeUnsigned(EncodeRecords(rs) + rest, 0) == Ok((|rs|, |EncodeUnsigned(|rs|)|))
    ensures ReadRecords(EncodeRecords(rs) + rest, |EncodeUnsigned(|rs|)|, |rs|, arity)
         == Ok((rs, |EncodeRecords(rs)|))
  {
    var s := EncodeRecords(rs) + rest;
    var h, body := EncodeUnsigned(|rs|), EncodeRecordsBody(rs);
    HeaderAndBody(h, body, rest);
    DecodeEncodedUnsigned(|rs|, s, 0);
    HasArityRecords(rs, arity);
    ReadEncodedRecords(rs, arity, s, |h|);
  }

  /** Round trip for sequences of records, with anything after them. */
  lemma DecodeEncodedRecords(rs: seq<seq<Bytes>>, arity: nat, rest: Bytes)
    requires HasArity(rs, arity)
    ensures DecodeRecords(EncodeRecords(rs) + rest, arity) == Ok(rs)
  {
    ReadEncodedRecordSequence(rs, arity, rest);
  }

  // ---------------------------------------------------------------- truncation

  /** `t` is `s` cut short: each byte of `t` is the byte of `s` at the same place. */
  predicate IsPrefix(t: Bytes, s: Bytes) {
    |t| <= |s| && forall i :: 0 <= i < |t| ==> t[i] == s[i]
  }

  /** A successful read of an integer looks only at the bytes it consumes, so it reads the same
      in any longer buffer. */
  lemma {:induction false} DecodeUnsignedExtends(t: Bytes, s: Bytes, pos: nat)
    requires IsPrefix(t, s) && DecodeUnsigned(t, pos).Ok?
    ensures DecodeUnsigned(s, pos) == DecodeUnsigned(t, pos)
    decreases |t| - pos
  {
    if t[pos] >= 128 {
      DecodeUnsignedExtends(t, s, pos + 1);
    }
  }

  lemma {:induction false} SpanExtends(t: Bytes, s: Bytes, lo: nat, hi: nat)
    requires IsPrefix(t, s) && lo <= hi <= |t|
    ensures Span(s, lo, hi) == Span(t, lo, hi)
    decreases hi - lo
  {
    if lo < hi {
      SpanExtends(t, s, lo, hi - 1);
    }
  }

  /** A successful read of a byte string reads the same in any longer buffer. */
  lemma ReadBytesExtends(t: Bytes, s: Bytes, pos: nat)
    requires IsPrefix(t, s) && ReadBytes(t, pos).Ok?
    ensures ReadBytes(s, pos) == ReadBytes(t, pos)
  {
    DecodeUnsignedExtends(t, s, pos);
    var (n, next) := DecodeUnsigned(t, pos).value;
    SpanExtends(t, s, next, next + n);
  }

  lemma {:induction false} ReadFieldsExtends(t: Bytes, s: Bytes, pos: nat, k: nat)
    requires IsPrefix(t, s) && pos <= |t| && ReadFields(t, pos, k).Ok?
    ensures ReadFields(s, pos, k) == ReadFields(t, pos, k)
    decreases k
  {
    if k > 0 {
      ReadFieldsExtends(t, s, pos, k - 1);
      ReadBytesExtends(t, s, ReadFields(t, pos, k - 1).value.1);
    }
  }

  /** A successful read of records reads the same in any longer buffer. */
  lemma {:induction false} ReadRecordsExtends(t: Bytes, s: Bytes, pos: nat, n: nat, arity: nat)
    requires IsPrefix(t, s) && pos <= |t| && ReadRecords(t, pos, n, arity).Ok?
    ensures ReadRecords(s, pos, n, arity) == ReadRecords(t, pos, n, arity)
    decreases n
  {
    if n > 0 {
      ReadRecordsExtends(t, s, pos, n - 1, arity);
      ReadFieldsExtends(t, s, ReadRecords(t, pos, n - 1, arity).value.1, arity);
    }
  }

  /** Truncation of a byte string: every strict prefix of an encoded byte string fails to read. */
  lemma TruncatedBytesFail(b: Bytes, k: nat)
    requires k < |EncodeBytes(b)|
    ensures ReadBytes(EncodeBytes(b)[..k], 0) == Err(Truncated)
  {
    var s := EncodeBytes(b);
    var t := s[..k];
    assert s[0..|s|] == s;
    ReadEncodedBytes(b, s, 0);
    if ReadBytes(t, 0).Ok? {
      ReadBytesExtends(t, s, 0);
      assert false;
    }
  }

  /** Truncation of a sequence of records, stage by stage: cut short anywhere, it either loses
      its count or keeps it and fails to read all its records. */
  lemma TruncatedRecordSequence(rs: seq<seq<Bytes>>, arity: nat, k: nat)
    requires HasArity(rs, arity) && k < |EncodeRecords(rs)|
    ensures var t := EncodeRecords(rs)[..k];
            DecodeUnsigned(t, 0).Err?
            || (DecodeUnsigned(t, 0) == Ok((|rs|, |EncodeUnsigned(|rs|)|))
                && ReadRecords(t, |EncodeUnsigned(|rs|)|, |rs|, arity).Err?)
  {
    var s := EncodeRecords(rs);
    var t := s[..k];
    assert s + [] == s;
    ReadEncodedRecordSequence(rs, arity, []);
    if DecodeUnsigned(t, 0).Ok? {
      DecodeUnsignedExtends(t, s, 0);
      if ReadRecords(t, |EncodeUnsigned(|rs|)|, |rs|, arity).Ok? {
        ReadRecordsExtends(t, s, |EncodeUnsigned(|rs|)|, |rs|, arity);
        assert false;
      }
    }
  }

  /** Truncation: a sequence of records cut anywhere short of its end does not decode. */
  lemma TruncatedRecordsFail(rs: seq<seq<Bytes>>, arity: nat, k: nat)
    requires HasArity(rs, arity) && k < |EncodeRecords(rs)|
    ensures DecodeRecords(EncodeRecords(rs)[..k], arity) == Err(Truncated)
  {
    TruncatedRecordSequence(rs, arity, k);
  }

  // ---------------------------------------------------------------- key-value pairs

  /** Key-value pairs travel as records of two fields: the key, then the value. */
  function PairRecords(pairs: seq<(Bytes, Bytes)>): (rs: seq<seq<Bytes>>)
    ensures |rs| == |pairs| && HasArity(rs, 2)
  {
    seq(|pairs|, i requires 0 <= i < |pairs| => [pairs[i].0, pairs[i].1])
  }

  lemma EncodeTwoFields(a: Bytes, b: Bytes)
    ensures EncodeFields([a, b]) == EncodeBytes(a) + EncodeBytes(b)
  {
    assert [a, b][..1] == [a];
    assert [a][..0] == [];
    assert EncodeFields([a]) == EncodeBytes(a) by {
      assert [] + EncodeBytes(a) == EncodeBytes(a);
    }
  }
}
