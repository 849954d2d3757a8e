/** The Findex Cloud entry points: each is one or two calls into the native library through a
    Java output buffer, whose size travels in an `IntByReference`; the result is the prefix of
    the buffer that the native side reports as written. */
module FindexCloud {
  import opened Base

  /** What a native call leaves behind: its return code, the value it stored in the size
      reference, and the bytes it wrote from offset 0 of the output buffer. */
  datatype Reply = Reply(code: int, size: int, written: Bytes)

  /** A native entry point with every argument but the output buffer fixed: it receives the
      buffer's length and the size reference's value. */
  type Native = (nat, int) -> Reply

  /** The output buffer after a call: a Java `byte[]` of `capacity` zeros that the native side
      wrote `written` into, as far as the array reaches. */
  function Received(capacity: nat, written: Bytes): (r: Bytes)
    ensures |r| == capacity
    ensures forall i :: 0 <= i < capacity ==> r[i] == if i < |written| then written[i] else 0
  {
    if |written| >= capacity then written[..capacity] else written + Zeros(capacity - |written|)
  }

  /** The buffer size `search` starts with. */
  const SEARCH_BUFFER_SIZE: nat := 131072
  /** The buffer size of `generateNewToken`. */
  const TOKEN_BUFFER_SIZE: nat := 200

  /** The outcome of `upsert` for a native entry point: the probe, then the retry on code 1. */
  function UpsertResult(native: Native, rethrows: int -> bool, unwraps: int -> bool): (r: Result<Bytes>)
    ensures rethrows(native(0, 0).code) ==> r == Err(CallbackError(native(0, 0).code))
    ensures r.Err? ==>
              r.error.CallbackError? || r.error.NativeError?
              || r.error == NegativeArraySize || r.error == IllegalArgument
    ensures r.Ok? && native(0, 0).code != 1 ==>
              |r.value| == native(0, 0).size && forall i :: 0 <= i < |r.value| ==> r.value[i] == 0
    ensures r.Ok? && native(0, 0).code == 1 ==>
              native(0, 0).size >= 0 && |r.value| == native(native(0, 0).size, native(0, 0).size).size
  {
    var probe := native(0, 0);
    if rethrows(probe.code) then Err(CallbackError(probe.code))
    else if probe.code == 1 then
      if probe.size < 0 then Err(NegativeArraySize)
      else
        var retry := native(probe.size, probe.size);
        if unwraps(retry.code) then Err(NativeError(retry.code))
        else CopyOfRange(Received(probe.size, retry.written), retry.size)
    else if probe.code != 0 && unwraps(probe.code) then Err(NativeError(probe.code))
    else CopyOfRange(Received(0, probe.written), probe.size)
  }

  /** The outcome of `search` with a token, for a native entry point. */
  function SearchResult(native: Native): (r: Result<Bytes>)
    ensures r.Err? ==> r.error.NativeError? || r.error == NegativeArraySize || r.error == IllegalArgument
    ensures var first := native(SEARCH_BUFFER_SIZE, SEARCH_BUFFER_SIZE);
            first.code == 0 ==>
              (r.Ok? <==> first.size >= 0)
              && (r.Ok? ==> |r.value| == first.size
                            && forall i :: SEARCH_BUFFER_SIZE <= i < |r.value| ==> r.value[i] == 0)
    ensures var first := native(SEARCH_BUFFER_SIZE, SEARCH_BUFFER_SIZE);
            r.Ok? && first.code != 0 ==>
              first.size >= 0 && |r.value| == native(first.size, first.size).size
  {
    var first := native(SEARCH_BUFFER_SIZE, SEARCH_BUFFER_SIZE);
    if first.code == 0 then CopyOfRange(Received(SEARCH_BUFFER_SIZE, first.written), first.size)
    else if first.size < 0 then Err(NegativeArraySize)
    else
      var second := native(first.size, first.size);
      if second.code != 0 then Err(NativeError(second.code))
      else CopyOfRange(Received(first.size, second.written), second.size)
  }

  /** The outcome of `generateNewToken` for a native entry point. */
  function TokenResult(native: Native, unwraps: int -> bool): (r: Result<Bytes>)
    ensures var reply := native(TOKEN_BUFFER_SIZE, TOKEN_BUFFER_SIZE);
            unwraps(reply.code) ==> r == Err(NativeError(reply.code))
    ensures var reply := native(TOKEN_BUFFER_SIZE, TOKEN_BUFFER_SIZE);
            !unwraps(reply.code) ==> (r.Ok? <==> reply.size >= 0)
    ensures var reply := native(TOKEN_BUFFER_SIZE, TOKEN_BUFFER_SIZE);
            r.Ok? ==> |r.value| == reply.size && forall i :: TOKEN_BUFFER_SIZE <= i < |r.value| ==> r.value[i] == 0
  {
    var reply := native(TOKEN_BUFFER_SIZE, TOKEN_BUFFER_SIZE);
    if unwraps(reply.code) then Err(NativeError(reply.code))
    else CopyOfRange(Received(TOKEN_BUFFER_SIZE, reply.written), reply.size)
  }

  /** The size handshake the library follows: a buffer of at least the payload's length receives
      the payload, with code 0 and the payload's length as size; a shorter buffer receives
      nothing, with the code `tooSmall` and the payload's length as size. */
  ghost predicate Handshake(native: Native, payload: Bytes, tooSmall: int) {
    forall capacity: nat, size: int :: native(capacity, size) ==
      if capacity >= |payload| then Reply(0, |payload|, payload) else Reply(tooSmall, |payload|, [])
  }

  lemma ReceivedAll(capacity: nat, payload: Bytes)
    requires |payload| <= capacity
    ensures CopyOfRange(Received(capacity, payload), |payload|) == Ok(payload)
  {
    assert Received(capacity, payload)[..|payload|] == payload;
  }

  /** Against a native side that follows the handshake with code 1 for a buffer too small,
      `upsert` returns the payload, whatever its length, provided neither code is rethrown. */
  lemma UpsertDeliversPayload(native: Native, payload: Bytes, rethrows: int -> bool, unwraps: int -> bool)
    requires Handshake(native, payload, 1)
    requires !rethrows(0) && !rethrows(1) && !unwraps(0)
    ensures UpsertResult(native, rethrows, unwraps) == Ok(payload)
  {
    assert native(0, 0) == if 0 >= |payload| then Reply(0, |payload|, payload) else Reply(1, |payload|, []);
    if |payload| == 0 {
      ReceivedAll(0, payload);
    } else {
      assert native(|payload|, |payload|) == Reply(0, |payload|, payload);
      ReceivedAll(|payload|, payload);
    }
  }

  /** Against a native side that follows the handshake with any non-zero code for a buffer too
      small, `search` returns the payload, whatever its length. */
  lemma SearchDeliversPayload(native: Native, payload: Bytes, tooSmall: int)
    requires Handshake(native, payload, tooSmall) && tooSmall != 0
    ensures SearchResult(native) == Ok(payload)
  {
    if |payload| <= SEARCH_BUFFER_SIZE {
      assert native(SEARCH_BUFFER_SIZE, SEARCH_BUFFER_SIZE) == Reply(0, |payload|, payload);
      ReceivedAll(SEARCH_BUFFER_SIZE, payload);
    } else {
      assert native(SEARCH_BUFFER_SIZE, SEARCH_BUFFER_SIZE) == Reply(tooSmall, |payload|, []);
      assert native(|payload|, |payload|) == Reply(0, |payload|, payload);
      ReceivedAll(|payload|, payload);
    }
  }

  /** `generateNewToken` returns a token of at most 200 bytes; a longer one is refused with the
      handshake's code when `unwrap` throws on it, and otherwise comes back as its length in
      zero bytes. */
  lemma TokenDelivery(native: Native, payload: Bytes, tooSmall: int, unwraps: int -> bool)
    requires Handshake(native, payload, tooSmall) && !unwraps(0)
    ensures |payload| <= TOKEN_BUFFER_SIZE ==> TokenResult(native, unwraps) == Ok(payload)
    ensures |payload| > TOKEN_BUFFER_SIZE ==>
              TokenResult(native, unwraps)
              == if unwraps(tooSmall) then Err(NativeError(tooSmall)) else Ok(Zeros(|payload|))
  {
    if |payload| <= TOKEN_BUFFER_SIZE {
      assert native(TOKEN_BUFFER_SIZE, TOKEN_BUFFER_SIZE) == Reply(0, |payload|, payload);
      ReceivedAll(TOKEN_BUFFER_SIZE, payload);
    } else {
      assert native(TOKEN_BUFFER_SIZE, TOKEN_BUFFER_SIZE) == Reply(tooSmall, |payload|, []);
      if !unwraps(tooSmall) {
        var r := CopyOfRange(Received(TOKEN_BUFFER_SIZE, []), |payload|);
        assert r.value == Zeros(|payload|);
      }
    }
  }

  /** `upsert`: a first call with an empty buffer and a size of 0 probes the size needed. Code 1
      asks for a second call with a buffer of exactly the reported size; any other non-zero code
      goes to `unwrap`, and so does the code of the second call. `rethrows` is
      `FindexCallbackException.rethrowOnErrorCode` on the probe's code, `unwraps` the codes
      `unwrap` throws on. The results, still serialized, are returned with the arguments of each
      native call made. */
  method Upsert(native: Native, rethrows: int -> bool, unwraps: int -> bool)
    returns (r: Result<Bytes>, calls: seq<(nat, int)>)
    ensures 1 <= |calls| <= 2 && calls[0] == (0, 0)
    ensures r == UpsertResult(native, rethrows, unwraps)
    ensures var probe := native(0, 0);
            |calls| == 2 <==> !rethrows(probe.code) && probe.code == 1 && probe.size >= 0
    ensures |calls| == 2 ==> calls[1] == (native(0, 0).size, native(0, 0).size)
  {
    var newKeywordsBuffer: nat := 0;
    var newKeywordsBufferSize := 0;
    var reply := native(newKeywordsBuffer, newKeywordsBufferSize);
    calls := [(newKeywordsBuffer, newKeywordsBufferSize)];
    var ffiCode := reply.code;
    if rethrows(ffiCode) {
      return Err(CallbackError(ffiCode)), calls;
    }
    newKeywordsBufferSize := reply.size;
    if ffiCode == 1 {
      if newKeywordsBufferSize < 0 {
        return Err(NegativeArraySize), calls;
      }
      newKeywordsBuffer := newKeywordsBufferSize;
      reply := native(newKeywordsBuffer, newKeywordsBufferSize);
      calls := calls + [(newKeywordsBuffer, newKeywordsBufferSize)];
      if unwraps(reply.code) {
        return Err(NativeError(reply.code)), calls;
      }
      newKeywordsBufferSize := reply.size;
    } else if ffiCode != 0 {
      if unwraps(ffiCode) {
        return Err(NativeError(ffiCode)), calls;
      }
    }
    r := CopyOfRange(Received(newKeywordsBuffer, reply.written), newKeywordsBufferSize);
  }

  /** `search`: a null token is refused before any native call. A first call uses a buffer of
      131072 bytes; on any non-zero code a second call is made with a buffer of exactly the
      reported size, and a non-zero code from it is an error. */
  method Search(token: Option<string>, native: Native)
    returns (r: Result<Bytes>, calls: seq<(nat, int)>)
    ensures token.None? <==> (r == Err(TokenIsNull) && calls == [])
    ensures token.Some? ==> r == SearchResult(native)
    ensures token.Some? ==>
              var first := native(SEARCH_BUFFER_SIZE, SEARCH_BUFFER_SIZE);
              1 <= |calls| <= 2
              && calls[0] == (SEARCH_BUFFER_SIZE, SEARCH_BUFFER_SIZE)
              && (|calls| == 2 <==> first.code != 0 && first.size >= 0)
              && (|calls| == 2 ==> calls[1] == (first.size, first.size))
  {
    var indexedValuesBuffer: nat := SEARCH_BUFFER_SIZE;
    var indexedValuesBufferSize := indexedValuesBuffer;
    if token.None? {
      return Err(TokenIsNull), [];
    }
    var reply := native(indexedValuesBuffer, indexedValuesBufferSize);
    calls := [(indexedValuesBuffer, indexedValuesBufferSize)];
    indexedValuesBufferSize := reply.size;
    if reply.code != 0 {
      if indexedValuesBufferSize < 0 {
        return Err(NegativeArraySize), calls;
      }
      indexedValuesBuffer := indexedValuesBufferSize;
      reply := native(indexedValuesBuffer, indexedValuesBufferSize);
      calls := calls + [(indexedValuesBuffer, indexedValuesBufferSize)];
      if reply.code != 0 {
        return Err(NativeError(reply.code)), calls;
      }
      indexedValuesBufferSize := reply.size;
    }
    r := CopyOfRange(Received(indexedValuesBuffer, reply.written), indexedValuesBufferSize);
  }

  /** `generateNewToken`: one native call with a 200-byte buffer; the token is the prefix of the
      buffer of the reported size. */
  method GenerateNewToken(native: Native, unwraps: int -> bool) returns (r: Result<Bytes>)
    ensures r == TokenResult(native, unwraps)
  {
    var tokenBuffer: nat := TOKEN_BUFFER_SIZE;
    var tokenBufferSize := tokenBuffer;
    var reply := native(tokenBuffer, tokenBufferSize);
    if unwraps(reply.code) {
      return Err(NativeError(reply.code));
    }
    tokenBufferSize := reply.size;
    r := CopyOfRange(Received(tokenBuffer, reply.written), tokenBufferSize);
  }
}
