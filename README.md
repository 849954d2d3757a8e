# cloudproof-java storage and FFI glue, modelled in Dafny

This project models the Java side of Cosmian's encrypted keyword index (Findex) and two small
value types of the CoverCrypt and KMS clients. The cryptographic engine is native code and is not
modelled; what is modelled is what the Java code around it does:

- the reference SQLite storage backend (`Sqlite`) and its multi-backend fan-out (`MultiSqlite`),
  as two key→value tables (the entry table and the chain table) held in map fields, with the
  compare-and-swap `conditionalUpsert` the engine relies on;
- the callbacks the native engine calls across the FFI: `upsertEntry` (decode a batch of
  conditional updates, run them, serialize the failures), `fetchAllEntry` (a pager over the whole
  entry table, a chunk per call) and `filterObsoleteLocations` (decode a location list, filter it,
  write the answer and its size);
- the byte framing these callbacks and `DecryptedData.fromBytes` use: unsigned LEB128 integers
  (DWARF Debugging Information Format version 4, section 7.6), length-prefixed byte strings, and
  count-prefixed sequences of records of byte strings;
- the buffer-size handshake of the Findex Cloud entry points `upsert`, `search` and
  `generateNewToken`;
- `DecryptedData` (plaintext and header metadata) and `PolicyAxisAttribute` (name and encryption
  hint, structural equality, hash and exact string rendering).

Layout, one module per file:

| file | module | models |
|---|---|---|
| base.dfy | `Base` | bytes, the Java exceptions raised, `int` narrowing, `Arrays.copyOfRange`, set iteration |
| jna.dfy | `Jna` | `IntByReference` and the native memory behind a `Pointer` |
| leb128.dfy | `Leb128` | the LEB128 framing (written here as a stated assumption, see below) |
| storage.dfy | `Storage` | `Sqlite` and the SQL statements it issues, as map updates |
| multi_storage.dfy | `MultiStorage` | `MultiSqlite` |
| upsert_entry.dfy | `UpsertEntryCallback` | `UpsertEntry.apply` |
| fetch_all_entry.dfy | `FetchAllEntryCallback` | `FetchAllEntry.apply` |
| filter_obsolete_locations.dfy | `FilterObsoleteLocationsCallback` | `FilterObsoleteLocations.apply` |
| findex_cloud.dfy | `FindexCloud` | `FindexCloud.upsert`, `search`, `generateNewToken` |
| decrypted_data.dfy | `DecryptedDataModel` | `DecryptedData` |
| policy_axis_attribute.dfy | `PolicyAxisAttributeModel` | `PolicyAxisAttribute` |

Modelling choices:

- Bytes are `int`s in 0..255, read unsigned. Identifiers (`Uid`, `Uid32`, `Location`) and values are
  plain byte strings: `Uid` and `Uid32` are both byte strings here, and the model does not
  depend on which of the two classes a caller uses.
- The code of the `Leb128`, `Leb128Reader`, `Leb128Writer` and `Leb128Serializer` helpers is not
  modelled; their format is assumed to be what the callbacks' own loops spell out. A count is
  an unsigned LEB128 integer with seven bits per byte, least significant group first, and the high
  bit set on every byte but the last. A byte array is its length followed by its bytes. A collection
  or an entry set is its size followed by its elements. The decoder accepts redundant high zero
  groups, and a buffer that ends early is an `IOException`. The round trips below are proved about
  this assumed codec.
- The SQL layer is replaced by map semantics: each statement is the map update it performs. A
  `conditionalUpsert` is a per-key compare-and-swap run sequentially. An
  `INSERT ... ON CONFLICT ... WHERE value = previous` that loses leaves the row untouched and
  reports the key. A key absent from the table is inserted whatever `previous` says.
- Set and map iteration orders (Java `HashMap`, `HashSet`, SQL result order) are unspecified. The
  model picks one order, by a choice loop. The contracts hold for any order except where they
  state one (`Sqlite.FetchRows` and the `MultiSqlite` fetches).
- A native call (`h_upsert_cloud`, `h_search_cloud`, `h_generate_new_token`) is a function
  parameter. It maps the output buffer's length and the size reference's value to a return code,
  the new size value and the bytes written. Helpers whose code is not part of this model become
  predicate or function parameters:
  - `FindexCallbackException.rethrowOnErrorCode`;
  - `FindexBase.unwrap`;
  - `FindexCallbackException.record`;
  - the user delegates.
- The `fetchAllEntry` delegate reads the live table, so its answer (a map, `null`, or an
  exception) is a parameter of each call that may fetch, rather than a fixed backend.
- The fields of `DecryptedData` are written crossed by the constructor and read crossed back by
  the getters. The model keeps the crossing, and proves that the getters return what the
  constructor was given.

## Model

| member | source | states |
|---|---|---|
| Base.ToInt | src/main/java/com/cosmian/jna/findex/Callbacks/UpsertEntry.java:58 | the `(int)` cast keeps the value modulo 2^32 and lands in the `int` range, and is the identity on `int`s |
| Base.CopyOfRange | src/main/java/com/cosmian/jna/findex/FindexCloud.java:93 | `Arrays.copyOfRange(a, 0, to)` fails exactly for a negative `to`; otherwise it has length `to`, holds the prefix of `a` and is zero-padded past its end |
| Base.Listing | src/test/java/com/cosmian/findex/Sqlite.java:361-369 | iterating a set yields each element exactly once, as many as the set holds |
| Jna.Overwrite | src/main/java/com/cosmian/jna/findex/ffi/FilterObsoleteLocations.java:41 | `Pointer.write` at offset 0 puts the source bytes first and keeps whatever lay beyond them |
| Jna.IntRef.constructor | src/main/java/com/cosmian/jna/findex/FindexCloud.java:38 | a new reference holds the value it is given |
| Jna.NativeBuffer.constructor | src/main/java/com/cosmian/jna/findex/Callbacks/FetchAllEntry.java:27 | the memory behind `output`, of the capacity the native side allocated; its initial bytes are taken as zeros |
| Jna.NativeBuffer.Write | src/main/java/com/cosmian/jna/findex/ffi/FilterObsoleteLocations.java:41 | `Pointer.write` at offset 0 replaces the first bytes and keeps the rest, with no bound by the allocation |
| Leb128.EncodeUnsigned | src/main/java/com/cosmian/jna/findex/Callbacks/UpsertEntry.java:75 | an encoded integer is non-empty and its last byte has the high bit clear |
| Leb128.DecodeUnsigned | src/main/java/com/cosmian/jna/findex/Callbacks/UpsertEntry.java:58 | a decoded integer consumes at least one byte and stays in the buffer; failure is a truncation |
| Leb128.ContinuationBits | src/main/java/com/cosmian/jna/findex/Callbacks/UpsertEntry.java:75 | every byte of an encoded integer but the last has the high bit set |
| Leb128.DecodeEncodedUnsigned | src/main/java/com/cosmian/jna/findex/Callbacks/UpsertEntry.java:58 | an encoded integer, at any offset of any buffer, decodes to itself and ends right after its encoding |
| Leb128.DecodeWithoutLastByteFails | src/main/java/com/cosmian/jna/findex/Callbacks/UpsertEntry.java:58 | a buffer whose remaining bytes all carry the high bit cannot be decoded |
| Leb128.TruncatedUnsignedFails | src/main/java/com/cosmian/jna/findex/Callbacks/UpsertEntry.java:66-68 | every proper prefix of an encoded integer fails with a truncation |
| Leb128.EncodeUnsignedInjective | src/main/java/com/cosmian/jna/findex/Callbacks/UpsertEntry.java:75 | distinct integers have distinct encodings |
| Leb128.ReadBytes | src/main/java/com/cosmian/jna/findex/Callbacks/UpsertEntry.java:61 | a byte array read ends after its length prefix and within the buffer, and is shorter than what was consumed; failure is a truncation |
| Leb128.ReadBytesIsSlice | src/main/java/com/cosmian/jna/findex/Callbacks/UpsertEntry.java:61 | a byte array read is exactly the slice of the buffer just before the new position |
| Leb128.ReadEncodedBytes | src/main/java/com/cosmian/jna/findex/Callbacks/UpsertEntry.java:61-63 | a length-prefixed array written anywhere in a buffer reads back as itself |
| Leb128.ReadFields | src/main/java/com/cosmian/jna/findex/Callbacks/UpsertEntry.java:61-63 | reading k arrays in a row yields exactly k arrays, or a truncation |
| Leb128.ReadFieldsStep | src/main/java/com/cosmian/jna/findex/Callbacks/UpsertEntry.java:61-63 | one more array read extends the fields read so far |
| Leb128.ReadFieldsStepFails | src/main/java/com/cosmian/jna/findex/Callbacks/UpsertEntry.java:66-68 | an array that cannot be read makes the whole record fail |
| Leb128.ReadFieldsFailurePersists | src/main/java/com/cosmian/jna/findex/Callbacks/UpsertEntry.java:66-68 | once a read fails, reading more fields fails too |
| Leb128.ReadEncodedFields | src/main/java/com/cosmian/jna/findex/Callbacks/UpsertEntry.java:61-63 | consecutive length-prefixed arrays read back as themselves, in order |
| Leb128.ReadRecords | src/main/java/com/cosmian/jna/findex/Callbacks/UpsertEntry.java:60-65 | reading n records yields exactly n records, or a truncation |
| Leb128.ReadRecordsHaveArity | src/main/java/com/cosmian/jna/findex/Callbacks/UpsertEntry.java:60-65 | every record read has the number of fields asked for |
| Leb128.ReadRecordsFailurePersists | src/main/java/com/cosmian/jna/findex/Callbacks/UpsertEntry.java:66-68 | a failure on an early record makes the read of the whole batch fail |
| Leb128.ReadRecordsStep | src/main/java/com/cosmian/jna/findex/Callbacks/UpsertEntry.java:60-65 | one more record read extends the records read so far |
| Leb128.ReadEncodedRecords | src/main/java/com/cosmian/jna/findex/Callbacks/UpsertEntry.java:60-65 | a body of encoded records reads back as those records, in order |
| Leb128.DecodeRecords | src/main/java/com/cosmian/jna/findex/ffi/FilterObsoleteLocations.java:37 | a decoded collection has records of the asked arity; failure is a truncation |
| Leb128.ReadEncodedRecordSequence | src/main/java/com/cosmian/jna/findex/Callbacks/UpsertEntry.java:57-65 | the count of an encoded collection decodes first, then exactly its records |
| Leb128.DecodeEncodedRecords | src/main/java/com/cosmian/jna/findex/ffi/FilterObsoleteLocations.java:37-40 | a collection encoded and followed by anything decodes back to itself |
| Leb128.DecodeUnsignedExtends | src/main/java/com/cosmian/jna/findex/Callbacks/UpsertEntry.java:58 | a successful integer read depends only on the bytes it consumes: it reads the same in any longer buffer |
| Leb128.ReadBytesExtends | src/main/java/com/cosmian/jna/findex/Callbacks/UpsertEntry.java:61 | a successful byte-array read reads the same in any longer buffer |
| Leb128.ReadRecordsExtends | src/main/java/com/cosmian/jna/findex/Callbacks/UpsertEntry.java:60-65 | a successful read of records reads the same in any longer buffer |
| Leb128.TruncatedBytesFail | src/main/java/com/cosmian/jna/findex/Callbacks/UpsertEntry.java:61 | every strict prefix of a length-prefixed array fails to read, with a truncation |
| Leb128.TruncatedRecordSequence | src/main/java/com/cosmian/jna/findex/Callbacks/UpsertEntry.java:57-68 | a collection cut short either loses its count or keeps it and fails to read all its records |
| Leb128.TruncatedRecordsFail | src/main/java/com/cosmian/jna/findex/ffi/FilterObsoleteLocations.java:37 | every strict prefix of an encoded collection fails to decode, with a truncation |
| Leb128.PairRecords | src/main/java/com/cosmian/jna/findex/Callbacks/UpsertEntry.java:76-79 | key-value pairs travel as two-field records, one per pair |
| Leb128.EncodeTwoFields | src/main/java/com/cosmian/jna/findex/Callbacks/UpsertEntry.java:77-78 | a pair is its key array followed by its value array |
| Storage.Rows | src/test/java/com/cosmian/findex/Sqlite.java:228-250 | a select returns no more rows than uids requested |
| Storage.RowsAreTheRequestedPresentUids | src/test/java/com/cosmian/findex/Sqlite.java:228-250 | a uid appears in the rows exactly once if it is both requested and stored, never otherwise, with its stored value; repeated requests are collapsed |
| Storage.OccurrencesAppend | src/test/java/com/cosmian/findex/MultiSqlite.java:29-34 | occurrences in a concatenation add up |
| Storage.Restrict | src/test/java/com/cosmian/findex/Sqlite.java:279-296 | the updates already executed are those of the batch among the keys done |
| Storage.CasStep | src/test/java/com/cosmian/findex/Sqlite.java:275-296 | one conditional upsert changes the row exactly when the uid is absent or holds `previous`, and then stores `new`; otherwise the table is unchanged |
| Storage.CasStore | src/test/java/com/cosmian/findex/Sqlite.java:275-296 | after a batch every stored uid outside the batch keeps its value |
| Storage.Lost | src/test/java/com/cosmian/findex/Sqlite.java:279-296 | the uids that lose the compare are in the batch and already stored |
| Storage.CasFailures | src/test/java/com/cosmian/findex/Sqlite.java:301-319 | each reported uid is in the batch, and is reported with its stored value, which differs from the expected `previous` |
| Storage.CasStoreStep | src/test/java/com/cosmian/findex/Sqlite.java:279-296 | executing one more update of the batch is one compare-and-swap on the table so far, and it loses exactly when the key is stored with another value |
| Storage.CasPerUid | src/test/java/com/cosmian/findex/Sqlite.java:275-319 | per key: an absent key gets the new value, a stored key matching `previous` gets the new value, a stored key not matching keeps its value and is reported with it, and a key outside the batch is untouched |
| Storage.CasEmpty | src/test/java/com/cosmian/findex/Sqlite.java:272-274 | an empty batch changes nothing and reports nothing |
| Storage.CasFailureCount | src/test/java/com/cosmian/TestSqlite.java:86-87 | as many failures are reported as compares were lost |
| Storage.NewValues | src/test/java/com/cosmian/findex/Sqlite.java:279-296 | the new values of a batch are keyed as the batch |
| Storage.CasIntoEmpty | src/test/java/com/cosmian/TestSqlite.java:59-60 | a batch into an empty table inserts every new value and reports no failure |
| Storage.CasSecondBatch | src/test/java/com/cosmian/TestSqlite.java:40-87 | after a first batch into an empty table, a second batch fails exactly on the uids the first one wrote whose `previous` differs from the value written there, and its fresh uids are inserted |
| Storage.Retry | src/test/java/com/cosmian/findex/Sqlite.java:301-319 | the retry of the failures is keyed as the failures |
| Storage.CasRetrySucceeds | src/test/java/com/cosmian/findex/Sqlite.java:275-319 | retrying each failed key with the reported value as `previous` succeeds everywhere and leaves every new value of the batch stored |
| Storage.CasRetryStore | src/test/java/com/cosmian/findex/Sqlite.java:275-319 | a retry that loses nowhere stores the old table overridden by the batch's new values |
| Storage.CasFailuresAreStored | src/test/java/com/cosmian/findex/Sqlite.java:301-319 | every reported failure carries the value the table holds after the batch |
| Storage.LocationToId | src/test/java/com/cosmian/findex/Sqlite.java:131-133 | a location of fewer than 4 bytes is a buffer underflow; otherwise its first 4 bytes are a big-endian `int` |
| Storage.Int32BE | src/test/java/com/cosmian/findex/Sqlite.java:132 | four bytes read big-endian are below 2^32 |
| Storage.IdToLocation | src/test/java/com/cosmian/findex/Sqlite.java:137 | the location of an id is 32 bytes long |
| Storage.IdRoundTrip | src/test/java/com/cosmian/findex/Sqlite.java:131-138 | an id turned into a location reads back as itself |
| Storage.LocationRoundTrip | src/test/java/com/cosmian/findex/Sqlite.java:131-138 | a 32-byte location zero past its fourth byte is the location of its id |
| Storage.QuestionMarks | src/test/java/com/cosmian/findex/Sqlite.java:373-382 | n question marks separated by commas: empty for 0, else 2n-1 characters, `?` at even positions and `,` at odd ones |
| Storage.Sqlite.constructor | src/test/java/com/cosmian/findex/Sqlite.java:153-156 | a new database has empty entry and chain tables over the given users |
| Storage.Sqlite.Get | src/test/java/com/cosmian/findex/Sqlite.java:166-167 | a table name denotes the entry table or the chain table |
| Storage.Sqlite.Put | src/test/java/com/cosmian/findex/Sqlite.java:256 | writing one named table leaves the other table and the users as they were |
| Storage.Sqlite.Fetch | src/test/java/com/cosmian/findex/Sqlite.java:187-209 | the result holds exactly the requested uids that are stored, each with its stored value; absent uids are skipped and an empty request gives an empty map |
| Storage.Sqlite.FetchRows | src/test/java/com/cosmian/findex/Sqlite.java:228-250 | the rows are those of `Rows` over the table |
| Storage.Sqlite.FetchAllEntryTableItems | src/test/java/com/cosmian/findex/Sqlite.java:211-226 | the result is the whole entry table |
| Storage.Sqlite.Upsert | src/test/java/com/cosmian/findex/Sqlite.java:252-267 | insert-or-replace: the table becomes the old one overridden by the given map; the other table and the users are unchanged |
| Storage.Sqlite.ConditionalUpsert | src/test/java/com/cosmian/findex/Sqlite.java:269-320 | the table becomes the compare-and-swap of the batch, and the result is exactly the lost keys with their stored values |
| Storage.Sqlite.Remove | src/test/java/com/cosmian/findex/Sqlite.java:322-334 | the listed uids are deleted from the table, every other row stays |
| Storage.Sqlite.RemoveTwice | src/test/java/com/cosmian/findex/Sqlite.java:322-334 | two `remove` calls with the same uids leave what one leaves: the uids gone, every other row and the other table kept |
| Storage.Sqlite.Truncate | src/test/java/com/cosmian/findex/Sqlite.java:336-339 | the table becomes empty, nothing else changes |
| Storage.Sqlite.UpdateLines | src/test/java/com/cosmian/findex/Sqlite.java:110-125 | the entry table becomes exactly the new entries; the chain table becomes the old one overridden by the new chains, minus the removed uids |
| Storage.Sqlite.DeleteUser | src/test/java/com/cosmian/findex/Sqlite.java:183-185 | the user disappears from the users table, the index tables are untouched |
| Storage.Sqlite.ListRemovedIds | src/test/java/com/cosmian/findex/Sqlite.java:352-371 | the result holds exactly the requested ids that are not users, each once |
| Storage.Sqlite.ListRemovedLocations | src/test/java/com/cosmian/findex/Sqlite.java:127-143 | fails exactly when some location is shorter than 4 bytes; otherwise it returns exactly the locations of the requested ids that are not users, each once |
| Storage.ExecuteBatch | src/test/java/com/cosmian/findex/Sqlite.java:279-296 | executing the batch key by key leaves the compare-and-swap store and collects exactly the lost keys |
| Storage.Select | src/test/java/com/cosmian/findex/Sqlite.java:301-319 | the select of the failed uids returns exactly those stored, with their values |
| Storage.LocationsOfDistinctIds | src/test/java/com/cosmian/findex/Sqlite.java:137 | distinct ids give distinct locations |
| MultiStorage.Holding | src/test/java/com/cosmian/findex/MultiSqlite.java:29-34 | a uid is held by at most as many backends as there are |
| MultiStorage.AllRowsRepeatUids | src/test/java/com/cosmian/findex/MultiSqlite.java:28-35 | no de-duplication: a requested uid appears once per backend holding it, an unrequested one never |
| MultiStorage.TablesOf | src/test/java/com/cosmian/findex/MultiSqlite.java:30 | one table per backend, in list order |
| MultiStorage.MultiSqlite.constructor | src/test/java/com/cosmian/findex/MultiSqlite.java:23-25 | keeps the backend list |
| MultiStorage.MultiSqlite.FetchFromAll | src/test/java/com/cosmian/findex/MultiSqlite.java:28-44 | the result is the concatenation, in list order, of every backend's rows |
| MultiStorage.MultiSqlite.FetchEntries | src/test/java/com/cosmian/findex/MultiSqlite.java:27-35 | the concatenation of the backends' entry rows |
| MultiStorage.MultiSqlite.FetchChains | src/test/java/com/cosmian/findex/MultiSqlite.java:37-44 | the concatenation of the backends' chain rows |
| MultiStorage.MultiSqlite.SearchProgress | src/test/java/com/cosmian/findex/MultiSqlite.java:46-50 | always lets the search go on |
| MultiStorage.MultiSqlite.ListRemovedLocations | src/test/java/com/cosmian/findex/MultiSqlite.java:52-55 | always fails with "not implemented" |
| MultiStorage.MultiSqlite.FetchAllEntryTableUids | src/test/java/com/cosmian/findex/MultiSqlite.java:58-60 | always fails with "not implemented" |
| MultiStorage.MultiSqlite.UpsertEntries | src/test/java/com/cosmian/findex/MultiSqlite.java:62-66 | always fails with "not implemented" |
| MultiStorage.MultiSqlite.UpsertChains | src/test/java/com/cosmian/findex/MultiSqlite.java:68-71 | always fails with "not implemented" |
| MultiStorage.MultiSqlite.UpdateTables | src/test/java/com/cosmian/findex/MultiSqlite.java:73-79 | always fails with "not implemented" |
| UpsertEntryCallback.ToUpserts | src/main/java/com/cosmian/jna/findex/Callbacks/UpsertEntry.java:61-64 | each three-field record becomes the update (uid, previous, new) in that field order |
| UpsertEntryCallback.EncodeUpserts | src/main/java/com/cosmian/jna/findex/Callbacks/UpsertEntry.java:57-65 | a batch encoded in the format the decoding loop reads comes back as three-field records that are the batch |
| UpsertEntryCallback.ParseUpserts | src/main/java/com/cosmian/jna/findex/Callbacks/UpsertEntry.java:53-69 | decoding fails only by truncation or by a negative count |
| UpsertEntryCallback.ParseUpsertsStages | src/main/java/com/cosmian/jna/findex/Callbacks/UpsertEntry.java:58-65 | the count narrowed to `int` is refused when negative; otherwise exactly that many triples are read or the decoding fails |
| UpsertEntryCallback.ParseEncodedUpserts | src/main/java/com/cosmian/jna/findex/Callbacks/UpsertEntry.java:57-65 | a batch of fewer than 2^31 updates, followed by anything, decodes back to itself, in order, repeated uids included |
| UpsertEntryCallback.NegativeCountRefused | src/main/java/com/cosmian/jna/findex/Callbacks/UpsertEntry.java:58-59 | a count that narrows to a negative `int` is refused before any triple is read |
| UpsertEntryCallback.TruncatedUpsertsFail | src/main/java/com/cosmian/jna/findex/Callbacks/UpsertEntry.java:57-69 | a batch cut anywhere short of its end is a decoding failure, never a shorter batch |
| UpsertEntryCallback.ReadUpsert | src/main/java/com/cosmian/jna/findex/Callbacks/UpsertEntry.java:61-63 | reads the three arrays uid, previous, new, or fails as reading three fields fails |
| UpsertEntryCallback.DecodeUpserts | src/main/java/com/cosmian/jna/findex/Callbacks/UpsertEntry.java:57-69 | the decoding loop computes `ParseUpserts` |
| UpsertEntryCallback.ReadUpserts | src/main/java/com/cosmian/jna/findex/Callbacks/UpsertEntry.java:60-65 | the loop reads exactly `count` triples in order, or fails as the record read fails |
| UpsertEntryCallback.EncodeFailures | src/main/java/com/cosmian/jna/findex/Callbacks/UpsertEntry.java:74-83 | the failure buffer is the count, then key and value of each failed entry, length-prefixed |
| UpsertEntryCallback.DecodeEncodedFailures | src/main/java/com/cosmian/jna/findex/Callbacks/UpsertEntry.java:74-79 | the failure buffer decodes back to the failed entries |
| UpsertEntryCallback.UpsertEntry.constructor | src/main/java/com/cosmian/jna/findex/Callbacks/UpsertEntry.java:71 | keeps the upsert delegate |
| UpsertEntryCallback.UpsertEntry.Apply | src/main/java/com/cosmian/jna/findex/Callbacks/UpsertEntry.java:47-86 | a negative length is refused; a decoding error is raised and the delegate is not called; a delegate error is raised; a null failure map is a null pointer; otherwise the failures are serialized, nothing is written to `outputs` or `outputsLength`, and 0 is returned |
| FetchAllEntryCallback.ListingSize | src/main/java/com/cosmian/jna/findex/Callbacks/FetchAllEntry.java:29 | iterating a map's entry set yields as many entries as it has keys |
| FetchAllEntryCallback.DistinctSize | src/main/java/com/cosmian/jna/findex/Callbacks/FetchAllEntry.java:29 | distinct keys listed are as many as the set they form |
| FetchAllEntryCallback.EntryListing | src/main/java/com/cosmian/jna/findex/Callbacks/FetchAllEntry.java:29 | the entry set is listed with every key once and its value |
| FetchAllEntryCallback.Regroup | src/main/java/com/cosmian/jna/findex/Callbacks/FetchAllEntry.java:32-35 | moving entries from the iterator to the emitted ones keeps the listing of the table |
| FetchAllEntryCallback.TakeChunk | src/main/java/com/cosmian/jna/findex/Callbacks/FetchAllEntry.java:32-35 | the chunk is the next `min(max(n, 0), remaining)` entries and the iterator keeps the rest |
| FetchAllEntryCallback.EntrySet | src/main/java/com/cosmian/jna/findex/Callbacks/FetchAllEntry.java:29 | the delegate's map is iterated when it returns one; its exception leaves as is, and a `null` answer is a null pointer |
| FetchAllEntryCallback.SerializeChunk | src/main/java/com/cosmian/jna/findex/Callbacks/FetchAllEntry.java:38 | a chunk's serialization decodes back to the chunk, as two-field records in iteration order |
| FetchAllEntryCallback.FetchAllEntry.constructor | src/main/java/com/cosmian/jna/findex/Callbacks/FetchAllEntry.java:21-24 | starts with no iterator |
| FetchAllEntryCallback.FetchAllEntry.Start | src/main/java/com/cosmian/jna/findex/Callbacks/FetchAllEntry.java:28-30 | starts iterating the fetched table from its first entry; a throwing or `null`-returning delegate is an error that leaves the callback unchanged |
| FetchAllEntryCallback.FetchAllEntry.NextChunk | src/main/java/com/cosmian/jna/findex/Callbacks/FetchAllEntry.java:28-35 | the table is fetched while no iterator exists, and never again; a failed fetch changes nothing; the chunk extends the entries emitted and the emitted and remaining entries together list the fetched table |
| FetchAllEntryCallback.FetchAllEntry.Apply | src/main/java/com/cosmian/jna/findex/Callbacks/FetchAllEntry.java:26-46 | a failed fetch is raised and writes nothing; otherwise at most `numberOfEntries` new entries are emitted (none if it is not positive), never one twice; a non-empty chunk is written and its size set, an empty one writes nothing and sets 0; 1 is returned iff entries remain, and after the end every call returns 0 and emits nothing |
| FetchAllEntryCallback.FetchAllEntry.Exhausted | src/main/java/com/cosmian/jna/findex/Callbacks/FetchAllEntry.java:45 | once nothing remains, the emitted entries are the whole fetched table, each once |
| FilterObsoleteLocationsCallback.Singletons | src/main/java/com/cosmian/jna/findex/ffi/FilterObsoleteLocations.java:37 | a location travels as a one-field record |
| FilterObsoleteLocationsCallback.EncodeLocations | src/main/java/com/cosmian/jna/findex/ffi/FilterObsoleteLocations.java:40 | the answer's encoding decodes back to the removed locations, one one-field record each, in order |
| FilterObsoleteLocationsCallback.EmptyAnswerOverrunsEmptyOutput | src/main/java/com/cosmian/jna/findex/ffi/FilterObsoleteLocations.java:40-47 | with nothing removed and a zero-capacity output, the call returns 0 and still writes past the allocation |
| FilterObsoleteLocationsCallback.DecodeLocations | src/main/java/com/cosmian/jna/findex/ffi/FilterObsoleteLocations.java:37 | the locations are decoded exactly when the collection is, one per record; failure is a truncation |
| FilterObsoleteLocationsCallback.DecodeEncodedLocations | src/main/java/com/cosmian/jna/findex/ffi/FilterObsoleteLocations.java:37-40 | encoded locations followed by anything decode back to themselves, in order |
| FilterObsoleteLocationsCallback.EncodeNoLocations | src/main/java/com/cosmian/jna/findex/ffi/FilterObsoleteLocations.java:40-41 | the empty answer is the single byte 0, and it is still written |
| FilterObsoleteLocationsCallback.FilterObsoleteLocations.constructor | src/main/java/com/cosmian/jna/findex/ffi/FilterObsoleteLocations.java:19-21 | keeps the delegate |
| FilterObsoleteLocationsCallback.FilterObsoleteLocations.Apply | src/main/java/com/cosmian/jna/findex/ffi/FilterObsoleteLocations.java:23-51 | the delegate receives the locations decoded from the first `itemsLength` bytes; its answer is written at offset 0 whatever the capacity and even when empty; the size is the encoded length iff some location was removed; 0 is returned, or the recorded code of a `CloudproofException`; a negative length and a `null` answer escape as exceptions, writing nothing |
| FindexCloud.Received | src/main/java/com/cosmian/jna/findex/FindexCloud.java:82-83 | the buffer after a call keeps its length and holds what was written into it, zeros elsewhere |
| FindexCloud.UpsertResult | src/main/java/com/cosmian/jna/findex/FindexCloud.java:55-96 | a rethrown probe code is raised as is; errors are only native, negative-size or range errors; without the code-1 retry the result has the probe's reported size and is all zeros (the probe buffer is empty); after the retry its size is the retry's reported size |
| FindexCloud.SearchResult | src/main/java/com/cosmian/jna/findex/FindexCloud.java:123-169 | with first code 0 the call succeeds exactly when the reported size is not negative, gives that many bytes, zeros past 131072; after a second call the length is the second reported size |
| FindexCloud.TokenResult | src/main/java/com/cosmian/jna/findex/FindexCloud.java:37-51 | an unwrapped code is raised; otherwise the call succeeds exactly when the reported size is not negative, and gives that many bytes, zeros past 200 |
| FindexCloud.ReceivedAll | src/main/java/com/cosmian/jna/findex/FindexCloud.java:93 | a payload that fits is recovered whole by the prefix of its size |
| FindexCloud.UpsertDeliversPayload | src/main/java/com/cosmian/jna/findex/FindexCloud.java:55-96 | against a native side that reports the size it needs with code 1, `upsert` returns the whole payload, whatever its length |
| FindexCloud.SearchDeliversPayload | src/main/java/com/cosmian/jna/findex/FindexCloud.java:123-169 | against a native side that reports the size it needs with any non-zero code, `search` returns the whole payload, whatever its length |
| FindexCloud.TokenDelivery | src/main/java/com/cosmian/jna/findex/FindexCloud.java:37-51 | a token of at most 200 bytes is returned whole; a longer one fails if `unwrap` throws, and otherwise comes back as zeros of its length |
| FindexCloud.Upsert | src/main/java/com/cosmian/jna/findex/FindexCloud.java:55-96 | the first call probes with an empty buffer and size 0; the native side is called a second time exactly when the probe's code is 1 (not rethrown, size not negative), with a buffer of exactly the reported size; any other non-zero code goes to `unwrap` |
| FindexCloud.Search | src/main/java/com/cosmian/jna/findex/FindexCloud.java:123-169 | a null token fails before any native call; the first call uses 131072 bytes; a second call happens exactly on a non-zero first code, with a buffer of the reported size, and its non-zero code is an error |
| FindexCloud.GenerateNewToken | src/main/java/com/cosmian/jna/findex/FindexCloud.java:19-53 | one call with a 200-byte buffer; the token is the prefix of the reported size |
| DecryptedDataModel.New | src/main/java/com/cosmian/rest/abe/data/DecryptedData.java:15-26 | the constructor crosses the fields and the getters cross them back: `getPlaintext` gives the plaintext argument, `getHeaderMetaData` the metadata argument |
| DecryptedDataModel.GetPlaintext | src/main/java/com/cosmian/rest/abe/data/DecryptedData.java:20-22 | `getPlaintext` returns the field the constructor fills with its first argument |
| DecryptedDataModel.GetHeaderMetaData | src/main/java/com/cosmian/rest/abe/data/DecryptedData.java:24-26 | `getHeaderMetaData` returns the field the constructor fills with its second argument |
| DecryptedDataModel.Serialize | src/main/java/com/cosmian/rest/abe/data/DecryptedData.java:28-37 | the layout `fromBytes` reads: the length-prefixed metadata first, then the plaintext bytes to the end |
| DecryptedDataModel.Parse | src/main/java/com/cosmian/rest/abe/data/DecryptedData.java:28-37 | decoding succeeds exactly when the metadata array can be read; a failure is a truncation |
| DecryptedDataModel.FromBytes | src/main/java/com/cosmian/rest/abe/data/DecryptedData.java:28-37 | the metadata is the length-prefixed array at the start, and the plaintext is every byte after it |
| DecryptedDataModel.ParseSerialized | src/main/java/com/cosmian/rest/abe/data/DecryptedData.java:28-37 | round trip: metadata, length-prefixed, then plaintext decodes to that plaintext and metadata |
| DecryptedDataModel.MetadataOnly | src/main/java/com/cosmian/rest/abe/data/DecryptedData.java:31-32 | input ending right after the metadata gives an empty plaintext |
| DecryptedDataModel.TruncatedMetadataFails | src/main/java/com/cosmian/rest/abe/data/DecryptedData.java:28-37 | input cut short inside the length-prefixed metadata fails to decode |
| DecryptedDataModel.SerializeInjective | src/main/java/com/cosmian/rest/abe/data/DecryptedData.java:28-37 | distinct (plaintext, metadata) pairs serialize differently |
| PolicyAxisAttributeModel.Equals | src/main/java/com/cosmian/jna/covercrypt/structs/PolicyAxisAttribute.java:27-37 | equal exactly to an attribute of the same name and hint, and unequal to null; equal attributes have equal hash codes and strings |
| PolicyAxisAttributeModel.Utf16 | src/main/java/com/cosmian/jna/covercrypt/structs/PolicyAxisAttribute.java:39-42 | a string has between one and two UTF-16 code units per character, each below 2^16 |
| PolicyAxisAttributeModel.StringHash | src/main/java/com/cosmian/jna/covercrypt/structs/PolicyAxisAttribute.java:39-42 | `String.hashCode` is an `int` |
| PolicyAxisAttributeModel.BooleanHash | src/main/java/com/cosmian/jna/covercrypt/structs/PolicyAxisAttribute.java:39-42 | `Boolean.hashCode` is 1231 exactly for true and 1237 exactly for false |
| PolicyAxisAttributeModel.HashCode | src/main/java/com/cosmian/jna/covercrypt/structs/PolicyAxisAttribute.java:39-42 | `Objects.hash(name, encryptionHint)` is an `int` |
| PolicyAxisAttributeModel.HintName | src/main/java/com/cosmian/jna/covercrypt/structs/PolicyAxisAttribute.java:44-54 | the hint is rendered `Hybridized` exactly when set and `Classic` otherwise |
| PolicyAxisAttributeModel.ToString | src/main/java/com/cosmian/jna/covercrypt/structs/PolicyAxisAttribute.java:44-54 | the rendering is exactly the name key, the name verbatim, the `encryption_hint` key, the hint's rendering and the closing brace, in that order and nothing else |
| PolicyAxisAttributeModel.ToStringInjective | src/main/java/com/cosmian/jna/covercrypt/structs/PolicyAxisAttribute.java:44-54 | two attributes with the same string are equal, whatever quotes the names hold |

## Left out

- The SQL layer: connections, prepared statements, `SQLException`, `System.out` logging, and the
  per-statement atomicity of SQLite. Operations run sequentially; no concurrent interleaving is
  modelled.
- `Sqlite.getAllKeyValueItems`, `insertUsers`, `createTables` and `close`: fixture code and I/O.
  The `users` table is a constructor parameter, and `DeleteUser` stands for its one mutation.
- The ad-hoc `test_table` used by one test. The model keeps the entry table and the chain table.
- The row order of SQL results and the iteration order of Java hash maps and sets. The model fixes
  one order; the contracts hold for any order except where they state one (`Sqlite.FetchRows`
  and the `MultiSqlite` fetches).
- The `upsertEntry` stub callback inside `Sqlite` (it returns null), and the `fetchEntry`,
  `fetchChain`, `upsertChain` and progress callbacks, which only forward to modelled operations.
- `MultiSqlite` targets a `Database` API whose `Sqlite.fetchEntries`/`fetchChains` return lists
  of rows; this `Sqlite` has no such method. The model uses the row list of `fetchEntryTableItems`
  (`Sqlite.FetchRows`) in its place.
- Storage.Sqlite.FetchRows: the row list is stated in first-request order, one of the orders SQL
  allows.
- Leb128: values of 2^64 and more are not rejected by the model's decoder. `readU64` would
  overflow its `long` there.
- UpsertEntryCallback.ParseEncodedUpserts: stated for batches of at most 2^31 - 1 updates. Larger
  counts narrow to other `int`s, which `NegativeCountRefused` covers when negative.
- UpsertEntryCallback.UpsertEntry.Apply: the `HashMap` keyed by `byte[]` compares keys by
  identity. It is modelled as the sequence of decoded updates, so equal uids stay separate.
- The deserialization and serialization helpers of `FilterObsoleteLocations` and
  `FetchAllEntry` are not part of this model. Their decoding errors are assumed to be
  `CloudproofException`s: `apply` declares no other checked exception and catches only that one.
- `FindexCallbackException.record`, `rethrowOnErrorCode` and `FindexBase.unwrap` are parameters.
  Their code is not part of this model.
- `FindexCloud`: the allocation of JNA `Memory` for the label and seeds; the JSON rendering of
  keywords and indexed values; timing (`System.currentTimeMillis`); the UTF-8 decoding of the
  token; and the `readObject` decoding of `UpsertResults` and `SearchResults`. The model returns
  the raw bytes.
- PolicyAxisAttributeModel.Equals: a `null` name is not modelled. Strings are never null here.
- PolicyAxisAttributeModel: a Dafny `string` cannot hold the lone surrogates a Java `String` can,
  so names holding them are not modelled.
- `getName` and `getEncryptionHint` of `PolicyAxisAttribute` are the datatype's fields. Its
  `Serializable` form is not modelled.
- `Ffi.java`, `FfiWrapper.java`, `ChainTableDatabase.java`, `Interrupt.java`, `Resources.java` and
  the native library: foreign calls and I/O.
