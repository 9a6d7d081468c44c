# SQLiteX, verified

SQLiteX is an embedded typed database: a code generator turns protobuf messages into stores and
query builders in Go, and these keep their rows and index entries as plain bytes in one ordered
key-value engine, Pebble. This project is a Dafny model of that system, with proofs that

- the generated stores and queries behave, over whole runs and for several tables on one handle, like
  plain maps from primary keys to records with a uniqueness constraint (`Runs.Replay`);
- the write queue answers every accepted operation exactly once in every interleaving of callers,
  consumer and Close, commits in acceptance order, and never deadlocks (`WriteQueue`,
  `WriteQueueTheorems`);
- the hot cache is invisible to callers as long as calls are atomic (`Database.Replay`); when they
  overlap, it stays in agreement with the engine exactly as long as no commit changes a value that some
  Get is about to cache (`CacheRace`).

The last four modules of the table below say the same things once more from outside. `Layout`,
`QueryMeaning`, `Lifetimes` and `WriteQueueLaws` state results in bytes, integers and states alone, without the functions
the other modules are specified with, so that a wrong operator, clock test, byte order or admission check
in one of those functions contradicts a theorem.

## How it is laid out

| module | models |
|---|---|
| `ByteStrings` | byte strings in lexicographic order, sorted listings of sets of them |
| `Encoding` | integer codecs, unsigned LEB128 (section 7.6 of the DWARF 5 standard), data keys, index keys |
| `Pebble` | the engine as an ordered map with atomic batches; its iterator; `PrefixIterator` |
| `Sketch`, `TinyLFU` | the count-min sketch and the byte-accounted cache |
| `Database` | the handle: cached reads, invalidating writes, batches, Close |
| `Schema` | tables as the generator sees them, with the generated `User` and `Session` as constants |
| `Serializer` | row images, written by offset into a buffer, and their decoding |
| `TypedTable` | what the engine's bytes mean for one table, and what a write batch does to that meaning |
| `TableScan`, `RowScan` | what prefix scans deliver; reading rows off them while expired ones are deleted |
| `Store` | Create, Update, Delete, Get, PurgeExpired |
| `Where`, `Query`, `PlanFaults` | condition text and meaning, the two query plans, where the index plan is wrong |
| `Runs` | any sequence of calls on any number of tables |
| `Pagination`, `PagedRuns` | pages over key sets, and as calls in the middle of a run |
| `WriteQueue`, `WriteQueueTheorems` | the queue and Close as atomic steps, the invariant and its consequences |
| `CacheRace` | Get and writes interleaved step by step |
| `Layout` | keys and rows byte by byte, and how any bytes are read back |
| `QueryMeaning` | what queries return and leave behind, in plain arithmetic and byte strings |
| `Lifetimes` | how long rows live, in plain numbers, from the write to a later Get of a run |
| `WriteQueueLaws` | what single steps of the queue do, stated on the states before and after; sizes, places, order of shutting down |

The model is generic in the field list, as the templates in `internal/codegen` are. A row of a table
is kept abstractly as a record with an expiry, in a map from encoded primary key to row.
`TypedTable.Represents` says that the engine's bytes are exactly the image of such a map: every data
row, every unique and normal index entry, and no other key of that table. Store and query methods are
stated against that map, which they take as a ghost argument. Times are arguments: `stamp` is the clock
at which an expiry is computed; `now` is the moment of a call, that is the clock of its expiry test, one
value per call, and the write queue's verdict on each deletion it may be asked for (tables with a
lifetime but no index field delete their expired rows through the queue). The state of the
handle, the cache, the iterators and the query builders lives in classes with the source's fields and
is changed in place; the queue, being a concurrent protocol, is a state machine whose steps are the
atomic actions of its goroutines.

## What is false of the code

Some statements one would expect do not hold. Each of them has its exact condition here.

- An index query is wrong for some content of the table exactly when there is a record that it misjudges
  (`PlanFaults.WrongIff`). There are two ways. With `After` set, a query through a *unique* index finds
  nothing (`TableScan.UniqueIndexScan`); that is wrong exactly when a matching record behind the cursor
  can exist (`UniqueCursorWrongIff`), for integer keys and the equality alone exactly when the cursor's id
  is not the largest (`UniqueCursorWrongForIds`), as for user 1 behind id 0 (`UniqueCursorExample`).
- And an equality query planned over an indexed `[]byte` field looks up the `%v` text of its argument: rows
  with the value asked for are lost and rows with that text are returned, the first condition not being
  looked at again (`BytesArgumentWrongIff`, `BytesArgumentExample`). For every other request both plans
  agree (`PlanEquivalence`).
- Of several conditions on the same field with the same operator only the first counts
  (`MatchesFirsts`, `OwnArgumentIff`, `RepeatedConditionLost`); a condition whose operator contains a
  blank is skipped (`SplitCondText`).
- docs/api.md:204-221 documents order operators on string fields. The generated code knows `=`, `!=` and
  `LIKE` for strings, and a condition with any other operator excludes every row
  (`UnsupportedExcludesAll`); the model follows the code.
- `DecodeIndexKey` accepts length prefixes that `EncodeIndexKey` never writes; it re-encodes to its input
  exactly when the prefix is not padded (`IndexKeyDecoded`, `PaddedLengthAccepted`).
- The cache can disagree with the engine when calls overlap: exactly when a commit changes a value that
  some Get has read and not yet cached (`CoherentIff`, over runs `RunCoherentIff`). Every such commit can
  leave a stale entry behind (`HarmLeavesStale`), as in `StaleRun`, although docs/api.md:35 counts such
  interleavings as dealt with; without one a hit is current (`HitIsCurrent`).
- `Update` of a missing row inserts it, and an expired row that nothing has touched still blocks its
  unique values: both are part of `Store.Upsert`, the second is `Store.ExpiredRowBlocks`.

## Model

| member | source | states |
|---|---|---|
| Encoding.OrderedRoundTrip | internal/encoding/encode.go:25-70 | decoding inverts encoding for int64, uint64, int32 and uint32, whatever follows in the buffer |
| Encoding.OrderedSurjective | internal/encoding/encode.go:25-70 | every byte string of the width is the encoding of the value it decodes to |
| Encoding.OrderedOrder | internal/encoding/encode.go:25-70 | lexicographic order of encodings is numeric order |
| Encoding.EncodeKey | internal/encoding/encode.go:74-80 | the buffer holds tag, table hash and primary key |
| Encoding.DataKeyRoundTrip | internal/encoding/encode.go:74-80 | DecodeKey inverts EncodeKey |
| Encoding.DataKeyDecoded | internal/encoding/encode.go:150-157 | whatever DecodeKey accepts is the encoding of what it returns |
| Encoding.DataPrefixIff | internal/encoding/encode.go:74-80 | a key carries a table's data prefix exactly when it is a data key of that table |
| Encoding.DataKeyOrder | internal/encoding/encode.go:74-80 | data keys of one table are ordered as their primary keys |
| Encoding.UvarintOfPut | internal/encoding/encode.go:85-123 | the length prefix is read back, whatever follows it |
| Encoding.UvarintMinimal | internal/encoding/encode.go:102-123 | a length prefix that was read is the one that would be written exactly when it is not padded |
| Encoding.EncodeIndexKey | internal/encoding/encode.go:85-97 | the appended buffer is tag, hash, field byte, length-prefixed value, primary key |
| Encoding.EncodeIndexPrefix | internal/encoding/encode.go:126-140 | the appended buffer is the same without the primary key |
| Encoding.DecodeIndexKey | internal/encoding/encode.go:102-123 | safe on any bytes; splits at the decoded length or reports the error |
| Encoding.IndexKeyRoundTrip | internal/encoding/encode.go:85-123 | DecodeIndexKey inverts EncodeIndexKey, up to the field number's low byte |
| Encoding.IndexPrefixIff | internal/encoding/encode.go:85-146 | an index key starts with a prefix exactly when table, field byte and value are equal |
| Encoding.IndexKeyDecoded | internal/encoding/encode.go:102-123 | decoded parts re-encode to the input exactly when the length prefix was minimal |
| Encoding.PaddedLengthAccepted | internal/encoding/encode.go:111-116 | a key with a padded length is accepted and does not re-encode to itself |
| Encoding.IndexKeyOrder | internal/encoding/encode.go:85-97 | at equal value, index entries are ordered as their primary keys |
| Encoding.ScanOrderIsNumeric | internal/encoding/encode.go:25-97 | with an integer primary key, data rows and index entries of one value lie in numeric order |
| Layout.OrderOfBytes | db.go:384-399 | the key order: the first differing byte decides, a proper prefix comes first |
| Layout.FixedWidth | internal/encoding/encode.go:25-70 | the integer codecs byte by byte: rows and index values least significant first, keys most significant first |
| Layout.OrderedBytes | internal/encoding/encode.go:25-70 | integer keys: big endian, signed ones moved up by half the range |
| Layout.UvarintBytes | internal/encoding/encode.go:85-97 | a length prefix is the length in groups of seven bits, low group first, high bit on all but the last, no padding |
| Layout.UvarintRead | internal/encoding/encode.go:102-118 | which length prefixes are read, to what, and which error any other bytes give |
| Layout.DataKeyBytes | internal/encoding/encode.go:74-80 | a data key byte by byte |
| Layout.IndexKeyBytes | internal/encoding/encode.go:85-146 | index keys and prefixes byte by byte, normal and unique |
| Layout.IndexKeyRead | internal/encoding/encode.go:102-121 | DecodeIndexKey accepts exactly the strings with tag, hash, field byte and enough bytes for the length they state, and cuts them there |
| Layout.PrimaryKeyBytes | internal/codegen/store.go:330-346 | the primary key bytes of every type |
| Layout.IndexValueBytes | internal/codegen/store.go:347-359 | the index value bytes of every type: two's complement little endian for signed integers, decimal digits for unsigned ones |
| Pebble.ApplyLookup | db.go:269-309 | after a batch a key holds what the last operation on it left, or what it held before |
| Pebble.LastOpWins | db.go:269-309 | the last operation of a batch on a key decides: its value, or no entry |
| Pebble.OtherKeysStay | db.go:269-309 | a key no operation of the batch is on is left as it was |
| Pebble.PrefixIterator.constructor | db.go:460-476 | a new iterator will deliver exactly the snapshot's keys with the prefix, in order |
| Pebble.PrefixIterator.Valid | db.go:384-399 | true exactly on a key that carries the prefix |
| Pebble.PrefixIterator.Next | db.go:403-416 | delivers the remaining keys one by one and ends exactly when none is left |
| Pebble.PrefixIterator.SeekAfter | db.go:450-457 | whether or not the target exists, exactly the prefixed keys strictly behind it remain |
| Sketch.CountMinSketch.CellsStaySmall | internal/cache/tinylfu.go:283-321 | in every reachable state no cell reaches 2,000,000, so the saturation guard never fires |
| Sketch.CountMinSketch.CellAtMost | internal/cache/tinylfu.go:276-306 | in every state no cell is above the number of increments whose key has that column, written out on the hash pair |
| Sketch.CountMinSketch.Increment | internal/cache/tinylfu.go:276-306 | returns the least of the key's cells, never below the exact decayed count; before the first halving it is the key's exact count, this access included, if in some row no other key counted so far has the key's column, `((h1 + i * h2) mod 2^64) mod 2048`; every cell afterwards, with the halving |
| Sketch.CountMinSketch.Decay | internal/cache/tinylfu.go:309-316 | every cell is halved |
| TinyLFU.SurvivorsMaximal | internal/cache/tinylfu.go:160-172 | the entries kept by eviction are the longest front part that fits |
| TinyLFU.WithoutMiddle | internal/cache/tinylfu.go:176-186 | removing an entry leaves the rest of the list in order |
| TinyLFU.BytesOf | internal/cache/tinylfu.go:146-173 | an entry is accounted with its key, its value and 128 bytes |
| TinyLFU.TinyLFU.Get | internal/cache/tinylfu.go:103-135 | a hit exactly for an unexpired entry, whose lifetime is renewed without moving it; an expired entry is removed |
| TinyLFU.TinyLFU.Record | internal/cache/tinylfu.go:140-143 | admits always after as many accesses since the last halving as the threshold asks for; before the first halving, for a key that has a column to itself, exactly then |
| TinyLFU.TinyLFU.Set | internal/cache/tinylfu.go:148-173 | too large items change nothing; otherwise the entry is in front and the shortest oldest tail that makes room is gone; accounting and byte limit are kept |
| TinyLFU.TinyLFU.Delete | internal/cache/tinylfu.go:176-186 | removes exactly that key from map and list |
| TinyLFU.TinyLFU.SweepExpired | internal/cache/tinylfu.go:211-227 | removes exactly the maximal expired tail |
| Database.DB.Get | db.go:164-211 | what the engine stores, cached or not; a live entry is answered without the engine, which otherwise may fail the call; a value read often enough is cached; the cache stays coherent |
| Database.DB.Refill | db.go:198-208 | after a read the value is cached if the key was seen often enough, and is not if it was seen less often and has a counter to itself |
| Database.DB.Sweep | internal/cache/tinylfu.go:211-227 | the cache's maximal expired tail goes, the store is untouched |
| Database.DB.PutSync | db.go:229-246 | stores the value and keeps the cache coherent, or fails, with the engine if it does, and changes nothing |
| Database.DB.Submit | db.go:314-334 | one queued write as seen by its caller: applied and invalidated, refused, or failed by the engine |
| Database.DB.WriteBatch | db.go:269-309 | all operations in order and every key invalidated, or an error and no change |
| Database.DB.Iterate | db.go:460-476 | a snapshot scan; none on a closed handle, for an empty prefix or when the engine gives none |
| Database.DB.Close | db.go:113-127 | the first call closes the handle and reports the engine's error if there is one; later ones are refused |
| Database.Replay | db.go:140-309 | every run of calls, sweeps, admissions and engine failures leaves the plain engine's state and its answers, except that a hit may spare a Get an engine error |
| Database.ReplayBoth | db.go:140-309 | the same run with a cache and without: the same store, and the same answer to every call but a Get the engine fails |
| CacheRace.CoherentIff | db.go:164-309 | a step keeps cache and engine in agreement exactly when it commits no change to a value some Get holds |
| CacheRace.RunCoherentIff | db.go:164-309 | a run stays coherent throughout exactly when it takes no such step |
| CacheRace.HitIsCurrent | db.go:164-309 | in such runs from a cold cache a hit on a key not being written is the stored value |
| CacheRace.GetAlone | db.go:164-211 | a miss, read and refill with nothing in between caches the stored value if admitted and changes nothing else |
| CacheRace.WriteAlone | db.go:229-309 | a write with nothing in between is in the engine and its key not in the cache |
| CacheRace.HarmLeavesStale | db.go:164-309 | every such commit can leave a stale entry behind after both calls have returned |
| CacheRace.StaleRun | db.go:164-309 | one such run, from an empty cache to a stale one with nobody left to correct it |
| Schema.BuildStoreData | internal/codegen/store.go:50-84 | index fields in declaration order, split into unique and normal |
| Schema.UserWellFormed | internal/testmodels/User_sqlitex.go:196-328 | the generated User table meets the model's demands; Email is its unique, CreatedAt its normal index |
| Schema.SessionWellFormed | internal/testmodels/User_sqlitex.go:755-861 | the same for Session, which has a lifetime and the normal index UserId |
| Schema.EncodePkInjective | internal/codegen/store.go:330-346 | different ids have different primary key bytes, for every key type |
| Schema.EncodeIndexValueInjective | internal/codegen/store.go:347-359 | index value bytes are equal exactly when the values are, for strings, bytes, little-endian integers and the text of unsigned integers and bools |
| Serializer.BuildMinSize | internal/codegen/serializer.go:44-94 | the constant part of a row's size |
| Serializer.Size | internal/codegen/serializer.go:390-398 | the size of a row's buffer |
| Serializer.FieldsFit | internal/codegen/serializer.go:56-94 | the encoded fields never exceed the size, compressed or not |
| Serializer.Serialize | internal/codegen/serializer.go:149-221 | fills the buffer by offset, within its bounds, with the row's image |
| Serializer.Deserialize | internal/codegen/serializer.go:224-387 | decodes any byte string without reading out of bounds |
| Serializer.FieldRoundTrip | internal/codegen/serializer.go:163-387 | each field comes back; raw or compressed is recovered from the two stored lengths |
| Serializer.RowRoundTrip | internal/testmodels/User_sqlitex.go:50-170 | the record and its expiry come back, given only that decompress inverts compress |
| Layout.FieldBytes | internal/codegen/serializer.go:149-221 | the bytes of a field of each type; the compressed form is stored exactly when it is shorter |
| Layout.RowBytes | internal/codegen/serializer.go:149-221 | expiry if there is a lifetime, then the fields in order, then zeros |
| Layout.UserBytes | internal/testmodels/User_sqlitex.go:50-92 | the generated User: size and bytes |
| Layout.SessionBytes | internal/testmodels/User_sqlitex.go:643-668 | the generated Session: size and bytes |
| Layout.FixedFieldRead | internal/codegen/serializer.go:224-387 | reading bools and integers off any bytes, and when they are truncated |
| Layout.SizedFieldRead | internal/codegen/serializer.go:224-387 | reading a string or []byte: as many bytes as the length says, or truncated |
| Layout.PackedFieldRead | internal/codegen/serializer.go:224-387 | reading a compressed field: equal lengths mean raw bytes, others are decompressed, with the error if they do not |
| Layout.EveryLength | internal/codegen/serializer.go:224-387 | any four bytes are some length, so the two rows above cover all inputs |
| Layout.LengthsCut | internal/codegen/serializer.go:224-387 | an input that ends inside a field's lengths is truncated |
| Layout.RowRead | internal/testmodels/User_sqlitex.go:96-161 | reading a row off any bytes: too short, or the fields one behind the other, or the error of the first that cannot be read |
| TypedTable.EntryKeyIdentity | internal/encoding/encode.go:85-146 | equal entry keys belong to the same field and value, in a normal index also to the same row |
| TypedTable.UniqueLookup | internal/testmodels/User_sqlitex.go:218-225 | the unique entry of a value exists exactly when a row holds the value, and names that row |
| TypedTable.UniquenessHolds | docs/schema.md:71-77 | no two rows share a unique value |
| TypedTable.OtherTablesUnaffected | internal/codegen/ir.go:102-109 | changes confined to one table leave tables with other hashes exactly represented |
| TypedTable.ImageIsCanonical | internal/codegen/store.go:149-209 | the rows determine every byte stored for the table |
| TypedTable.WriteBatchReplaces | internal/codegen/store.go:161-209 | delete-old-then-put-new in one batch leaves exactly the new row's data and entries, for both put orders |
| TypedTable.ReplaceRefines | internal/codegen/store.go:149-265 | without a conflict such a batch keeps data rows and indexes exact and touches nothing else |
| TypedTable.EraseRefines | internal/codegen/store.go:269-299 | the deletion batch removes the row with all its entries and touches nothing else |
| TypedTable.SharedEntryConflicts | internal/codegen/store.go:184-195 | an entry two rows would share is a conflict on a unique value |
| TableScan.DataScan | db.go:403-457 | a full scan visits the rows behind the cursor in primary key order |
| TableScan.NormalIndexScan | db.go:403-457 | a normal index scan visits exactly the rows with the value behind the cursor, in primary key order |
| TableScan.UniqueIndexScan | internal/testmodels/User_sqlitex.go:394-403 | a unique index scan meets one entry at most, and none behind any cursor |
| RowScan.DeleteWithIndexes | internal/codegen/store.go:364-388 | removes the row and its entries in one batch, or through the queue when there are no index fields |
| RowScan.ScanStep | internal/testmodels/User_sqlitex.go:969-982 | returns the row under the cursor, or retires it when expired, with the index exact after every step |
| RowScan.FullRoute | internal/testmodels/User_sqlitex.go:988-993 | a full scan leads to every row behind the cursor |
| RowScan.IndexRoute | internal/testmodels/User_sqlitex.go:959-967 | an index scan leads to the rows with the value behind the cursor |
| Store.ExpiredRowBlocks | internal/codegen/store.go:184-195 | an expired row still blocks its unique values, until it has been read |
| Runs.RunKeepsRow | internal/codegen/store.go:149-416 | a row survives every run of calls that leave it alone and that it outlives, queries and purges included |
| Runs.ReadYourWrite | internal/codegen/store.go:149-327 | what a run wrote, a later Get of the run returns until it expires, whatever other calls lie between |
| Lifetimes.WrittenExpiry | internal/codegen/store.go:157-219 | a written row expires at the write's clock plus the table's lifetime, in 64-bit arithmetic; never without a lifetime |
| Lifetimes.GetInNumbers | internal/codegen/store.go:301-327 | Get answers a present row whose expiry is not positive or not passed; a passed row is gone afterwards, nothing else |
| Lifetimes.PurgeInNumbers | internal/codegen/store.go:394-417 | exactly the rows with 0 < expiresAt < now go and are counted |
| Lifetimes.WriteInNumbers | internal/codegen/store.go:149-265 | a write is refused exactly when another row holds one of its unique values; what is written and what stays |
| Lifetimes.WrittenRowLives | docs/ttl.md:14-29 | over any run: a written row that later calls leave alone is read back as long as no call on its table comes after write clock plus lifetime, and is not once the Get does; without a lifetime it always is |
| Store.TableStore.Get | internal/codegen/store.go:301-327 | the abstract row, or none; an expired row is gone afterwards with its entries |
| Store.TableStore.CheckUnique | internal/codegen/store.go:184-195 | fails with duplicate exactly when another row holds a unique value |
| Store.TableStore.Create | internal/codegen/store.go:149-209 | the abstract insert-or-overwrite; a failure changes nothing but the expiry of its own row; index exactness kept |
| Store.TableStore.Update | internal/codegen/store.go:211-265 | the same abstract operation, a missing row is inserted |
| Store.TableStore.Delete | internal/codegen/store.go:269-299 | the row and all its entries are gone, the rest is as before |
| Store.TableStore.PurgeExpired | internal/codegen/store.go:394-417 | removes exactly the expired rows with their entries, counts them, leaves everything else; without index fields, those whose deletion the queue takes |
| Where.SplitWhere | internal/testmodels/User_sqlitex.go:40-47 | splits at the last two blanks |
| Where.SplitCondText | internal/testmodels/User_sqlitex.go:40-47 | recovers field and operator exactly when the operator has no blank; otherwise the field part names no field |
| Where.MatchesFirsts | internal/testmodels/User_sqlitex.go:447-553 | a condition list means the conjunction of the first conditions per field and operator |
| Where.DistinctIsConjunction | internal/testmodels/User_sqlitex.go:447-553 | with distinct pairs it means its conjunction |
| Where.OwnArgumentIff | internal/testmodels/User_sqlitex.go:483-495 | a condition is judged by its own argument on all records exactly when the first such condition has the same one |
| Where.RepeatedConditionLost | internal/testmodels/User_sqlitex.go:511-526 | two conditions CreatedAt > 5 and CreatedAt > 7 accept 6 |
| Where.UnsupportedExcludesAll | docs/api.md:204-221 | a condition with an operator its type lacks excludes every row |
| Query.ChooseIndexedField | internal/codegen/query.go:56-73 | the planned index is the first indexed field that is not the primary key, none if there is none |
| Query.PlanEquivalence | internal/testmodels/User_sqlitex.go:949-1011 | both plans return the same rows in the same order for all conditions, cursors and limits, unless the plan is unfaithful |
| PlanFaults.WrongIff | internal/codegen/query.go:139-178 | an index query is wrong for some table exactly when it misjudges some record that satisfies the other conditions ahead of the cursor |
| PlanFaults.UniqueCursorWrongIff | internal/testmodels/User_sqlitex.go:394-417 | a cursor on a unique index loses rows exactly when a matching record behind it is possible |
| PlanFaults.UniqueCursorWrongForIds | internal/testmodels/User_sqlitex.go:379-417 | for an integer key and the equality alone: exactly when the cursor's id is not the largest |
| PlanFaults.UniqueCursorExample | internal/testmodels/User_sqlitex.go:394-417 | user 1 is asked for by e-mail behind id 0 and not found |
| PlanFaults.BytesArgumentWrongIff | internal/codegen/query.go:139-175 | an indexed []byte query is wrong exactly when, ahead of the cursor and under the other conditions, a row with the value asked for is possible or one reached under its formatted text |
| PlanFaults.BytesArgumentMisses | internal/codegen/query.go:139-175 | what it finds and what was asked for never have a row in common |
| PlanFaults.BytesArgumentExample | internal/codegen/query.go:139-175 | asked for the byte 1 it misses the row with that byte and returns the row with the text [1] |
| Query.StoppedEarly | internal/testmodels/User_sqlitex.go:425-435 | stopping at the limit returns the leading part of the full result |
| Query.QueryBuilder.AddWhere | internal/codegen/query.go:112-116 | appends text and argument of one condition |
| Query.QueryBuilder.Compare | internal/codegen/query.go:252-276 | compares with the argument of the first condition on the field with the operator |
| Query.QueryBuilder.MatchWhere | internal/codegen/query.go:224-248 | true exactly when the row satisfies all conditions from the given one on |
| Query.QueryBuilder.Collect | internal/codegen/query.go:157-213 | the scan loop: the first `limit` selected rows of the route, expired rows visited are retired |
| Query.QueryBuilder.ExecFullScan | internal/codegen/query.go:184-213 | the first `limit` live matching rows behind the cursor in primary key order |
| Query.QueryBuilder.ExecIndexed | internal/codegen/query.go:139-178 | the same over the rows the index reaches |
| Query.QueryBuilder.Exec | internal/codegen/query.go:129-137 | what was asked for, whenever the plan is faithful; which expired rows are gone afterwards |
| QueryMeaning.OneCondition | internal/codegen/query.go:252-279 | every operator in plain terms: = != < > <= >= and LIKE as something, pattern, something; operators a type lacks match nothing |
| QueryMeaning.TwoConditions | internal/codegen/query.go:224-248 | two conditions mean both |
| QueryMeaning.PromisedDelivers | internal/codegen/query.go:184-213 | the promised result: in key order, exactly the live records behind the cursor that the conditions keep, up to the limit |
| QueryMeaning.SelectFromBelow | internal/codegen/query.go:129-213 | running >= lo and < hi returns exactly the live records behind the cursor with lo <= x < hi, in key order, up to the limit |
| QueryMeaning.SelectAboveUpTo | internal/codegen/query.go:129-213 | running > lo and <= hi returns exactly those with lo < x <= hi |
| QueryMeaning.SelectContaining | internal/codegen/query.go:129-213 | running LIKE p returns exactly those whose value is x + p + y |
| QueryMeaning.SelectEqual | internal/codegen/query.go:129-213 | running = v or != v returns exactly those that have or have not the value, through whichever plan, unless the plan is unfaithful |
| QueryMeaning.ProbeBytes | internal/codegen/query.go:139-175 | what an index query looks up for a []byte: decimal numbers between brackets, a blank between any two |
| QueryMeaning.QueryInNumbers | internal/codegen/query.go:139-213 | a query changes no row and removes only dead ones behind its cursor; an unlimited full scan removes all of these |
| Pagination.QueryIsPage | internal/testmodels/User_sqlitex.go:376-437 | a query with a limit is one page over the live matching keys |
| Pagination.PagesAreWhole | docs/api.md:226-228 | over an unchanged table the pages concatenate to the whole result |
| Pagination.PagesIncrease | docs/api.md:226-228 | later pages lie strictly above earlier ones, whatever happens to the table in between |
| Pagination.DeliveredExactlyOnce | docs/api.md:226-228 | a key that matches at every fetch is on exactly one page, even if cursor rows disappear |
| PagedRuns.PageOfCall | internal/testmodels/User_sqlitex.go:376-437 | each query of a client in a run returns the page over the table it finds, behind the record its last page ended with |
| PagedRuns.DeliveredOnceInRun | docs/api.md:226-228 | a client pages until a page comes back short while any calls go on around it: a row that matches at each of its queries is delivered exactly once |
| Pagination.NumericOrder | internal/encoding/encode.go:25-70 | with an integer primary key results come in numeric order |
| Runs.NewDatabase | db.go:32-111 | a new database represents every table as empty |
| Runs.OneTableChanges | internal/codegen/ir.go:102-109 | a call on one table leaves all other tables of the handle as they are |
| Runs.Replay | internal/codegen/store.go:149-416 | any sequence of store and query calls on tables sharing a handle is answered as by independent abstract maps, and the engine ends up holding exactly these |
| WriteQueue.StepKeepsInv | internal/writequeue/queue.go:174-322 | every step of callers, consumer and Close keeps the invariant |
| WriteQueue.RunKeepsInv | internal/writequeue/queue.go:174-322 | so does every run |
| WriteQueue.SubmitKeepsPending | internal/writequeue/queue.go:174-191 | an accepted operation is pending with its content, its object and its waiting caller |
| WriteQueue.CloseKeepsPending | internal/writequeue/queue.go:205-232 | Stop answers what it drains and loses nothing, with the consumer running |
| WriteQueue.ConsumeKeepsPending | internal/writequeue/queue.go:236-322 | the consumer answers each operation of its batch once and loses nothing |
| WriteQueue.ConsumeKeepsOrder | internal/writequeue/queue.go:236-322 | tickets reach the engine in acceptance order |
| WriteQueue.ConsumeKeepsAnswers | internal/writequeue/queue.go:286-322 | an operation is told nil exactly when it is in the log |
| WriteQueueTheorems.NoSendOnClosedChannel | internal/writequeue/queue.go:174-191 | no send on a closed channel, none after Stop has begun |
| WriteQueueTheorems.PooledIsUnused | internal/writequeue/queue.go:30-47 | a pooled object is in no queue, in no unanswered batch and in no caller's hands |
| WriteQueueTheorems.AcceptedAsAsked | db.go:314-334 | what is accepted and later answered is the operation its caller came with |
| WriteQueueTheorems.CallKeepsItsOp | db.go:314-334 | no step of anybody changes what a caller asked before its call ends |
| WriteQueueTheorems.ContentIsKept | db.go:314-334 | an operation reaches the engine with the content it was accepted with |
| WriteQueueTheorems.RunAnswersAreFinal | internal/writequeue/queue.go:174-322 | over any run no answer is given twice or changed |
| WriteQueueTheorems.CallerHearsTruth | db.go:314-334 | a caller is told nil exactly when its own operation is committed |
| WriteQueueTheorems.RejectedIsSilent | internal/writequeue/queue.go:174-191 | a refused operation is nowhere in the queue and receives no reply |
| WriteQueueTheorems.CommittedInOrder | internal/writequeue/queue.go:236-322 | commits follow acceptance order, each operation once, and the store is the log applied |
| WriteQueueTheorems.GroupIsAtomic | db.go:355-372 | a batch commits wholly or not at all |
| WriteQueueTheorems.GroupHearsOne | internal/writequeue/queue.go:286-322 | however the run goes on, all callers of a batch that are told anything are told the same: nil if it was committed, the error if not |
| WriteQueueTheorems.ApplyGroup | internal/writequeue/queue.go:286-322 | the loops that build a batch commit exactly the contents of its operations in order, or nothing |
| WriteQueueTheorems.GroupCommitIsFifo | internal/writequeue/queue.go:253-322 | in every reachable state, with failures, drained operations and direct writes: the queue's part of the log is the contents of exactly the operations that went through, in acceptance order, and the store is the log applied |
| WriteQueueTheorems.BatchingIsInvisible | internal/writequeue/queue.go:253-322 | runs with different batch sizes that accept the same operations, of which the same go through, leave the same store |
| WriteQueueTheorems.NoEngineUseAfterClose | db.go:113-127 | nothing reads or writes the engine after it is closed |
| WriteQueueTheorems.NothingPendingAfterStop | internal/writequeue/queue.go:205-232 | when Stop has returned every accepted operation has been answered |
| WriteQueueTheorems.ClosesOnce | db.go:113-127 | over any run Close succeeds at most once |
| WriteQueueTheorems.Progress | internal/writequeue/queue.go:205-232 | no deadlock: as long as a call is under way some step is possible |
| WriteQueueTheorems.InternalRunsEnd | internal/writequeue/queue.go:205-232 | without new calls every run is finite, bounded by a decreasing measure |
| WriteQueueTheorems.EndsAtRest | internal/writequeue/queue.go:205-232 | there is such a run to a state where all calls have returned |
| WriteQueueTheorems.StuckIsAtRest | internal/writequeue/queue.go:205-232 | and every such run that cannot be continued has ended in one |
| WriteQueueTheorems.RestIsAnswered | internal/writequeue/queue.go:174-248 | in which every accepted operation has been answered |
| WriteQueueLaws.CallBeginsIff | db.go:314-334 | a queued call gets under way exactly on an open handle with a key |
| WriteQueueLaws.AdmittedIff | internal/writequeue/queue.go:174-191 | in every reachable state and whatever others do between check and send: accepted, as one new item at the end with its operation, exactly if not stopped and memory within its limit at the check and room in the channel at the send; refused otherwise, with the queue as it was |
| WriteQueueLaws.DirectInFull | db.go:229-309 | direct calls get through exactly on an open handle and commit what they carry |
| WriteQueueLaws.AnswersComeFrom | internal/writequeue/queue.go:205-322 | only the consumer answers, with the outcome of its last engine call, and Stop, with ErrStopped to what it drained |
| WriteQueueLaws.EngineCallInFull | internal/writequeue/queue.go:236-322 | what one engine call of the consumer commits, records and will tell |
| WriteQueueLaws.SizesHold | internal/writequeue/queue.go:253-284 | in every reachable state channel and batch keep their bounds, and a batch is committed as one exactly when the engine takes batches and it has more than one operation |
| WriteQueueLaws.CutsWhenFullOrEmpty | internal/writequeue/queue.go:253-284 | collecting ends exactly when the batch is full or nothing is left to take |
| WriteQueueLaws.ShutDownInOrder | internal/writequeue/queue.go:205-232 | in every reachable state: a closed channel is empty and Stop has begun on a closed handle, the consumer ends only then, the engine closes only after that |
| WriteQueueLaws.ObjectsConserved | internal/writequeue/queue.go:30-47 | in every reachable state every object is in the pool or in exactly one caller's hands |

## Left out

- Pebble itself (LSM, WAL, fsync, compaction, recovery) is an ordered map with atomic batches and snapshot iterators; an engine call that fails changes nothing.
- In the typed store engine errors do not occur; the code ignores those of a lazy deletion and of the first read in Create, Update and Delete, and index exactness is not claimed for them.
- The scan loops skip rows that do not decode; under `RowScan.Stored` every row decodes, so that branch is not reached.
- The unreachable `continue` of the indexed loop for a missing row is an assertion inside `RowScan.Fetch`.
- Concurrent store calls: docs/api.md:184 asks for a single writer per table; check-then-write races of two writers on one unique value are outside the model.
- Several reads of the clock within one query: one `now` serves the whole call.
- Schema.EncodePkInjective: floating point keys, and float fields altogether, are not modelled; repeated fields are rejected by the generator.
- Field numbers of index fields must differ in their low byte, lengths must fit 32 bits; these are demands of `Table.WellFormed` and `Table.RecordOk`.
- Database.DB.Close: closes at once; stopping the queue and the order of shutting down are `WriteQueue`.
- Database.DB.Submit: takes the queue's verdict as a parameter and applies at once; the protocol behind it is `WriteQueue`, which has no cache.
- Database.Replay: states transparency for atomic calls only; step by step it can fail, see `CacheRace`.
- The cache clock and expiry sums in `TinyLFU` are unbounded integers; hits, misses and eviction statistics are omitted.
- The memory monitor is an arbitrary flag at each Submit; its goroutine, which Stop also joins, is omitted, as are Prometheus metrics and Len.
- `WriteQueue` merges each lock acquisition with the checks made right after it under the lock in `StartClose` and `LockQueue`; objects dropped by sync.Pool are objects never acquired again.
- zstd is a pair of functions with decompress after compress the identity; FNV hashing is any function, and table hashes are assumed distinct because the generator rejects collisions.
- First, Count, Seek, SeekLT, iterator Close, Checkpoint, backup, metrics, the mock stores, the admin tool and the protoc plugin.
