# Yokan: storage engines, document layer and caches

Yokan stores key-value pairs and documents. This project models the parts of it that are implemented in the
repository itself and proves what they promise.

The **document backends** (`log.cpp`, `array.cpp`) keep a collection as numbered documents with holes. Both are
proved against one abstract collection, a sequence of optional byte strings (`Documents`). The log backend is modelled
down to its chunk files, its entry table and its header as bytes (`LogCollection` over `LogMetadata`), on top of a
functional log (`LogModel`, `LogOperations`, `LogUpdate*`) that carries the extent invariant: every live entry owns
bytes of its chunk below the chunk's next offset, and no two entries share any. `LruCache` is its cache of chunk
handles, `LogIteration` its iteration loop with everything that keeps it from ending. `ArrayModel`, `ArrayCollection`
and `Snapshot` are the array backend, its snapshot writer and its reader.
`Iteration` says what iterating a collection means for any filter, limit and callback; `Transfers` says what unpacked
loads and packed listings leave in a caller's memory; `Equivalence` proves that any admissible run leaves both backends
with the same collection.

The **document layer** (`doc-mixin.hpp`) builds documents on a key-value store. `KeyCodec` is its key format over
machine words and bytes in memory. `StoreProtocol` is its concurrent store, erase and update as steps of a state machine,
with its invariant over all interleavings; `MixinStore` has those steps as methods over the ordered map and the metadata
cache, and proves that each takes the protocol's step on the keys and values really stored. `MixinIteration` is its two
ways to iterate, `MixinCollections` the dropping of a collection.

The **key-value maps** (`map.cpp`, `unordered_map.cpp`) are `KeyValueMap` (sorted items as an ordered map),
`MapDatabase` (put, erase, packed get, packed listing, iteration) and `HashDatabase`. `Scan` and `RecordCodec` are the
benchmark client that pages through a listing and the record format that it stores.

`Watcher` is the wait/notify protocol between readers and writers; `BulkBuffers`, `LruBulkCache` and
`KeepAllBulkCache` are the two caches of transfer buffers, as the separate steps of callers that overlap.

Where the code does not do what its callers may expect, the model follows the code. A lemma then gives the exact
condition under which the expectation holds, and often an example that breaks it:

- an update in the log backend of an erased document with one that fits its old place dereferences a null chunk, one
  of more than chunk_size - 8 bytes is dropped with a success status, and repeated ids can be written out of order or
  counted twice (`LogUpdateResults`, `LogUpdateExact`);
- `last_id()` wraps on an empty log collection, which defeats the update's range check (`LogDocuments`) and makes
  iteration endless; so does a row that an update by an empty document has left without a place (`LogIteration`);
- reopening a log collection maps only the first 8191 rows (`LogMetadata.ReopenKeepsRows`);
- a recovered array collection has lost its document count (`Snapshot.RecoveredCount`), and its unpacked load shifts
  the documents after a slot that was too small (`Transfers.ArrayLoadExact`);
- an erase in the document layer miscounts repeated ids and ids that a store is about to write, and so does an update;
  an update may lower the next id, or wrap it to 0 when it names the largest word, so that ids are issued again, and
  miscounts ids that were erased (`StoreProtocol`);
- a key with a collection's prefix that is none of its documents can end the ordered iteration early (`MixinIteration`);
- a put that does not notify can leave a reader blocked, and two readers of one key can block the watcher for ever
  (`Watcher`);
- a request that misses the cache of transfer buffers allocates without the lock, so a buffer that comes back meanwhile
  makes the allocation needless (`KeepAllBulkCache`).

Conventions. A method with a `Valid()` precondition states its new state by a function of the old one; lemmas about
that function say what it means. Machine words are explicit where they matter (`u64`, `Wrap`, `bv64`). Sizes as long as
one of the sentinels in `common.h` (the four largest machine words) cannot be stored. The order in which a hash map
lists its elements is a parameter. A callback is a function of the calls made so far.

## Model

| member | source | states |
|---|---|---|
| LogOperations.AppendRefines | src/backends/log.cpp:404-454 | a batch with a document longer than chunk_size is refused whole and changes nothing; any other is stored up to its first document longer than chunk_size - 8 and not beyond, success exactly when there is none; the documents before it are appended to the abstract collection and the log stays well formed |
| LogOperations.AppendCounts | src/backends/log.cpp:445-446 | the header's size grows by exactly the documents stored |
| LogOperations.EraseRefines | src/backends/log.cpp:381-402 | erasing turns one id into a hole, stray row or not, and leaves every other document's bytes alone; unknown ids are refused |
| LogOperations.EraseCounts | src/backends/log.cpp:390-400 | in any log, erasing keeps the size as far from the number of live rows as it was; without stray rows it stays exact, also when the id is erased twice |
| LogOperations.ReadRefines | src/backends/log.cpp:576-594 | unless the row is stray (live without a place), read returns the document, or says not found, unknown id or too small exactly when the abstract collection does |
| LogOperations.FetchRefines | src/backends/log.cpp:596-609 | unless the row is stray, fetch calls back with the document or with not-found |
| LogOperations.StrayRefused | src/backends/log.cpp:576-609 | a stray row is refused with a size error by read and fetch, or dereferences a null chunk when it had been erased |
| LogOperations.FetchCallsBack | src/backends/log.cpp:596-609 | in any log, fetch reaches its callback for exactly the ids whose row is not stray |
| LogModel.PlaceShape | src/backends/log.cpp:426-448 | placing a document with or without chunk roll-over keeps every chunk's next offset within the chunk |
| LogModel.PlaceNew | src/backends/log.cpp:434-441 | the placed document can be read back from the extent that its new entry claims, which lies below the chunk's new next offset |
| LogModel.PlaceKeeps | src/backends/log.cpp:426-441 | no other entry's extent or bytes change when a document is placed, and the new extent is disjoint from each of them |
| LogModel.PlaceAt | src/backends/log.cpp:551-560 | giving a row a new place keeps extents of all placed rows disjoint and changes one document of the abstract collection |
| LogUpdate.OverwriteKeeps | src/backends/log.cpp:504-509 | overwriting in place inside an allocation leaves the bytes of every disjoint extent alone |
| LogUpdate.InPlaceRefines | src/backends/log.cpp:503-521 | an in-place update of a placed row replaces that document and no other, and keeps its allocation |
| LogUpdate.InPlaceUnplaced | src/backends/log.cpp:503-516 | what the in-place branch does to an erased or never written row: a null chunk for a non-empty document, a row that claims an empty one otherwise |
| LogUpdate.PadRefines | src/backends/log.cpp:474-487 | the placeholder rows for new ids are holes of the abstract collection |
| LogUpdate.Pass1Null | src/backends/log.cpp:494-510 | the first pass dereferences a null chunk exactly when some document meets a row without a place while taking the in-place branch |
| LogUpdate.Pass1Refines | src/backends/log.cpp:492-521 | whatever the batch, a first pass that meets no null chunk writes exactly the documents that fit the old allocation of a document that is there, in order, and keeps the size as far from the number of live rows as it was |
| LogUpdate.Pass2Refines | src/backends/log.cpp:534-567 | whatever the batch, the second pass appends exactly the documents with no old allocation large enough and before the first that no chunk can hold, in order, and moves the size away from the number of live rows exactly when one of them counts as new although its row is live by then |
| LogUpdateResults.UpdateKeeps | src/backends/log.cpp:456-573 | whatever batch is given, with lost rows, too long documents and repeated ids, an update that does not crash leaves every live entry inside its chunk and all extents disjoint, and adds at most one chunk per document |
| LogUpdateResults.UpdateMeans | src/backends/log.cpp:456-573 | for any well-formed log and any batch, with stray rows, repeated ids and documents no chunk can hold: whether the call is refused, crashes or ends, and then exactly which documents, live rows and size it leaves |
| LogUpdateExact.AnyUpdateExact | src/backends/log.cpp:456-573 | for any log and any batch the update is the abstract update, reports success, moves the size rightly and adds no stray row if and only if a condition on sizes and rows holds: no document is too long or misplaced with bytes, the last document given for each id stays, and none is counted twice |
| LogUpdateExact.UpdateRefines | src/backends/log.cpp:456-573 | for any batch of suitable sizes, with repeated ids too, the update is the abstract update of the batch reordered: the documents that fit first, the others after them |
| LogUpdateExact.RepeatedIds | src/backends/log.cpp:492-567 | repeated ids keep last-writer order exactly when no id's last document fits its allocation while an earlier one did not |
| LogUpdateExact.WrittenOutOfOrder | src/backends/log.cpp:492-567 | an example: a large document and then a small one that fits, for one id; the large one stays |
| LogUpdateExact.UpdateCounts | src/backends/log.cpp:511-561 | for any batch of suitable sizes, repeated ids in any order too, the size stays exact if and only if no id without a live row is named twice |
| LogUpdateExact.CountedTwice | src/backends/log.cpp:553-561 | an example: two documents for one new id, one document and a size that has grown by more |
| LogUpdateExact.UpdateExact | src/backends/log.cpp:456-573 | for distinct ids, in any log, the update is the abstract update, reports success, moves the size rightly and adds no stray row if and only if every document is at most chunk_size - 8 bytes and none of them takes the in-place branch on a row without a place |
| LogUpdateExact.DroppedButReportedOk | src/backends/log.cpp:458-461 | an example: a document of chunk_size - 7 bytes passes the size check and is dropped, and the call reports success because the write error is overwritten on line 570 |
| LogUpdateExact.EraseThenUpdateCrashes | src/backends/log.cpp:393-396 | an example: erasing a document and updating it with one no longer dereferences a null chunk |
| LogCollection.Collection.constructor | src/backends/log.cpp:353-373 | a new collection's files represent an empty log with one empty chunk |
| LogCollection.Collection.WriteEntryMetadata | src/backends/log.cpp:299-308 | one doubling of the metadata file always makes room for the next entry; the write never fails |
| LogCollection.Collection.GetChunkFromID | src/backends/log.cpp:324-349 | opening, rolling over, caching and refusing a chunk; the cached handles stay handles of their own chunk |
| LogCollection.Collection.Append | src/backends/log.cpp:404-454 | after the call the chunk files, the entry table and the header represent the log that AppendRefines describes: nothing changed, no id and a size error when a document is longer than a chunk, else the documents before the first that no chunk holds; the ids returned are consecutive from the old next id, the last one in vain when the batch was cut short |
| LogCollection.Collection.Update | src/backends/log.cpp:456-573 | after the call the files represent the log that UpdateRefines and UpdateExact describe, and the call crashes on exactly the batches they say |
| LogCollection.Collection.Erase | src/backends/log.cpp:381-402 | after the call the entry table and header represent the log that EraseRefines describes, and no chunk file has changed |
| LogCollection.Collection.Read | src/backends/log.cpp:576-594 | gives what ReadRefines describes from the bytes of the chunk file, opening or evicting handles without changing the log |
| LogCollection.Collection.Fetch | src/backends/log.cpp:596-609 | gives what FetchRefines describes, likewise |
| LogMetadata.EntryRoundTrip | src/backends/log.cpp:278-290 | an entry read from the metadata bytes is the entry written |
| LogMetadata.EntryKeepsRows | src/backends/log.cpp:299-308 | writing one row leaves the others and stays within one doubling of the file |
| LogMetadata.EntryKeepsHeader | src/backends/log.cpp:299-308 | writing a row never touches the header |
| LogMetadata.HeaderWordKeeps | src/backends/log.cpp:398-400 | writing a header field never touches a row |
| LogMetadata.ReopenKeepsRows | src/backends/log.cpp:364-368 | mapping 262144 bytes on reopening keeps all rows exactly when there are at most 8191 ids |
| LogDocuments.RangeCheckExact | src/backends/log.cpp:855-862 | the update's range check refuses exactly the batches with an unknown id, except on an empty collection, where last_id() wraps and it refuses none |
| LogDocuments.DocUpdate | src/backends/log.cpp:844-865 | a batch that the range check refuses changes nothing; every other batch, on an empty collection any batch, has the effect described by UpdateExact, UpdateRefines and UpdateKeeps |
| LogIteration.EmptyIterationDiverges | src/backends/log.cpp:1049-1052 | the loop over an empty collection is at the first id plus n, in a machine word, after n fetches, has made no call and still goes on, for every n if and only if the maximum is positive, because last_id() wraps |
| LogIteration.IterationExact | src/backends/log.cpp:1017-1052 | over a collection with ids the loop ends if and only if it meets no stray row; then with the calls and status of the specification, and otherwise at that row for ever or in a null chunk |
| LogIteration.TerminatesExactly | src/backends/log.cpp:1049-1052 | for any collection, exactly when the loop ends |
| LogDocuments.DocIter | src/backends/log.cpp:1004-1055 | unless it has no end, iteration makes exactly the calls of the specification, in order, or dereferences a null chunk exactly when it meets an erased stray row |
| LogDocuments.NewEmptyNeverEnds | src/backends/log.cpp:503-516 | an example: after an update that gives a new id an empty document, the iteration from that id on never ends |
| LogDocuments.EraseUpdateIterate | src/backends/log.cpp:393-396 | an example: storing, erasing, updating by nothing and iterating dereferences a null chunk |
| LogDocuments.DocLoadPacked | src/backends/log.cpp:884-907 | packed load layout: documents before the cut end to end, every slot from the cut on too small, with a stray row as a cut; crashes exactly when it gets to an erased stray row |
| LogDocuments.DocLoadUnpacked | src/backends/log.cpp:909-927 | unpacked load: each document that fits lies where the slot sizes before it say, a stray row counts as too large; crashes exactly when an id has an erased stray row |
| LogDocuments.SeenAreItems | src/backends/log.cpp:884-927 | when no id has a stray row, what a load sees are the documents of the collection |
| LogDocuments.DocListPacked | src/backends/log.cpp:964-1002 | packed listing, unless the iteration has no end: ids and documents up to the first that does not fit, marks after it, and a stop status exactly when one did not fit |
| LruCache.RecencyOrder | src/backends/log.cpp:67-101 | the reversed history without repetitions is ordered by last use |
| LruCache.StackProperty | src/backends/log.cpp:67-101 | after any history the list is the first max_size distinct ids of the reversed history |
| LruCache.Inclusion | src/backends/log.cpp:67-101 | a larger cache always contains a smaller one fed the same history |
| LruCache.LruCache.Get | src/backends/log.cpp:67-78 | the list after a get is the specified one, the map indexes exactly that list, and only a miss constructs an object |
| ArrayModel.WriteAbove | src/backends/array.cpp:255-259 | writing above all used offsets changes no document |
| ArrayModel.SetRow | src/backends/array.cpp:306-308 | repointing one row changes one document |
| ArrayModel.ClearRow | src/backends/array.cpp:437-438 | clearing one row makes one hole |
| ArrayCollection.Collection.DocStore | src/backends/array.cpp:233-265 | stores the batch at the end of the abstract collection under consecutive ids, with the count exact |
| ArrayCollection.Collection.DocUpdate | src/backends/array.cpp:267-319 | is the abstract update for every batch, repeated ids and new holes included; unknown ids are refused without the update-new mode |
| ArrayCollection.Collection.DocErase | src/backends/array.cpp:418-444 | makes holes of the ids, repeated and unknown ones included, with the count exact |
| Documents.EraseFromAt | src/backends/array.cpp:431-442 | after erasing a batch an id has no document if the batch names it and its old one otherwise |
| ArrayCollection.Collection.DocSize | src/backends/array.cpp:225-228 | the size of the document, or not found for holes and unknown ids |
| ArrayCollection.Collection.CollSize | src/backends/array.cpp:198-207 | the count differs from the number of documents by an amount that no operation changes |
| ArrayCollection.Collection.DocLoadPacked | src/backends/array.cpp:338-359 | packed load layout, with offset plus remaining equal to the buffer size throughout |
| ArrayCollection.Collection.DocLoadUnpacked | src/backends/array.cpp:361-385 | unpacked load with the write pointer left in place after a slot that was too small |
| Transfers.ArrayLoadExact | src/backends/array.cpp:363-381 | for documents of given lengths, the bytes of each one that fits are returned in its own slot, whatever they are, if and only if none with bytes comes after a too-small slot with room |
| Transfers.ShiftedExample | src/backends/array.cpp:363-381 | an example: after a document too large for its slot of one byte, the next one is found one slot too early |
| Transfers.LogLoadExact | src/backends/log.cpp:911-926 | the log backend returns every document that fits in its own slot |
| ArrayCollection.Collection.DocIter | src/backends/array.cpp:486-528 | makes exactly the calls of the specification, in order, and terminates |
| ArrayCollection.Collection.DocListPacked | src/backends/array.cpp:446-484 | the same packed listing as the log backend's |
| Transfers.ListingCalls | src/backends/array.cpp:456-476 | a packed listing stops its iteration at the first document that no longer fits, and only then |
| Iteration.IterateExact | include/yokan/filters.hpp:147-168 | with a sound stop verdict and a callback that never fails, iteration calls back on exactly the first max matching documents at or after from_id, each once, in increasing id order |
| Documents.DeliverExact | src/backends/array.cpp:492-526 | whatever the callback answers, the calls are a beginning of the matching documents, at most the maximum; every call but the last was answered OK, a failure is the last answer, and without one the maximum or the end was reached |
| Iteration.StopMissesNothing | include/yokan/filters.hpp:147-168 | stopping early on a sound verdict misses no matching document |
| Documents.CutExact | src/backends/array.cpp:345-353 | a document comes before the cut exactly when it fits together with all that come before it |
| Documents.PackedLoadUnique | src/backends/array.cpp:338-359 | the packed layout is determined by the documents and the buffer size |
| Snapshot.WriteSnapshot | src/backends/array.cpp:554-577 | the bytes of a snapshot: counts, names, sizes and the live documents only |
| Snapshot.CollSize | src/backends/array.cpp:560-577 | a collection takes two words and its name, a word for each id, and the bytes of its documents |
| Snapshot.Recover | src/backends/array.cpp:91-123 | reading those bytes yields the compacted collections |
| Snapshot.RoundTrip | src/backends/array.cpp:91-123 | writing and reading back gives the same collections, ids, holes and bytes, whatever the order of the hash map |
| Snapshot.CompactKeeps | src/backends/array.cpp:108-122 | compaction changes offsets but no document and no hole |
| Snapshot.CompactData | src/backends/array.cpp:119-121 | the new buffer is exactly the live documents end to end, in id order |
| Snapshot.RecoverCollections | src/backends/array.cpp:91-123 | recovery builds collections with the documents and holes of before |
| Snapshot.RecoveredCount | src/backends/array.cpp:106-122 | the size that a recovered collection reports is the number of its documents if and only if it has none |
| Equivalence.StepExact | src/backends/log.cpp:381-573 | each store, update and erase, updates with repeated ids too, does on the log what it does on the abstract collection if and only if it is admissible, a condition on document sizes and on the rows that an update names |
| Equivalence.LogRunRefines | src/backends/log.cpp:381-573 | every admissible run of any length leaves the log with exactly the abstract collection and its exact size |
| Equivalence.AnyRunKeeps | src/backends/log.cpp:381-573 | every run of any operations that does not crash, with refused documents and stray rows, leaves all extents in place and apart, and the size is the number of live rows if and only if no update counted a document twice |
| Equivalence.RunBoth | src/backends/array.cpp:233-319 | the log and the array backend hold the same abstract collection after every admissible run |
| Equivalence.ReadBoth | src/backends/log.cpp:795-907 | so both report equal sizes and fill a caller's buffers identically |
| Equivalence.IterateBoth | src/backends/log.cpp:1004-1055 | and an iteration makes the same calls and returns the same status on both, unless the collection is empty |
| KeyCodec.DefaultMemCmpIsLex | src/backends/map.cpp:32-40 | the map's comparison is dictionary order |
| KeyCodec.OrderTotal | src/backends/map.cpp:32-40 | it is irreflexive, antisymmetric and total |
| KeyCodec.OrderTransitive | src/backends/map.cpp:32-40 | and transitive |
| KeyCodec.SwapInvolution | include/yokan/doc-mixin.hpp:509-520 | the shift-and-mask swap undoes itself |
| KeyCodec.SwapReversesBytes | include/yokan/doc-mixin.hpp:509-520 | it reverses the bytes of a word in memory, on either kind of host |
| KeyCodec.KeyLayout | include/yokan/doc-mixin.hpp:501-507 | on every host a key is the name, a NUL and the id in big-endian order |
| KeyCodec.IdOfKey | include/yokan/doc-mixin.hpp:495-507 | decoding a key gives its id back, also across hosts of different endianness |
| KeyCodec.KeyOfId | include/yokan/doc-mixin.hpp:495-507 | every key of that shape is the encoding of its decoded id |
| KeyCodec.KeysInjective | include/yokan/doc-mixin.hpp:501-507 | keys identify name and id, and are never the metadata key of a collection whose name has no NUL |
| KeyCodec.KeyOrderIsIdOrder | include/yokan/doc-mixin.hpp:501-520 | dictionary order on one collection's keys is numeric order on ids |
| MixinCollections.KeysFromIds | include/yokan/doc-mixin.hpp:481-493 | the flat buffer is the keys of the ids end to end |
| MixinCollections.CollDrop | include/yokan/doc-mixin.hpp:79-100 | removes the metadata key and the document keys below the next id, and keeps every other key with its value |
| MixinCollections.DropSparesOthers | include/yokan/doc-mixin.hpp:79-100 | no key of another collection is among them |
| MixinCollections.DropComplete | include/yokan/doc-mixin.hpp:79-100 | the collection is gone completely if and only if no document was stored at or past the next id |
| StoreProtocol.StepKeeps | include/yokan/doc-mixin.hpp:140-272 | every step of overlapping stores, erases and updates, the two calls of an erase and of an update that allows new ids apart, keeps the accounting, the disjointness of reserved ranges and the metadata relation, when callers keep their side |
| StoreProtocol.RunSafe | include/yokan/doc-mixin.hpp:140-167 | in every state of every run from an empty collection: no id is handed out twice, cached size plus uncommitted documents is the number of documents, and when no store is in flight and none failed the stored metadata is the cached one |
| StoreProtocol.StepKeepsDocument | include/yokan/doc-mixin.hpp:148-161 | no store overwrites an existing document while documents are below the next id, whose word may wrap |
| StoreProtocol.RunKeepsDocument | include/yokan/doc-mixin.hpp:140-272 | a document stays readable under its id until an erase or update names it, over whole runs |
| StoreProtocol.StoredIsReadable | include/yokan/doc-mixin.hpp:152-161 | what a store writes is what its ids give, however the run goes on |
| StoreProtocol.UpdateIsReadable | include/yokan/doc-mixin.hpp:194-207 | after an update each id it names has the last document given for it |
| StoreProtocol.EraseAtOnceAccounts | include/yokan/doc-mixin.hpp:259-271 | an undisturbed erase keeps the size right if and only if it names no existing document twice |
| StoreProtocol.EraseRaceExact | include/yokan/doc-mixin.hpp:259-271 | an erase of distinct ids with stores writing between its two calls keeps the size right if and only if none of them wrote one of those ids |
| StoreProtocol.EraseRace | include/yokan/doc-mixin.hpp:159-167 | an example of that race: a size of 1 with no document |
| StoreProtocol.UpdateExistingAccounts | include/yokan/doc-mixin.hpp:199-207 | an update without the update-new mode keeps the size right if and only if all its ids exist |
| StoreProtocol.UpdateNewAccounts | include/yokan/doc-mixin.hpp:183-198 | an undisturbed update with it keeps the size right if and only if no new id is named twice |
| StoreProtocol.UpdateRaceExact | include/yokan/doc-mixin.hpp:183-198 | such an update of distinct ids with stores writing between its count and its put keeps the size right if and only if none of them wrote one of those ids |
| StoreProtocol.UpdateRace | include/yokan/doc-mixin.hpp:183-198 | an example of that race: a size of 2 with one document |
| StoreProtocol.UpdateNewNextId | include/yokan/doc-mixin.hpp:190-198 | afterwards every document is below the next id if and only if it was below one past the largest id of the update and that is still a 64-bit word |
| StoreProtocol.ReissuesMeans | include/yokan/doc-mixin.hpp:148-158 | what that means for the store: its reservation and an earlier one share an id |
| StoreProtocol.UpdateNewReissues | include/yokan/doc-mixin.hpp:197-198 | it makes a later store, one that does not run past the last word itself, reuse an id if and only if an id from the wrapped next id on had been handed out |
| StoreProtocol.LargestIdRestarts | include/yokan/doc-mixin.hpp:197-198 | an example: an update of id 2^64-1 makes the next id 0, and the next store overwrites the first document |
| MixinStore.PutBatchHolds | include/yokan/doc-mixin.hpp:159-161 | putting a batch under its keys puts the documents under their ids and nothing else of the collection |
| MixinStore.PutRepresents | include/yokan/doc-mixin.hpp:159-161 | and no key outside the collection changes, nor its metadata |
| MixinStore.EraseRepresents | include/yokan/doc-mixin.hpp:255-269 | erasing the keys of a batch erases exactly its documents |
| MixinStore.MetadataWords | include/yokan/doc-mixin.hpp:462-479 | the metadata stored under a collection's name is its size and its next id, one word each |
| MixinStore.FlushRepresents | include/yokan/doc-mixin.hpp:462-479 | flushing metadata touches no document |
| MixinStore.OtherCollectionKept | include/yokan/doc-mixin.hpp:501-507 | whatever a step does to the keys of one collection, every other collection of the store stands for the same state as before |
| MixinStore.OthersStayValid | include/yokan/doc-mixin.hpp:501-507 | so the other collections of the same store stay valid over each step of one of them |
| MixinStore.DocumentStore.constructor | include/yokan/doc-mixin.hpp:67-77 | a new collection stands for the initial state of the protocol |
| MixinStore.DocumentStore.ReserveIds | include/yokan/doc-mixin.hpp:148-158 | the first critical section of a store is the protocol's reservation; it hands out consecutive ids, in 64-bit words that wrap |
| MixinStore.DocumentStore.PutDocuments | include/yokan/doc-mixin.hpp:159-162 | the put of a store is the protocol's write, or its failed write when sizes and buffer disagree |
| MixinStore.DocumentStore.Commit | include/yokan/doc-mixin.hpp:163-166 | the last critical section is the protocol's commit; the content and the cache keep standing for its state |
| MixinStore.DocumentStore.DocStore | include/yokan/doc-mixin.hpp:140-167 | a whole store: its documents are added under the ids it returns, size and next id move on, stored and cached metadata agree; an invalid argument, and no document, exactly when sizes and buffer disagree |
| MixinStore.DocumentStore.EraseBegin | include/yokan/doc-mixin.hpp:259-265 | counting existing documents is the protocol's begin of an erase |
| MixinStore.DocumentStore.EraseEnd | include/yokan/doc-mixin.hpp:266-271 | erasing and flushing is its end: the named documents are gone, the size falls by what was counted, stored and cached metadata agree |
| MixinStore.DocumentStore.UpdateExisting | include/yokan/doc-mixin.hpp:199-207 | refused with an invalid id exactly when an id is not below the next id, with an invalid argument exactly when sizes and buffer disagree besides, and then nothing changes; succeeds in every other case as the protocol's update of existing documents |
| MixinStore.DocumentStore.UpdateBegin | include/yokan/doc-mixin.hpp:183-193 | counting existing ids and finding the largest is the protocol's begin of an update that allows new ids |
| MixinStore.DocumentStore.UpdateEnd | include/yokan/doc-mixin.hpp:194-198 | its put and flush is the end, which puts the documents and sets size and next id from the count and the largest id, or the failed one when sizes and buffer disagree |
| MixinStore.DocumentStore.UpdateNew | include/yokan/doc-mixin.hpp:183-198 | the whole update: one begin and one end, and nothing changed when it fails |
| MixinIteration.DocIterOrdered | include/yokan/doc-mixin.hpp:381-389 | the ordered branch delivers the ordered list through the map's iteration: all of it or its first max calls, unless a call fails, which is then the last one and gives the status |
| MixinIteration.DocIterProbing | include/yokan/doc-mixin.hpp:391-414 | the probing branch likewise delivers the list of matching documents below the next id, up to the maximum |
| MixinIteration.CollectionStopSound | src/server/util/filters.cpp:312-318 | over sorted keys the collection filter's stop verdict, with a sound document filter, is sound if and only if no passing document lies behind a key that has the prefix, is no document and makes the document filter stop |
| MixinIteration.OrderedIsMatching | include/yokan/doc-mixin.hpp:383-389 | walking the keys from the first key visits exactly the matching documents of the collection, in id order, if and only if none is cut off by such a key |
| MixinIteration.BranchesCompared | include/yokan/doc-mixin.hpp:381-414 | on the same content, with none cut off, the ordered branch makes the probing branch's calls followed by those for documents at or past the next id |
| MixinIteration.BranchesAgree | include/yokan/doc-mixin.hpp:381-414 | the two agree, for every filter, maximum and start, if and only if the matching documents below the next id are those that no such key cuts off |
| MixinIteration.CutOffExample | src/server/util/filters.cpp:312-318 | an example: a key one byte longer than a document's, with a value that makes the filter stop, hides the document behind it |
| KeyValueMap.LowerBoundSplits | src/backends/map.cpp:755-761 | items before the lower bound are below the key, the others are not |
| KeyValueMap.FindIsLookup | src/backends/map.cpp:476-477 | searching the sorted items is looking the key up |
| KeyValueMap.InsertRefines | src/backends/map.cpp:407-415 | storing a key keeps the order and changes one entry |
| KeyValueMap.DeleteRefines | src/backends/map.cpp:566-568 | removing a key keeps the order and removes one entry |
| MapDatabase.PutOfOne | src/backends/map.cpp:357-389 | a put of one key reports that the key exists exactly when it is there in new-only mode, and not found exactly when it is absent in exist-only mode; then nothing changes, otherwise the key has its new value and no other key changes |
| MapDatabase.PutAllMeans | src/backends/map.cpp:353-422 | in the plain mode the last entry for a key wins and other keys keep their values |
| MapDatabase.PutAllAppends | src/backends/map.cpp:391-401 | in append mode each key's value grows by all the batch's values for it, in order |
| MapDatabase.PutAllNewOnly | src/backends/map.cpp:357-372 | in new-only mode existing keys keep their values and a new key gets its first one |
| MapDatabase.PutAllExistOnly | src/backends/map.cpp:374-389 | in exist-only mode a batch does to existing keys what it does without the mode, and adds none |
| MapDatabase.Database.Put | src/backends/map.cpp:322-424 | stores the batch under its mode, or nothing when sizes and buffers disagree; for a single key, which status and which value in each mode |
| MapDatabase.Database.Erase | src/backends/map.cpp:556-582 | removes the keys before the first that runs past the buffer, and reports that one |
| MapDatabase.KeysUpToMeans | src/backends/map.cpp:560-569 | those keys are the windows that the sizes before that one cut out of the buffer |
| MapDatabase.Database.GetPacked | src/backends/map.cpp:469-508 | packed get layout: found values before the cut end to end, found ones past it too small, absent ones not found, and the used size |
| HashDatabase.HashStore.GetPacked | src/backends/unordered_map.cpp:466-507 | the same layout over the hash map |
| MapDatabase.PackedReadUnique | src/backends/map.cpp:469-508 | which is determined by the values and the buffer size |
| MapDatabase.PackedReadVersusLoad | src/backends/map.cpp:478-492 | it differs from the packed document load exactly in how absent keys past the cut are marked |
| MapDatabase.FirstMeans | src/backends/map.cpp:663-668 | a listing starts at the first key past the given one, at that key itself when inclusive, and at the beginning for an empty one |
| MapDatabase.PassingReached | src/backends/map.cpp:763-782 | for any filter the items passed are the accepted ones reached before a rejected one that stops |
| MapDatabase.PassingMembers | src/backends/map.cpp:763-782 | with a sound stop verdict exactly the accepted items from the start position are passed |
| MapDatabase.PassingSorted | src/backends/map.cpp:763-782 | in key order |
| MapDatabase.Database.ListKeyValuesPacked | src/backends/map.cpp:649-744 | packed listing: keys and values each up to their own cut, too-small marks after it, no-more-keys marks after the last item |
| MapDatabase.Database.Iter | src/backends/map.cpp:746-785 | hands the passing items on in order, up to the maximum, until a call fails |
| Scan.NextPage | src/backends/map.cpp:663-668 | a page that starts behind a key starts right behind it if and only if that key is not empty |
| Scan.ReadPage | ycsb/YokanYCSB.cpp:231-257 | reads the records of a page up to the first cut in either column |
| Scan.FirstTooSmall | ycsb/YokanYCSB.cpp:221-229 | a doubling happens only while the estimate is below the longest stored key or value, so the loop ends |
| Scan.ScanRecords | ycsb/YokanYCSB.cpp:185-268 | the paging loop terminates and returns exactly the records of the first recordCount keys from the start key on, in order, without repetition or gap |
| Scan.ExpectedMembers | ycsb/YokanYCSB.cpp:185-268 | those are the records whose keys are not below the start key |
| Scan.ExpectedRecords | ycsb/YokanYCSB.cpp:185-268 | there are recordCount of them unless the keys run out, and the i-th is read from the i-th such key |
| Scan.ScannedRecord | ycsb/YokanYCSB.cpp:247-256 | a record written with the client's format is scanned as it was, restricted to the fields asked for |
| RecordCodec.RoundTrip | ycsb/YokanYCSB.cpp:329-395 | reading a written record gives it again, restricted to the fields asked for, whatever the order of the hash map |
| RecordCodec.ParseEncoded | ycsb/YokanYCSB.cpp:366-394 | the entries of a record come back whatever bytes follow it |
| RecordCodec.ParseTruncated | ycsb/YokanYCSB.cpp:366-386 | a record cut anywhere gives the entries that are complete before the cut and no other |
| RecordCodec.SerializeRecord | ycsb/YokanYCSB.cpp:329-354 | the buffer is sized exactly and holds the encoding |
| RecordCodec.DeserializeRecord | ycsb/YokanYCSB.cpp:356-395 | on arbitrary bytes the reading loop terminates, never reads past the end and collects the first value of each field |
| Watcher.StepKeeps | include/yokan/watcher.hpp:96-144 | every interleaved step keeps: an entry still pending has an absent key, or a writer is about to notify that key |
| Watcher.NoneLost | src/backends/map.cpp:444-459 | in every state of every run in which puts notify, a reader blocked on a key that is present while nobody writes has been notified |
| Watcher.WaiterServed | src/backends/map.cpp:447-455 | and its own next three steps find the key, unless a thread is stuck in the watcher or the service shuts down |
| Watcher.PutServes | src/backends/map.cpp:351-424 | a put of any keys that takes the free lock, notifying or not, whichever keys its mode lets in, can run to its end; then exactly those keys are new in the map, nobody writes, and exactly their registered readers have been notified when it notifies, and nobody otherwise |
| Watcher.NotifyingPut | src/backends/map.cpp:405-419 | in particular after a notifying put of one key the key is there and every registered reader of it has been notified |
| Watcher.ShutdownEnds | include/yokan/watcher.hpp:75-127 | after a shutdown a registered reader whose key is not notified any more is timed out, however the run goes on: once it waits and nobody is stuck it can be woken, and then returns that it timed out |
| Watcher.StuckExactly | include/yokan/watcher.hpp:108-113 | the lookup loop of waitKey, turn by turn, never ends if and only if another entry for the same key came first |
| Watcher.StuckForEver | include/yokan/watcher.hpp:106-113 | then it keeps the mutex for ever and no other blocked reader is ever woken |
| Watcher.TwoReadersStick | include/yokan/watcher.hpp:106-113 | an example run of two readers that gets there |
| Watcher.NeverStuck | include/yokan/watcher.hpp:96-128 | with at most one reader registered per key no run gets there |
| Watcher.SilentPut | src/backends/map.cpp:405-419 | a put that does not notify keeps the promise if and only if no pending reader waits for its key |
| Watcher.LostExactly | src/backends/map.cpp:405-459 | over any run, with puts that notify and puts that do not: a reader stays blocked on a key that is there if and only if no step notified it and the key was inserted silently and not erased since |
| BulkBuffers.BestFit | src/buffer/lru_bulk_cache.cpp:18-25 | the first buffer found in the ordered map is a smallest one that is large enough, and one is found if there is one |
| BulkBuffers.HandOutKeeps | src/buffer/lru_bulk_cache.cpp:122-128 | taking a buffer from the cache keeps each buffer in exactly one place |
| BulkBuffers.AllocateKeeps | src/buffer/lru_bulk_cache.cpp:134-163 | so does allocating one |
| BulkBuffers.TakeBackKeeps | src/buffer/lru_bulk_cache.cpp:166-173 | so does returning one |
| BulkBuffers.FreeKeeps | src/buffer/lru_bulk_cache.cpp:174-181 | so does freeing one |
| LruBulkCache.TakeFits | src/buffer/lru_bulk_cache.cpp:121-128 | map and queue of every mode keep holding the same buffers of that mode, in order of release, when one is taken |
| LruBulkCache.ReleaseFits | src/buffer/lru_bulk_cache.cpp:170-183 | and when one is released; an eviction happens exactly when the queue was full and takes the buffer released longest ago |
| BulkBuffers.AllocatedSize | src/buffer/lru_bulk_cache.cpp:134 | the size of a new buffer is the request with its margin, rounded down, and never less than the request |
| LruBulkCache.Cache.Lookup | src/buffer/lru_bulk_cache.cpp:95-130 | the locked part of a request: a smallest cached buffer of the mode that is large enough leaves the cache, or the request has missed, exactly when there is none |
| LruBulkCache.Cache.Allocate | src/buffer/lru_bulk_cache.cpp:132-163 | the unlocked rest of a missed request, whatever others did in between: a new buffer at least as large as asked for, or none; no buffer has two holders |
| LruBulkCache.Cache.BeginRelease | src/buffer/lru_bulk_cache.cpp:166-168 | a release lowers the counter before it takes the lock; the buffer is still out of the cache |
| LruBulkCache.Cache.EndRelease | src/buffer/lru_bulk_cache.cpp:170-193 | the locked part returns the buffer to its mode, freeing the least recently released one exactly when the queue was full |
| LruBulkCache.Cache.Finalize | src/buffer/lru_bulk_cache.cpp:70-93 | frees exactly the cached buffers and reports how many are still held |
| KeepAllBulkCache.StepKeeps | src/buffer/keep_all_bulk_cache.cpp:79-156 | every single step of overlapping requests and releases keeps each buffer in one place and the bounds below |
| KeepAllBulkCache.RunBounded | src/buffer/keep_all_bulk_cache.cpp:79-156 | in every run from an empty cache: never fewer buffers allocated than were ever in use at once; with requests of one size and mode, allocated plus missed is exactly the peak of in use plus missed, or less when allocations fail |
| KeepAllBulkCache.PeaksReached | src/buffer/keep_all_bulk_cache.cpp:79-156 | those peaks are the largest numbers of buffers in use, and in use or missed, over all states of the run, each reached in one of them |
| KeepAllBulkCache.InUseAllocated | src/buffer/keep_all_bulk_cache.cpp:79-156 | so in no state of a run are more buffers in use than have been allocated at its end |
| KeepAllBulkCache.TightExactly | src/buffer/keep_all_bulk_cache.cpp:110-141 | all along as many allocated as were ever in use at once, if and only if every allocation still finds the cache empty |
| KeepAllBulkCache.UndisturbedTight | src/buffer/keep_all_bulk_cache.cpp:99-141 | which holds with requests of one size and mode when no release falls between a miss and its allocation |
| KeepAllBulkCache.ReleaseRace | src/buffer/keep_all_bulk_cache.cpp:108-140 | an example where one does: two buffers allocated and never two in use |
| KeepAllBulkCache.Cache.Lookup | src/buffer/keep_all_bulk_cache.cpp:79-108 | the locked part of a request is the protocol's hit with a smallest sufficient buffer, or its miss |
| KeepAllBulkCache.Cache.Allocate | src/buffer/keep_all_bulk_cache.cpp:110-141 | the unlocked rest is the protocol's allocation or failed allocation; the new buffer is in nobody else's hands |
| KeepAllBulkCache.Cache.BeginRelease | src/buffer/keep_all_bulk_cache.cpp:144-146 | the first part of a release is the protocol's leave |
| KeepAllBulkCache.Cache.EndRelease | src/buffer/keep_all_bulk_cache.cpp:147-155 | the locked part is its return |
| KeepAllBulkCache.Cache.Finalize | src/buffer/keep_all_bulk_cache.cpp:52-77 | frees exactly the cached buffers and reports how many are still held |

## Left out

- Files: mmap, msync, descriptors and the order in which pages reach the disk are not modelled; a chunk or metadata file is a byte sequence shared by all its handles, so nothing is said about crashes. Reopening is modelled only as far as `LogMetadata.ReopenKeepsRows`.
- LogCollection.Collection.Update: a call with no ids reads `ids[0]` in the source; the model asks for at least one id.
- LogCollection.Collection.Append: asks that ids, chunk numbers and file offsets stay within a machine word (`Room`), which no run that fits in storage leaves.
- LogCollection.Collection.constructor: covers fresh files only, not the mapping of files that exist already; it asks for a chunk cache of at least one handle and for chunk files below 2^63 bytes; a cache of size 0 has undefined behaviour in the source.
- Locks of the log and array backends: each operation is one step; the chunk cache's own lock and reads that overlap are not modelled.
- Collections by name: creating, looking up and dropping whole log and array collections (the chunk and metadata files that `collDrop` leaves behind in the log backend too) would add only easy members.
- Unpacked listings, and unpacked get and listing of the maps, repeat the unpacked load.
- MapDatabase.Database.ListKeyValuesPacked: without the modes that keep the last entry or ignore keys, and `listKeys`, which is one column of it.
- MapDatabase.Database.GetPacked: waiting and consuming modes are not part of it; waiting is `Watcher`, consuming is an erase after it.
- The maps themselves: std::map is a sorted sequence, its search functions are the library's; `std::unordered_map` is a finite map.
- Snapshot.Recover: reads what the writer wrote; truncated or foreign files, which the source reads without checks, are not modelled.
- StoreProtocol.StepKeeps: one collection, and put calls that store all of a batch or nothing; sizes are integers, so the wrap of a size driven below zero shows as a negative number.
- MixinStore.DocumentStore.ReserveIds: the operations are those of one collection over the ordered map, whose metadata is in the cache and little-endian.
- Dropping a collection while a store is in flight, the mixin with its locks disabled, and metadata read back from the store after a restart.
- MixinCollections.CollDrop: is handed the next id that the source reads from the metadata; the metadata cache entry that it removes is not part of the content, and the keys removed are those of the ordered map.
- MixinStore.DocumentStore.PutDocuments: puts in the plain mode only, as do DocStore and the updates; the source passes the caller's mode on.
- MixinStore.DocumentStore.DocStore: likewise in the plain mode, and as a whole only when no other call comes between its steps.
- MapDatabase.Database.Erase: without the waiting mode.
- HashDatabase.HashStore.GetPacked: without the waiting and consuming modes.
- LogDocuments.DocUpdate: asks that ids are below 2^57 (`UpdateRoom`), where the byte offsets of their rows are far from the end of a 64-bit word; the range check lets larger ones through on an empty collection.
- LogDocuments.DocIter: is not called when the iteration has no end, and neither is DocListPacked; when that is so is `LogIteration.TerminatesExactly`.
- Document listing in the mixin, and the default, Lua and library filters: a filter is any acceptance, stop verdict and rewriting.
- Scan.ScanRecords: record counts are not negative, and no stored key is empty, as the client's put refuses them; the transport between client and server is not modelled.
- RecordCodec.SerializeRecord: words are little-endian, as on the hosts that write and read a record.
- Watcher.StepKeeps: puts in all modes are an insertion with or without notification or a skip; time-outs other than at shutdown do not exist in the source.
- BulkBuffers.AllocatedSize: the margin is a non-negative real and the size is rounded down, without the source's floating-point rounding, which can fall below very large requests; failures of the allocator and of bulk registration are one outcome.
- BulkBuffers.AllocateKeeps: asks that the allocator gives an address that no live buffer has.
- Other backends, RPC, the Python and bedrock modules, JSON configuration, logging and the benchmark drivers.
