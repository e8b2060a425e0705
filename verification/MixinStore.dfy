/** The mixin over the ordered map. */
module MixinStore {
  // The document operations of the mixin over the ordered map. Every critical section and every put or erase of
  // the key-value store is a method here, and takes the step of the protocol that it stands for; whatever order
  // concurrent calls run them in, the protocol's invariant and its conclusions hold of the real content.

  import opened Basics
  import opened Words
  import opened Documents
  import opened KeyCodec
  import opened KeyValueMap
  import opened MapDatabase
  import opened MixinCollections
  import P = StoreProtocol

  // ---- What the key-value store holds ----

  /** A collection's metadata as it lies in memory: its size, then its next id. */
  function MetadataBytes(size: int, nextId: nat): bytes {
    EncodeU64(Wrap(size)) + EncodeU64(Wrap(nextId))
  }

  /** The size is the first word and the next id the second. */
  lemma MetadataWords(size: int, nextId: nat)
    ensures |MetadataBytes(size, nextId)| == 16
    ensures WordAt(MetadataBytes(size, nextId), 0) == Wrap(size)
    ensures WordAt(MetadataBytes(size, nextId), 8) == Wrap(nextId)
  {
    var data := MetadataBytes(size, nextId);
    assert data[0..8] == EncodeU64(Wrap(size)) && data[8..16] == EncodeU64(Wrap(nextId));
  }

  function DocOf(docs: map<nat, bytes>, id: nat): Option<bytes> {
    if id in docs then Some(docs[id]) else None
  }

  /** Under the collection's document keys the store holds exactly these documents. */
  ghost predicate HoldsDocs(m: KeyValues, host: Endianness, name: bytes, docs: map<nat, bytes>) {
    && (forall id: u64 :: Lookup(m, KeyFromId(host, name, id)) == DocOf(docs, id))
    && (forall id | id in docs :: id < TWO_TO_THE_64)
  }

  /** A key of this collection. */
  predicate Own(name: bytes, key: bytes) {
    key == name || IsDocumentKey(name, key)
  }

  /** Nothing but this collection's keys has changed. */
  ghost predicate OthersKept(m: KeyValues, m': KeyValues, name: bytes) {
    forall key | !Own(name, key) :: Lookup(m', key) == Lookup(m, key)
  }

  lemma PutOneDoc(m: KeyValues, host: Endianness, name: bytes, docs: map<nat, bytes>, id: u64, val: bytes)
    requires HoldsDocs(m, host, name, docs)
    ensures HoldsDocs(PutOne(m, PLAIN, KeyFromId(host, name, id), val), host, name, docs[id := val])
  {
    var key := KeyFromId(host, name, id);
    hide KeyFromId;
    forall other: u64 ensures Lookup(m[key := val], KeyFromId(host, name, other)) == DocOf(docs[id := val], other) {
      KeysInjective(host, name, other, name, id);
    }
  }

  lemma {:induction false} PutAllSnoc(m: KeyValues, keys: seq<bytes>, vals: seq<bytes>, key: bytes, val: bytes, i: nat)
    requires i <= |keys| == |vals|
    ensures PutAll(m, PLAIN, keys + [key], vals + [val], i) == PutOne(PutAll(m, PLAIN, keys, vals, i), PLAIN, key, val)
    decreases |keys| - i
  {
    hide PutOne;
    if i < |keys| {
      PutAllSnoc(PutOne(m, PLAIN, keys[i], vals[i]), keys, vals, key, val, i + 1);
    } else {
      PutAllStep(m, PLAIN, keys + [key], vals + [val], i);
      PutAllStep(PutOne(m, PLAIN, key, val), PLAIN, keys + [key], vals + [val], i + 1);
    }
  }

  /** Ids as the mixin's key builder takes them. */
  predicate Words64(ids: seq<nat>) {
    forall i | 0 <= i < |ids| :: ids[i] < TWO_TO_THE_64
  }

  function ToWords(ids: seq<nat>): (r: seq<u64>)
    requires Words64(ids)
    ensures |r| == |ids| && forall i | 0 <= i < |ids| :: r[i] == ids[i]
  {
    seq(|ids|, i requires 0 <= i < |ids| => ids[i] as u64)
  }

  lemma KeysSnoc(host: Endianness, name: bytes, ids: seq<nat>)
    requires Words64(ids) && ids != []
    ensures var n := |ids| - 1;
            && Words64(ids[..n])
            && KeyList(host, name, ToWords(ids)) == KeyList(host, name, ToWords(ids[..n]))
                                                     + [KeyFromId(host, name, ids[n])]
  {
    hide KeyFromId;
  }

  /** Putting the keys of a batch puts the documents. */
  lemma {:induction false} PutBatchHolds(m: KeyValues, host: Endianness, name: bytes, docs: map<nat, bytes>,
                                         ids: seq<nat>, batch: seq<bytes>)
    requires HoldsDocs(m, host, name, docs) && Words64(ids) && |ids| == |batch|
    ensures HoldsDocs(PutAll(m, PLAIN, KeyList(host, name, ToWords(ids)), batch, 0), host, name,
                      P.PutBatch(docs, ids, batch))
  {
    hide HoldsDocs, KeyFromId, PutOne, KeyList, ToWords;
    if ids == [] {
      NoKeys(host, name, ids);
    } else {
      var n := |ids| - 1;
      KeysSnoc(host, name, ids);
      var keys := KeyList(host, name, ToWords(ids[..n]));
      PutBatchHolds(m, host, name, docs, ids[..n], batch[..n]);
      assert batch == batch[..n] + [batch[n]];
      KeyListSize(host, name, ids[..n]);
      PutAllSnoc(m, keys, batch[..n], KeyFromId(host, name, ids[n]), batch[n], 0);
      PutOneDoc(PutAll(m, PLAIN, keys, batch[..n], 0), host, name, P.PutBatch(docs, ids[..n], batch[..n]), ids[n],
                batch[n]);
    }
  }

  lemma NoKeys(host: Endianness, name: bytes, ids: seq<nat>)
    requires ids == []
    ensures Words64(ids) && KeyList(host, name, ToWords(ids)) == []
  {
  }

  lemma KeyListSize(host: Endianness, name: bytes, ids: seq<nat>)
    requires Words64(ids)
    ensures |KeyList(host, name, ToWords(ids))| == |ids|
  {
  }

  lemma KeysAreOwn(host: Endianness, name: bytes, ids: seq<nat>, key: bytes)
    requires Words64(ids) && key in KeyList(host, name, ToWords(ids))
    ensures IsDocumentKey(name, key) && (0 !in name ==> key != name)
  {
    hide KeyFromId, IsDocumentKey;
    var i :| 0 <= i < |ids| && KeyFromId(host, name, ids[i]) == key;
    KeyIsDocumentKey(host, name, ids[i]);
    KeyHasLength(host, name, ids[i]);
  }

  /** And leaves every other key alone, the collection's metadata among them. */
  lemma PutBatchSpares(m: KeyValues, host: Endianness, name: bytes, ids: seq<nat>, batch: seq<bytes>, key: bytes)
    requires Words64(ids) && |ids| == |batch| && (key == name || !IsDocumentKey(name, key)) && 0 !in name
    ensures |KeyList(host, name, ToWords(ids))| == |batch|
    ensures Lookup(PutAll(m, PLAIN, KeyList(host, name, ToWords(ids)), batch, 0), key) == Lookup(m, key)
  {
    hide KeyFromId, IsDocumentKey, KeyList, PutAll;
    var keys := KeyList(host, name, ToWords(ids));
    KeyListSize(host, name, ids);
    PutAllMeans(m, keys, batch, 0, key);
    if key in keys {
      KeysAreOwn(host, name, ids, key);
    }
    assert keys[0..] == keys;
  }

  lemma EraseHolds(m: KeyValues, host: Endianness, name: bytes, docs: map<nat, bytes>, ids: seq<nat>, gone: set<bytes>)
    requires HoldsDocs(m, host, name, docs) && Words64(ids)
    requires forall key :: key in gone <==> key in KeyList(host, name, ToWords(ids))
    ensures HoldsDocs(m - gone, host, name, docs - P.Elements(ids))
  {
    hide KeyFromId;
    forall id: u64 ensures KeyFromId(host, name, id) in gone <==> id in P.Elements(ids) {
      if id in P.Elements(ids) {
        var i :| 0 <= i < |ids| && ids[i] == id;
        assert KeyList(host, name, ToWords(ids))[i] == KeyFromId(host, name, id);
      } else if KeyFromId(host, name, id) in gone {
        var i :| 0 <= i < |ids| && KeyList(host, name, ToWords(ids))[i] == KeyFromId(host, name, id);
        KeysInjective(host, name, id, name, ids[i]);
      }
    }
    forall id: u64 ensures Lookup(m - gone, KeyFromId(host, name, id)) == DocOf(docs - P.Elements(ids), id) {
      assert Lookup(m, KeyFromId(host, name, id)) == DocOf(docs, id);
    }
  }

  /** A batch under the ids from `first` on. */
  function DocMap(first: nat, docs: seq<bytes>): map<nat, bytes> {
    map id | id in P.IdSet(first, |docs|) :: docs[id - first]
  }

  lemma DocMapSnoc(first: nat, batch: seq<bytes>, doc: bytes)
    ensures DocMap(first, []) == map[]
    ensures DocMap(first, batch + [doc]) == DocMap(first, batch)[first + |batch| := doc]
  {
  }

  /** The ids of one store, put in order, are the documents of its range. */
  lemma {:induction false} PutRange(docs: map<nat, bytes>, first: nat, batch: seq<bytes>)
    ensures P.PutBatch(docs, Range(first, |batch|), batch) == docs + DocMap(first, batch)
  {
    hide DocMap, Range;
    if batch != [] {
      var n := |batch| - 1;
      PutRange(docs, first, batch[..n]);
      RangeNext(first, n);
      DocMapSnoc(first, batch[..n], batch[n]);
      assert batch[..n] + [batch[n]] == batch;
      assert Range(first, |batch|)[..n] == Range(first, n) && Range(first, |batch|)[n] == first + n;
    } else {
      DocMapSnoc(first, [], []);
    }
  }

  lemma StoredRange(docs: map<nat, bytes>, first: u64, batch: seq<bytes>)
    ensures first + |batch| <= TWO_TO_THE_64 ==>
              P.PutBatch(docs, P.Given(first, |batch|), batch) == docs + DocMap(first, batch)
  {
    if first + |batch| <= TWO_TO_THE_64 {
      P.GivenSet(first, |batch|);
      PutRange(docs, first, batch);
    }
  }

  // ---- The state of one collection ----

  /** The content and the cached metadata of a collection stand for a state of the protocol. */
  ghost predicate Represents(m: KeyValues, host: Endianness, name: bytes, size: u64, nextId: u64, s: P.State) {
    && HoldsDocs(m, host, name, s.docs)
    && Lookup(m, name) == Some(MetadataBytes(s.stored.size, s.stored.nextId))
    && size == Wrap(s.cached.size) && nextId == s.cached.nextId
  }

  /** Metadata written to its key: the documents stay, the stored metadata is the written one. */
  lemma FlushRepresents(m: KeyValues, host: Endianness, name: bytes, size: u64, nextId: u64, s: P.State, size': int,
                        nextId': nat)
    requires Represents(m, host, name, size, nextId, s) && 0 !in name && nextId' < TWO_TO_THE_64
    ensures Represents(m[name := MetadataBytes(size', nextId')], host, name, Wrap(size'), nextId',
                       P.Flush(s, P.Metadata(size', nextId')))
  {
    var m' := m[name := MetadataBytes(size', nextId')];
    hide KeyFromId, MetadataBytes;
    forall id: u64 ensures Lookup(m', KeyFromId(host, name, id)) == DocOf(s.docs, id) {
      KeysInjective(host, name, id, name, id);
    }
  }

  /** A batch of documents put under their keys. */
  lemma PutRepresents(m: KeyValues, host: Endianness, name: bytes, size: u64, nextId: u64, s: P.State, ids: seq<nat>,
                      batch: seq<bytes>)
    requires Represents(m, host, name, size, nextId, s) && 0 !in name && Words64(ids) && |ids| == |batch|
    ensures |KeyList(host, name, ToWords(ids))| == |batch|
    ensures var m' := PutAll(m, PLAIN, KeyList(host, name, ToWords(ids)), batch, 0);
            && Represents(m', host, name, size, nextId, s.(docs := P.PutBatch(s.docs, ids, batch)))
            && OthersKept(m, m', name)
  {
    PutBatchHolds(m, host, name, s.docs, ids, batch);
    PutBatchSpares(m, host, name, ids, batch, name);
    var m' := PutAll(m, PLAIN, KeyList(host, name, ToWords(ids)), batch, 0);
    hide HoldsDocs, KeyList, PutAll, ToWords, Words64;
    forall key | !Own(name, key) ensures Lookup(m', key) == Lookup(m, key) {
      PutBatchSpares(m, host, name, ids, batch, key);
    }
  }

  lemma EraseRepresents(m: KeyValues, host: Endianness, name: bytes, size: u64, nextId: u64, s: P.State, ids: seq<nat>,
                        gone: set<bytes>)
    requires Represents(m, host, name, size, nextId, s) && 0 !in name && Words64(ids)
    requires forall key :: key in gone <==> key in KeyList(host, name, ToWords(ids))
    ensures Represents(m - gone, host, name, size, nextId, s.(docs := s.docs - P.Elements(ids)))
    ensures OthersKept(m, m - gone, name)
  {
    EraseHolds(m, host, name, s.docs, ids, gone);
    hide HoldsDocs, KeyList, ToWords, Words64;
    forall key | key in gone ensures IsDocumentKey(name, key) && key != name {
      KeysAreOwn(host, name, ids, key);
    }
  }

  // ---- Several collections in one store ----

  lemma OtherKeysAreForeign(host: Endianness, name: bytes, other: bytes, id: u64)
    requires 0 !in name && 0 !in other && name != other
    ensures !Own(name, other) && !Own(name, KeyFromId(host, other, id))
  {
    hide KeyFromId, IsDocumentKey;
    NameIsNoKey(name, other);
    OtherKey(host, name, other, id);
    KeysInjective(host, other, id, name, id);
  }

  /** Whatever a step does to one collection's keys, every other collection stands for the state it stood for. */
  lemma OtherCollectionKept(m: KeyValues, m': KeyValues, name: bytes, host: Endianness, other: bytes, size: u64,
                            nextId: u64, s: P.State)
    requires OthersKept(m, m', name) && 0 !in name && 0 !in other && name != other
    requires Represents(m, host, other, size, nextId, s)
    ensures Represents(m', host, other, size, nextId, s)
  {
    hide KeyFromId, Own, MetadataBytes;
    OtherKeysAreForeign(host, name, other, 0);
    forall id: u64 ensures Lookup(m', KeyFromId(host, other, id)) == Lookup(m, KeyFromId(host, other, id)) {
      OtherKeysAreForeign(host, name, other, id);
    }
  }

  /** So a step of one collection leaves the other collections of the same store valid. */
  twostate lemma OthersStayValid(a: DocumentStore, b: DocumentStore)
    requires old(b.Valid()) && unchanged(b) && a.db == b.db && 0 !in a.name && a.name != b.name
    requires b.db.Valid() && OthersKept(old(a.db.Content()), a.db.Content(), a.name)
    ensures b.Valid()
  {
    hide OthersKept, Represents;
    OtherCollectionKept(old(b.db.Content()), b.db.Content(), a.name, b.host, b.name, b.cachedSize, b.cachedNextId, b.s);
  }

  /** The three steps of a store that nothing comes between, and what they leave. */
  lemma ReservedIs(s: P.State, docs: seq<bytes>)
    requires s.holder.None?
    ensures P.Enabled(s, P.Reserve(docs))
    ensures var s1, k := P.Apply(s, P.Reserve(docs)), |s.stores|;
            && P.Enabled(s1, P.Write(k)) && P.Enabled(s1, P.WriteFails(k)) && k < |s1.stores|
            && s1.stores[k] == P.StoreCall(s.cached.nextId, docs, P.Reserved)
            && s1.cached.nextId == Wrap(s.cached.nextId + |docs|)
            && s1.cached.size == s.cached.size && s1.stored == s.stored && s1.docs == s.docs
            && (var failed := P.Apply(s1, P.WriteFails(k));
                && failed.docs == s.docs && failed.cached == s1.cached && failed.stored == s.stored)
            && var s2 := P.Apply(s1, P.Write(k));
               && P.Enabled(s2, P.Commit(k)) && k < |s2.stores| && |s2.stores[k].docs| == |docs|
               && s2.cached == s1.cached
               && var s3 := P.Apply(s2, P.Commit(k));
                  && s3.docs == P.PutBatch(s.docs, P.Given(s.cached.nextId, |docs|), docs)
                  && s3.cached.size == s.cached.size + |docs| && s3.stored == s3.cached
                  && s3.cached.nextId == s1.cached.nextId
  {
    hide Wrap, P.Given, P.PutBatch;
  }

  class DocumentStore {
    const db: Database
    const host: Endianness
    const name: bytes
    // the collection's entry in the metadata cache
    var cachedSize: u64
    var cachedNextId: u64
    ghost var s: P.State

    ghost predicate Valid() reads this, db {
      && name != [] && 0 !in name && db.Valid()
      && Represents(db.Content(), host, name, cachedSize, cachedNextId, s)
    }

    /** collCreate: an empty collection is recorded in the store and in the cache. */
    constructor (db: Database, host: Endianness, name: bytes)
      requires name != [] && 0 !in name && db.Valid() && forall key | key in db.Content() :: !Own(name, key)
      modifies db
      ensures this.db == db && this.host == host && this.name == name && Valid() && s == P.Init()
      ensures OthersKept(old(db.Content()), db.Content(), name)
    {
      var zero: u64 := 0;
      hide *;
      CreateRepresents(db.Content(), host, name);
      PutMetadata(db, name, zero, zero);
      this.db := db;
      this.host := host;
      this.name := name;
      cachedSize := zero;
      cachedNextId := zero;
      s := P.Init();
      new;
      MakeValid();
    }

    /** A collection's metadata put under its name. */
    static method PutMetadata(db: Database, name: bytes, size: u64, nextId: u64)
      requires db.Valid()
      modifies db
      ensures db.Valid() && db.Content() == old(db.Content())[name := MetadataBytes(size, nextId)]
    {
      var bytes := EncodeU64(size) + EncodeU64(nextId);
      OneItem(name);
      OneItem(bytes);
      PutOneIs(db.Content(), name, bytes);
      MetadataIs(size, nextId);
      hide *;
      var status := db.Put(PLAIN, name, [|name|], bytes, [|bytes|]);
    }

    /** _collPutMetadata with a flush: the store first, then the cache. */
    method FlushMetadata(size: u64, nextId: u64)
      requires db.Valid()
      modifies db, this`cachedSize, this`cachedNextId
      ensures db.Valid() && db.Content() == old(db.Content())[name := MetadataBytes(size, nextId)]
      ensures cachedSize == size && cachedNextId == nextId
    {
      hide *;
      PutMetadata(db, name, size, nextId);
      cachedSize, cachedNextId := size, nextId;
    }

    /** The first critical section of a store: ids are handed out and the cache moves on. */
    method ReserveIds(count: nat, ghost docs: seq<bytes>) returns (ids: seq<nat>)
      requires Valid() && |docs| == count && P.Enabled(s, P.Reserve(docs))
      modifies this
      ensures Valid() && s == P.Apply(old(s), P.Reserve(docs))
      ensures ids == P.Given(old(s).cached.nextId, count) && Words64(ids)
    {
      ids := P.Given(cachedNextId, count);
      cachedNextId := Wrap(cachedNextId + count);
      s := P.Apply(s, P.Reserve(docs));
    }

    /** One call to put with the keys of the ids. */
    method PutBatch(ids: seq<nat>, documents: bytes, sizes: seq<nat>) returns (status: Status)
      requires Valid() && Words64(ids)
      modifies db
      ensures db.Valid() && OthersKept(old(db.Content()), db.Content(), name)
      ensures status == OK <==> |sizes| == |ids| && IsBatch(documents, sizes)
      ensures status == OK ==>
                Represents(db.Content(), host, name, cachedSize, cachedNextId,
                           s.(docs := P.PutBatch(s.docs, ids, Slices(documents, sizes))))
      ensures status != OK ==> status == InvalidArg && db.items == old(db.items) && db.Content() == old(db.Content())
    {
      hide *;
      ValidParts();
      var words := ToWords(ids);
      var buffer := KeysFromIds(host, name, words);
      var ksizes: seq<nat> := seq(|ids|, _ => |name| + 9);
      ghost var list := KeyList(host, name, words);
      KeySizes(host, name, words);
      PackedBatch(list);
      PlainOk(db.Content(), list);
      if |sizes| == |ids| && IsBatch(documents, sizes) {
        PutRepresents(db.Content(), host, name, cachedSize, cachedNextId, s, ids, Slices(documents, sizes));
      }
      SameOthers(db.Content(), name);
      db.ContentIs();
      status := db.Put(PLAIN, buffer[..], ksizes, documents, sizes);
      db.ContentIs();
    }

    lemma ValidParts()
      requires Valid()
      ensures name != [] && 0 !in name && db.Valid()
              && Represents(db.Content(), host, name, cachedSize, cachedNextId, s)
    {
    }

    /** The put of a store, outside the lock. */
    method PutDocuments(ghost k: nat, ids: seq<nat>, documents: bytes, sizes: seq<nat>) returns (status: Status)
      requires Valid() && P.Enabled(s, P.Write(k)) && Words64(ids)
      requires ids == P.Given(s.stores[k].first, |s.stores[k].docs|)
      requires |sizes| == |ids| && IsBatch(documents, sizes) ==> Slices(documents, sizes) == s.stores[k].docs
      modifies this`s, db
      ensures Valid() && OthersKept(old(db.Content()), db.Content(), name)
      ensures status == if |sizes| == |ids| && IsBatch(documents, sizes) then OK else InvalidArg
      ensures s == P.Apply(old(s), if status == OK then P.Write(k) else P.WriteFails(k))
    {
      status := PutBatch(ids, documents, sizes);
      s := P.Apply(s, if status == OK then P.Write(k) else P.WriteFails(k));
    }

    /** The last critical section of a store: its documents are counted, in the store and in the cache. */
    method Commit(ghost k: nat, count: nat)
      requires Valid() && P.Enabled(s, P.Commit(k)) && count == |s.stores[k].docs|
      modifies this, db
      ensures Valid() && s == P.Apply(old(s), P.Commit(k)) && OthersKept(old(db.Content()), db.Content(), name)
    {
      FlushStep(count, cachedNextId);
      s := P.Apply(s, P.Commit(k));
    }

    /** docStore as a whole, when no other call comes between its steps. */
    method DocStore(documents: bytes, sizes: seq<nat>, count: nat) returns (status: Status, ids: seq<nat>)
      requires Valid() && s.holder.None?
      modifies this, db
      ensures Valid() && OthersKept(old(db.Content()), db.Content(), name)
      ensures status == if |sizes| == count && IsBatch(documents, sizes) then OK else InvalidArg
      ensures ids == P.Given(old(s).cached.nextId, count)
      ensures s.cached.nextId == Wrap(old(s).cached.nextId + count)
      ensures status == OK ==>
                && s.docs == P.PutBatch(old(s).docs, ids, Slices(documents, sizes))
                && (old(s).cached.nextId + count <= TWO_TO_THE_64 ==>
                      s.docs == old(s).docs + DocMap(old(s).cached.nextId, Slices(documents, sizes)))
                && s.cached.size == old(s).cached.size + count && s.stored == s.cached
      ensures status != OK ==> s.docs == old(s).docs && s.cached.size == old(s).cached.size && s.stored == old(s).stored
    {
      ghost var docs: seq<bytes> :=
        if |sizes| == count && IsBatch(documents, sizes) then Slices(documents, sizes) else seq(count, _ => []);
      hide *;
      ghost var m := db.Content();
      ghost var k := |s.stores|;
      ValidParts();
      StoredRange(s.docs, cachedNextId, docs);
      CachedNext(db.Content());
      ReservedIs(s, docs);
      ids := ReserveIds(count, docs);
      status := PutDocuments(k, ids, documents, sizes);
      if status == OK {
        ghost var mid := db.Content();
        Commit(k, count);
        OthersTwice(m, mid, db.Content(), name);
      }
    }

    lemma CachedNext(m: KeyValues)
      requires Represents(m, host, name, cachedSize, cachedNextId, s)
      ensures cachedNextId == s.cached.nextId
    {
    }

    /** Add to the size and flush, whatever else changes in the state of the protocol. */
    method FlushStep(delta: int, nextId: u64)
      requires Valid()
      modifies this`cachedSize, this`cachedNextId, db
      ensures db.Valid() && OthersKept(old(db.Content()), db.Content(), name)
      ensures Represents(db.Content(), host, name, cachedSize, cachedNextId,
                         P.Flush(s, P.Metadata(s.cached.size + delta, nextId)))
    {
      hide *;
      ValidParts();
      SizeStep(db.Content(), host, name, cachedSize, cachedNextId, s, delta, nextId);
      FlushMetadata(Wrap(cachedSize + delta), nextId);
    }

    /** The keys of the ids in one buffer, each as long as the others. */
    method KeyBuffer(ids: seq<nat>) returns (keys: bytes, ksizes: seq<nat>)
      requires Words64(ids)
      ensures var list := KeyList(host, name, ToWords(ids));
              keys == Concat(list) && ksizes == Lengths(list) && |ksizes| == |ids|
    {
      var buffer := KeysFromIds(host, name, ToWords(ids));
      keys, ksizes := buffer[..], seq(|ids|, _ => |name| + 9);
      KeySizes(host, name, ToWords(ids));
    }

    /** How many of the ids have a document: a call to exists, and the count of its bits. */
    method CountExisting(ids: seq<nat>) returns (count: nat)
      requires Valid() && Words64(ids)
      ensures count == P.CountIn(ids, s.docs)
    {
      hide *;
      ValidParts();
      var i: nat := 0;
      count := 0;
      CountNone(ids, s.docs);
      while i < |ids|
        invariant i <= |ids| && count == P.CountIn(ids[..i], s.docs)
      {
        CountNext(ids, s.docs, i);
        WordAtIndex(ids, i);
        var key := KeyFromId(host, name, ids[i]);
        ExistsDoc(key, ids[i]);
        if Find(db.items, key).Some? {
          count := count + 1;
        }
        i := i + 1;
      }
      assert ids[..i] == ids;
    }

    lemma ExistsDoc(key: bytes, id: u64)
      requires Valid() && key == KeyFromId(host, name, id)
      ensures Find(db.items, key).Some? <==> id in s.docs
    {
      hide KeyFromId, Find;
      FindIsLookup(db.items, key);
    }

    /** docErase, first call under the lock. The count stays with the caller. */
    method EraseBegin(ids: seq<nat>) returns (counted: nat)
      requires Valid() && Words64(ids) && P.Enabled(s, P.EraseBegin(ids))
      modifies this`s
      ensures Valid() && s == P.Apply(old(s), P.EraseBegin(ids)) && s.holder == Some(P.Erasing(ids, counted))
    {
      counted := CountExisting(ids);
      s := P.Apply(s, P.EraseBegin(ids));
    }

    /** docErase, the erase and the flush of the metadata that the lock still protects. */
    method EraseEnd(ids: seq<nat>, counted: nat) returns (status: Status)
      requires Valid() && Words64(ids) && s.holder == Some(P.Erasing(ids, counted))
      modifies this, db
      ensures status == OK && Valid() && s == P.Apply(old(s), P.EraseEnd)
      ensures s.docs.Keys == old(s).docs.Keys - (set id | id in ids) && s.cached.size == old(s).cached.size - counted
      ensures s.cached.nextId == old(s).cached.nextId && s.stored == s.cached
      ensures OthersKept(old(db.Content()), db.Content(), name)
    {
      ghost var m := db.Content();
      ghost var before := s;
      status := EraseKeys(ids);
      ghost var mid := db.Content();
      s := s.(docs := s.docs - P.Elements(ids));
      var delta: int := 0 - counted;
      FlushStep(delta, cachedNextId);
      s := P.Apply(before, P.EraseEnd);
    }

    method EraseKeys(ids: seq<nat>) returns (status: Status)
      requires Valid() && Words64(ids)
      modifies db
      ensures status == OK && db.Valid() && OthersKept(old(db.Content()), db.Content(), name)
      ensures Represents(db.Content(), host, name, cachedSize, cachedNextId, s.(docs := s.docs - P.Elements(ids)))
    {
      hide *;
      ValidParts();
      var keys, ksizes := KeyBuffer(ids);
      ghost var list := KeyList(host, name, ToWords(ids));
      BatchErased(keys, ksizes, list, []);
      forall key ensures key in KeysUpTo(keys, ksizes, |ksizes|) <==> key in list {
        BatchErased(keys, ksizes, list, key);
      }
      EraseRepresents(db.Content(), host, name, cachedSize, cachedNextId, s, ids, KeysUpTo(keys, ksizes, |ksizes|));
      status := db.Erase(keys, ksizes);
    }

    /** docUpdate without the mode that allows new ids: a range check, then a put. */
    method UpdateExisting(ids: seq<nat>, documents: bytes, sizes: seq<nat>) returns (status: Status)
      requires Valid() && Words64(ids) && s.holder.None?
      modifies this`s, db
      ensures Valid() && OthersKept(old(db.Content()), db.Content(), name)
      ensures status == InvalidID <==> exists i :: 0 <= i < |ids| && ids[i] >= cachedNextId
      ensures status == OK <==>
                && |ids| == |sizes| && IsBatch(documents, sizes)
                && forall i | 0 <= i < |ids| :: ids[i] < cachedNextId
      ensures status == OK || status == InvalidID || status == InvalidArg
      ensures status == OK ==>
                && P.Enabled(old(s), P.UpdateExisting(ids, Slices(documents, sizes)))
                && s == P.Apply(old(s), P.UpdateExisting(ids, Slices(documents, sizes)))
                && s.docs == P.PutBatch(old(s).docs, ids, Slices(documents, sizes)) && s.cached == old(s).cached
      ensures status != OK ==> s == old(s) && db.items == old(db.items)
    {
      var i := 0;
      while i < |ids|
        invariant 0 <= i <= |ids| && forall j | 0 <= j < i :: ids[j] < cachedNextId
      {
        if ids[i] >= cachedNextId {
          return InvalidID;
        }
        i := i + 1;
      }
      hide HoldsDocs, MetadataBytes, P.PutBatch, Slices, IsBatch, OthersKept;
      status := PutBatch(ids, documents, sizes);
      if status == OK {
        s := P.Apply(s, P.UpdateExisting(ids, Slices(documents, sizes)));
      }
    }

    /** docUpdate with that mode, first call under the lock: count the existing ids and find the largest. */
    method UpdateBegin(ids: seq<nat>, ghost docs: seq<bytes>) returns (existing: nat, maxId: nat)
      requires Valid() && Words64(ids) && P.Enabled(s, P.UpdateBegin(ids, docs))
      modifies this`s
      ensures Valid() && s == P.Apply(old(s), P.UpdateBegin(ids, docs))
      ensures s.holder == Some(P.Updating(ids, existing, docs)) && maxId + 1 == P.Above(ids)
    {
      existing := CountExisting(ids);
      maxId := MaxOf(ids);
      s := P.Apply(s, P.UpdateBegin(ids, docs));
    }

    /** docUpdate, the put and the flush of size and next id that the lock still protects. */
    method UpdateEnd(ids: seq<nat>, existing: nat, maxId: nat, documents: bytes, sizes: seq<nat>,
                     ghost docs: seq<bytes>)
      returns (status: Status)
      requires Valid() && Words64(ids) && s.holder == Some(P.Updating(ids, existing, docs)) && |docs| == |ids|
      requires maxId + 1 == P.Above(ids)
      requires |sizes| == |ids| && IsBatch(documents, sizes) ==> Slices(documents, sizes) == docs
      modifies this, db
      ensures Valid() && OthersKept(old(db.Content()), db.Content(), name)
      ensures status == if |sizes| == |ids| && IsBatch(documents, sizes) then OK else InvalidArg
      ensures s == P.Apply(old(s), if status == OK then P.UpdateEnd else P.UpdateFails)
      ensures status == OK ==>
                && s.docs == P.PutBatch(old(s).docs, ids, docs) && s.stored == s.cached
                && s.cached == P.Metadata(old(s).cached.size + |ids| - existing, Wrap(maxId + 1))
      ensures status != OK ==> db.items == old(db.items)
    {
      hide *;
      ghost var before, m := s, db.Content();
      UpdateEndIs(s, ids, docs, existing, maxId);
      ValidParts();
      status := PutBatch(ids, documents, sizes);
      if status == OK {
        s := before.(docs := P.PutBatch(before.docs, ids, docs));
        StillRepresents(db.Content(), s, s.(holder := None));
        s := s.(holder := None);
        MakeValid();
        ghost var mid := db.Content();
        FlushStep(|ids| - existing, Wrap(maxId + 1));
        OthersTwice(m, mid, db.Content(), name);
        s := P.Apply(before, P.UpdateEnd);
      } else {
        StillRepresents(db.Content(), s, s.(holder := None));
        s := s.(holder := None);
      }
      MakeValid();
    }

    lemma StillRepresents(m: KeyValues, before: P.State, after: P.State)
      requires Represents(m, host, name, cachedSize, cachedNextId, before) && after == before.(holder := None)
      ensures Represents(m, host, name, cachedSize, cachedNextId, after)
    {
    }

    /** docUpdate with that mode as a whole, when no other call comes between its steps. */
    method UpdateNew(ids: seq<nat>, documents: bytes, sizes: seq<nat>) returns (status: Status)
      requires Valid() && Words64(ids) && s.holder.None?
      modifies this, db
      ensures Valid() && OthersKept(old(db.Content()), db.Content(), name)
      ensures status == if |ids| == |sizes| && IsBatch(documents, sizes) then OK else InvalidArg
      ensures status == OK ==>
                var docs := Slices(documents, sizes);
                s == P.Apply(P.Apply(old(s), P.UpdateBegin(ids, docs)), P.UpdateEnd)
      ensures status != OK ==> s == old(s) && db.items == old(db.items)
    {
      ghost var docs: seq<bytes> :=
        if |sizes| == |ids| && IsBatch(documents, sizes) then Slices(documents, sizes) else seq(|ids|, _ => []);
      hide OthersKept, Represents, IsBatch, Slices, Words64, P.PutBatch, P.Above, P.CountIn;
      var existing, maxId := UpdateBegin(ids, docs);
      status := UpdateEnd(ids, existing, maxId, documents, sizes, docs);
    }

    lemma MakeValid()
      requires name != [] && 0 !in name && db.Valid()
               && Represents(db.Content(), host, name, cachedSize, cachedNextId, s)
      ensures Valid()
    {
    }

    method MaxOf(ids: seq<nat>) returns (maxId: nat)
      ensures maxId + 1 == P.Above(ids)
    {
      maxId := 0;
      var i := 0;
      while i < |ids|
        invariant 0 <= i <= |ids| && forall k | 0 <= k < i :: ids[k] <= maxId
        invariant maxId == 0 || exists k :: 0 <= k < i && ids[k] == maxId
      {
        if ids[i] > maxId {
          maxId := ids[i];
        }
        i := i + 1;
      }
    }
  }

  lemma UpdateEndIs(s: P.State, ids: seq<nat>, docs: seq<bytes>, existing: nat, maxId: nat)
    requires s.holder == Some(P.Updating(ids, existing, docs)) && |ids| == |docs| && maxId + 1 == P.Above(ids)
    ensures P.Enabled(s, P.UpdateEnd) && P.Enabled(s, P.UpdateFails)
    ensures P.Apply(s, P.UpdateFails) == s.(holder := None)
    ensures P.Flush(s.(docs := P.PutBatch(s.docs, ids, docs), holder := None),
                    P.Metadata(s.cached.size + (|ids| - existing), Wrap(maxId + 1))) == P.Apply(s, P.UpdateEnd)
    ensures var t := P.Apply(s, P.UpdateEnd);
            && t.docs == P.PutBatch(s.docs, ids, docs) && t.stored == t.cached
            && t.cached == P.Metadata(s.cached.size + (|ids| - existing), Wrap(maxId + 1))
  {
  }

  lemma SizeStep(m: KeyValues, host: Endianness, name: bytes, size: u64, nextId: u64, s: P.State, delta: int,
                 nextId': u64)
    requires Represents(m, host, name, size, nextId, s) && 0 !in name
    ensures var m' := m[name := MetadataBytes(Wrap(size + delta), nextId')];
            && Represents(m', host, name, Wrap(size + delta), nextId',
                          P.Flush(s, P.Metadata(s.cached.size + delta, nextId')))
            && OthersKept(m, m', name)
  {
    WrapAdd(s.cached.size, delta);
    MetadataWraps(s.cached.size + delta, nextId');
    hide MetadataBytes, HoldsDocs;
    FlushRepresents(m, host, name, size, nextId, s, s.cached.size + delta, nextId');
  }

  lemma MetadataWraps(size: int, nextId: nat)
    ensures MetadataBytes(Wrap(size), nextId) == MetadataBytes(size, nextId)
  {
    WrapAdd(size, 0);
  }

  lemma CountNone(ids: seq<nat>, docs: map<nat, bytes>)
    ensures P.CountIn(ids[..0], docs) == 0
  {
  }

  lemma CountNext(ids: seq<nat>, docs: map<nat, bytes>, i: nat)
    requires i < |ids|
    ensures P.CountIn(ids[..i + 1], docs) == P.CountIn(ids[..i], docs) + if ids[i] in docs then 1 else 0
  {
    assert ids[..i + 1][..i] == ids[..i];
  }

  lemma WordAtIndex(ids: seq<nat>, i: nat)
    requires Words64(ids) && i < |ids|
    ensures ids[i] < TWO_TO_THE_64
  {
  }

  lemma KeySizes(host: Endianness, name: bytes, words: seq<u64>)
    ensures Lengths(KeyList(host, name, words)) == seq(|words|, _ => |name| + 9)
  {
    hide KeyFromId;
    forall i | 0 <= i < |words| ensures |KeyList(host, name, words)[i]| == |name| + 9 {
      KeyHasLength(host, name, words[i]);
    }
  }

  lemma PlainOk(m: KeyValues, keys: seq<bytes>)
    ensures PutStatus(m, PLAIN, keys) == OK
  {
  }

  lemma OthersTwice(m: KeyValues, m': KeyValues, m'': KeyValues, name: bytes)
    requires OthersKept(m, m', name) && OthersKept(m', m'', name)
    ensures OthersKept(m, m'', name)
  {
  }

  lemma SameOthers(m: KeyValues, name: bytes)
    ensures OthersKept(m, m, name)
  {
  }

  lemma CreateRepresents(m: KeyValues, host: Endianness, name: bytes)
    requires 0 !in name && forall key | key in m :: !Own(name, key)
    ensures Represents(m[name := MetadataBytes(0, 0)], host, name, 0, 0, P.Init())
    ensures OthersKept(m, m[name := MetadataBytes(0, 0)], name)
  {
    hide KeyFromId, MetadataBytes;
    forall id: u64 ensures Lookup(m[name := MetadataBytes(0, 0)], KeyFromId(host, name, id)) == None {
      KeysInjective(host, name, id, name, id);
      KeyIsDocumentKey(host, name, id);
    }
  }

  lemma OneItem(item: bytes)
    ensures IsBatch(item, [|item|]) && Slices(item, [|item|]) == [item]
  {
    PackedBatch([item]);
    assert Concat([item]) == item;
    assert Lengths([item]) == [|item|];
  }

  lemma PutOneIs(m: KeyValues, key: bytes, val: bytes)
    ensures PutAll(m, PLAIN, [key], [val], 0) == m[key := val]
  {
    PutAllStep(m, PLAIN, [key], [val], 0);
    PutAllStep(PutOne(m, PLAIN, key, val), PLAIN, [key], [val], 1);
  }

  lemma MetadataIs(size: u64, nextId: u64)
    ensures MetadataBytes(size, nextId) == EncodeU64(size) + EncodeU64(nextId)
  {
  }
}
