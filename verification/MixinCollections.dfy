/** Collections of the mixin: building a batch of document keys, creating a collection and dropping it. */
module MixinCollections {
  import opened Basics
  import opened Buffers
  import opened Documents
  import opened KeyCodec
  import opened KeyValueMap
  import opened MapDatabase
  import opened MixinIteration

  // ---- Batches of keys ----

  function KeyList(host: Endianness, name: bytes, ids: seq<u64>): (r: seq<bytes>)
    ensures |r| == |ids|
  {
    seq(|ids|, i requires 0 <= i < |ids| => KeyFromId(host, name, ids[i]))
  }

  lemma KeyListNext(host: Endianness, name: bytes, ids: seq<u64>, i: nat)
    requires i < |ids|
    ensures KeyList(host, name, ids[..i + 1]) == KeyList(host, name, ids[..i]) + [KeyFromId(host, name, ids[i])]
  {
    hide KeyFromId;
  }

  lemma ConcatNext(list: seq<bytes>, item: bytes)
    ensures Concat(list + [item]) == Concat(list) + item
  {
    assert (list + [item])[..|list|] == list;
  }

  /** Keys of one collection are equally long, so each starts at a multiple of that length. */
  lemma {:induction false} KeysSize(host: Endianness, name: bytes, ids: seq<u64>, i: nat)
    requires i <= |ids|
    ensures |Concat(KeyList(host, name, ids[..i]))| == i * (|name| + 9)
  {
    hide *;
    if i > 0 {
      KeysSize(host, name, ids, i - 1);
      KeyListNext(host, name, ids, i - 1);
      KeyHasLength(host, name, ids[i - 1]);
      ConcatNext(KeyList(host, name, ids[..i - 1]), KeyFromId(host, name, ids[i - 1]));
      Step(i - 1, i, |name| + 9);
    } else {
      KeysStart(host, name, ids);
    }
  }

  /** One key written at `offset` after `done`. */
  lemma KeyWritten(before: bytes, after: bytes, done: bytes, key: bytes, offset: nat)
    requires offset == |done| && offset + |key| <= |before|
    requires before[..offset] == done && after == Splice(before, offset, key)
    ensures after[..offset + |key|] == done + key
  {
  }

  lemma SpliceTwice(data: bytes, offset: nat, a: bytes, b: bytes)
    requires offset + |a| + |b| <= |data|
    ensures Splice(Splice(data, offset, a), offset + |a|, b) == Splice(data, offset, a + b)
  {
  }

  lemma KeysStart(host: Endianness, name: bytes, ids: seq<u64>)
    ensures Concat(KeyList(host, name, ids[..0])) == [] && ids[..|ids|] == ids
  {
  }

  /** One key: the name with its NUL, then the id in big-endian order. */
  method WriteKey(host: Endianness, name: bytes, id: u64, buffer: array<byte>, offset: nat)
    requires offset + |name| + 9 <= buffer.Length
    modifies buffer
    ensures buffer[..] == Splice(old(buffer[..]), offset, KeyFromId(host, name, id))
  {
    hide KeyFromId, EnsureBigEndian, Word, Splice;
    var word := Store(host, EnsureBigEndian(host, Word(id)));
    KeyIs(host, name, id, word);
    CopyInto(buffer, offset, name + [0]);
    CopyInto(buffer, offset + |name| + 1, word);
    SpliceTwice(old(buffer[..]), offset, name + [0], word);
  }

  /** The keys of the ids in one flat buffer. */
  method KeysFromIds(host: Endianness, name: bytes, ids: seq<u64>) returns (buffer: array<byte>)
    ensures fresh(buffer) && buffer[..] == Concat(KeyList(host, name, ids))
  {
    hide *;
    var width := |name| + 9;
    KeysSize(host, name, ids, |ids|);
    KeysStart(host, name, ids);
    buffer := new byte[|ids| * width];
    var i: nat := 0;
    while i < |ids|
      invariant i <= |ids| && buffer.Length == |ids| * width && width == |name| + 9
      invariant i * width <= buffer.Length && buffer[..i * width] == Concat(KeyList(host, name, ids[..i]))
    {
      var offset := i * width;
      Step(i, |ids|, width);
      ghost var before, done, key := buffer[..], Concat(KeyList(host, name, ids[..i])), KeyFromId(host, name, ids[i]);
      WriteKey(host, name, ids[i], buffer, offset);
      KeyWritten(before, buffer[..], done, key, offset);
      KeyListNext(host, name, ids, i);
      ConcatNext(KeyList(host, name, ids[..i]), key);
      i := i + 1;
    }
    assert buffer[..i * width] == buffer[..];
  }

  lemma Step(i: nat, n: nat, width: nat)
    requires i < n
    ensures i * width + width == (i + 1) * width <= n * width
  {
  }

  lemma KeyIs(host: Endianness, name: bytes, id: u64, word: bytes)
    requires word == Store(host, EnsureBigEndian(host, Word(id)))
    ensures KeyFromId(host, name, id) == name + [0] + word
  {
  }

  // ---- Dropping a collection ----

  /** The keys that dropping a collection removes: its metadata, and its documents below the next id. */
  predicate Dropped(host: Endianness, name: bytes, nextId: nat, key: bytes) {
    key == name || (IsDocumentKey(name, key) && IdOf(host, name, key) < nextId)
  }

  function AllIds(n: u64): (r: seq<u64>)
    ensures |r| == n
  {
    seq(n, i requires 0 <= i < n => i)
  }

  lemma KeyListMembers(host: Endianness, name: bytes, n: u64, key: bytes)
    ensures key in KeyList(host, name, AllIds(n)) <==> IsDocumentKey(name, key) && IdOf(host, name, key) < n
  {
    hide KeyFromId, IdFromKey, IsDocumentKey;
    var list := KeyList(host, name, AllIds(n));
    if key in list {
      var i :| 0 <= i < n && list[i] == key;
      KeyIsDocumentKey(host, name, i);
      IdOfKey(host, host, name, i);
      assert |key| == |name| + 9;
    }
    if IsDocumentKey(name, key) && IdOf(host, name, key) < n {
      KeyLengths(name, key);
      KeyOfId(host, name, key);
      assert list[IdOf(host, name, key)] == key;
    }
  }

  lemma SizesOfKeys(host: Endianness, name: bytes, n: u64)
    ensures Lengths(KeyList(host, name, AllIds(n)) + [name]) == seq(n, _ => |name| + 9) + [|name|]
  {
    hide KeyFromId;
    var list := KeyList(host, name, AllIds(n));
    forall i | 0 <= i < n ensures |list[i]| == |name| + 9 {
      KeyHasLength(host, name, i);
    }
  }

  lemma KeyHasLength(host: Endianness, name: bytes, id: u64)
    ensures |KeyFromId(host, name, id)| == |name| + 9
  {
  }

  /** What erasing a batch of keys laid end to end removes. */
  lemma BatchErased(keys: bytes, ksizes: seq<nat>, list: seq<bytes>, key: bytes)
    requires keys == Concat(list) && ksizes == Lengths(list)
    ensures KeysWithin(ksizes, |keys|, 0) == |ksizes| && KeysFit(keys, ksizes, |ksizes|)
    ensures key in KeysUpTo(keys, ksizes, |ksizes|) <==> key in list
  {
    hide *;
    PackedBatch(list);
    StartEnds(ksizes);
    KeysWithinAll(keys, ksizes, 0);
    KeysUpToAll(keys, ksizes, |ksizes|);
    assert Slices(keys, ksizes)[..|ksizes|] == list;
  }

  /** collDrop. `nextId` is absent when the collection has no metadata. */
  method CollDrop(db: Database, host: Endianness, name: bytes, nextId: Option<u64>) returns (status: Status)
    requires db.Valid()
    modifies db
    ensures db.Valid()
    ensures name == [] ==> status == InvalidArg && db.items == old(db.items)
    ensures name != [] && nextId.None? ==> status == NotFound && db.items == old(db.items)
    ensures name != [] && nextId.Some? ==>
              && status == OK
              && forall key :: Lookup(db.Content(), key) ==
                               if Dropped(host, name, nextId.value, key) then None else old(Lookup(db.Content(), key))
  {
    hide *;
    if name == [] {
      return InvalidArg;
    }
    if nextId.None? {
      return NotFound;
    }
    var n := nextId.value;
    var ids := AllIds(n);
    var buffer := KeysFromIds(host, name, ids);
    var keys := buffer[..] + name;
    var ksizes: seq<nat> := seq(n, _ => |name| + 9) + [|name|];
    ghost var list := KeyList(host, name, ids) + [name];
    ConcatNext(KeyList(host, name, ids), name);
    SizesOfKeys(host, name, n);
    ghost var before := db.Content();
    BatchErased(keys, ksizes, list, name);
    status := db.Erase(keys, ksizes);
    forall key ensures Lookup(db.Content(), key) == if Dropped(host, name, n, key) then None else Lookup(before, key) {
      BatchErased(keys, ksizes, list, key);
      KeyListMembers(host, name, n, key);
      InList(KeyList(host, name, ids), name, key);
      DroppedIs(host, name, n, key);
      LookupMinus(before, KeysUpTo(keys, ksizes, |ksizes|), key);
    }
  }

  lemma InList(list: seq<bytes>, name: bytes, key: bytes)
    ensures key in list + [name] <==> key in list || key == name
  {
  }

  lemma DroppedIs(host: Endianness, name: bytes, nextId: nat, key: bytes)
    ensures Dropped(host, name, nextId, key) <==>
            key == name || (IsDocumentKey(name, key) && IdOf(host, name, key) < nextId)
  {
  }

  lemma LookupMinus(m: KeyValues, gone: set<bytes>, key: bytes)
    ensures Lookup(m - gone, key) == if key in gone then None else Lookup(m, key)
  {
  }

  /** No other collection loses its metadata or a document. */
  lemma DropSparesOthers(host: Endianness, name: bytes, nextId: nat, other: bytes, id: u64)
    requires 0 !in name && 0 !in other && name != other
    ensures !Dropped(host, name, nextId, other) && !Dropped(host, name, nextId, KeyFromId(host, other, id))
  {
    hide KeyFromId, IdFromKey, IdOf;
    NameIsNoKey(name, other);
    KeysInjective(host, other, id, name, id);
    OtherKey(host, name, other, id);
  }

  lemma NameIsNoKey(name: bytes, other: bytes)
    requires 0 !in other
    ensures !IsDocumentKey(name, other)
  {
    if |other| == |name| + 9 {
      assert other[..|name| + 1][|name|] == other[|name|] && other[|name|] in other;
      assert (name + [0])[|name|] == 0;
    }
  }

  lemma OtherKey(host: Endianness, name: bytes, other: bytes, id: u64)
    requires 0 !in name && 0 !in other && name != other
    ensures !IsDocumentKey(name, KeyFromId(host, other, id))
  {
    hide IdFromKey;
    var key := KeyFromId(host, other, id);
    if IsDocumentKey(name, key) {
      KeyOfId(host, name, key);
      KeysInjective(host, other, id, name, IdFromKey(host, |name|, key));
    }
  }

  /** Everything of the collection is gone exactly when no document was stored at or past the next id. */
  lemma DropComplete(m: KeyValues, m': KeyValues, host: Endianness, name: bytes, nextId: u64)
    requires forall key :: Lookup(m', key) == if Dropped(host, name, nextId, key) then None else Lookup(m, key)
    ensures (name !in m' && forall id: u64 :: KeyFromId(host, name, id) !in m') <==>
            (forall id: u64 | KeyFromId(host, name, id) in m :: id < nextId)
  {
    hide KeyFromId, Dropped;
    forall id: u64 ensures Dropped(host, name, nextId, KeyFromId(host, name, id)) <==> id < nextId {
      DroppedOwn(host, name, nextId, id);
    }
    forall id: u64 ensures KeyFromId(host, name, id) in m' <==> KeyFromId(host, name, id) in m && id >= nextId {
      var key := KeyFromId(host, name, id);
      assert Lookup(m', key) == if Dropped(host, name, nextId, key) then None else Lookup(m, key);
    }
    assert Lookup(m', name) == None by {
      DroppedIs(host, name, nextId, name);
    }
  }

  lemma DroppedOwn(host: Endianness, name: bytes, nextId: u64, id: u64)
    ensures Dropped(host, name, nextId, KeyFromId(host, name, id)) <==> id < nextId
  {
    hide KeyFromId, IdFromKey, IsDocumentKey;
    KeyHasLength(host, name, id);
    KeyIsDocumentKey(host, name, id);
    IdOfKey(host, host, name, id);
  }
}
