/**
 The log-structured collection as the code keeps it: a mapped metadata file, chunk files shared by every
 handle onto them, the handle of the last chunk and a cache of handles onto the others.
 */
module LogCollection {
  import opened Basics
  import opened Words
  import opened Documents
  import opened LogModel
  import opened LogOperations
  import opened LogUpdate
  import opened LogUpdateResults
  import opened LogMetadata
  import LruCache

  class Collection {
    // mapping of the metadata file: header words, then entries
    var meta: bytes
    // contents of the chunk files; a handle is the number of the file it maps
    var disk: seq<bytes>
    var lastChunk: nat
    const chunkCache: LruCache.LruCache<nat>
    const chunkSize: nat
    // the abstract state these bytes stand for
    ghost var log: Log

    static ghost function HeaderOf(l: Log): Header {
      Header(l.collSize, |l.entries|, |l.chunks| - 1, l.chunkSize)
    }

    /** The bytes stand for `log`, and the handles are onto existing chunk files. */
    ghost predicate Valid()
      reads this, chunkCache
    {
      && WF(log) && log.chunkSize == chunkSize && log.chunks == disk
      && Table(meta, HeaderOf(log), log.entries)
      && lastChunk == |disk| - 1
      && chunkCache.Valid()
      && forall p | p in chunkCache.accessList :: p.1 == p.0
    }

    /** The parts of that, for methods that work on one of them. */
    lemma ValidIs()
      ensures Valid() <==>
              && WF(log) && log.chunkSize == chunkSize && log.chunks == disk
              && Table(meta, HeaderOf(log), log.entries) && lastChunk == |disk| - 1
              && chunkCache.Valid() && forall p | p in chunkCache.accessList :: p.1 == p.0
      ensures Valid() ==> Shape(log)
    {
    }

    /** A collection on fresh files. */
    constructor (chunkSize: nat, cacheSize: nat)
      requires 0 < chunkSize < MAX_FILE && cacheSize >= 1
      ensures Valid() && fresh(this) && fresh(chunkCache)
      ensures log == Log(chunkSize, [], [Zeros(chunkSize)], 0)
    {
      this.chunkSize := chunkSize;
      chunkCache := new LruCache.LruCache<nat>(cacheSize);
      var file := Zeros(INITIAL_META_SIZE);
      meta := Splice(file, CHUNK_SIZE, EncodeU64(chunkSize));
      disk := [Zeros(chunkSize)];
      lastChunk := 0;
      log := Log(chunkSize, [], [Zeros(chunkSize)], 0);
      ZeroWord(file, COLL_SIZE);
      ZeroWord(file, NEXT_ID);
      ZeroWord(file, LAST_CHUNK_ID);
      HeaderWordKeeps(file, CHUNK_SIZE, chunkSize, []);
      FreshChunkOk(chunkSize);
    }

    // ---- Metadata ----

    method SetHeader(offset: nat, v: u64)
      requires offset + 8 <= |meta|
      modifies this`meta
      ensures meta == Splice(old(meta), offset, EncodeU64(v))
    {
      meta := Splice(meta, offset, EncodeU64(v));
    }

    /** MemoryMappedFile::extend on the metadata file. */
    method ExtendMeta(newSize: nat)
      modifies this`meta
      ensures meta == if newSize <= |old(meta)| then old(meta) else old(meta) + Zeros(newSize - |old(meta)|)
    {
      if newSize <= |meta| {
        return;
      }
      meta := meta + Zeros(newSize - |meta|);
    }

    /** The write always succeeds: one doubling makes room for the row after the last. */
    method WriteEntryMetadata(id: nat, e: Entry) returns (status: Status)
      requires HEADER_SIZE <= |meta| && EntryOffset(id) <= |meta|
      modifies this`meta
      ensures status == OK && meta == WithEntry(old(meta), id, e)
    {
      var offset := EntryOffset(id);
      if offset + HEADER_SIZE > |meta| {
        ExtendMeta(2 * |meta|);
      }
      if offset + ENTRY_SIZE > |meta| {
        return SizeError;
      }
      meta := Splice(meta, offset, EncodeEntry(e));
      return OK;
    }

    method ReadEntryMetadata(id: nat) returns (status: Status, e: Entry)
      ensures status == OK <==> EntryOffset(id) + ENTRY_SIZE <= |meta|
      ensures status == OK ==> e == EntryAt(meta, id)
    {
      if EntryOffset(id) + ENTRY_SIZE > |meta| {
        return SizeError, Entry(0, 0, 0, 0);
      }
      return OK, EntryAt(meta, id);
    }

    method FlushMeta(offset: nat, size: nat) returns (status: Status)
      ensures status == OK <==> offset + size <= |meta|
    {
      if offset + size > |meta| {
        return SizeError;
      }
      return OK;
    }

    // ---- Chunks ----

    /** MemoryMappedFile::write through the handle of a chunk file. */
    method ChunkWrite(chunk: nat, offset: nat, buffer: bytes) returns (status: Status)
      requires chunk < |disk|
      modifies this`disk
      ensures status == if offset + |buffer| > |old(disk[chunk])| then SizeError else OK
      ensures status == OK ==> disk == old(disk)[chunk := Splice(old(disk[chunk]), offset, buffer)]
      ensures status != OK ==> disk == old(disk)
    {
      if offset + |buffer| > |disk[chunk]| {
        return SizeError;
      }
      disk := disk[chunk := Splice(disk[chunk], offset, buffer)];
      return OK;
    }

    /** `n` is the next offset of the last chunk. */
    ghost predicate NextIs(n: nat)
      reads this
    {
      lastChunk < |disk| && |disk[lastChunk]| >= 8 && n == NextOffset(disk[lastChunk])
    }

    method ReadNextOffset() returns (status: Status, next: nat)
      requires Valid()
      ensures status == if log.chunkSize < 8 then SizeError else OK
      ensures status == OK ==> NextIs(next)
    {
      if 8 > |disk[lastChunk]| {
        return SizeError, 8;
      }
      next := WordAt(disk[lastChunk], 0);
      if next == 0 {
        next := 8;
      }
      status := OK;
    }

    ghost predicate Handles()
      reads this, chunkCache
    {
      && 0 < |disk| < MAX_FILE
      && lastChunk == |disk| - 1
      && |meta| >= HEADER_SIZE && WordAt(meta, LAST_CHUNK_ID) == |disk| - 1
      && chunkCache.Valid()
      && forall p | p in chunkCache.accessList :: p.1 == p.0
    }

    /** A handle from the cache: every handle in it is onto the chunk that it is filed under. */
    method CachedHandle(chunk: nat) returns (h: nat)
      requires chunkCache.Valid() && forall p | p in chunkCache.accessList :: p.1 == p.0
      modifies chunkCache
      ensures h == chunk && chunkCache.Valid() && forall p | p in chunkCache.accessList :: p.1 == p.0
    {
      LruCache.IndexedIds(chunkCache.accessList, chunkCache.cacheMap, chunk);
      h := chunkCache.Get(chunk, c => c);
    }

    /** A handle onto a chunk: the last one, the next one (whose file is created), a cached one, or none. */
    method GetChunkFromID(chunk: nat) returns (handle: Option<nat>)
      requires Handles()
      modifies this`meta, this`disk, this`lastChunk, chunkCache
      ensures chunkCache.Valid() && forall p | p in chunkCache.accessList :: p.1 == p.0
      ensures handle == if chunk <= |old(disk)| then Some(chunk) else None
      ensures chunk == |old(disk)| ==>
                && disk == old(disk) + [Zeros(chunkSize)]
                && meta == Splice(old(meta), LAST_CHUNK_ID, EncodeU64(|disk| - 1))
                && lastChunk == |disk| - 1
      ensures chunk != |old(disk)| ==> disk == old(disk) && meta == old(meta) && lastChunk == old(lastChunk)
    {
      HandlesMean();
      hide LruCache.LruCache.Valid, WordAt;
      var last := WordAt(meta, LAST_CHUNK_ID);
      if chunk == last {
        return Some(lastChunk);
      } else if chunk == last + 1 {
        disk := disk + [Zeros(chunkSize)];
        lastChunk := chunk;
        SetHeader(LAST_CHUNK_ID, last + 1);
        return Some(lastChunk);
      } else if chunk < last {
        var h := CachedHandle(chunk);
        return Some(h);
      } else {
        return None;
      }
    }

    lemma HasHandles()
      requires Valid() && |disk| < MAX_FILE
      ensures Handles()
    {
    }

    lemma HandlesMean()
      requires Handles()
      ensures 0 <= LAST_CHUNK_ID && LAST_CHUNK_ID + 8 <= HEADER_SIZE <= |meta|
      ensures WordAt(meta, LAST_CHUNK_ID) == |disk| - 1 && 0 < |disk| < MAX_FILE
    {
    }

    static lemma RolledHeader(log: Log)
      requires Shape(log) && ChunkRoom(log, 1)
      ensures |log.chunks| < MAX_FILE < TWO_TO_THE_64
      ensures forall chunk: bytes ::
                HeaderOf(log.(chunks := log.chunks + [chunk])) == HeaderOf(log).(lastChunk := |log.chunks|)
    {
    }

    // ---- Appending one document ----

    /** Start a new chunk; the rest of the previous one is abandoned. */
    method RollOver()
      requires Valid() && ChunkRoom(log, 1)
      modifies this`meta, this`disk, this`lastChunk, chunkCache
      ensures disk == log.chunks + [Zeros(chunkSize)] && lastChunk == |disk| - 1
      ensures Table(meta, HeaderOf(log.(chunks := disk)), log.entries)
      ensures chunkCache.Valid() && forall p | p in chunkCache.accessList :: p.1 == p.0
    {
      hide *;
      ValidIs();
      RolledHeader(log);
      HasHandles();
      HandlesMean();
      TableLastChunk(meta, HeaderOf(log), log.entries, |disk|);
      var h := GetChunkFromID(WordAt(meta, LAST_CHUNK_ID) + 1);
    }

    /** Write a document at `next` in the last chunk, then the chunk's new next offset. */
    method WriteInLast(next: nat, doc: bytes) returns (status: Status)
      requires lastChunk < |disk| && 8 <= next && |disk[lastChunk]| == chunkSize && 8 <= chunkSize < MAX_FILE
      modifies this`disk
      ensures status == if next + |doc| > chunkSize then SizeError else OK
      ensures disk == if status == OK then old(disk)[lastChunk := Written(old(disk[lastChunk]), next, doc)]
              else old(disk)
    {
      status := ChunkWrite(lastChunk, next, doc);
      if status != OK {
        return;
      }
      status := ChunkWrite(lastChunk, 0, EncodeU64(next + |doc|));
    }

    /** Make sure the last chunk can take the document, if any chunk can; `offset` is where it goes in chunk `c`. */
    method MakeRoom(next: nat, doc: bytes) returns (offset: nat, c: nat)
      requires Valid() && chunkSize >= 8 && ChunkRoom(log, 1) && next == NextOffset(disk[lastChunk])
      modifies this`meta, this`disk, this`lastChunk, chunkCache
      ensures disk == (if RollsOver(log, doc) then log.chunks + [Zeros(chunkSize)] else log.chunks)
      ensures offset == (if RollsOver(log, doc) then 8 else NextOffset(disk[|disk| - 1]))
      ensures c == lastChunk == |disk| - 1 && |disk[c]| == chunkSize < MAX_FILE && offset >= 8
      ensures Table(meta, HeaderOf(log.(chunks := disk)), log.entries)
      ensures chunkCache.Valid() && forall p | p in chunkCache.accessList :: p.1 == p.0
    {
      hide EntryOk, Apart;
      offset := next;
      if |doc| > chunkSize - next {
        RollOver();
        offset := 8;
      }
      c := WordAt(meta, LAST_CHUNK_ID);
    }

    /** Write a document at the end of the log, opening a new chunk when the last one is too full. */
    method WriteDocument(next: nat, doc: bytes) returns (status: Status, e: Entry, next': nat)
      requires Valid() && Shape(log) && log.chunkSize == chunkSize >= 8 && ChunkRoom(log, 1)
      requires next == NextOffset(disk[lastChunk])
      modifies this`meta, this`disk, this`lastChunk, chunkCache
      ensures disk == Place(log, doc).chunks && lastChunk == |disk| - 1
      ensures status == if Place(log, doc).entry.Some? then OK else SizeError
      ensures status == OK ==> Place(log, doc).entry == Some(e) && next' == e.offset + |doc|
      ensures Table(meta, HeaderOf(log.(chunks := disk)), log.entries)
      ensures chunkCache.Valid() && forall p | p in chunkCache.accessList :: p.1 == p.0
    {
      hide Valid, WF, Table, RollsOver, NextOffset, Written, LruCache.LruCache.Valid;
      var offset, c := MakeRoom(next, doc);
      status := WriteInLast(offset, doc);
      next' := offset + |doc|;
      e := if status == OK then Entry(c, offset, |doc|, |doc|) else Entry(0, 0, 0, 0);
      assert Place(log, doc).chunks == disk;
    }

    // ---- Append ----

    /** Count one more or one less document in the header. */
    method AddToSize(delta: int)
      requires |meta| >= HEADER_SIZE
      modifies this`meta
      ensures meta == Splice(old(meta), COLL_SIZE, EncodeU64(Wrap(WordAt(old(meta), COLL_SIZE) + delta)))
    {
      SetHeader(COLL_SIZE, Wrap(WordAt(meta, COLL_SIZE) + delta));
    }

    /** A row for the next id, then the header word that makes it part of the table. */
    method AddRow(id: nat, e: Entry, ghost h: Header, ghost entries: seq<Entry>)
      requires id == |entries| == h.nextId < 0x200_0000_0000_0000 && Table(meta, h, entries)
      modifies this`meta
      ensures Table(meta, h.(nextId := id + 1), entries + [e])
    {
      TableEntry(meta, h, entries, id, e);
      var status := WriteEntryMetadata(id, e);
      TableNextId(meta, h, entries + [e], id + 1);
      SetHeader(NEXT_ID, id + 1);
    }

    /** The row of a new document, counted in the header. */
    method AddDocumentRow(id: nat, e: Entry, ghost h: Header, ghost entries: seq<Entry>)
      requires id == |entries| == h.nextId < 0x200_0000_0000_0000 && Table(meta, h, entries)
      modifies this`meta
      ensures Table(meta, h.(collSize := h.collSize + 1, nextId := id + 1), entries + [e])
    {
      AddRow(id, e, h, entries);
      TableCollSize(meta, h.(nextId := id + 1), entries + [e], 1);
      AddToSize(1);
    }

    method NextId() returns (id: nat)
      requires Valid()
      ensures id == |log.entries|
    {
      id := WordAt(meta, NEXT_ID);
    }

    /** What one append makes of the log, part by part. */
    static lemma AppendOneIs(log: Log, doc: bytes)
      requires WF(log) && log.chunkSize >= 8 && Room(log, 1)
      ensures Shape(log) && ChunkRoom(log, 1) && |log.entries| < 0x200_0000_0000_0000
      ensures HeaderOf(log.(chunks := Place(log, doc).chunks)).nextId == |log.entries|
      ensures var p, log' := Place(log, doc), AppendOne(log, doc).1;
              && WF(log') && log'.chunkSize == log.chunkSize && log'.chunks == p.chunks
              && (p.entry.None? ==> AppendOne(log, doc).0 == SizeError && log'.entries == log.entries)
              && (p.entry.None? ==> HeaderOf(log') == HeaderOf(log.(chunks := p.chunks)))
              && (p.entry.Some? ==> AppendOne(log, doc).0 == OK && log'.entries == log.entries + [p.entry.value])
              && (p.entry.Some? ==>
                    var h := HeaderOf(log.(chunks := p.chunks));
                    HeaderOf(log') == h.(collSize := h.collSize + 1, nextId := |log.entries| + 1))
    {
      PlaceShape(log, doc);
      if Place(log, doc).entry.None? {
        AppendOneRefuses(log, doc);
      } else {
        AppendOneRefines(log, doc);
      }
      hide WF, Place, DocsOf;
    }

    /** The next offset after a document that was placed. */
    static lemma NextAfter(log: Log, doc: bytes)
      requires Shape(log) && log.chunkSize >= 8 && ChunkRoom(log, 1) && Place(log, doc).entry.Some?
      ensures var p := Place(log, doc);
              && p.chunks != [] && |p.chunks[|p.chunks| - 1]| == log.chunkSize
              && NextOffset(p.chunks[|p.chunks| - 1]) == p.entry.value.offset + |doc|
    {
      PlaceShape(log, doc);
      PlacedNext(log, doc);
    }

    lemma NextIsAfter(next: nat)
      requires disk != [] && lastChunk == |disk| - 1 && |disk[|disk| - 1]| >= 8 && next == NextOffset(disk[|disk| - 1])
      ensures NextIs(next)
    {
    }

    lemma NextIsNext(next: nat)
      requires NextIs(next)
      ensures lastChunk < |disk| && |disk[lastChunk]| >= 8 && next == NextOffset(disk[lastChunk])
    {
    }

    /** One document of an append: its bytes, its row, the header. */
    method AppendNext(next: nat, doc: bytes) returns (status: Status, next': nat)
      requires Valid() && log.chunkSize >= 8 && Room(log, 1) && NextIs(next)
      modifies this, chunkCache
      ensures Valid() && Shape(log) && (status, log) == AppendOne(old(log), doc)
      ensures status == OK ==> NextIs(next')
    {
      hide *;
      ValidIs();
      NextIsNext(next);
      AppendOneIs(log, doc);
      var id := NextId();
      var e;
      status, e, next' := WriteDocument(next, doc);
      if status == OK {
        NextAfter(log, doc);
        AddDocumentRow(id, e, HeaderOf(log.(chunks := disk)), log.entries);
      }
      log := AppendOne(log, doc).1;
      ValidIs();
      if status == OK {
        NextIsAfter(next');
      }
    }

    method LongerThan(sizes: seq<nat>, n: nat) returns (b: bool)
      ensures b <==> exists i :: 0 <= i < |sizes| && sizes[i] > n
    {
      for i := 0 to |sizes|
        invariant forall j | 0 <= j < i :: sizes[j] <= n
      {
        if sizes[i] > n {
          return true;
        }
      }
      return false;
    }

    /** Append a batch of documents; `ids` are the ids handed out, the last one in vain when the batch was cut short. */
    method Append(data: bytes, sizes: seq<nat>) returns (status: Status, ids: seq<nat>)
      requires Valid() && IsBatch(data, sizes) && Room(log, |sizes|)
      modifies this, chunkCache
      ensures Valid() && (status, log) == LogOperations.Append(old(log), Slices(data, sizes))
      ensures ids == Range(|old(log.entries)|, |ids|)
      ensures (exists i :: 0 <= i < |sizes| && sizes[i] > chunkSize) ==>
                status == SizeError && ids == [] && log == old(log)
      ensures (forall i | 0 <= i < |sizes| :: sizes[i] <= chunkSize) ==>
                exists k: nat ::
                  && k <= |sizes| && (forall j | 0 <= j < k :: sizes[j] <= chunkSize - 8)
                  && (k < |sizes| ==> sizes[k] > chunkSize - 8)
                  && DocsOf(log) == DocsOf(old(log)) + Stored(Slices(data, sizes)[..k])
                  && status == (if chunkSize >= 8 && k == |sizes| then OK else SizeError)
                  && |ids| == if chunkSize < 8 then 0 else if k < |sizes| then k + 1 else k
    {
      ids := [];
      hide *;
      ValidIs();
      AppendOutcome(log, data, sizes);
      BatchSizes(data, sizes, chunkSize);
      AppendIs(log, Slices(data, sizes));
      var longest := LongerThan(sizes, chunkSize);
      if longest {
        return SizeError, [];
      }
      var next;
      status, next := ReadNextOffset();
      if status != OK {
        return;
      }
      status, ids := AppendAll(next, data, sizes);
    }

    /** One iteration of the append loop. */
    method AppendItem(next: nat, data: bytes, sizes: seq<nat>, i: nat, docOffset: nat)
      returns (status: Status, id: nat, next': nat)
      requires Valid() && Shape(log) && log.chunkSize >= 8 && NextIs(next)
      requires IsBatch(data, sizes) && i < |sizes| && Room(log, |sizes| - i) && docOffset == Start(sizes, i)
      modifies this, chunkCache
      ensures Valid() && Shape(log) && log.chunkSize >= 8 && id == |old(log.entries)|
      ensures |log.entries| == |old(log.entries)| + (if status == OK then 1 else 0)
      ensures status == OK ==> Room(log, |sizes| - (i + 1)) && NextIs(next')
      ensures AppendFrom(old(log), Slices(data, sizes), i) ==
              if status == OK then AppendFrom(log, Slices(data, sizes), i + 1) else (status, log)
    {
      hide *;
      id := NextId();
      SliceWindow(data, sizes, i);
      AppendFromStep(log, Slices(data, sizes), i);
      status, next' := AppendNext(next, data[docOffset..docOffset + sizes[i]]);
    }

    method AppendAll(next: nat, data: bytes, sizes: seq<nat>) returns (status: Status, ids: seq<nat>)
      requires Valid() && Shape(log) && log.chunkSize >= 8 && NextIs(next)
      requires IsBatch(data, sizes) && Room(log, |sizes|)
      modifies this, chunkCache
      ensures Valid() && (status, log) == AppendFrom(old(log), Slices(data, sizes), 0)
      ensures |log.entries| - |old(log.entries)| == if status == OK then |sizes| else |ids| - 1
      ensures ids == Range(|old(log.entries)|, |ids|) && (status == OK ==> |ids| == |sizes|)
    {
      hide *;
      ghost var docs, first := Slices(data, sizes), |log.entries|;
      ghost var goal := AppendFrom(log, docs, 0);
      StartEnds(sizes);
      RangeNext(first, 0);
      var nextOffset, docOffset, i, id := next, 0, 0, 0;
      status, ids := OK, [];
      while i < |sizes|
        invariant i <= |sizes| && Valid() && Shape(log) && log.chunkSize >= 8 && NextIs(nextOffset)
        invariant status == OK && docOffset == Start(sizes, i)
        invariant Room(log, |sizes| - i) && AppendFrom(log, docs, i) == goal
        invariant |ids| == i == |log.entries| - first && ids == Range(first, i)
      {
        SliceWindow(data, sizes, i);
        RangeNext(first, i);
        status, id, nextOffset := AppendItem(nextOffset, data, sizes, i, docOffset);
        ids := ids + [id];
        if status != OK {
          return;
        }
        docOffset := docOffset + sizes[i];
        i := i + 1;
      }
      AppendFromEnd(log, docs);
    }

    // ---- Erase ----

    /** What the header and the table say about an id. */
    method RowOf(id: nat) returns (e: Entry)
      requires Valid() && id < |log.entries|
      ensures e == log.entries[id]
    {
      var status;
      status, e := ReadEntryMetadata(id);
      assert EntryOffset(id + 1) <= EntryOffset(|log.entries|);
    }

    /** What erasing makes of the log, part by part. */
    static lemma EraseIs(log: Log, id: nat)
      ensures var (s, log') := LogOperations.Erase(log, id);
              && (id >= |log.entries| ==> s == InvalidID && log' == log)
              && (id < |log.entries| ==>
                    var e := log.entries[id];
                    && s == OK && (e.size == KEY_NOT_FOUND ==> log' == log)
                    && (e.size != KEY_NOT_FOUND ==>
                          && log'.entries ==
                             log.entries[id := Entry(KEY_NOT_FOUND, KEY_NOT_FOUND, KEY_NOT_FOUND, e.alloc)]
                          && log'.chunks == log.chunks && log'.chunkSize == log.chunkSize
                          && HeaderOf(log') == HeaderOf(log).(collSize := HeaderOf(log).collSize - 1)))
      ensures WF(log) ==> WF(LogOperations.Erase(log, id).1)
    {
      if WF(log) {
        EraseRefines(log, id);
      }
    }

    method Erase(id: nat) returns (status: Status)
      requires Valid()
      modifies this`meta, this`log
      ensures Valid() && (status, log) == LogOperations.Erase(old(log), id)
    {
      hide *;
      EraseIs(log, id);
      ValidIs();
      var next := NextId();
      if id >= next {
        return InvalidID;
      }
      var e := RowOf(id);
      if e.size == KEY_NOT_FOUND {
        return OK;
      }
      e := Entry(KEY_NOT_FOUND, KEY_NOT_FOUND, KEY_NOT_FOUND, e.alloc);
      ReplaceRow(id, e, HeaderOf(log), log.entries, -1);
      log := LogOperations.Erase(log, id).1;
      status := OK;
      ValidIs();
    }

    /** Overwrite one row and adjust the size in the header. */
    method ReplaceRow(id: nat, e: Entry, ghost h: Header, ghost entries: seq<Entry>, delta: int)
      requires id < |entries| && Table(meta, h, entries) && -1 <= delta <= 1
      modifies this`meta
      ensures Table(meta, h.(collSize := h.collSize + delta), entries[id := e])
    {
      hide *;
      SetRowIn(entries, id, e);
      TableFile(meta, h, entries);
      TableEntry(meta, h, entries, id, e);
      var status := WriteEntryMetadata(id, e);
      TableFile(meta, h, entries[id := e]);
      TableCollSize(meta, h, entries[id := e], delta);
      if delta != 0 {
        AddToSize(delta);
      } else {
        SameWord(meta, COLL_SIZE);
      }
    }

    // ---- Read ----

    /** The chunk of a row and the window its document occupies there. */
    method ReadWindow(e: Entry) returns (r: Lookup)
      requires Valid() && ChunkRoom(log, 1) && e in log.entries
      modifies this`meta, this`disk, this`lastChunk, chunkCache
      ensures Valid() && r == ReadEntry(log, e, e.size)
      ensures meta == old(meta) && disk == old(disk) && lastChunk == old(lastChunk)
    {
      assert EntryOk(log.chunkSize, log.chunks, e);
      var chunk := GetChunkFromID(e.chunk);
      if chunk.None? {
        return NullChunk;
      }
      if e.offset + e.size > |disk[chunk.value]| {
        return Refused(SizeError);
      }
      return Found(disk[chunk.value][e.offset..e.offset + e.size]);
    }

    method Read(id: nat, bufSize: nat) returns (r: Lookup)
      requires Valid() && ChunkRoom(log, 1)
      modifies this`meta, this`disk, this`lastChunk, chunkCache
      ensures Valid() && r == LogOperations.Read(log, id, bufSize)
    {
      var next := NextId();
      if id >= next {
        return Refused(InvalidID);
      }
      var e := RowOf(id);
      if e.size == KEY_NOT_FOUND {
        return Refused(NotFound);
      }
      if bufSize < e.size {
        return Refused(SizeError);
      }
      r := ReadWindow(e);
    }

    /** Hand a document to a callback; `Refused(NotFound)` stands for the callback being told there is none. */
    method Fetch(id: nat) returns (r: Lookup)
      requires Valid() && ChunkRoom(log, 1)
      modifies this`meta, this`disk, this`lastChunk, chunkCache
      ensures Valid() && r == LogOperations.Fetch(log, id)
    {
      var next := NextId();
      if id >= next {
        return Refused(NotFound);
      }
      var e := RowOf(id);
      if e.size == KEY_NOT_FOUND {
        return Refused(NotFound);
      }
      r := ReadWindow(e);
    }

    /** Number of documents, as the header has it. */
    method Size() returns (n: nat)
      requires Valid()
      ensures n == Wrap(log.collSize)
    {
      n := WordAt(meta, COLL_SIZE);
    }

    /** One less than the next id, in machine arithmetic. */
    method LastId() returns (id: nat)
      requires Valid()
      ensures id == if log.entries == [] then TWO_TO_THE_64 - 1 else |log.entries| - 1
    {
      assert Wrap(-1) == Wrap(TWO_TO_THE_64 - 1);
      id := Wrap(WordAt(meta, NEXT_ID) - 1);
    }

    // ---- Update ----

    method MinMaxId(ids: seq<nat>) returns (minId: nat, maxId: nat)
      requires ids != []
      ensures maxId + 1 == MaxId(ids, 0) && minId <= maxId
    {
      minId, maxId := ids[0], ids[0];
      var i := 1;
      while i < |ids|
        invariant 1 <= i <= |ids| && minId <= maxId
        invariant Max(maxId + 1, MaxId(ids, i)) == MaxId(ids, 0)
      {
        maxId := if maxId < ids[i] then ids[i] else maxId;
        minId := if ids[i] < minId then ids[i] else minId;
        i := i + 1;
      }
    }

    static lemma PlaceholderIs(log: Log)
      requires WF(log) && Room(log, 1)
      ensures 0 < |log.chunks| < MAX_FILE && HeaderOf(log).nextId == |log.entries| < 0x200_0000_0000_0000
      ensures var log' := PadEntries(log, |log.entries| + 1);
              && WF(log') && log'.chunks == log.chunks && log'.chunkSize == log.chunkSize
              && log'.entries == log.entries + [Entry(|log.chunks| - 1, KEY_NOT_FOUND, KEY_NOT_FOUND, 0)]
              && HeaderOf(log') == HeaderOf(log).(nextId := |log.entries| + 1)
    {
      PadRefines(log, |log.entries| + 1);
    }

    /** A row for an id that does not exist yet, as if its document had been erased. */
    method AddPlaceholder(id: nat)
      requires Valid() && Room(log, 1) && id == |log.entries|
      modifies this`meta, this`log
      ensures Valid() && log == PadEntries(old(log), id + 1)
    {
      PlaceholderIs(log);
      hide *;
      ValidIs();
      HasHandles();
      HandlesMean();
      var e := Entry(WordAt(meta, LAST_CHUNK_ID), KEY_NOT_FOUND, KEY_NOT_FOUND, 0);
      AddRow(id, e, HeaderOf(log), log.entries);
      log := PadEntries(log, id + 1);
      ValidIs();
    }

    method AddPlaceholders(maxId: nat)
      requires Valid() && ChunkRoom(log, 1) && |log.entries| < 0x200_0000_0000_0000 && maxId + 1 < 0x200_0000_0000_0000
      modifies this`meta, this`log
      ensures Valid() && log == PadEntries(old(log), maxId + 1)
    {
      assert 0 < |log.chunks|;
      hide *;
      var id := NextId();
      ghost var before := log;
      while id <= maxId
        invariant Valid() && id == |log.entries| && |before.entries| <= id <= Max(|before.entries|, maxId + 1)
        invariant 0 < |before.chunks| < MAX_FILE - 1 && |log.chunks| == |before.chunks| && log == PadEntries(before, id)
        decreases maxId + 1 - id
      {
        PadTwice(before, id);
        AddPlaceholder(id);
        id := id + 1;
      }
    }

    /** New size of a row, and one more document when the row held none. */
    method ResizeRow(id: nat, e: Entry, n: nat, ghost h: Header, ghost entries: seq<Entry>)
      requires id < |entries| && entries[id] == e && n <= e.alloc && Table(meta, h, entries)
      modifies this`meta
      ensures Table(meta, h.(collSize := h.collSize + (if IsLive(e) then 0 else 1)), entries[id := e.(size := n)])
    {
      hide *;
      var collSizeIncr := e.size == KEY_NOT_FOUND;
      ghost var rows := entries[id := e.(size := n)];
      if e.size != n {
        SetRowIn(entries, id, e.(size := n));
        TableEntry(meta, h, entries, id, e.(size := n));
        TableFile(meta, h, entries);
        var status := WriteEntryMetadata(id, e.(size := n));
      } else {
        assert rows == entries;
      }
      SameHeader(h, e);
      if collSizeIncr {
        TableFile(meta, h, rows);
        TableCollSize(meta, h, rows, 1);
        AddToSize(1);
      }
    }

    static lemma SetRowIn(entries: seq<Entry>, id: nat, e: Entry)
      requires id < |entries|
      ensures SetRow(entries, id, e) == entries[id := e]
    {
    }

    static lemma TableFile(meta: bytes, h: Header, entries: seq<Entry>)
      requires Table(meta, h, entries)
      ensures 0 <= COLL_SIZE && COLL_SIZE + 8 <= HEADER_SIZE <= |meta|
    {
    }

    static lemma SameHeader(h: Header, e: Entry)
      ensures h.(collSize := h.collSize + 0) == h && (IsLive(e) <==> e.size != KEY_NOT_FOUND)
    {
    }

    /** What an in-place attempt makes of the log, part by part. */
    static lemma InPlaceIs(log: Log, id: nat, doc: bytes)
      requires WF(log) && ChunkRoom(log, 1) && id < |log.entries|
      ensures Shape(log) && log.entries[id] in log.entries
      ensures var r, e := InPlace(log, id, doc), log.entries[id];
              && (|doc| > e.alloc ==> r == Step(OK, log))
              && (|doc| <= e.alloc ==> (r.NullStep? <==> doc != [] && GetChunk(log, e.chunk).None?))
              && (|doc| <= e.alloc && r.Step? ==>
                    && r.status == OK && WF(r.log) && r.log.chunkSize == log.chunkSize
                    && (doc != [] ==>
                          e.chunk < |log.chunks| && e.offset + |doc| <= |log.chunks[e.chunk]| == log.chunkSize)
                    && r.log.chunks ==
                       (if doc == [] then log.chunks
                        else log.chunks[e.chunk := Splice(log.chunks[e.chunk], e.offset, doc)])
                    && r.log.entries == log.entries[id := e.(size := |doc|)] && |doc| < TWO_TO_THE_64
                    && HeaderOf(r.log) ==
                       HeaderOf(log).(collSize := HeaderOf(log).collSize + if IsLive(e) then 0 else 1))
    {
      InPlaceKeeps(log, id, doc);
      assert EntryOk(log.chunkSize, log.chunks, log.entries[id]);
    }

    /** One document of the first pass: overwrite in place when the old allocation is large enough. */
    method InPlaceItem(id: nat, doc: bytes) returns (crashed: bool, status: Status, e: Entry)
      requires Valid() && ChunkRoom(log, 1) && id < |log.entries|
      modifies this, chunkCache
      ensures crashed <==> InPlace(old(log), id, doc).NullStep?
      ensures !crashed ==> Valid() && InPlace(old(log), id, doc) == Step(status, log) && status == OK
      ensures !crashed ==> id < |log.entries| && e == log.entries[id]
    {
      hide *;
      ValidIs();
      InPlaceIs(log, id, doc);
      crashed, status := false, OK;
      e := RowOf(id);
      if |doc| > e.alloc {
        return;
      }
      if |doc| != 0 {
        crashed, status := OverwriteChunk(e, doc);
        if crashed || status != OK {
          return;
        }
      }
      ResizeRow(id, e, |doc|, HeaderOf(log), log.entries);
      e := e.(size := |doc|);
      log := InPlace(log, id, doc).log;
      ValidIs();
    }

    /** A row names an existing chunk, or one far beyond the last. */
    static lemma ChunkWithin(log: Log, e: Entry)
      requires WF(log) && ChunkRoom(log, 1) && e in log.entries
      ensures |log.chunks| < MAX_FILE && e.chunk != |log.chunks|
      ensures GetChunk(log, e.chunk).None? <==> e.chunk > |log.chunks|
      ensures e.chunk < |log.chunks| ==> |log.chunks[e.chunk]| == log.chunkSize
    {
      assert EntryOk(log.chunkSize, log.chunks, e);
    }

    method OverwriteChunk(e: Entry, doc: bytes) returns (crashed: bool, status: Status)
      requires Valid() && ChunkRoom(log, 1) && e in log.entries
      modifies this`meta, this`disk, this`lastChunk, chunkCache
      ensures chunkCache.Valid() && forall p | p in chunkCache.accessList :: p.1 == p.0
      ensures crashed <==> GetChunk(log, e.chunk).None?
      ensures !crashed ==> status == if e.offset + |doc| > chunkSize then SizeError else OK
      ensures !crashed && status == OK ==>
                && e.chunk < |log.chunks| && e.offset + |doc| <= |log.chunks[e.chunk]|
                && disk == log.chunks[e.chunk := Splice(log.chunks[e.chunk], e.offset, doc)]
                && meta == old(meta) && lastChunk == old(lastChunk)
    {
      ChunkWithin(log, e);
      ValidIs();
      HasHandles();
      hide *;
      status := OK;
      var chunk := GetChunkFromID(e.chunk);
      if chunk.None? {
        return true, OK;
      }
      status := ChunkWrite(chunk.value, e.offset, doc);
      crashed := false;
    }

    /** The first pass; `read` are the rows as left by it, one for each document. */
    method FirstPassOver(ids: seq<nat>, data: bytes, sizes: seq<nat>)
      returns (crashed: bool, status: Status, read: seq<Entry>)
      requires Valid() && WF(log) && ChunkRoom(log, 1) && IsBatch(data, sizes) && |ids| == |sizes|
      requires KnownIds(log, ids, Slices(data, sizes))
      modifies this, chunkCache
      ensures crashed <==> Pass1(old(log), ids, Slices(data, sizes), []).NullPass?
      ensures !crashed ==>
              Valid() && WF(log) && Pass1(old(log), ids, Slices(data, sizes), []) == FirstPass(status, log, read)
    {
      hide *;
      ghost var docs, goal := Slices(data, sizes), Pass1(log, ids, Slices(data, sizes), []);
      var docOffset, i := 0, 0;
      StartEnds(sizes);
      crashed, status, read := false, OK, [];
      var e;
      while i < |ids|
        invariant i <= |ids| == |docs| == |sizes| && Valid() && WF(log) && ChunkRoom(log, 1) && KnownIds(log, ids, docs)
        invariant !crashed && status == OK && docOffset == Start(sizes, i)
        invariant |read| == i && Pass1(log, ids, docs, read) == goal
      {
        SliceWindow(data, sizes, i);
        Pass1Unfold(log, ids, docs, read);
        crashed, status, e := InPlaceItem(ids[i], data[docOffset..docOffset + sizes[i]]);
        if crashed {
          return;
        }
        read := read + [e];
        docOffset := docOffset + sizes[i];
        i := i + 1;
      }
      Pass1End(log, ids, docs, read);
    }

    /** What a document placed in a row makes of the log, part by part. */
    static lemma WithPlacedIs(log: Log, id: nat, read: Entry, doc: bytes)
      requires WF(log) && log.chunkSize >= 8 && ChunkRoom(log, 1) && id < |log.entries|
      ensures Shape(log)
      ensures var p := Place(log, doc);
              && (p.entry.None? ==>
                    var log' := log.(chunks := p.chunks);
                    WF(log') && Shape(log') && HeaderOf(log') == HeaderOf(log.(chunks := p.chunks)))
              && (p.entry.Some? ==>
                    var log', h := WithPlaced(log, id, read, p), HeaderOf(log.(chunks := p.chunks));
                    && WF(log') && Shape(log') && log'.chunkSize == log.chunkSize && log'.chunks == p.chunks
                    && log'.entries == log.entries[id := p.entry.value]
                    && HeaderOf(log') == h.(collSize := h.collSize + if read.size == KEY_NOT_FOUND then 1 else 0))
    {
      PlaceShape(log, doc);
      if Place(log, doc).entry.None? {
        PlaceRefused(log, doc);
      } else {
        Pass2Step(log, id, read, doc);
      }
      hide Place, DocsOf, EntryOk, Apart;
    }

    /** One document of the second pass. */
    method AppendInRow(next: nat, id: nat, read: Entry, doc: bytes) returns (status: Status, next': nat)
      requires Valid() && log.chunkSize >= 8 && ChunkRoom(log, 1) && NextIs(next) && id < |log.entries|
      modifies this, chunkCache
      ensures Valid() && WF(log) && Shape(log)
      ensures status == if Place(old(log), doc).entry.Some? then OK else SizeError
      ensures status == OK ==> NextIs(next') && log == WithPlaced(old(log), id, read, Place(old(log), doc))
      ensures status != OK ==> log == old(log).(chunks := Place(old(log), doc).chunks)
    {
      hide *;
      ValidIs();
      NextIsNext(next);
      WithPlacedIs(log, id, read, doc);
      var collSizeIncr := read.size == KEY_NOT_FOUND;
      var e;
      status, e, next' := WriteDocument(next, doc);
      if status != OK {
        log := log.(chunks := disk);
        ValidIs();
        return;
      }
      NextAfter(log, doc);
      ReplaceRow(id, e, HeaderOf(log.(chunks := disk)), log.entries, if collSizeIncr then 1 else 0);
      log := WithPlaced(log, id, read, Place(log, doc));
      ValidIs();
      NextIsAfter(next');
    }

    /** The second pass; it gives up at the first document no chunk can hold. */
    method SecondPassOver(ids: seq<nat>, data: bytes, sizes: seq<nat>, read: seq<Entry>, next: nat)
      requires Valid() && WF(log) && Shape(log) && log.chunkSize >= 8 && ChunkRoom(log, |ids|) && NextIs(next)
      requires IsBatch(data, sizes) && KnownIds(log, ids, Slices(data, sizes)) && |read| == |ids| == |sizes|
      modifies this, chunkCache
      ensures Valid() && log == Pass2(old(log), ids, Slices(data, sizes), read, 0)
              && |log.entries| == |old(log.entries)|
    {
      hide *;
      Pass2Keeps(log, ids, Slices(data, sizes), read, 0);
      ghost var docs, goal := Slices(data, sizes), Pass2(log, ids, Slices(data, sizes), read, 0);
      var nextOffset, docOffset, i, status := next, 0, 0, OK;
      StartEnds(sizes);
      while i < |ids|
        invariant i <= |ids| == |docs| == |sizes| && Valid() && WF(log) && Shape(log) && KnownIds(log, ids, docs)
        invariant log.chunkSize >= 8
        invariant docOffset == Start(sizes, i) && NextIs(nextOffset) && ChunkRoom(log, |ids| - i)
        invariant Pass2(log, ids, docs, read, i) == goal
      {
        SliceWindow(data, sizes, i);
        Pass2Unfold(log, ids, docs, read, i);
        if sizes[i] > read[i].alloc {
          status, nextOffset := AppendInRow(nextOffset, ids[i], read[i], data[docOffset..docOffset + sizes[i]]);
          if status != OK {
            return;
          }
        }
        docOffset := docOffset + sizes[i];
        i := i + 1;
      }
      Pass2End(log, ids, docs, read);
    }

    /** Both passes over a table that has every row the batch names, and the flush that follows. */
    method BothPasses(ids: seq<nat>, data: bytes, sizes: seq<nat>, minId: nat, maxId: nat)
      returns (crashed: bool, status: Status)
      requires Valid() && WF(log) && ChunkRoom(log, |ids| + 1) && ChunkRoom(log, 1) && IsBatch(data, sizes)
      requires |ids| == |sizes| && KnownIds(log, ids, Slices(data, sizes)) && minId <= maxId < |log.entries|
      modifies this, chunkCache
      ensures var r := Pass1(old(log), ids, Slices(data, sizes), []);
              && (crashed <==> r.NullPass?)
              && (!crashed ==> Valid() && r.FirstPass? && WF(r.log) && r.log.chunkSize == old(log).chunkSize)
              && (!crashed && r.log.chunkSize < 8 ==> status == SizeError && log == r.log)
              && (!crashed && r.log.chunkSize >= 8 ==>
                    && Shape(r.log) && KnownIds(r.log, ids, Slices(data, sizes)) && |r.read| == |ids|
                    && ChunkRoom(r.log, |ids|)
                    && status == OK && log == Pass2(r.log, ids, Slices(data, sizes), r.read, 0))
    {
      hide *;
      ghost var docs := Slices(data, sizes);
      Pass1Facts(log, ids, docs);
      var read;
      crashed, status, read := FirstPassOver(ids, data, sizes);
      if crashed || status != OK {
        return;
      }
      var next;
      status, next := ReadNextOffset();
      if status != OK {
        return;
      }
      SecondPassOver(ids, data, sizes, read, next);
      status := FlushRows(minId, maxId);
    }

    static lemma Pass1Facts(log: Log, ids: seq<nat>, docs: seq<bytes>)
      requires WF(log) && ChunkRoom(log, |ids| + 1) && ChunkRoom(log, 1) && KnownIds(log, ids, docs)
      ensures var r := Pass1(log, ids, docs, []);
              r.FirstPass? ==>
                && r.status == OK && WF(r.log) && Shape(r.log) && r.log.chunkSize == log.chunkSize
                && KnownIds(r.log, ids, docs) && |r.read| == |ids| && ChunkRoom(r.log, |ids|)
                && |r.log.entries| == |log.entries|
    {
      hide Pass1;
    }

    /** Update a batch of documents by id. `crashed` is the dereference of a null chunk pointer. */
    method Update(ids: seq<nat>, data: bytes, sizes: seq<nat>) returns (crashed: bool, status: Status)
      requires Valid() && WF(log) && IsBatch(data, sizes) && |ids| == |sizes| > 0 && UpdateRoom(log, ids)
      modifies this, chunkCache
      ensures crashed <==> LogUpdateResults.Update(old(log), ids, Slices(data, sizes)).Crashed?
      ensures !crashed ==>
              Valid() && LogUpdateResults.Update(old(log), ids, Slices(data, sizes)) == Finished(status, log)
    {
      assert log.chunkSize == chunkSize;
      hide *;
      ghost var docs := Slices(data, sizes);
      UpdateUnfold(log, ids, docs);
      BatchSizes(data, sizes, chunkSize);
      var longest := LongerThan(sizes, chunkSize);
      if longest {
        return false, SizeError;
      }
      var minId, maxId := MinMaxId(ids);
      PaddedRoom(log, ids);
      AddPlaceholders(maxId);
      crashed, status := BothPasses(ids, data, sizes, minId, maxId);
    }

    static lemma PaddedRoom(log: Log, ids: seq<nat>)
      requires WF(log) && UpdateRoom(log, ids)
      ensures ChunkRoom(log, 0) && log.chunks != []
      ensures var padded := PadEntries(log, MaxId(ids, 0));
              ChunkRoom(padded, |ids| + 1) && padded.chunkSize == log.chunkSize
    {
    }

    /** Flushing rows of the table never fails. */
    method FlushRows(minId: nat, maxId: nat) returns (status: Status)
      requires Valid() && minId <= maxId < |log.entries|
      ensures status == OK
    {
      assert EntryOffset(maxId + 1) <= EntryOffset(|log.entries|);
      assert EntryOffset(minId) + (maxId - minId + 1) * ENTRY_SIZE == EntryOffset(maxId + 1);
      status := FlushMeta(EntryOffset(minId), (maxId - minId + 1) * ENTRY_SIZE);
    }
  }
}
