/** Append, erase, read and fetch of the log. */
module LogOperations {
  // Functions on the state that follow the code branch by branch, and the proof that they refine the operations on
  // the abstract collection.

  import opened Basics
  import opened Documents
  import opened LogModel

  // ---- Append ----

  function AppendOne(log: Log, doc: bytes): (Status, Log)
    requires Shape(log) && log.chunkSize >= 8 && ChunkRoom(log, 1)
  {
    var p := Place(log, doc);
    match p.entry
    case None => (SizeError, log.(chunks := p.chunks))
    case Some(e) => (OK, log.(chunks := p.chunks, entries := log.entries + [e], collSize := log.collSize + 1))
  }

  /** The append loop from document `i` on; it stops at the first document that cannot be written. */
  ghost function AppendFrom(log: Log, docs: seq<bytes>, i: nat): (Status, Log)
    requires i <= |docs|
    requires Shape(log) && log.chunkSize >= 8 && Room(log, |docs| - i)
    decreases |docs| - i
  {
    if i == |docs| then (OK, log)
    else
      PlaceShape(log, docs[i]);
      var (s, log') := AppendOne(log, docs[i]);
      if s != OK then (s, log') else AppendFrom(log', docs, i + 1)
  }

  lemma AppendFromStep(log: Log, docs: seq<bytes>, i: nat)
    requires i < |docs|
    requires Shape(log) && log.chunkSize >= 8 && Room(log, |docs| - i)
    ensures var (s, log') := AppendOne(log, docs[i]);
            && Shape(log') && log'.chunkSize == log.chunkSize && Room(log, 1)
            && |log'.entries| == |log.entries| + (if s == OK then 1 else 0)
            && (s == OK ==> Room(log', |docs| - i - 1))
            && AppendFrom(log, docs, i) == if s == OK then AppendFrom(log', docs, i + 1) else (s, log')
  {
    PlaceShape(log, docs[i]);
  }

  lemma AppendFromEnd(log: Log, docs: seq<bytes>)
    requires Shape(log) && log.chunkSize >= 8 && Room(log, 0)
    ensures AppendFrom(log, docs, |docs|) == (OK, log)
  {
  }

  predicate AnyLonger(docs: seq<bytes>, n: int) {
    exists i :: 0 <= i < |docs| && |docs[i]| > n
  }

  lemma BatchSizes(data: bytes, sizes: seq<nat>, n: int)
    requires IsBatch(data, sizes)
    ensures AnyLonger(Slices(data, sizes), n) <==> exists i :: 0 <= i < |sizes| && sizes[i] > n
  {
    var docs := Slices(data, sizes);
    assert forall i | 0 <= i < |sizes| :: |docs[i]| == sizes[i];
  }

  ghost function Append(log: Log, docs: seq<bytes>): (Status, Log)
    requires Shape(log) && Room(log, |docs|)
  {
    if AnyLonger(docs, log.chunkSize) then (SizeError, log)
    else if log.chunkSize < 8 then (SizeError, log)
    else AppendFrom(log, docs, 0)
  }

  /** Position of the first document, from `i` on, that no chunk can hold next to its header word. */
  function FirstTooLong(docs: seq<bytes>, chunkSize: nat, i: nat): (k: nat)
    requires i <= |docs|
    ensures i <= k <= |docs|
    ensures forall j | i <= j < k :: |docs[j]| <= chunkSize - 8
    ensures k < |docs| ==> |docs[k]| > chunkSize - 8
    decreases |docs| - i
  {
    if i == |docs| || |docs[i]| > chunkSize - 8 then i else FirstTooLong(docs, chunkSize, i + 1)
  }

  /** How many documents of a batch `append` stores. */
  function StoredCount(chunkSize: nat, docs: seq<bytes>): (k: nat)
    ensures k <= |docs| && (AnyLonger(docs, chunkSize) ==> k == 0)
    ensures !AnyLonger(docs, chunkSize) ==> forall j | 0 <= j < k :: |docs[j]| <= chunkSize - 8
    ensures !AnyLonger(docs, chunkSize) && k < |docs| ==> |docs[k]| > chunkSize - 8
  {
    if AnyLonger(docs, chunkSize) || chunkSize < 8 then 0 else FirstTooLong(docs, chunkSize, 0)
  }

  /** The row of a hole at the end of the table takes the new document. */
  lemma AppendIsPlacement(log: Log, doc: bytes, hole: Entry)
    requires Shape(log) && log.chunkSize >= 8 && ChunkRoom(log, 1) && Place(log, doc).entry.Some?
    ensures var padded, p := log.(entries := log.entries + [hole]), Place(log, doc);
            && Shape(padded) && Place(padded, doc) == p && AppendOne(log, doc).0 == OK
            && AppendOne(log, doc).1.entries == padded.entries[|log.entries| := p.entry.value]
            && AppendOne(log, doc).1.entries == log.entries + [p.entry.value]
            && AppendOne(log, doc).1.chunks == p.chunks && AppendOne(log, doc).1.chunkSize == log.chunkSize
  {
    var padded := log.(entries := log.entries + [hole]);
    assert Place(padded, doc) == Place(log, doc);
    var e := Place(log, doc).entry.value;
    assert padded.entries[|log.entries| := e] == log.entries + [e];
  }

  lemma AppendOneRefines(log: Log, doc: bytes)
    requires WF(log) && log.chunkSize >= 8 && ChunkRoom(log, 1) && |doc| <= log.chunkSize - 8
    ensures var (s, log') := AppendOne(log, doc);
            && s == OK && WF(log') && DocsOf(log') == DocsOf(log) + [Some(doc)]
            && (NoStray(log) ==> NoStray(log'))
            && |log'.chunks| <= |log.chunks| + 1
  {
    assert Shape(log) && 0 < |log.chunks| < MAX_FILE;
    var hole := Entry(|log.chunks| - 1, KEY_NOT_FOUND, KEY_NOT_FOUND, 0);
    var padded := log.(entries := log.entries + [hole]);
    hide WF, DocsOf, Place, AppendOne, Extent, Shape;
    AddHole(log, hole, padded);
    PlaceNew(log, doc);
    PlaceShape(log, doc);
    AppendIsPlacement(log, doc, hole);
    PlaceAt(padded, |log.entries|, doc, AppendOne(log, doc).1);
    LivePlaced(log.chunkSize, Place(log, doc).chunks, Place(log, doc).entry.value);
    assert (DocsOf(log) + [None])[|log.entries| := Some(doc)] == DocsOf(log) + [Some(doc)];
  }

  lemma LivePlaced(chunkSize: nat, chunks: seq<bytes>, e: Entry)
    requires Extent(chunkSize, chunks, e) && |chunks[e.chunk]| < MAX_FILE
    ensures IsPlaced(e)
  {
  }

  /** A document that fits no chunk is refused; a fresh chunk may have been opened for it. */
  lemma AppendOneRefuses(log: Log, doc: bytes)
    requires WF(log) && log.chunkSize >= 8 && ChunkRoom(log, 1) && |doc| > log.chunkSize - 8
    ensures var (s, log') := AppendOne(log, doc);
            && s == SizeError && WF(log') && DocsOf(log') == DocsOf(log)
            && log'.entries == log.entries && log'.collSize == log.collSize
  {
    var p := Place(log, doc);
    PlaceShape(log, doc);
    forall i | 0 <= i < |log.entries| && IsPlaced(log.entries[i])
      ensures Extent(log.chunkSize, p.chunks, log.entries[i])
      ensures Contents(p.chunks, log.entries[i]) == Contents(log.chunks, log.entries[i])
    {
      assert EntryOk(log.chunkSize, log.chunks, log.entries[i]);
      PlaceKeeps(log, doc, log.entries[i]);
    }
  }

  /** The size keeps its distance from the number of live rows. */
  lemma AppendOneDrift(log: Log, doc: bytes)
    requires Shape(log) && log.chunkSize >= 8 && ChunkRoom(log, 1)
    ensures Drift(AppendOne(log, doc).1) == Drift(log)
  {
    var p := Place(log, doc);
    if p.entry.Some? {
      RowsPushed(log.entries, [p.entry.value]);
      LiveCountOne(Rows([p.entry.value]));
    }
    hide Place;
  }

  lemma LiveCountOne(d: Docs)
    requires |d| == 1
    ensures LiveCount(d) == if d[0].Some? then 1 else 0
  {
  }

  /** The batch from `i` on was stored up to document `k`. */
  ghost predicate AppendedUpTo(log: Log, docs: seq<bytes>, i: nat, k: nat, log': Log) {
    && i <= k <= |docs|
    && WF(log) && WF(log') && DocsOf(log') == DocsOf(log) + Stored(docs[i..k])
    && log'.collSize == log.collSize + (k - i) && Drift(log') == Drift(log)
    && (NoStray(log) ==> NoStray(log'))
    && |log'.chunks| <= |log.chunks| + (|docs| - i)
  }

  lemma AppendedStep(log: Log, docs: seq<bytes>, i: nat, k: nat, log1: Log, log': Log)
    requires i < |docs| && WF(log) && WF(log1) && DocsOf(log1) == DocsOf(log) + [Some(docs[i])]
    requires log1.collSize == log.collSize + 1 && Drift(log1) == Drift(log) && (NoStray(log) ==> NoStray(log1))
    requires |log1.chunks| <= |log.chunks| + 1
    requires AppendedUpTo(log1, docs, i + 1, k, log')
    ensures AppendedUpTo(log, docs, i, k, log')
  {
  }

  lemma AppendFromStops(log: Log, docs: seq<bytes>, i: nat)
    requires i <= |docs| && WF(log) && log.chunkSize >= 8 && Room(log, |docs| - i)
    requires i < |docs| ==> |docs[i]| > log.chunkSize - 8
    ensures var (s, log') := AppendFrom(log, docs, i);
            && AppendedUpTo(log, docs, i, i, log')
            && s == if i == |docs| then OK else SizeError
  {
    assert DocsOf(log) + Stored(docs[i..i]) == DocsOf(log);
    if i < |docs| {
      PlaceShape(log, docs[i]);
      AppendOneRefuses(log, docs[i]);
    }
  }

  lemma {:induction false} AppendFromRefines(log: Log, docs: seq<bytes>, i: nat)
    requires i <= |docs| && WF(log) && log.chunkSize >= 8 && Room(log, |docs| - i)
    ensures var (s, log') := AppendFrom(log, docs, i);
            var k := FirstTooLong(docs, log.chunkSize, i);
            && AppendedUpTo(log, docs, i, k, log')
            && s == if k == |docs| then OK else SizeError
    decreases |docs| - i
  {
    if i == |docs| || |docs[i]| > log.chunkSize - 8 {
      AppendFromStops(log, docs, i);
    } else {
      AppendOneRefines(log, docs[i]);
      AppendOneDrift(log, docs[i]);
      var log1 := AppendOne(log, docs[i]).1;
      AppendFromRefines(log1, docs, i + 1);
      AppendedStep(log, docs, i, FirstTooLong(docs, log.chunkSize, i + 1), log1, AppendFrom(log1, docs, i + 1).1);
    }
  }

  lemma AppendStores(log: Log, docs: seq<bytes>)
    requires WF(log) && Room(log, |docs|)
    ensures var (s, log') := Append(log, docs);
            && AppendedUpTo(log, docs, 0, StoredCount(log.chunkSize, docs), log')
            && (s == OK <==> log.chunkSize >= 8 && !AnyLonger(docs, log.chunkSize - 8))
            && (s != OK ==> s == SizeError)
            && (s == OK ==> StoredCount(log.chunkSize, docs) == |docs|)
  {
    var k := StoredCount(log.chunkSize, docs);
    if AnyLonger(docs, log.chunkSize) || log.chunkSize < 8 {
      assert DocsOf(log) + Stored(docs[0..k]) == DocsOf(log);
    } else {
      AppendFromRefines(log, docs, 0);
    }
  }

  lemma CountIsFirst(docs: seq<bytes>, chunkSize: nat, k: nat)
    requires k <= |docs| && forall j | 0 <= j < k :: |docs[j]| <= chunkSize - 8
    requires k < |docs| ==> |docs[k]| > chunkSize - 8
    ensures !AnyLonger(docs, chunkSize) ==> StoredCount(chunkSize, docs) == k
    ensures k == |docs| <==> !AnyLonger(docs, chunkSize - 8)
  {
    var n := StoredCount(chunkSize, docs);
    assert n < k ==> |docs[n]| <= chunkSize - 8;
  }

  /**
   A batch with a document longer than a chunk is refused whole. Of any other batch `append` stores exactly the
   documents before `k`, the first one that no chunk can hold next to its header word, in order and at the next ids;
   every earlier document is untouched; the call succeeds exactly when all were stored.
   */
  lemma AppendRefines(log: Log, docs: seq<bytes>, k: nat)
    requires WF(log) && Room(log, |docs|)
    requires k <= |docs| && forall j | 0 <= j < k :: |docs[j]| <= log.chunkSize - 8
    requires k < |docs| ==> |docs[k]| > log.chunkSize - 8
    ensures var (s, log') := Append(log, docs);
            if exists i :: 0 <= i < |docs| && |docs[i]| > log.chunkSize then s == SizeError && log' == log
            else AppendedUpTo(log, docs, 0, k, log') && s == if log.chunkSize >= 8 && k == |docs| then OK else SizeError
  {
    AppendStores(log, docs);
    assert k == 0 || |docs[0]| <= log.chunkSize - 8;
    CountIsFirst(docs, log.chunkSize, k);
    hide AppendFrom, AppendedUpTo, WF, StoredCount;
  }

  /** The same for a batch cut out of a buffer. */
  lemma AppendOutcome(log: Log, data: bytes, sizes: seq<nat>)
    requires WF(log) && IsBatch(data, sizes) && Room(log, |sizes|)
    ensures (exists i :: 0 <= i < |sizes| && sizes[i] > log.chunkSize) ==>
              Append(log, Slices(data, sizes)) == (SizeError, log)
    ensures (forall i | 0 <= i < |sizes| :: sizes[i] <= log.chunkSize) ==>
              var (s, log') := Append(log, Slices(data, sizes));
              WF(log') && exists k: nat ::
                && k <= |sizes| && (forall j | 0 <= j < k :: sizes[j] <= log.chunkSize - 8)
                && (k < |sizes| ==> sizes[k] > log.chunkSize - 8)
                && DocsOf(log') == DocsOf(log) + Stored(Slices(data, sizes)[..k])
                && |log'.entries| == |log.entries| + k
                && s == if log.chunkSize >= 8 && k == |sizes| then OK else SizeError
  {
    var docs := Slices(data, sizes);
    var k := FirstTooLong(docs, log.chunkSize, 0);
    assert forall i | 0 <= i < |sizes| :: |docs[i]| == sizes[i];
    AppendRefines(log, docs, k);
    assert docs[0..k] == docs[..k];
    hide AppendFrom, Append, WF;
  }

  lemma AppendIs(log: Log, docs: seq<bytes>)
    requires Shape(log) && Room(log, |docs|)
    ensures Append(log, docs) ==
            if AnyLonger(docs, log.chunkSize) || log.chunkSize < 8 then (SizeError, log) else AppendFrom(log, docs, 0)
  {
  }

  lemma AppendCounts(log: Log, docs: seq<bytes>, k: nat, log': Log)
    requires AppendedUpTo(log, docs, 0, k, log') && Counted(log)
    ensures Counted(log')
  {
    LiveCountConcat(DocsOf(log), Stored(docs[0..k]));
    LiveCountStored(docs[0..k]);
  }

  // ---- Erase and read ----

  function Erase(log: Log, id: nat): (Status, Log) {
    if id >= |log.entries| then (InvalidID, log)
    else if !IsLive(log.entries[id]) then (OK, log)
    else (OK, log.(entries := log.entries[id := Entry(KEY_NOT_FOUND, KEY_NOT_FOUND, KEY_NOT_FOUND,
                                                      log.entries[id].alloc)],
                   collSize := log.collSize - 1))
  }

  lemma EraseEntry(log: Log, id: nat)
    requires WF(log) && id < |log.entries| && IsLive(log.entries[id])
    ensures var log' := Erase(log, id).1; WF(log') && DocsOf(log') == DocsOf(log)[id := None]
  {
    var log' := Erase(log, id).1;
    forall j | 0 <= j < |log.entries| && j != id && IsPlaced(log.entries[j])
      ensures Extent(log.chunkSize, log.chunks, log.entries[j])
    {
      assert EntryOk(log.chunkSize, log.chunks, log.entries[j]);
    }
  }

  /** Erase empties the slot of its id and nothing else, stray row or not; ids past the end are refused. */
  lemma EraseRefines(log: Log, id: nat)
    requires WF(log)
    ensures var (s, log') := Erase(log, id);
            && WF(log') && DocsOf(log') == Documents.Erase(DocsOf(log), id)
            && (forall j :: StrayAt(log', j) <==> StrayAt(log, j) && j != id) && (NoStray(log) ==> NoStray(log'))
            && s == (if id < |DocsOf(log)| then OK else InvalidID)
            && log'.chunks == log.chunks
  {
    if id < |log.entries| {
      assert EntryOk(log.chunkSize, log.chunks, log.entries[id]);
      if IsLive(log.entries[id]) {
        EraseEntry(log, id);
      } else {
        assert DocsOf(log)[id := None] == DocsOf(log);
      }
    }
  }

  /** The size keeps its distance from the number of live rows, in any log; without stray rows it stays exact. */
  lemma EraseCounts(log: Log, id: nat)
    ensures Drift(Erase(log, id).1) == Drift(log)
    ensures WF(log) && NoStray(log) && Counted(log) ==> WF(Erase(log, id).1) && Counted(Erase(log, id).1)
  {
    if id < |log.entries| && IsLive(log.entries[id]) {
      RowSet(log.entries, id, Erase(log, id).1.entries[id]);
    }
    hide Rows;
    if WF(log) && NoStray(log) && Counted(log) {
      EraseRefines(log, id);
      hide WF, NoStray, DocsOf;
      RowsAreDocuments(log);
      RowsAreDocuments(Erase(log, id).1);
    }
  }

  /** What `getChunkFromID` yields: the chunk files afterwards, or nothing for a null pointer. */
  function GetChunk(log: Log, chunk: u64): Option<seq<bytes>>
    requires Shape(log)
  {
    if chunk < |log.chunks| then Some(log.chunks)
    else if chunk == |log.chunks| then Some(log.chunks + [Zeros(log.chunkSize)])
    else None
  }

  /** Outcome of a lookup; `NullChunk` stands for the dereference of a null chunk pointer. */
  datatype Lookup = Found(doc: bytes) | Refused(status: Status) | NullChunk

  function ReadEntry(log: Log, e: Entry, bufSize: nat): Lookup
    requires Shape(log)
  {
    if e.size > bufSize then Refused(SizeError)
    else match GetChunk(log, e.chunk)
      case None => NullChunk
      case Some(chunks) =>
        if e.offset + e.size > log.chunkSize then Refused(SizeError)
        else Found(chunks[e.chunk][e.offset..e.offset + e.size])
  }

  function Read(log: Log, id: nat, bufSize: nat): Lookup
    requires Shape(log)
  {
    if id >= |log.entries| then Refused(InvalidID)
    else if !IsLive(log.entries[id]) then Refused(NotFound)
    else ReadEntry(log, log.entries[id], bufSize)
  }

  /** What `fetch` hands to its callback; `Refused(NotFound)` is a call saying there is no document. */
  function Fetch(log: Log, id: nat): Lookup
    requires Shape(log)
  {
    if id >= |log.entries| || !IsLive(log.entries[id]) then Refused(NotFound)
    else ReadEntry(log, log.entries[id], log.entries[id].size)
  }

  /** Fetching reaches the callback with the abstract document, unless the row is stray. */
  lemma FetchRefines(log: Log, id: nat)
    requires WF(log) && !StrayAt(log, id)
    ensures Fetch(log, id) ==
            match At(DocsOf(log), id)
            case None => Refused(NotFound)
            case Some(doc) => Found(doc)
  {
    if id < |log.entries| {
      assert EntryOk(log.chunkSize, log.chunks, log.entries[id]);
    }
  }

  /** Reading returns exactly the abstract document, and never fails in the storage below, unless the row is stray. */
  lemma ReadRefines(log: Log, id: nat, bufSize: nat)
    requires WF(log) && !StrayAt(log, id)
    ensures Read(log, id, bufSize) ==
            match At(DocsOf(log), id)
            case None => Refused(if id < |DocsOf(log)| then NotFound else InvalidID)
            case Some(doc) => if |doc| > bufSize then Refused(SizeError) else Found(doc)
  {
    if id < |log.entries| {
      assert EntryOk(log.chunkSize, log.chunks, log.entries[id]);
    }
  }

  /** A stray row that was erased before has no chunk; any other is refused by its chunk. */
  lemma StrayRefused(log: Log, id: nat, bufSize: nat)
    requires WF(log) && ChunkRoom(log, 1) && StrayAt(log, id)
    ensures Fetch(log, id) == Read(log, id, bufSize) == if LostAt(log, id) then NullChunk else Refused(SizeError)
    ensures At(DocsOf(log), id) == None
  {
    assert EntryOk(log.chunkSize, log.chunks, log.entries[id]);
  }

  /** In any log, the callback of a fetch is reached for exactly the ids whose row is not stray. */
  lemma FetchCallsBack(log: Log, id: nat)
    requires WF(log) && ChunkRoom(log, 1)
    ensures Fetch(log, id).Found? || Fetch(log, id) == Refused(NotFound) <==> !StrayAt(log, id)
    ensures Fetch(log, id) == NullChunk <==> LostAt(log, id)
  {
    if StrayAt(log, id) {
      StrayRefused(log, id, 0);
    } else {
      FetchRefines(log, id);
    }
  }
}
