/** The log as a value. */
module LogModel {
  // A table of entries that point into chunk files, each chunk starting with the word that records its next free
  // offset, and the transitions that the operations are made of.

  import opened Basics
  import opened Words
  import opened Documents

  datatype Entry = Entry(chunk: u64, offset: u64, size: u64, alloc: u64)

  // The entry table has `next_id` rows; the last chunk is the one being filled. `collSize` is the count kept in
  // the header before reduction to a machine word.
  datatype Log = Log(chunkSize: u64, entries: seq<Entry>, chunks: seq<bytes>, collSize: int)

  // ---- Chunk files ----

  /** Where the next document goes; a chunk never written to starts after its header word. */
  function NextOffset(chunk: bytes): nat
    requires |chunk| >= 8
  {
    if WordAt(chunk, 0) == 0 then 8 else WordAt(chunk, 0)
  }

  ghost predicate ChunkOk(chunkSize: nat, chunk: bytes) {
    && |chunk| == chunkSize
    && (chunkSize >= 8 ==> 8 <= NextOffset(chunk) <= chunkSize)
  }

  // Files are addressed with signed 64-bit offsets.
  const MAX_FILE := 0x8000_0000_0000_0000

  ghost predicate Shape(log: Log) {
    && log.chunkSize < MAX_FILE
    && log.chunks != []
    && forall c | 0 <= c < |log.chunks| :: ChunkOk(log.chunkSize, log.chunks[c])
  }

  predicate ChunkRoom(log: Log, n: nat) {
    |log.chunks| + n < MAX_FILE
  }

  /** Room for `n` more documents before ids, chunk numbers or file offsets leave the range of a machine word. */
  predicate Room(log: Log, n: nat) {
    ChunkRoom(log, n) && |log.entries| + n < 0x200_0000_0000_0000
  }

  lemma FreshChunkOk(chunkSize: nat)
    ensures ChunkOk(chunkSize, Zeros(chunkSize))
    ensures chunkSize >= 8 ==> NextOffset(Zeros(chunkSize)) == 8
  {
    if chunkSize >= 8 {
      ZeroWord(Zeros(chunkSize), 0);
    }
  }

  /** A document written at `offset`, and the header word moved past it. */
  function Written(chunk: bytes, offset: nat, doc: bytes): (r: bytes)
    requires 8 <= offset && offset + |doc| <= |chunk| < TWO_TO_THE_64
    ensures |r| == |chunk|
  {
    Splice(Splice(chunk, offset, doc), 0, EncodeU64(offset + |doc|))
  }

  lemma WrittenFacts(chunk: bytes, offset: nat, doc: bytes, lo: nat, hi: nat)
    requires 8 <= offset && offset + |doc| <= |chunk| < TWO_TO_THE_64
    ensures NextOffset(Written(chunk, offset, doc)) == offset + |doc|
    ensures Written(chunk, offset, doc)[offset..offset + |doc|] == doc
    ensures 8 <= lo <= hi <= offset ==> Written(chunk, offset, doc)[lo..hi] == chunk[lo..hi]
  {
    var header := EncodeU64(offset + |doc|);
    var body := Splice(chunk, offset, doc);
    SpliceWord(body, 0, offset + |doc|, 0);
    SpliceMiss(body, 0, header, offset, offset + |doc|);
    if 8 <= lo <= hi <= offset {
      SpliceMiss(chunk, offset, doc, lo, hi);
      SpliceMiss(body, 0, header, lo, hi);
    }
  }

  // ---- Placing a document at the end of the log ----

  /** The chunks after an attempt to append a document, and its entry unless the write was refused. */
  datatype Placement = Placement(chunks: seq<bytes>, entry: Option<Entry>)

  predicate RollsOver(log: Log, doc: bytes)
    requires Shape(log) && log.chunkSize >= 8
  {
    |doc| > log.chunkSize - NextOffset(log.chunks[|log.chunks| - 1])
  }

  function Place(log: Log, doc: bytes): (p: Placement)
    requires Shape(log) && log.chunkSize >= 8 && ChunkRoom(log, 1)
  {
    var chunks := if RollsOver(log, doc) then log.chunks + [Zeros(log.chunkSize)] else log.chunks;
    var c := |chunks| - 1;
    var offset := if RollsOver(log, doc) then 8 else NextOffset(log.chunks[c]);
    if offset + |doc| > log.chunkSize then Placement(chunks, None)
    else Placement(chunks[c := Written(chunks[c], offset, doc)], Some(Entry(c, offset, |doc|, |doc|)))
  }

  // ---- Well-formed logs ----

  predicate IsLive(e: Entry) {
    e.size != KEY_NOT_FOUND
  }

  predicate IsPlaced(e: Entry) {
    e.offset != KEY_NOT_FOUND
  }

  /** A placed entry owns the bytes [offset, offset + alloc) of its chunk, below the chunk's next offset. */
  ghost predicate Extent(chunkSize: nat, chunks: seq<bytes>, e: Entry) {
    && 8 <= chunkSize
    && e.chunk < |chunks| && |chunks[e.chunk]| == chunkSize
    && 8 <= e.offset
    && e.size <= e.alloc
    && e.offset + e.alloc <= NextOffset(chunks[e.chunk]) <= chunkSize
  }

  /** An erased entry has lost its chunk; a placeholder never had any bytes. Neither can hold more than nothing. */
  ghost predicate Unplaced(chunks: seq<bytes>, e: Entry) {
    && (e.chunk == KEY_NOT_FOUND || (e.alloc == 0 && e.chunk < |chunks|))
    && (e.size == KEY_NOT_FOUND || e.size == 0)
  }

  ghost predicate EntryOk(chunkSize: nat, chunks: seq<bytes>, e: Entry) {
    if IsPlaced(e) then IsLive(e) && Extent(chunkSize, chunks, e) else Unplaced(chunks, e)
  }

  predicate Apart(e: Entry, f: Entry) {
    e.chunk != f.chunk || e.offset + e.alloc <= f.offset || f.offset + f.alloc <= e.offset
  }

  ghost predicate WF(log: Log) {
    && Shape(log)
    && (forall i | 0 <= i < |log.entries| :: EntryOk(log.chunkSize, log.chunks, log.entries[i]))
    && (forall i, j | 0 <= i < j < |log.entries| && IsPlaced(log.entries[i]) && IsPlaced(log.entries[j]) ::
          Apart(log.entries[i], log.entries[j]))
  }

  function Contents(chunks: seq<bytes>, e: Entry): bytes
    requires e.chunk < |chunks| && e.offset + e.size <= |chunks[e.chunk]|
  {
    chunks[e.chunk][e.offset..e.offset + e.size]
  }

  ghost function DocOf(chunkSize: nat, chunks: seq<bytes>, e: Entry): Option<bytes>
    requires EntryOk(chunkSize, chunks, e)
  {
    if IsPlaced(e) then Some(Contents(chunks, e)) else None
  }

  /** The abstract collection a well-formed log stands for. */
  ghost function DocsOf(log: Log): (d: Docs)
    requires WF(log)
    ensures |d| == |log.entries|
  {
    seq(|log.entries|, i requires 0 <= i < |log.entries| => DocOf(log.chunkSize, log.chunks, log.entries[i]))
  }

  ghost predicate Counted(log: Log)
    requires WF(log)
  {
    log.collSize == LiveCount(DocsOf(log))
  }

  /** Every row that claims a document has a place for it. */
  predicate NoStray(log: Log) {
    forall i | 0 <= i < |log.entries| :: IsLive(log.entries[i]) ==> IsPlaced(log.entries[i])
  }

  /** The rows that claim a document, as a collection of empty ones. */
  function Rows(entries: seq<Entry>): (r: Docs)
    ensures |r| == |entries|
    ensures forall i | 0 <= i < |entries| :: r[i] == if IsLive(entries[i]) then Some([]) else None
  {
    seq(|entries|, i requires 0 <= i < |entries| => if IsLive(entries[i]) then Some([]) else None)
  }

  /** How far the size in the header is from the number of rows that claim a document. */
  function Drift(log: Log): int {
    log.collSize - LiveCount(Rows(log.entries))
  }

  predicate RowsCounted(log: Log) {
    Drift(log) == 0
  }

  lemma RowSet(entries: seq<Entry>, id: nat, e: Entry)
    requires id < |entries|
    ensures LiveCount(Rows(entries[id := e])) ==
            LiveCount(Rows(entries)) - (if IsLive(entries[id]) then 1 else 0) + (if IsLive(e) then 1 else 0)
  {
    var o := if IsLive(e) then Some([]) else None;
    assert Rows(entries[id := e]) == Rows(entries)[id := o];
    LiveCountUpdate(Rows(entries), id, o);
  }

  lemma RowsPushed(entries: seq<Entry>, more: seq<Entry>)
    ensures Rows(entries + more) == Rows(entries) + Rows(more)
    ensures LiveCount(Rows(entries + more)) == LiveCount(Rows(entries)) + LiveCount(Rows(more))
  {
    assert Rows(entries + more) == Rows(entries) + Rows(more);
    LiveCountConcat(Rows(entries), Rows(more));
  }

  /** In a well-formed log a row has a place exactly when the collection has its document. */
  lemma PlacedIsDocument(log: Log, id: nat)
    requires WF(log) && id < |log.entries|
    ensures IsPlaced(log.entries[id]) <==> DocsOf(log)[id].Some?
    ensures IsPlaced(log.entries[id]) ==> IsLive(log.entries[id])
  {
    assert EntryOk(log.chunkSize, log.chunks, log.entries[id]);
  }

  /** Without stray rows, counting rows is counting documents. */
  lemma RowsAreDocuments(log: Log)
    requires WF(log) && NoStray(log)
    ensures forall i | 0 <= i < |log.entries| :: Rows(log.entries)[i].Some? == DocsOf(log)[i].Some?
    ensures LiveCount(Rows(log.entries)) == LiveCount(DocsOf(log)) && (Counted(log) <==> RowsCounted(log))
  {
    forall i | 0 <= i < |log.entries| ensures Rows(log.entries)[i].Some? == DocsOf(log)[i].Some? {
      PlacedIsDocument(log, i);
    }
    SameLive(Rows(log.entries), DocsOf(log));
  }

  /** A row that claims an empty document and has no place for it, as an update by nothing leaves behind. */
  predicate StrayAt(log: Log, id: nat) {
    id < |log.entries| && IsLive(log.entries[id]) && !IsPlaced(log.entries[id])
  }

  /** Such a row that was erased before, so that it names no chunk either. */
  predicate LostAt(log: Log, id: nat) {
    StrayAt(log, id) && log.entries[id].chunk == KEY_NOT_FOUND
  }

  // ---- What appending at the end of the log keeps ----

  lemma PlaceShape(log: Log, doc: bytes)
    requires Shape(log) && log.chunkSize >= 8 && ChunkRoom(log, 1)
    ensures var p := Place(log, doc);
            && Shape(log.(chunks := p.chunks))
            && |log.chunks| <= |p.chunks| <= |log.chunks| + 1
            && (p.entry.Some? <==> |doc| <= log.chunkSize - 8)
  {
    FreshChunkOk(log.chunkSize);
    var p := Place(log, doc);
    if p.entry.Some? {
      var e := p.entry.value;
      var c := if RollsOver(log, doc) then Zeros(log.chunkSize) else log.chunks[e.chunk];
      WrittenFacts(c, e.offset, doc, 8, 8);
    }
  }

  lemma PlaceNew(log: Log, doc: bytes)
    requires Shape(log) && log.chunkSize >= 8 && ChunkRoom(log, 1) && |doc| <= log.chunkSize - 8
    ensures var p := Place(log, doc);
            && p.entry.Some?
            && p.entry.value.alloc == p.entry.value.size == |doc|
            && Extent(log.chunkSize, p.chunks, p.entry.value)
            && Contents(p.chunks, p.entry.value) == doc
  {
    PlaceShape(log, doc);
    FreshChunkOk(log.chunkSize);
    var e := Place(log, doc).entry.value;
    var c := if RollsOver(log, doc) then Zeros(log.chunkSize) else log.chunks[e.chunk];
    WrittenFacts(c, e.offset, doc, 8, 8);
  }

  /** The last chunk's next offset moves just past the new document. */
  lemma PlacedNext(log: Log, doc: bytes)
    requires Shape(log) && log.chunkSize >= 8 && ChunkRoom(log, 1) && |doc| <= log.chunkSize - 8
    ensures var p := Place(log, doc);
            && p.chunks != [] && |p.chunks[|p.chunks| - 1]| == log.chunkSize
            && p.entry.Some?
            && NextOffset(p.chunks[|p.chunks| - 1]) == p.entry.value.offset + |doc|
  {
    PlaceShape(log, doc);
    FreshChunkOk(log.chunkSize);
    var e := Place(log, doc).entry.value;
    var c := if RollsOver(log, doc) then Zeros(log.chunkSize) else log.chunks[e.chunk];
    WrittenFacts(c, e.offset, doc, 8, 8);
  }

  /** Appending leaves the extent and the bytes of every other document alone. */
  lemma PlaceKeeps(log: Log, doc: bytes, e: Entry)
    requires Shape(log) && log.chunkSize >= 8 && ChunkRoom(log, 1)
    requires Extent(log.chunkSize, log.chunks, e)
    ensures var p := Place(log, doc);
            && Extent(log.chunkSize, p.chunks, e)
            && Contents(p.chunks, e) == Contents(log.chunks, e)
            && (p.entry.Some? ==> Apart(e, p.entry.value))
  {
    var p := Place(log, doc);
    if p.entry.Some? && p.entry.value.chunk == e.chunk {
      WrittenFacts(log.chunks[e.chunk], p.entry.value.offset, doc, e.offset, e.offset + e.size);
    }
  }

  // ---- Changing one row of the table ----

  /** One row changes while every other live document keeps its extent and bytes. */
  lemma ReplaceEntry(log: Log, chunks: seq<bytes>, id: nat, e: Entry, log': Log)
    requires WF(log) && id < |log.entries|
    requires log'.chunkSize == log.chunkSize && log'.chunks == chunks && log'.entries == log.entries[id := e]
    requires Shape(log') && |log.chunks| <= |chunks|
    requires EntryOk(log.chunkSize, chunks, e)
    requires forall j | 0 <= j < |log.entries| && j != id && IsPlaced(log.entries[j]) ::
               && Extent(log.chunkSize, chunks, log.entries[j])
               && Contents(chunks, log.entries[j]) == Contents(log.chunks, log.entries[j])
               && (IsPlaced(e) ==> Apart(log.entries[j], e))
    ensures WF(log')
    ensures DocsOf(log') == DocsOf(log)[id := DocOf(log.chunkSize, chunks, e)]
  {
    forall i | 0 <= i < |log'.entries| ensures EntryOk(log.chunkSize, chunks, log'.entries[i]) {
      assert EntryOk(log.chunkSize, log.chunks, log.entries[i]);
    }
    forall i, j | 0 <= i < j < |log'.entries| && IsPlaced(log'.entries[i]) && IsPlaced(log'.entries[j])
      ensures Apart(log'.entries[i], log'.entries[j])
    {
      if i == id {
        assert Apart(log.entries[j], e);
      } else if j == id {
        assert Apart(log.entries[i], e);
      }
    }
    forall i | 0 <= i < |log'.entries|
      ensures DocsOf(log')[i] == DocsOf(log)[id := DocOf(log.chunkSize, chunks, e)][i]
    {
      assert EntryOk(log.chunkSize, log.chunks, log.entries[i]);
    }
  }

  /** A row without a place is added at the end of the table. */
  lemma AddHole(log: Log, hole: Entry, log': Log)
    requires WF(log) && !IsPlaced(hole) && Unplaced(log.chunks, hole)
    requires log' == log.(entries := log.entries + [hole])
    ensures WF(log')
    ensures DocsOf(log') == DocsOf(log) + [None]
  {
    forall i | 0 <= i < |log'.entries| ensures EntryOk(log'.chunkSize, log'.chunks, log'.entries[i]) {
    }
    assert DocsOf(log') == DocsOf(log) + [None];
  }

  /** Placing a document and pointing row `id` at it refines the abstract update. */
  lemma PlaceAt(log: Log, id: nat, doc: bytes, log': Log)
    requires WF(log) && log.chunkSize >= 8 && ChunkRoom(log, 1) && |doc| <= log.chunkSize - 8 && id < |log.entries|
    requires var p := Place(log, doc);
             && p.entry.Some?
             && log'.chunkSize == log.chunkSize && log'.chunks == p.chunks
             && log'.entries == log.entries[id := p.entry.value]
    ensures WF(log')
    ensures DocsOf(log') == DocsOf(log)[id := Some(doc)]
  {
    var p := Place(log, doc);
    PlaceShape(log, doc);
    PlaceNew(log, doc);
    forall j | 0 <= j < |log.entries| && j != id && IsPlaced(log.entries[j])
      ensures && Extent(log.chunkSize, p.chunks, log.entries[j])
              && Contents(p.chunks, log.entries[j]) == Contents(log.chunks, log.entries[j])
              && Apart(log.entries[j], p.entry.value)
    {
      assert EntryOk(log.chunkSize, log.chunks, log.entries[j]);
      PlaceKeeps(log, doc, log.entries[j]);
    }
    ReplaceEntry(log, p.chunks, id, p.entry.value, log');
  }
}
