/**
 The metadata file of a log-structured collection: a 32-byte header of four words followed by 32-byte entries, growing
 by doubling. Everything here is about the bytes of that file: what writing one row or one header word leaves alone,
 and how many rows are seen after reopening.
 */
module LogMetadata {
  import opened Basics
  import opened Words
  import opened LogModel

  const HEADER_SIZE := 32
  const ENTRY_SIZE := 32
  const INITIAL_META_SIZE := 262144

  // Offsets of the header words.
  const COLL_SIZE := 0
  const NEXT_ID := 8
  const LAST_CHUNK_ID := 16
  const CHUNK_SIZE := 24

  function EntryOffset(id: nat): nat {
    HEADER_SIZE + id * ENTRY_SIZE
  }

  function EncodeEntry(e: Entry): (r: bytes)
    ensures |r| == ENTRY_SIZE
  {
    EncodeU64(e.chunk) + EncodeU64(e.offset) + EncodeU64(e.size) + EncodeU64(e.alloc)
  }

  function DecodeEntry(b: bytes): Entry
    requires |b| == ENTRY_SIZE
  {
    Entry(DecodeU64(b[0..8]), DecodeU64(b[8..16]), DecodeU64(b[16..24]), DecodeU64(b[24..32]))
  }

  lemma EntryRoundTrip(e: Entry)
    ensures DecodeEntry(EncodeEntry(e)) == e
  {
    var b := EncodeEntry(e);
    assert b[0..8] == EncodeU64(e.chunk);
    assert b[8..16] == EncodeU64(e.offset);
    assert b[16..24] == EncodeU64(e.size);
    assert b[24..32] == EncodeU64(e.alloc);
  }

  /** The row of `id`, wherever the file is long enough to hold it. */
  function EntryAt(meta: bytes, id: nat): Entry
    requires EntryOffset(id) + ENTRY_SIZE <= |meta|
  {
    DecodeEntry(meta[EntryOffset(id)..EntryOffset(id) + ENTRY_SIZE])
  }

  /** The header words. */
  ghost predicate HeaderHolds(meta: bytes, collSize: int, nextId: nat, lastChunk: int, chunkSize: nat) {
    && |meta| >= HEADER_SIZE
    && WordAt(meta, COLL_SIZE) == Wrap(collSize)
    && WordAt(meta, NEXT_ID) == nextId
    && WordAt(meta, LAST_CHUNK_ID) == lastChunk
    && WordAt(meta, CHUNK_SIZE) == chunkSize
  }

  ghost predicate RowsHold(meta: bytes, entries: seq<Entry>) {
    && EntryOffset(|entries|) <= |meta|
    && forall i | 0 <= i < |entries| :: EntryAt(meta, i) == entries[i]
  }

  /** The file after one entry was written, doubled first when the entry lies past its end. */
  function WithEntry(meta: bytes, id: nat, e: Entry): (r: bytes)
    requires HEADER_SIZE <= |meta| && EntryOffset(id) <= |meta|
    ensures EntryOffset(id + 1) <= |r|
  {
    var room := if EntryOffset(id) + HEADER_SIZE > |meta| then meta + Zeros(|meta|) else meta;
    Splice(room, EntryOffset(id), EncodeEntry(e))
  }

  lemma WindowUnchanged(meta: bytes, id: nat, e: Entry, lo: nat, hi: nat)
    requires HEADER_SIZE <= |meta| && EntryOffset(id) <= |meta| && lo <= hi <= |meta|
    requires hi <= EntryOffset(id) || EntryOffset(id + 1) <= lo
    ensures |meta| <= |WithEntry(meta, id, e)| && WithEntry(meta, id, e)[lo..hi] == meta[lo..hi]
  {
    var room := if EntryOffset(id) + HEADER_SIZE > |meta| then meta + Zeros(|meta|) else meta;
    SpliceMiss(room, EntryOffset(id), EncodeEntry(e), lo, hi);
    assert room[lo..hi] == meta[lo..hi];
  }

  lemma OwnEntry(meta: bytes, id: nat, e: Entry)
    requires HEADER_SIZE <= |meta| && EntryOffset(id) <= |meta|
    ensures EntryAt(WithEntry(meta, id, e), id) == e
  {
    var room := if EntryOffset(id) + HEADER_SIZE > |meta| then meta + Zeros(|meta|) else meta;
    EntryRoundTrip(e);
  }

  /** Writing an entry keeps the header, through growth too. */
  lemma EntryKeepsHeader(meta: bytes, id: nat, e: Entry, collSize: int, nextId: nat, lastChunk: int, chunkSize: nat)
    requires HEADER_SIZE <= |meta| && EntryOffset(id) <= |meta|
    requires HeaderHolds(meta, collSize, nextId, lastChunk, chunkSize)
    ensures HeaderHolds(WithEntry(meta, id, e), collSize, nextId, lastChunk, chunkSize)
  {
    WindowUnchanged(meta, id, e, COLL_SIZE, COLL_SIZE + 8);
    WindowUnchanged(meta, id, e, NEXT_ID, NEXT_ID + 8);
    WindowUnchanged(meta, id, e, LAST_CHUNK_ID, LAST_CHUNK_ID + 8);
    WindowUnchanged(meta, id, e, CHUNK_SIZE, CHUNK_SIZE + 8);
  }

  function SetRow(entries: seq<Entry>, id: nat, e: Entry): (r: seq<Entry>)
    requires id <= |entries|
    ensures |r| == Max(|entries|, id + 1)
  {
    if id == |entries| then entries + [e] else entries[id := e]
  }

  /** A row other than the written one reads as before. */
  lemma OtherEntry(meta: bytes, id: nat, e: Entry, i: nat)
    requires HEADER_SIZE <= |meta| && EntryOffset(id) <= |meta| && EntryOffset(i + 1) <= |meta| && i != id
    ensures EntryOffset(i + 1) <= |WithEntry(meta, id, e)| && EntryAt(WithEntry(meta, id, e), i) == EntryAt(meta, i)
  {
    hide WithEntry;
    assert i < id ==> EntryOffset(i + 1) <= EntryOffset(id);
    assert id < i ==> EntryOffset(id + 1) <= EntryOffset(i);
    WindowUnchanged(meta, id, e, EntryOffset(i), EntryOffset(i + 1));
  }

  /** Writing the row of a present or of the next id keeps every other row; one doubling always suffices. */
  lemma EntryKeepsRows(meta: bytes, entries: seq<Entry>, id: nat, e: Entry)
    requires HEADER_SIZE <= |meta| && RowsHold(meta, entries) && id <= |entries|
    ensures EntryOffset(id) <= |meta| && RowsHold(WithEntry(meta, id, e), SetRow(entries, id, e))
  {
    hide WithEntry, EntryAt;
    assert EntryOffset(id) <= EntryOffset(|entries|);
    var meta', rows := WithEntry(meta, id, e), SetRow(entries, id, e);
    WindowUnchanged(meta, id, e, 0, 0);
    assert EntryOffset(|rows|) <= |meta'|;
    forall i | 0 <= i < |rows| ensures EntryAt(meta', i) == rows[i] {
      if i == id {
        OwnEntry(meta, id, e);
      } else {
        assert EntryOffset(i + 1) <= EntryOffset(|entries|);
        OtherEntry(meta, id, e, i);
      }
    }
  }

  /** Setting a header word leaves the other words and every row alone. */
  lemma HeaderWordKeeps(meta: bytes, offset: nat, v: u64, entries: seq<Entry>)
    requires HEADER_SIZE <= |meta| && RowsHold(meta, entries)
    requires offset == COLL_SIZE || offset == NEXT_ID || offset == LAST_CHUNK_ID || offset == CHUNK_SIZE
    ensures var meta' := Splice(meta, offset, EncodeU64(v));
            && RowsHold(meta', entries)
            && WordAt(meta', COLL_SIZE) == (if offset == COLL_SIZE then v else WordAt(meta, COLL_SIZE))
            && WordAt(meta', NEXT_ID) == (if offset == NEXT_ID then v else WordAt(meta, NEXT_ID))
            && WordAt(meta', LAST_CHUNK_ID) == (if offset == LAST_CHUNK_ID then v else WordAt(meta, LAST_CHUNK_ID))
            && WordAt(meta', CHUNK_SIZE) == (if offset == CHUNK_SIZE then v else WordAt(meta, CHUNK_SIZE))
  {
    var meta' := Splice(meta, offset, EncodeU64(v));
    SpliceWord(meta, offset, v, COLL_SIZE);
    SpliceWord(meta, offset, v, NEXT_ID);
    SpliceWord(meta, offset, v, LAST_CHUNK_ID);
    SpliceWord(meta, offset, v, CHUNK_SIZE);
    forall i | 0 <= i < |entries| ensures EntryAt(meta', i) == entries[i] {
      assert EntryOffset(i + 1) <= EntryOffset(|entries|);
      SpliceMiss(meta, offset, EncodeU64(v), EntryOffset(i), EntryOffset(i + 1));
    }
  }

  // ---- The whole file ----

  /** The header words a log asks for. */
  datatype Header = Header(collSize: int, nextId: nat, lastChunk: int, chunkSize: nat)

  ghost predicate Table(meta: bytes, h: Header, entries: seq<Entry>) {
    && HeaderHolds(meta, h.collSize, h.nextId, h.lastChunk, h.chunkSize)
    && RowsHold(meta, entries)
  }

  lemma TableEntry(meta: bytes, h: Header, entries: seq<Entry>, id: nat, e: Entry)
    requires Table(meta, h, entries) && id <= |entries|
    ensures EntryOffset(id) <= |meta| && Table(WithEntry(meta, id, e), h, SetRow(entries, id, e))
  {
    EntryKeepsRows(meta, entries, id, e);
    EntryKeepsHeader(meta, id, e, h.collSize, h.nextId, h.lastChunk, h.chunkSize);
  }

  lemma TableNextId(meta: bytes, h: Header, entries: seq<Entry>, n: u64)
    requires Table(meta, h, entries)
    ensures Table(Splice(meta, NEXT_ID, EncodeU64(n)), h.(nextId := n), entries)
  {
    HeaderWordKeeps(meta, NEXT_ID, n, entries);
  }

  lemma TableLastChunk(meta: bytes, h: Header, entries: seq<Entry>, n: u64)
    requires Table(meta, h, entries)
    ensures Table(Splice(meta, LAST_CHUNK_ID, EncodeU64(n)), h.(lastChunk := n), entries)
  {
    HeaderWordKeeps(meta, LAST_CHUNK_ID, n, entries);
  }

  lemma SameWord(meta: bytes, offset: nat)
    requires offset + 8 <= |meta|
    ensures Splice(meta, offset, EncodeU64(Wrap(WordAt(meta, offset) + 0))) == meta
  {
    DecodeThenEncode(meta[offset..offset + 8]);
  }

  lemma TableCollSize(meta: bytes, h: Header, entries: seq<Entry>, delta: int)
    requires Table(meta, h, entries) && -1 <= delta <= 1
    ensures Table(Splice(meta, COLL_SIZE, EncodeU64(Wrap(WordAt(meta, COLL_SIZE) + delta))),
                  h.(collSize := h.collSize + delta), entries)
  {
    var v := Wrap(WordAt(meta, COLL_SIZE) + delta);
    WrapStep(h.collSize, delta);
    HeaderWordKeeps(meta, COLL_SIZE, v, entries);
  }

  // ---- Reopening ----

  /** Opening a collection maps only the first INITIAL_META_SIZE bytes of its metadata file. */
  function MappedOnOpen(file: bytes): bytes {
    if |file| < INITIAL_META_SIZE then file + Zeros(INITIAL_META_SIZE - |file|) else file[..INITIAL_META_SIZE]
  }

  /** Every row is there after reopening exactly when the table fits the initial mapping: at most 8191 ids. */
  lemma ReopenKeepsRows(file: bytes, entries: seq<Entry>)
    requires HEADER_SIZE <= |file| && RowsHold(file, entries)
    ensures RowsHold(MappedOnOpen(file), entries) <==> |entries| <= 8191
  {
    var meta := MappedOnOpen(file);
    if |entries| <= 8191 {
      forall i | 0 <= i < |entries| ensures EntryAt(meta, i) == entries[i] {
        assert EntryOffset(i + 1) <= EntryOffset(|entries|);
        assert meta[EntryOffset(i)..EntryOffset(i + 1)] == file[EntryOffset(i)..EntryOffset(i + 1)];
      }
    } else {
      assert EntryOffset(8192) <= EntryOffset(|entries|);
      assert |file| > INITIAL_META_SIZE;
    }
  }
}
