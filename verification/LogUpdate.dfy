/** The two-pass update of the log. */
module LogUpdate {
  // Documents that fit their old allocation are overwritten in place, then the others are appended. The main
  // results say when this amounts to the abstract update, for any batch, and exactly what it does otherwise.

  import opened Basics
  import opened Documents
  import opened LogModel
  import opened LogOperations

  // ---- Placeholders ----

  function Placeholder(log: Log): Entry
    requires 0 < |log.chunks| < MAX_FILE
  {
    Entry(|log.chunks| - 1, KEY_NOT_FOUND, KEY_NOT_FOUND, 0)
  }

  function PadEntries(log: Log, n: nat): (log': Log)
    requires 0 < |log.chunks| < MAX_FILE
    ensures |log'.entries| == Max(|log.entries|, n)
  {
    if n <= |log.entries| then log
    else log.(entries := log.entries + seq(n - |log.entries|, _ => Placeholder(log)))
  }

  lemma PadTwice(log: Log, n: nat)
    requires 0 < |log.chunks| < MAX_FILE && n >= |log.entries|
    ensures PadEntries(PadEntries(log, n), n + 1) == PadEntries(log, n + 1)
  {
    var rows := PadEntries(PadEntries(log, n), n + 1).entries;
    assert rows == PadEntries(log, n + 1).entries;
  }

  /** Skipped ids read as erased documents. */
  lemma PadRefines(log: Log, n: nat)
    requires WF(log) && ChunkRoom(log, 0)
    ensures var log' := PadEntries(log, n);
            && WF(log') && DocsOf(log') == PadTo(DocsOf(log), n) && (NoStray(log) ==> NoStray(log'))
  {
    var log' := PadEntries(log, n);
    forall i | 0 <= i < |log'.entries| ensures EntryOk(log.chunkSize, log.chunks, log'.entries[i]) {
      if i < |log.entries| {
        assert EntryOk(log.chunkSize, log.chunks, log.entries[i]);
      }
    }
    assert DocsOf(log') == PadTo(DocsOf(log), n);
  }

  // ---- First pass: one document ----

  /** Outcome of one in-place attempt; `NullStep` is the dereference of a null chunk pointer. */
  datatype Step = Step(status: Status, log: Log) | NullStep

  function Resized(log: Log, id: nat, n: u64): Log
    requires id < |log.entries|
  {
    var e := log.entries[id];
    log.(entries := log.entries[id := e.(size := n)],
         collSize := if IsLive(e) then log.collSize else log.collSize + 1)
  }

  predicate FitsOld(log: Log, id: nat, doc: bytes)
    requires id < |log.entries|
  {
    |doc| <= log.entries[id].alloc
  }

  function InPlace(log: Log, id: nat, doc: bytes): Step
    requires Shape(log) && id < |log.entries|
  {
    var e := log.entries[id];
    if !FitsOld(log, id, doc) then Step(OK, log)
    else if |doc| == 0 then Step(OK, Resized(log, id, 0))
    else match GetChunk(log, e.chunk)
      case None => NullStep
      case Some(chunks) =>
        if e.offset + |doc| > log.chunkSize then Step(SizeError, log.(chunks := chunks))
        else Step(OK, Resized(log.(chunks := chunks[e.chunk := Splice(chunks[e.chunk], e.offset, doc)]), id, |doc|))
  }

  /** Rows keep their allocation: only sizes and bytes differ. */
  ghost predicate SameAllocation(log: Log, log': Log) {
    && log'.chunkSize == log.chunkSize && |log'.chunks| == |log.chunks| && |log'.entries| == |log.entries|
    && forall i | 0 <= i < |log.entries| ::
         && log'.entries[i].chunk == log.entries[i].chunk && log'.entries[i].offset == log.entries[i].offset
         && log'.entries[i].alloc == log.entries[i].alloc
  }

  /** Overwriting inside one document's allocation leaves every other document's bytes unchanged. */
  lemma OverwriteKeeps(chunkSize: nat, chunks: seq<bytes>, e: Entry, doc: bytes, f: Entry)
    requires Extent(chunkSize, chunks, e) && |doc| <= e.alloc
    requires Extent(chunkSize, chunks, f) && Apart(f, e)
    ensures var chunks' := chunks[e.chunk := Splice(chunks[e.chunk], e.offset, doc)];
            Extent(chunkSize, chunks', f) && Contents(chunks', f) == Contents(chunks, f)
  {
    var chunk := chunks[e.chunk];
    SpliceMiss(chunk, e.offset, doc, 0, 8);
    if f.chunk == e.chunk {
      SpliceMiss(chunk, e.offset, doc, f.offset, f.offset + f.size);
    }
  }

  lemma OverwriteOwn(chunkSize: nat, chunks: seq<bytes>, e: Entry, doc: bytes)
    requires Extent(chunkSize, chunks, e) && |doc| <= e.alloc < TWO_TO_THE_64
    ensures var chunks', e' := chunks[e.chunk := Splice(chunks[e.chunk], e.offset, doc)], e.(size := |doc|);
            && Extent(chunkSize, chunks', e') && Contents(chunks', e') == doc
            && NextOffset(chunks'[e.chunk]) == NextOffset(chunks[e.chunk])
  {
    SpliceMiss(chunks[e.chunk], e.offset, doc, 0, 8);
  }

  lemma EmptySplice(chunks: seq<bytes>, c: nat, offset: nat)
    requires c < |chunks| && offset <= |chunks[c]|
    ensures chunks[c := Splice(chunks[c], offset, [])] == chunks
  {
    assert Splice(chunks[c], offset, []) == chunks[c];
  }

  /** The log with a document overwritten in its old allocation. */
  function OverwrittenLog(log: Log, id: nat, doc: bytes): Log
    requires id < |log.entries| && |doc| < TWO_TO_THE_64
    requires var e := log.entries[id]; e.chunk < |log.chunks| && e.offset + |doc| <= |log.chunks[e.chunk]|
  {
    var e := log.entries[id];
    Resized(log.(chunks := log.chunks[e.chunk := Splice(log.chunks[e.chunk], e.offset, doc)]), id, |doc|)
  }

  lemma InPlaceOverwrites(log: Log, id: nat, doc: bytes)
    requires WF(log) && id < |log.entries| && IsPlaced(log.entries[id]) && FitsOld(log, id, doc)
    ensures var e := log.entries[id];
            && IsLive(e) && Extent(log.chunkSize, log.chunks, e) && e.offset + |doc| <= |log.chunks[e.chunk]|
            && |doc| < TWO_TO_THE_64 && |doc| != KEY_NOT_FOUND
    ensures InPlace(log, id, doc) == Step(OK, OverwrittenLog(log, id, doc))
  {
    var e := log.entries[id];
    assert EntryOk(log.chunkSize, log.chunks, e);
    if doc == [] {
      EmptySplice(log.chunks, e.chunk, e.offset);
      assert log.(chunks := log.chunks) == log;
    }
  }

  lemma OverwrittenShape(log: Log, id: nat, doc: bytes)
    requires Shape(log) && id < |log.entries| && Extent(log.chunkSize, log.chunks, log.entries[id])
    requires |doc| <= log.entries[id].alloc < TWO_TO_THE_64 && IsLive(log.entries[id]) && |doc| != KEY_NOT_FOUND
    requires log.entries[id].offset + |doc| <= |log.chunks[log.entries[id].chunk]|
    ensures var log', e := OverwrittenLog(log, id, doc), log.entries[id];
            && Shape(log') && SameAllocation(log, log') && log'.collSize == log.collSize
            && EntryOk(log.chunkSize, log'.chunks, e.(size := |doc|)) == IsPlaced(e)
            && (IsPlaced(e) ==> DocOf(log.chunkSize, log'.chunks, e.(size := |doc|)) == Some(doc))
            && log'.entries == log.entries[id := e.(size := |doc|)]
  {
    OverwriteOwn(log.chunkSize, log.chunks, log.entries[id], doc);
    hide Splice;
  }

  /** A placed document whose replacement fits is replaced, and nothing else changes. */
  lemma InPlaceRefines(log: Log, id: nat, doc: bytes)
    requires WF(log) && id < |log.entries| && IsPlaced(log.entries[id]) && FitsOld(log, id, doc)
    ensures var r := InPlace(log, id, doc);
            && r.Step? && r.status == OK && WF(r.log) && SameAllocation(log, r.log)
            && DocsOf(r.log) == DocsOf(log)[id := Some(doc)] && r.log.collSize == log.collSize
            && (NoStray(log) ==> NoStray(r.log))
  {
    InPlaceOverwrites(log, id, doc);
    var e, log' := log.entries[id], OverwrittenLog(log, id, doc);
    OverwrittenShape(log, id, doc);
    forall j | 0 <= j < |log.entries| && j != id && IsPlaced(log.entries[j])
      ensures && Extent(log.chunkSize, log'.chunks, log.entries[j])
              && Contents(log'.chunks, log.entries[j]) == Contents(log.chunks, log.entries[j])
              && Apart(log.entries[j], e.(size := |doc|))
    {
      assert EntryOk(log.chunkSize, log.chunks, log.entries[j]);
      OverwriteKeeps(log.chunkSize, log.chunks, e, doc, log.entries[j]);
    }
    hide InPlace, DocsOf, Extent, Splice, EntryOk, OverwrittenLog;
    ReplaceEntry(log, log'.chunks, id, e.(size := |doc|), log');
  }

  /** A row without a place: a document with bytes runs into a null chunk, an empty one leaves a stray row. */
  lemma InPlaceUnplaced(log: Log, id: nat, doc: bytes)
    requires WF(log) && ChunkRoom(log, 1) && id < |log.entries| && !IsPlaced(log.entries[id]) && FitsOld(log, id, doc)
    ensures |doc| > 0 ==> InPlace(log, id, doc) == NullStep
    ensures |doc| == 0 ==>
              var r := InPlace(log, id, doc);
              && r == Step(OK, Resized(log, id, 0)) && WF(r.log) && SameAllocation(log, r.log)
              && DocsOf(r.log) == DocsOf(log) && IsLive(r.log.entries[id])
  {
    var e := log.entries[id];
    assert EntryOk(log.chunkSize, log.chunks, e);
    if |doc| == 0 {
      var log' := Resized(log, id, 0);
      forall j | 0 <= j < |log.entries| && j != id && IsPlaced(log.entries[j])
        ensures Extent(log.chunkSize, log.chunks, log.entries[j])
      {
        assert EntryOk(log.chunkSize, log.chunks, log.entries[j]);
      }
      assert DocsOf(log)[id := None] == DocsOf(log);
    }
  }

  /** Whatever the document, an in-place attempt keeps the log well formed unless it hits a null chunk. */
  lemma InPlaceKeeps(log: Log, id: nat, doc: bytes)
    requires WF(log) && ChunkRoom(log, 1) && id < |log.entries|
    ensures InPlace(log, id, doc).NullStep? <==> !IsPlaced(log.entries[id]) && 0 < |doc| <= log.entries[id].alloc
    ensures var r := InPlace(log, id, doc);
            r.Step? ==> r.status == OK && WF(r.log) && SameAllocation(log, r.log)
  {
    if FitsOld(log, id, doc) {
      if IsPlaced(log.entries[id]) {
        InPlaceRefines(log, id, doc);
      } else {
        InPlaceUnplaced(log, id, doc);
      }
    }
  }

  // ---- First pass: the batch ----

  datatype FirstPass = FirstPass(status: Status, log: Log, read: seq<Entry>) | NullPass

  ghost predicate KnownIds(log: Log, ids: seq<nat>, docs: seq<bytes>) {
    |ids| == |docs| && forall k | 0 <= k < |ids| :: ids[k] < |log.entries|
  }

  /** The first pass, resumed after the rows in `read` were dealt with. */
  ghost function Pass1(log: Log, ids: seq<nat>, docs: seq<bytes>, read: seq<Entry>): (r: FirstPass)
    requires WF(log) && ChunkRoom(log, 1) && KnownIds(log, ids, docs) && |read| <= |ids|
    ensures r.FirstPass? ==> r.status == OK && WF(r.log) && SameAllocation(log, r.log) && |r.read| == |ids|
    decreases |ids| - |read|
  {
    var i := |read|;
    if i == |ids| then FirstPass(OK, log, read)
    else
      InPlaceKeeps(log, ids[i], docs[i]);
      match InPlace(log, ids[i], docs[i])
      case NullStep => NullPass
      case Step(s, log') =>
        if s != OK then FirstPass(s, log', read) else Pass1(log', ids, docs, read + [log'.entries[ids[i]]])
  }

  lemma Pass1Unfold(log: Log, ids: seq<nat>, docs: seq<bytes>, read: seq<Entry>)
    requires WF(log) && ChunkRoom(log, 1) && KnownIds(log, ids, docs) && |read| < |ids|
    ensures var i := |read|;
            var r := InPlace(log, ids[i], docs[i]);
            && ids[i] < |log.entries|
            && (r.NullStep? ==> Pass1(log, ids, docs, read) == NullPass)
            && (r.Step? ==>
                  && r.status == OK && WF(r.log) && ChunkRoom(r.log, 1) && KnownIds(r.log, ids, docs)
                  && Pass1(log, ids, docs, read) == Pass1(r.log, ids, docs, read + [r.log.entries[ids[i]]]))
  {
    InPlaceKeeps(log, ids[|read|], docs[|read|]);
  }

  lemma Pass1End(log: Log, ids: seq<nat>, docs: seq<bytes>, read: seq<Entry>)
    requires WF(log) && ChunkRoom(log, 1) && KnownIds(log, ids, docs) && |read| == |ids|
    ensures Pass1(log, ids, docs, read) == FirstPass(OK, log, read)
  {
  }

  /** The guard of the branch that fails: a row that was erased, or never written, takes the in-place path. */
  predicate InPlaceWithoutPlace(log: Log, id: nat, doc: bytes)
    requires id < |log.entries|
  {
    !IsPlaced(log.entries[id]) && FitsOld(log, id, doc)
  }

  /**
   The update dereferences a null chunk exactly when a non-empty document targets an erased row that was once as
   large.
   */
  lemma {:induction false} Pass1Null(log: Log, ids: seq<nat>, docs: seq<bytes>, read: seq<Entry>)
    requires WF(log) && ChunkRoom(log, 1) && KnownIds(log, ids, docs) && |read| <= |ids|
    ensures Pass1(log, ids, docs, read).NullPass? <==>
            exists k :: |read| <= k < |ids| && docs[k] != [] && InPlaceWithoutPlace(log, ids[k], docs[k])
    decreases |ids| - |read|
  {
    var i := |read|;
    if i < |ids| {
      InPlaceKeeps(log, ids[i], docs[i]);
      var r := InPlace(log, ids[i], docs[i]);
      if r.Step? {
        Pass1Null(r.log, ids, docs, read + [r.log.entries[ids[i]]]);
        forall k | 0 <= k < |ids|
          ensures InPlaceWithoutPlace(log, ids[k], docs[k]) == InPlaceWithoutPlace(r.log, ids[k], docs[k])
        {
        }
      }
    }
  }

  /** Which documents of the batch the first pass writes over a document that is there. */
  function Overwrites(log: Log, ids: seq<nat>, docs: seq<bytes>): (r: seq<bool>)
    requires |ids| == |docs| && forall k | 0 <= k < |ids| :: ids[k] < |log.entries|
    ensures |r| == |ids|
  {
    seq(|ids|, k requires 0 <= k < |ids| => FitsOld(log, ids[k], docs[k]) && IsPlaced(log.entries[ids[k]]))
  }

  /** The row is live, or one of the documents `i` to `n` of the batch that fits makes it so. */
  predicate LiveBy(log: Log, ids: seq<nat>, docs: seq<bytes>, i: nat, n: nat, id: nat)
    requires |ids| == |docs| && n <= |ids| && id < |log.entries|
  {
    IsLive(log.entries[id]) || exists j :: i <= j < n && ids[j] == id && FitsOld(log, id, docs[j])
  }

  /** The rows read during the first pass tell which documents fit and which rows were not live. */
  ghost predicate ReadsRows(log: Log, ids: seq<nat>, docs: seq<bytes>, read: seq<Entry>, i: nat)
    requires KnownIds(log, ids, docs)
  {
    && |read| == |ids|
    && forall k | i <= k < |ids| ::
         && read[k].alloc == log.entries[ids[k]].alloc
         && (IsLive(read[k]) <==> LiveBy(log, ids, docs, i, k + 1, ids[k]))
  }

  /** The rows that are live after a first pass. */
  ghost predicate LiveAfter(log: Log, ids: seq<nat>, docs: seq<bytes>, log': Log, i: nat)
    requires |ids| == |docs|
  {
    && |log'.entries| == |log.entries|
    && forall id | 0 <= id < |log.entries| :: IsLive(log'.entries[id]) <==> LiveBy(log, ids, docs, i, |ids|, id)
  }

  lemma ResizedDrift(log: Log, chunks: seq<bytes>, id: nat, n: u64)
    requires id < |log.entries| && n != KEY_NOT_FOUND
    ensures Drift(Resized(log.(chunks := chunks), id, n)) == Drift(log)
  {
    RowSet(log.entries, id, log.entries[id].(size := n));
    hide Rows;
  }

  lemma InPlaceDrift(log: Log, id: nat, doc: bytes)
    requires Shape(log) && id < |log.entries|
    ensures var r := InPlace(log, id, doc);
            r.Step? && r.status == OK ==> Drift(r.log) == Drift(log)
  {
    var e := log.entries[id];
    ResizedDrift(log, log.chunks, id, 0);
    if 0 < |doc| && GetChunk(log, e.chunk).Some? && e.offset + |doc| <= log.chunkSize {
      var chunks := GetChunk(log, e.chunk).value;
      ResizedDrift(log, chunks[e.chunk := Splice(chunks[e.chunk], e.offset, doc)], id, |doc|);
    }
    hide Drift, Shape, Resized;
    assert log.(chunks := log.chunks) == log;
  }

  /** Any attempt that hits no null chunk: it replaces a document that is there, or makes an unplaced row live. */
  lemma InPlaceStep(log: Log, id: nat, doc: bytes)
    requires WF(log) && ChunkRoom(log, 1) && id < |log.entries| && InPlace(log, id, doc).Step?
    ensures var r := InPlace(log, id, doc);
            && r.status == OK && WF(r.log) && SameAllocation(log, r.log)
            && DocsOf(r.log) ==
               (if FitsOld(log, id, doc) && IsPlaced(log.entries[id]) then DocsOf(log)[id := Some(doc)]
                else DocsOf(log))
            && forall j | 0 <= j < |log.entries| ::
                 IsLive(r.log.entries[j]) <==> IsLive(log.entries[j]) || (j == id && FitsOld(log, id, doc))
  {
    assert EntryOk(log.chunkSize, log.chunks, log.entries[id]);
    if FitsOld(log, id, doc) {
      if IsPlaced(log.entries[id]) {
        InPlaceRefines(log, id, doc);
      } else {
        InPlaceUnplaced(log, id, doc);
      }
    }
  }

  /** One attempt made row `ids[i]` live if its document fits, and changed no allocation. */
  ghost predicate Attempted(log: Log, log1: Log, ids: seq<nat>, docs: seq<bytes>, i: nat)
    requires i < |ids| == |docs|
  {
    && SameAllocation(log, log1) && ids[i] < |log.entries|
    && forall j | 0 <= j < |log.entries| ::
         IsLive(log1.entries[j]) <==> IsLive(log.entries[j]) || (j == ids[i] && FitsOld(log, ids[i], docs[i]))
  }

  /** Rows that keep their allocation pose the same question to every later document. */
  lemma SameRows(log: Log, log1: Log, ids: seq<nat>, docs: seq<bytes>)
    requires SameAllocation(log, log1) && KnownIds(log, ids, docs)
    ensures KnownIds(log1, ids, docs) && Overwrites(log1, ids, docs) == Overwrites(log, ids, docs)
  {
    forall k | 0 <= k < |ids| ensures Overwrites(log1, ids, docs)[k] == Overwrites(log, ids, docs)[k] {
      assert log1.entries[ids[k]].offset == log.entries[ids[k]].offset;
    }
  }

  lemma LiveByNext(log: Log, log1: Log, ids: seq<nat>, docs: seq<bytes>, i: nat, n: nat, id: nat)
    requires i < n <= |ids| == |docs| && id < |log.entries| && Attempted(log, log1, ids, docs, i)
    ensures id < |log1.entries| && (LiveBy(log1, ids, docs, i + 1, n, id) <==> LiveBy(log, ids, docs, i, n, id))
  {
    assert log1.entries[id].alloc == log.entries[id].alloc;
    forall j | 0 <= j < |docs| ensures FitsOld(log1, id, docs[j]) == FitsOld(log, id, docs[j]) {
    }
    hide FitsOld;
    if LiveBy(log, ids, docs, i, n, id) && !IsLive(log.entries[id]) {
      var j :| i <= j < n && ids[j] == id && FitsOld(log, id, docs[j]);
      assert j == i || FitsOld(log1, id, docs[j]);
    }
  }

  lemma SameReads(log: Log, log1: Log, ids: seq<nat>, docs: seq<bytes>, read: seq<Entry>, r: seq<Entry>)
    requires KnownIds(log, ids, docs) && KnownIds(log1, ids, docs) && |read| < |ids|
             && Attempted(log, log1, ids, docs, |read|)
    requires read + [log1.entries[ids[|read|]]] <= r && ReadsRows(log1, ids, docs, r, |read| + 1)
    ensures read <= r && ReadsRows(log, ids, docs, r, |read|)
  {
    var i := |read|;
    assert r[i] == (read + [log1.entries[ids[i]]])[i];
    hide LiveBy, Attempted;
    forall k | i <= k < |ids|
      ensures r[k].alloc == log.entries[ids[k]].alloc && (IsLive(r[k]) <==> LiveBy(log, ids, docs, i, k + 1, ids[k]))
    {
      AttemptedAlloc(log, log1, ids, docs, i, ids[k]);
      if k == i {
        LiveByFirst(log, log1, ids, docs, i);
      } else {
        LiveByNext(log, log1, ids, docs, i, k + 1, ids[k]);
      }
    }
  }

  lemma AttemptedAlloc(log: Log, log1: Log, ids: seq<nat>, docs: seq<bytes>, i: nat, id: nat)
    requires i < |ids| == |docs| && Attempted(log, log1, ids, docs, i) && id < |log.entries|
    ensures id < |log1.entries| && log1.entries[id].alloc == log.entries[id].alloc
  {
  }

  lemma LiveByFirst(log: Log, log1: Log, ids: seq<nat>, docs: seq<bytes>, i: nat)
    requires i < |ids| == |docs| && Attempted(log, log1, ids, docs, i)
    ensures ids[i] < |log1.entries| && (IsLive(log1.entries[ids[i]]) <==> LiveBy(log, ids, docs, i, i + 1, ids[i]))
  {
  }

  lemma SameLiveAfter(log: Log, log1: Log, ids: seq<nat>, docs: seq<bytes>, i: nat, log': Log)
    requires i < |ids| == |docs| && Attempted(log, log1, ids, docs, i) && LiveAfter(log1, ids, docs, log', i + 1)
    ensures LiveAfter(log, ids, docs, log', i)
  {
    assert |log1.entries| == |log.entries|;
    hide LiveBy, Attempted;
    forall id | 0 <= id < |log.entries| ensures IsLive(log'.entries[id]) <==> LiveBy(log, ids, docs, i, |ids|, id) {
      LiveByNext(log, log1, ids, docs, i, |ids|, id);
    }
  }

  /** What a first pass that meets no null chunk did, from the log it was resumed at. */
  ghost predicate Passed(log: Log, ids: seq<nat>, docs: seq<bytes>, read: seq<Entry>, r: FirstPass) {
    && WF(log) && KnownIds(log, ids, docs) && |read| <= |ids|
    && r.FirstPass? && WF(r.log) && Drift(r.log) == Drift(log)
    && DocsOf(r.log) == PutPicked(DocsOf(log), ids, docs, Overwrites(log, ids, docs), |read|)
    && read <= r.read && ReadsRows(log, ids, docs, r.read, |read|) && LiveAfter(log, ids, docs, r.log, |read|)
  }

  lemma PassedDocs(log: Log, ids: seq<nat>, docs: seq<bytes>, i: nat, d1: Docs)
    requires WF(log) && KnownIds(log, ids, docs) && i < |ids|
    requires var id := ids[i];
             d1 == (if FitsOld(log, id, docs[i]) && IsPlaced(log.entries[id]) then DocsOf(log)[id := Some(docs[i])]
                    else DocsOf(log))
    ensures PutPicked(DocsOf(log), ids, docs, Overwrites(log, ids, docs), i) ==
            PutPicked(d1, ids, docs, Overwrites(log, ids, docs), i + 1)
  {
    hide WF, DocsOf, PutPicked;
    PickNext(DocsOf(log), ids, docs, Overwrites(log, ids, docs), i);
  }

  lemma PassedNext(log: Log, ids: seq<nat>, docs: seq<bytes>, read: seq<Entry>, log1: Log, r: FirstPass)
    requires WF(log) && WF(log1) && KnownIds(log, ids, docs) && |read| < |ids|
             && Attempted(log, log1, ids, docs, |read|)
    requires Drift(log1) == Drift(log)
    requires var id, doc := ids[|read|], docs[|read|];
             DocsOf(log1) ==
             (if FitsOld(log, id, doc) && IsPlaced(log.entries[id]) then DocsOf(log)[id := Some(doc)] else DocsOf(log))
    requires ids[|read|] < |log1.entries| && Passed(log1, ids, docs, read + [log1.entries[ids[|read|]]], r)
    ensures Passed(log, ids, docs, read, r)
  {
    assert SameAllocation(log, log1);
    SameRows(log, log1, ids, docs);
    hide WF, DocsOf, Attempted, SameAllocation, ReadsRows, LiveAfter, Overwrites, FitsOld, Drift;
    PassedDocs(log, ids, docs, |read|, DocsOf(log1));
    SameReads(log, log1, ids, docs, read, r.read);
    SameLiveAfter(log, log1, ids, docs, |read|, r.log);
  }

  lemma PassedNone(log: Log, ids: seq<nat>, docs: seq<bytes>, read: seq<Entry>)
    requires WF(log) && KnownIds(log, ids, docs) && |read| == |ids|
    ensures Passed(log, ids, docs, read, FirstPass(OK, log, read))
  {
    hide WF, DocsOf, Drift;
  }

  lemma AttemptedStep(log: Log, ids: seq<nat>, docs: seq<bytes>, i: nat)
    requires WF(log) && ChunkRoom(log, 1) && KnownIds(log, ids, docs) && i < |ids|
             && InPlace(log, ids[i], docs[i]).Step?
    ensures var log1 := InPlace(log, ids[i], docs[i]).log;
            && Attempted(log, log1, ids, docs, i) && Drift(log1) == Drift(log) && WF(log1)
            && DocsOf(log1) ==
               (if FitsOld(log, ids[i], docs[i]) && IsPlaced(log.entries[ids[i]])
                then DocsOf(log)[ids[i] := Some(docs[i])] else DocsOf(log))
  {
    InPlaceStep(log, ids[i], docs[i]);
    InPlaceDrift(log, ids[i], docs[i]);
    hide WF, DocsOf, InPlace, Drift, FitsOld;
  }

  /**
   Whatever the batch, a first pass that meets no null chunk performs the puts over documents that are there, in
   order.
   */
  lemma {:induction false} Pass1Refines(log: Log, ids: seq<nat>, docs: seq<bytes>, read: seq<Entry>)
    requires WF(log) && ChunkRoom(log, 1) && KnownIds(log, ids, docs) && |read| <= |ids|
    requires Pass1(log, ids, docs, read).FirstPass?
    ensures Passed(log, ids, docs, read, Pass1(log, ids, docs, read))
    decreases |ids| - |read|
  {
    assert Shape(log);
    hide *;
    if |read| == |ids| {
      Pass1End(log, ids, docs, read);
      PassedNone(log, ids, docs, read);
    } else {
      var i := |read|;
      Pass1Unfold(log, ids, docs, read);
      AttemptedStep(log, ids, docs, i);
      var log1 := InPlace(log, ids[i], docs[i]).log;
      Pass1Refines(log1, ids, docs, read + [log1.entries[ids[i]]]);
      PassedNext(log, ids, docs, read, log1, Pass1(log, ids, docs, read));
    }
  }

  // ---- Second pass ----

  /** The second pass from item `i` on; it stops silently at a document no chunk can hold. */
  ghost function Pass2(log: Log, ids: seq<nat>, docs: seq<bytes>, read: seq<Entry>, i: nat): Log
    requires Shape(log) && log.chunkSize >= 8
    requires KnownIds(log, ids, docs) && |read| == |ids| && i <= |ids| && ChunkRoom(log, |ids| - i)
    decreases |ids| - i
  {
    if i == |ids| then log
    else if |docs[i]| <= read[i].alloc then Pass2(log, ids, docs, read, i + 1)
    else
      PlaceShape(log, docs[i]);
      var p := Place(log, docs[i]);
      match p.entry
      case None => log.(chunks := p.chunks)
      case Some(e) =>
        Pass2(log.(chunks := p.chunks, entries := log.entries[ids[i] := e],
                   collSize := if IsLive(read[i]) then log.collSize else log.collSize + 1),
              ids, docs, read, i + 1)
  }

  /** The log once a placed document has taken row `id`. */
  function WithPlaced(log: Log, id: nat, read: Entry, p: Placement): Log
    requires id < |log.entries| && p.entry.Some?
  {
    log.(chunks := p.chunks, entries := log.entries[id := p.entry.value],
         collSize := if IsLive(read) then log.collSize else log.collSize + 1)
  }

  lemma Pass2Unfold(log: Log, ids: seq<nat>, docs: seq<bytes>, read: seq<Entry>, i: nat)
    requires Shape(log) && log.chunkSize >= 8
    requires KnownIds(log, ids, docs) && |read| == |ids| && i < |ids| && ChunkRoom(log, |ids| - i)
    ensures var p := Place(log, docs[i]);
            && |p.chunks| <= |log.chunks| + 1 && ChunkRoom(log, 1) && ids[i] < |log.entries|
            && ChunkRoom(log, |ids| - (i + 1))
            && (p.entry.Some? <==> |docs[i]| <= log.chunkSize - 8)
            && (|docs[i]| <= read[i].alloc ==> Pass2(log, ids, docs, read, i) == Pass2(log, ids, docs, read, i + 1))
            && (|docs[i]| > read[i].alloc && p.entry.None? ==>
                  Pass2(log, ids, docs, read, i) == log.(chunks := p.chunks))
            && (|docs[i]| > read[i].alloc && p.entry.Some? ==>
                  var log1 := WithPlaced(log, ids[i], read[i], p);
                  && Shape(log1) && log1.chunkSize == log.chunkSize && KnownIds(log1, ids, docs)
                  && ChunkRoom(log1, |ids| - (i + 1))
                  && Pass2(log, ids, docs, read, i) == Pass2(log1, ids, docs, read, i + 1))
  {
    PlaceShape(log, docs[i]);
  }

  lemma Pass2End(log: Log, ids: seq<nat>, docs: seq<bytes>, read: seq<Entry>)
    requires Shape(log) && log.chunkSize >= 8
    requires KnownIds(log, ids, docs) && |read| == |ids| && ChunkRoom(log, 0)
    ensures Pass2(log, ids, docs, read, |ids|) == log
  {
  }

  /** The first document from `i` on that has to be appended and that no chunk can hold, or the end of the batch. */
  function FirstRefused(docs: seq<bytes>, read: seq<Entry>, chunkSize: nat, i: nat): (k: nat)
    requires i <= |docs| == |read|
    ensures i <= k <= |docs|
    ensures forall j | i <= j < k :: |docs[j]| <= read[j].alloc || |docs[j]| <= chunkSize - 8
    ensures k < |docs| ==> |docs[k]| > read[k].alloc && |docs[k]| > chunkSize - 8
    decreases |docs| - i
  {
    if i == |docs| || (|docs[i]| > read[i].alloc && |docs[i]| > chunkSize - 8) then i
    else FirstRefused(docs, read, chunkSize, i + 1)
  }

  /** The documents that the second pass appends. */
  function Appends(docs: seq<bytes>, read: seq<Entry>, cut: nat): (r: seq<bool>)
    requires |docs| == |read|
    ensures |r| == |docs|
  {
    seq(|docs|, k requires 0 <= k < |docs| => k < cut && |docs[k]| > read[k].alloc)
  }

  /** One appended document. */
  lemma Pass2Step(log: Log, id: nat, read: Entry, doc: bytes)
    requires WF(log) && log.chunkSize >= 8 && ChunkRoom(log, 1) && id < |log.entries| && |doc| <= log.chunkSize - 8
    ensures Place(log, doc).entry.Some?
    ensures var log1 := WithPlaced(log, id, read, Place(log, doc));
            && WF(log1) && DocsOf(log1) == Put(DocsOf(log), id, doc) && (NoStray(log) ==> NoStray(log1))
            && |log1.chunks| <= |log.chunks| + 1
  {
    PlaceShape(log, doc);
    PlaceNew(log, doc);
    PlaceAt(log, id, doc, WithPlaced(log, id, read, Place(log, doc)));
  }

  /**
   It makes its row live, and moves the size by one too many if the row was live but had not been when it was read.
   */
  lemma Pass2Counts(log: Log, id: nat, read: Entry, doc: bytes)
    requires WF(log) && log.chunkSize >= 8 && ChunkRoom(log, 1) && id < |log.entries| && |doc| <= log.chunkSize - 8
    requires Place(log, doc).entry.Some?
    ensures var log1 := WithPlaced(log, id, read, Place(log, doc));
            && |log1.entries| == |log.entries|
            && (forall j | 0 <= j < |log.entries| :: IsLive(log1.entries[j]) <==> IsLive(log.entries[j]) || j == id)
            && Drift(log1) ==
               Drift(log) + (if IsLive(read) then 0 else 1) - (if IsLive(log.entries[id]) then 0 else 1)
  {
    PlaceNew(log, doc);
    var e := Place(log, doc).entry.value;
    hide WF, Place;
    RowSet(log.entries, id, e);
    hide Rows;
  }

  /** The row is live, or an append of the documents `i` to `n` makes it so. */
  predicate LiveWith(log: Log, ids: seq<nat>, pick: seq<bool>, i: nat, n: nat, id: nat)
    requires |ids| == |pick| && n <= |ids| && id < |log.entries|
  {
    IsLive(log.entries[id]) || exists j :: i <= j < n && ids[j] == id && pick[j]
  }

  /** An appended document counts as new although its row is live by then. */
  predicate Doubled(log: Log, ids: seq<nat>, read: seq<Entry>, pick: seq<bool>, i: nat, k: nat)
    requires |ids| == |pick| == |read| && k < |ids| && ids[k] < |log.entries|
  {
    pick[k] && !IsLive(read[k]) && LiveWith(log, ids, pick, i, k, ids[k])
  }

  ghost predicate NoneDoubled(log: Log, ids: seq<nat>, read: seq<Entry>, pick: seq<bool>, i: nat)
    requires |ids| == |pick| == |read| && forall k | 0 <= k < |ids| :: ids[k] < |log.entries|
  {
    forall k | i <= k < |ids| :: !Doubled(log, ids, read, pick, i, k)
  }

  /** The second pass has its rows, and those that were live when read still are. */
  ghost predicate Ready(log: Log, ids: seq<nat>, docs: seq<bytes>, read: seq<Entry>) {
    && KnownIds(log, ids, docs) && |read| == |ids|
    && forall k | 0 <= k < |ids| && IsLive(read[k]) :: IsLive(log.entries[ids[k]])
  }

  /** What the second pass did from document `i` on; `cut` is where it gave up. */
  ghost predicate Appended(log: Log, ids: seq<nat>, docs: seq<bytes>, read: seq<Entry>, cut: nat, i: nat, log': Log) {
    && KnownIds(log, ids, docs) && |read| == |ids| && i <= |ids| && WF(log) && WF(log')
    && var pick := Appends(docs, read, cut);
       && (NoStray(log) ==> NoStray(log'))
       && DocsOf(log') == PutPicked(DocsOf(log), ids, docs, pick, i)
       && |log'.entries| == |log.entries| && |log'.chunks| <= |log.chunks| + (|ids| - i)
       && (forall id | 0 <= id < |log.entries| ::
             IsLive(log'.entries[id]) <==> LiveWith(log, ids, pick, i, |ids|, id))
       && Drift(log') >= Drift(log) && (Drift(log') == Drift(log) <==> NoneDoubled(log, ids, read, pick, i))
  }

  lemma LiveWithSkip(log: Log, ids: seq<nat>, pick: seq<bool>, i: nat, n: nat, id: nat)
    requires i < n <= |ids| == |pick| && id < |log.entries| && !pick[i]
    ensures LiveWith(log, ids, pick, i, n, id) <==> LiveWith(log, ids, pick, i + 1, n, id)
  {
  }

  /** One append made row `ids[i]` live. */
  ghost predicate RowTaken(log: Log, log1: Log, id: nat) {
    && |log1.entries| == |log.entries| && id < |log.entries|
    && forall j | 0 <= j < |log.entries| :: IsLive(log1.entries[j]) <==> IsLive(log.entries[j]) || j == id
  }

  lemma LiveWithNext(log: Log, log1: Log, ids: seq<nat>, pick: seq<bool>, i: nat, n: nat, id: nat)
    requires i < n <= |ids| == |pick| && id < |log.entries| && pick[i] && RowTaken(log, log1, ids[i])
    ensures LiveWith(log, ids, pick, i, n, id) <==> LiveWith(log1, ids, pick, i + 1, n, id)
  {
    assert IsLive(log1.entries[id]) <==> IsLive(log.entries[id]) || id == ids[i];
  }

  lemma NoneDoubledSkip(log: Log, ids: seq<nat>, read: seq<Entry>, pick: seq<bool>, i: nat)
    requires |ids| == |pick| == |read| && i < |ids| && !pick[i] && forall k | 0 <= k < |ids| :: ids[k] < |log.entries|
    ensures NoneDoubled(log, ids, read, pick, i) <==> NoneDoubled(log, ids, read, pick, i + 1)
  {
    hide LiveWith;
    forall k | i < k < |ids| ensures Doubled(log, ids, read, pick, i, k) <==> Doubled(log, ids, read, pick, i + 1, k) {
      LiveWithSkip(log, ids, pick, i, k, ids[k]);
    }
    assert !Doubled(log, ids, read, pick, i, i);
    hide Doubled;
    var n := i + 1;
    if k :| n <= k < |ids| && Doubled(log, ids, read, pick, n, k) {
      assert Doubled(log, ids, read, pick, i, k);
    }
    if k :| i <= k < |ids| && Doubled(log, ids, read, pick, i, k) {
      assert Doubled(log, ids, read, pick, i + 1, k);
    }
  }

  lemma NoneDoubledNext(log: Log, log1: Log, ids: seq<nat>, read: seq<Entry>, pick: seq<bool>, i: nat)
    requires |ids| == |pick| == |read| && i < |ids| && pick[i] && RowTaken(log, log1, ids[i])
    requires forall k | 0 <= k < |ids| :: ids[k] < |log.entries| == |log1.entries|
    ensures NoneDoubled(log, ids, read, pick, i) <==>
            (IsLive(read[i]) || !IsLive(log.entries[ids[i]])) && NoneDoubled(log1, ids, read, pick, i + 1)
  {
    assert Doubled(log, ids, read, pick, i, i) <==> !IsLive(read[i]) && IsLive(log.entries[ids[i]]);
    hide LiveWith, RowTaken;
    forall k | i < k < |ids| ensures Doubled(log, ids, read, pick, i, k) <==> Doubled(log1, ids, read, pick, i + 1, k) {
      LiveWithNext(log, log1, ids, pick, i, k, ids[k]);
    }
    hide Doubled;
    var n := i + 1;
    if k :| n <= k < |ids| && Doubled(log1, ids, read, pick, n, k) {
      assert Doubled(log, ids, read, pick, i, k);
    }
    if k :| i < k < |ids| && Doubled(log, ids, read, pick, i, k) {
      assert Doubled(log1, ids, read, pick, i + 1, k);
    }
  }

  lemma AppendedSkip(log: Log, ids: seq<nat>, docs: seq<bytes>, read: seq<Entry>, cut: nat, i: nat, log': Log)
    requires Appended(log, ids, docs, read, cut, i + 1, log') && |docs[i]| <= read[i].alloc
    ensures Appended(log, ids, docs, read, cut, i, log')
  {
    var pick := Appends(docs, read, cut);
    assert !pick[i];
    hide WF, NoStray, DocsOf, LiveWith, NoneDoubled, Appends, Drift;
    NoneDoubledSkip(log, ids, read, pick, i);
    PickNext(DocsOf(log), ids, docs, pick, i);
    forall id | 0 <= id < |log.entries| ensures IsLive(log'.entries[id]) <==> LiveWith(log, ids, pick, i, |ids|, id) {
      LiveWithSkip(log, ids, pick, i, |ids|, id);
    }
  }

  /** The state after an append, as far as the second pass goes. */
  ghost predicate AppendStep(log: Log, ids: seq<nat>, docs: seq<bytes>, read: seq<Entry>, i: nat, log1: Log) {
    && KnownIds(log, ids, docs) && |read| == |ids| && i < |ids|
    && WF(log) && WF(log1) && DocsOf(log1) == Put(DocsOf(log), ids[i], docs[i]) && (NoStray(log) ==> NoStray(log1))
    && |log1.chunks| <= |log.chunks| + 1 && RowTaken(log, log1, ids[i])
    && (IsLive(read[i]) ==> IsLive(log.entries[ids[i]]))
    && Drift(log1) == Drift(log) + (if IsLive(read[i]) then 0 else 1) - (if IsLive(log.entries[ids[i]]) then 0 else 1)
  }

  lemma AppendedNext(log: Log, ids: seq<nat>, docs: seq<bytes>, read: seq<Entry>, cut: nat, i: nat, log1: Log,
                     log': Log)
    requires AppendStep(log, ids, docs, read, i, log1) && |docs[i]| > read[i].alloc && i < cut
    requires Appended(log1, ids, docs, read, cut, i + 1, log')
    ensures Appended(log, ids, docs, read, cut, i, log')
  {
    var pick := Appends(docs, read, cut);
    assert pick[i];
    assert |log1.entries| == |log.entries|;
    hide WF, NoStray, DocsOf, LiveWith, NoneDoubled, Appends, Drift, RowTaken;
    NoneDoubledNext(log, log1, ids, read, pick, i);
    PickNext(DocsOf(log), ids, docs, pick, i);
    forall id | 0 <= id < |log.entries| ensures IsLive(log'.entries[id]) <==> LiveWith(log, ids, pick, i, |ids|, id) {
      LiveWithNext(log, log1, ids, pick, i, |ids|, id);
    }
  }

  /** Nothing more is appended. */
  lemma AppendedNone(log: Log, ids: seq<nat>, docs: seq<bytes>, read: seq<Entry>, cut: nat, i: nat, log': Log)
    requires KnownIds(log, ids, docs) && |read| == |ids| && i <= |ids| && WF(log) && WF(log')
             && (i == |ids| || cut <= i)
    requires DocsOf(log') == DocsOf(log) && log'.entries == log.entries && log'.collSize == log.collSize
    requires |log'.chunks| <= |log.chunks| + (|ids| - i)
    ensures Appended(log, ids, docs, read, cut, i, log')
  {
    var pick := Appends(docs, read, cut);
    hide WF, DocsOf, Appends;
    AppendsNone(docs, read, cut, i);
    PickNone(DocsOf(log), ids, docs, pick, i);
  }

  lemma AppendsNone(docs: seq<bytes>, read: seq<Entry>, cut: nat, i: nat)
    requires |docs| == |read| && (i == |docs| || cut <= i)
    ensures forall k | i <= k < |docs| :: !Appends(docs, read, cut)[k]
  {
  }

  lemma PlaceRefused(log: Log, doc: bytes)
    requires WF(log) && log.chunkSize >= 8 && ChunkRoom(log, 1) && Place(log, doc).entry.None?
    ensures var log' := log.(chunks := Place(log, doc).chunks);
            WF(log') && DocsOf(log') == DocsOf(log) && |log'.chunks| <= |log.chunks| + 1
  {
    PlaceShape(log, doc);
    AppendOneRefuses(log, doc);
  }

  lemma AppendStepDone(log: Log, ids: seq<nat>, docs: seq<bytes>, read: seq<Entry>, i: nat)
    requires WF(log) && log.chunkSize >= 8 && ChunkRoom(log, 1) && Ready(log, ids, docs, read) && i < |ids|
    requires |docs[i]| <= log.chunkSize - 8
    ensures ids[i] < |log.entries| && Place(log, docs[i]).entry.Some?
    ensures var log1 := WithPlaced(log, ids[i], read[i], Place(log, docs[i]));
            && AppendStep(log, ids, docs, read, i, log1) && Ready(log1, ids, docs, read)
            && WF(log1) && log1.chunkSize == log.chunkSize
  {
    hide WF, DocsOf, NoStray, Drift, Place;
    Pass2Step(log, ids[i], read[i], docs[i]);
    Pass2Counts(log, ids[i], read[i], docs[i]);
  }

  /** The log after document `i`, when the second pass goes on. */
  function NextLog(log: Log, ids: seq<nat>, docs: seq<bytes>, read: seq<Entry>, i: nat): Log
    requires Shape(log) && log.chunkSize >= 8 && ChunkRoom(log, 1)
    requires |ids| == |docs| == |read| && i < |ids| && ids[i] < |log.entries|
  {
    var p := Place(log, docs[i]);
    if |docs[i]| <= read[i].alloc || p.entry.None? then log else WithPlaced(log, ids[i], read[i], p)
  }

  lemma Pass2Last(log: Log, ids: seq<nat>, docs: seq<bytes>, read: seq<Entry>, i: nat)
    requires WF(log) && log.chunkSize >= 8 && Ready(log, ids, docs, read) && i <= |ids| == |docs| == |read|
    requires ChunkRoom(log, |ids| - i) && FirstRefused(docs, read, log.chunkSize, i) == i
    ensures Appended(log, ids, docs, read, i, i, Pass2(log, ids, docs, read, i))
  {
    assert Shape(log);
    hide WF, DocsOf, NoStray, Drift, Place, Pass2, Appended, Shape;
    if i == |ids| {
      Pass2End(log, ids, docs, read);
      AppendedNone(log, ids, docs, read, i, i, log);
    } else {
      Pass2Unfold(log, ids, docs, read, i);
      PlaceRefused(log, docs[i]);
      AppendedNone(log, ids, docs, read, i, i, log.(chunks := Place(log, docs[i]).chunks));
    }
  }

  lemma Pass2Advances(log: Log, ids: seq<nat>, docs: seq<bytes>, read: seq<Entry>, i: nat)
    requires WF(log) && log.chunkSize >= 8 && Ready(log, ids, docs, read) && i < |ids| == |docs| == |read|
    requires ChunkRoom(log, |ids| - i) && FirstRefused(docs, read, log.chunkSize, i) != i
    ensures ids[i] < |log.entries| && ChunkRoom(log, 1) && Shape(log)
    ensures var log1 := NextLog(log, ids, docs, read, i);
            && WF(log1) && log1.chunkSize == log.chunkSize && Ready(log1, ids, docs, read) && KnownIds(log1, ids, docs)
            && ChunkRoom(log1, |ids| - (i + 1)) && Shape(log1)
            && Pass2(log, ids, docs, read, i) == Pass2(log1, ids, docs, read, i + 1)
  {
    assert Shape(log);
    hide WF, DocsOf, NoStray, Drift, Place, Pass2, WithPlaced, Shape;
    Pass2Unfold(log, ids, docs, read, i);
    if |docs[i]| > read[i].alloc {
      AppendStepDone(log, ids, docs, read, i);
    }
  }

  lemma AppendedBack(log: Log, ids: seq<nat>, docs: seq<bytes>, read: seq<Entry>, cut: nat, i: nat, log': Log)
    requires WF(log) && log.chunkSize >= 8 && Ready(log, ids, docs, read) && i < |ids| == |docs| == |read|
    requires Shape(log) && ChunkRoom(log, 1) && ids[i] < |log.entries|
    requires cut == FirstRefused(docs, read, log.chunkSize, i) && cut != i
    requires Appended(NextLog(log, ids, docs, read, i), ids, docs, read, cut, i + 1, log')
    ensures Appended(log, ids, docs, read, cut, i, log')
  {
    hide WF, DocsOf, NoStray, Drift, Place, WithPlaced, Appended, AppendStep;
    if |docs[i]| <= read[i].alloc {
      AppendedSkip(log, ids, docs, read, cut, i, log');
    } else {
      AppendStepDone(log, ids, docs, read, i);
      AppendedNext(log, ids, docs, read, cut, i, WithPlaced(log, ids[i], read[i], Place(log, docs[i])), log');
    }
  }

  /** Whatever the batch, the second pass appends the documents before the first that it cannot, in order. */
  lemma {:induction false} Pass2Refines(log: Log, ids: seq<nat>, docs: seq<bytes>, read: seq<Entry>, cut: nat, i: nat)
    requires WF(log) && log.chunkSize >= 8
    requires Ready(log, ids, docs, read) && KnownIds(log, ids, docs) && i <= |ids| == |read|
             && ChunkRoom(log, |ids| - i)
    requires cut == FirstRefused(docs, read, log.chunkSize, i)
    ensures Appended(log, ids, docs, read, cut, i, Pass2(log, ids, docs, read, i))
    decreases |ids| - i
  {
    assert |docs| == |ids|;
    hide *;
    if cut == i {
      Pass2Last(log, ids, docs, read, i);
    } else {
      RefusedNext(docs, read, log.chunkSize, i);
      Pass2Advances(log, ids, docs, read, i);
      Pass2Refines(NextLog(log, ids, docs, read, i), ids, docs, read, cut, i + 1);
      AppendedBack(log, ids, docs, read, cut, i, Pass2(log, ids, docs, read, i));
    }
  }

  lemma RefusedNext(docs: seq<bytes>, read: seq<Entry>, chunkSize: nat, i: nat)
    requires i <= |docs| == |read| && FirstRefused(docs, read, chunkSize, i) != i
    ensures i < |docs| && FirstRefused(docs, read, chunkSize, i) == FirstRefused(docs, read, chunkSize, i + 1)
  {
  }
}
