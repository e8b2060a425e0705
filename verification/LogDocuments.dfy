/** The document operations of the log backend, on top of one of its collections. */
module LogDocuments {
  import opened Basics
  import opened Documents
  import opened Iteration
  import opened Buffers
  import opened Transfers
  import opened LogModel
  import opened LogOperations
  import opened LogUpdate
  import opened LogUpdateResults
  import opened LogIteration
  import opened LogCollection

  // ---- Update: the range check ----

  predicate Rejects(log: Log, ids: seq<u64>) {
    exists i :: 0 <= i < |ids| && ids[i] > LastIdWord(log)
  }

  /**
   The check refuses exactly the batches with an id out of range, except on an empty collection, where it refuses
   none.
   */
  lemma RangeCheckExact(log: Log, ids: seq<u64>)
    ensures Rejects(log, ids) <==> log.entries != [] && exists i :: 0 <= i < |ids| && ids[i] >= |log.entries|
  {
    if i :| 0 <= i < |ids| && ids[i] >= |log.entries| {
      assert log.entries != [] ==> ids[i] > LastIdWord(log);
    }
  }

  method DocUpdate(c: Collection, updateNew: bool, ids: seq<u64>, data: bytes, sizes: seq<nat>)
    returns (crashed: bool, status: Status)
    requires c.Valid() && IsBatch(data, sizes) && |ids| == |sizes| > 0
    requires updateNew || !Rejects(c.log, ids) ==> UpdateRoom(c.log, ids)
    modifies c, c.chunkCache
    ensures !updateNew && Rejects(old(c.log), ids) ==>
            !crashed && status == InvalidID && c.Valid() && c.log == old(c.log)
    ensures updateNew || !Rejects(old(c.log), ids) ==>
              && (crashed <==> LogUpdateResults.Update(old(c.log), ids, Slices(data, sizes)).Crashed?)
              && (!crashed ==>
                  c.Valid() && LogUpdateResults.Update(old(c.log), ids, Slices(data, sizes)) == Finished(status, c.log))
  {
    var lastId := c.LastId();
    if !updateNew {
      for i := 0 to |ids|
        invariant forall j | 0 <= j < i :: ids[j] <= lastId
        invariant c.Valid() && c.log == old(c.log)
      {
        if ids[i] > lastId {
          return false, InvalidID;
        }
      }
    }
    crashed, status := c.Update(ids, data, sizes);
  }

  // ---- Iteration ----

  lemma IdsFit(c: Collection)
    requires c.Valid()
    ensures |c.log.entries| < TWO_TO_THE_64 && WF(c.log) && Shape(c.log)
  {
  }

  /** The iteration meets a row that it cannot pass, or has no end in an empty collection. */
  ghost predicate Endless(log: Log, f: Filter, max: nat, cb: Callback, from: nat)
    requires WF(log)
  {
    if log.entries == [] then max >= 1
    else MeetsStray(log, f, max, cb, from) && !LostAt(log, FirstStray(log, from))
  }

  /** What a fetch in the loop gives, when the iteration is not endless. */
  lemma FetchInLoop(log: Log, f: Filter, max: nat, cb: Callback, from: nat, s: Loop)
    requires WF(log) && ChunkRoom(log, 1) && 0 < |log.entries| && Goes(log, max, s) && !Endless(log, f, max, cb, from)
    requires Under(DocsOf(log), f, max, cb, from, FirstStray(log, from), s)
    ensures var r, d, k := Fetch(log, s.id), DocsOf(log), FirstStray(log, from);
            && s.id < |d|
            && (r == NullChunk ==> MeetsStray(log, f, max, cb, from))
            && (r != NullChunk ==> s.id < k)
            && (r == Refused(NotFound) ==> d[s.id].None? && !StopsAt(d, f, s.id))
            && (r != NullChunk && r != Refused(NotFound) ==>
                  && r.Found? && d[s.id] == Some(r.doc)
                  && (StopsAt(d, f, s.id) <==> !f.accept(s.id, r.doc) && f.stop(r.doc)))
  {
    UnderFrom(DocsOf(log), f, max, cb, from, FirstStray(log, from), s);
    if s.id == FirstStray(log, from) {
      TurnStray(log, f, max, cb, from, s);
      StrayRefused(log, s.id, 0);
    } else {
      FetchRefines(log, s.id);
    }
    hide WF, DocsOf, Fetch, MeetsStray, Under;
  }

  lemma LoopStarts(log: Log, f: Filter, max: nat, cb: Callback, from: u64)
    requires WF(log) && !Endless(log, f, max, cb, from)
    ensures Under(DocsOf(log), f, max, cb, from, FirstStray(log, from), Loop(from, 0, [], OK))
    ensures max == 0 || log.entries != []
  {
    BeginUnder(DocsOf(log), f, max, cb, from, FirstStray(log, from));
  }

  lemma LoopOver(log: Log, f: Filter, max: nat, cb: Callback, from: u64, calls: seq<Call>, status: Status)
    requires WF(log) && Over(DocsOf(log), f, max, cb, from, FirstStray(log, from), calls, status)
    ensures (calls, status) == Iterate(DocsOf(log), f, from, max, cb) && !MeetsStray(log, f, max, cb, from)
  {
    hide WF, DocsOf, FirstStray, Iterate, GetsTo;
  }

  lemma LastIdIs(log: Log)
    ensures LastIdWord(log) == if log.entries == [] then TWO_TO_THE_64 - 1 else |log.entries| - 1
  {
  }

  /** The loop stands at `id` with these calls made. */
  ghost predicate Stands(log: Log, f: Filter, max: nat, cb: Callback, from: u64, id: u64, i: nat, calls: seq<Call>) {
    && WF(log) && ChunkRoom(log, 1) && |log.entries| < TWO_TO_THE_64 && !Endless(log, f, max, cb, from)
    && Under(DocsOf(log), f, max, cb, from, FirstStray(log, from), Loop(id, i, calls, OK))
  }

  /** The loop is over with this result. */
  ghost predicate Results(log: Log, f: Filter, max: nat, cb: Callback, from: u64, calls: seq<Call>, status: Status) {
    && WF(log) && !MeetsStray(log, f, max, cb, from)
    && (calls, status) == Iterate(DocsOf(log), f, from, max, cb)
  }

  lemma StandsMeans(log: Log, f: Filter, max: nat, cb: Callback, from: u64, id: u64, i: nat, calls: seq<Call>)
    ensures Stands(log, f, max, cb, from, id, i, calls) <==>
            && WF(log) && ChunkRoom(log, 1) && |log.entries| < TWO_TO_THE_64 && !Endless(log, f, max, cb, from)
            && Under(DocsOf(log), f, max, cb, from, FirstStray(log, from), Loop(id, i, calls, OK))
    ensures Stands(log, f, max, cb, from, id, i, calls) && i < max && id <= LastIdWord(log) ==>
              Goes(log, max, Loop(id, i, calls, OK)) && id < |log.entries| == |DocsOf(log)|
  {
  }

  lemma LoopSkips(log: Log, f: Filter, max: nat, cb: Callback, from: u64, id: u64, i: nat, calls: seq<Call>)
    requires Stands(log, f, max, cb, from, id, i, calls) && i < max && id <= LastIdWord(log)
    requires var r := Fetch(log, id);
             r == Refused(NotFound) || (r.Found? && !f.accept(id, r.doc) && !f.stop(r.doc))
    ensures id + 1 < TWO_TO_THE_64 && Stands(log, f, max, cb, from, id + 1, i, calls)
  {
    hide *;
    var s := Loop(id, i, calls, OK);
    StandsMeans(log, f, max, cb, from, id, i, calls);
    FetchInLoop(log, f, max, cb, from, s);
    UnderSkips(DocsOf(log), f, max, cb, from, FirstStray(log, from), s);
    StandsMeans(log, f, max, cb, from, id + 1, i, calls);
  }

  lemma LoopStops(log: Log, f: Filter, max: nat, cb: Callback, from: u64, id: u64, i: nat, calls: seq<Call>)
    requires Stands(log, f, max, cb, from, id, i, calls) && i < max && id <= LastIdWord(log)
    requires var r := Fetch(log, id); r.Found? && !f.accept(id, r.doc) && f.stop(r.doc)
    ensures Results(log, f, max, cb, from, calls, OK)
  {
    var s := Loop(id, i, calls, OK);
    assert max > 0 && log.entries != [] && Goes(log, max, s);
    hide WF, Shape, DocsOf, FirstStray, Under, Over, Fetch, StopsAt, Endless, MeetsStray, Iterate;
    FetchInLoop(log, f, max, cb, from, s);
    UnderStops(DocsOf(log), f, max, cb, from, FirstStray(log, from), s);
    LoopOver(log, f, max, cb, from, calls, OK);
  }

  lemma LoopCalls(log: Log, f: Filter, max: nat, cb: Callback, from: u64, id: u64, i: nat, calls: seq<Call>,
                  calls': seq<Call>)
    requires Stands(log, f, max, cb, from, id, i, calls) && i < max && id <= LastIdWord(log)
    requires var r := Fetch(log, id); r.Found? && f.accept(id, r.doc) && calls' == calls + [(id, f.rewrite(r.doc))]
    ensures id + 1 < TWO_TO_THE_64
    ensures cb(calls') == OK ==> Stands(log, f, max, cb, from, id + 1, i + 1, calls')
    ensures cb(calls') != OK ==> Results(log, f, max, cb, from, calls', cb(calls'))
  {
    var s := Loop(id, i, calls, OK);
    hide Stands, Shape, WF, DocsOf, FirstStray, Under, Over, Fetch, StopsAt, Endless, MeetsStray, Iterate, Goes;
    StandsMeans(log, f, max, cb, from, id, i, calls);
    FetchInLoop(log, f, max, cb, from, s);
    UnderCalls(DocsOf(log), f, max, cb, from, FirstStray(log, from), s, calls'[|calls|], calls');
    if cb(calls') == OK {
      StandsMeans(log, f, max, cb, from, id + 1, i + 1, calls');
    } else {
      LoopOver(log, f, max, cb, from, calls', cb(calls'));
    }
  }

  lemma LoopCrashes(log: Log, f: Filter, max: nat, cb: Callback, from: u64, id: u64, i: nat, calls: seq<Call>)
    requires Stands(log, f, max, cb, from, id, i, calls) && i < max && id <= LastIdWord(log)
    ensures var r := Fetch(log, id);
            && (r == NullChunk ==> MeetsStray(log, f, max, cb, from))
            && (r.NullChunk? || r.Found? || r == Refused(NotFound))
  {
    var s := Loop(id, i, calls, OK);
    assert max > 0 && log.entries != [] && Goes(log, max, s);
    hide WF, Shape, DocsOf, FirstStray, Under, Fetch, StopsAt, Endless, MeetsStray;
    FetchInLoop(log, f, max, cb, from, s);
  }

  lemma LoopEnds(log: Log, f: Filter, max: nat, cb: Callback, from: u64, id: u64, i: nat, calls: seq<Call>)
    requires Stands(log, f, max, cb, from, id, i, calls) && !(i < max && id <= LastIdWord(log))
    ensures Results(log, f, max, cb, from, calls, OK)
  {
    assert i >= max || id >= |DocsOf(log)|;
    hide WF, DocsOf, FirstStray, Under, Over, Endless, MeetsStray, Iterate, LastIdWord;
    UnderEnds(DocsOf(log), f, max, cb, from, FirstStray(log, from), Loop(id, i, calls, OK));
    LoopOver(log, f, max, cb, from, calls, OK);
  }

  lemma ResultsMean(log: Log, f: Filter, max: nat, cb: Callback, from: u64, calls: seq<Call>, status: Status)
    requires Results(log, f, max, cb, from, calls, status)
    ensures WF(log) && !MeetsStray(log, f, max, cb, from) && (calls, status) == Iterate(DocsOf(log), f, from, max, cb)
  {
  }

  lemma LoopBegins(c: Collection, f: Filter, max: nat, cb: Callback, from: u64)
    requires c.Valid() && WF(c.log) && ChunkRoom(c.log, 1) && !Endless(c.log, f, max, cb, from)
    ensures Stands(c.log, f, max, cb, from, from, 0, []) && Shape(c.log)
  {
    IdsFit(c);
    LoopStarts(c.log, f, max, cb, from);
  }

  // ---- The rows that an update by nothing leaves ----

  /** An empty document for a row without a place is written in place: only the row's size changes. */
  lemma UpdateByNothing(log: Log, id: nat)
    requires WF(log) && UpdateRoom(log, [id]) && log.chunkSize >= 8 && !PlacedAt(log, id)
    ensures var padded := PadEntries(log, id + 1);
            id < |padded.entries| && Update(log, [id], [[]]) == Finished(OK, Resized(padded, id, 0))
  {
    var ids: seq<nat>, docs: seq<bytes> := [id], [[]];
    assert MaxId(ids, 0) == id + 1 && !AnyLonger(docs, log.chunkSize);
    assert Shape(log) && log.chunks != [];
    var padded := PadEntries(log, id + 1);
    assert InPlace(padded, id, []) == Step(OK, Resized(padded, id, 0));
    hide WF, Update, Pass1, Pass2, Resized, InPlace, AnyLonger, DocsOf;
    UpdateUnfold(log, ids, docs);
    Pass1Unfold(padded, ids, docs, []);
    var log1 := Resized(padded, id, 0);
    Pass1End(log1, ids, docs, [log1.entries[id]]);
    Pass2Unfold(log1, ids, docs, [log1.entries[id]], 0);
    Pass2End(log1, ids, docs, [log1.entries[id]]);
  }

  lemma NothingLeavesStray(log: Log, id: nat)
    requires WF(log) && UpdateRoom(log, [id]) && log.chunkSize >= 8 && !PlacedAt(log, id)
    ensures var r := Update(log, [id], [[]]);
            && r.Finished? && r.status == OK && WF(r.log) && StrayAt(r.log, id) && ChunkRoom(r.log, 1)
            && |r.log.entries| < TWO_TO_THE_64 && |r.log.entries| == Max(|log.entries|, id + 1)
            && (LostAt(r.log, id) <==> id < |log.entries| && log.entries[id].chunk == KEY_NOT_FOUND)
  {
    UpdateByNothing(log, id);
    UpdateKeeps(log, [id], [[]]);
    assert MaxId([id], 0) == id + 1;
    hide WF, Update;
  }

  lemma MeetsAtOnce(log: Log, f: Filter, max: nat, cb: Callback, id: u64)
    requires WF(log) && StrayAt(log, id) && max >= 1
    ensures FirstStray(log, id) == id && MeetsStray(log, f, max, cb, id)
  {
    StopPointRange(DocsOf(log), f, id);
  }

  /** An update that gives a new id an empty document makes the iteration from that id on endless. */
  lemma NewEmptyNeverEnds(log: Log, id: u64, f: Filter, max: nat, cb: Callback)
    requires WF(log) && UpdateRoom(log, [id]) && log.chunkSize >= 8 && id >= |log.entries| && max >= 1
    ensures var r := Update(log, [id], [[]]);
            && r.Finished? && r.status == OK && Shape(r.log) && WF(r.log)
            && Endless(r.log, f, max, cb, id) && !Terminates(r.log, f, max, cb, id)
            && forall n: nat :: After(r.log, f, max, cb, Begin(id), n) == Begin(id)
  {
    NothingLeavesStray(log, id);
    var log' := Update(log, [id], [[]]).log;
    MeetsAtOnce(log', f, max, cb, id);
    IterationExact(log', f, max, cb, id);
    StrayRefused(log', id, 0);
    assert Turn(log', f, max, cb, Begin(id)) == Begin(id);
    forall n: nat ensures After(log', f, max, cb, Begin(id), n) == Begin(id) {
      StaysFor(log', f, max, cb, Begin(id), n);
    }
  }

  /** Storing a document, erasing it, updating it by nothing and iterating from it dereferences a null chunk. */
  lemma EraseUpdateIterate(log: Log, id: u64, f: Filter, max: nat, cb: Callback)
    requires WF(log) && UpdateRoom(log, [id]) && log.chunkSize >= 8 && PlacedAt(log, id) && max >= 1
    ensures var erased := LogOperations.Erase(log, id).1;
            && WF(erased) && Update(erased, [id], [[]]).Finished?
            && var log' := Update(erased, [id], [[]]).log;
               && WF(log') && Shape(log')
               && After(log', f, max, cb, Begin(id), 1) == NullDereference && !Terminates(log', f, max, cb, id)
  {
    EraseRefines(log, id);
    var erased := LogOperations.Erase(log, id).1;
    PlacedIsDocument(log, id);
    NothingLeavesStray(erased, id);
    var log' := Update(erased, [id], [[]]).log;
    MeetsAtOnce(log', f, max, cb, id);
    IterationExact(log', f, max, cb, id);
    StrayRefused(log', id, 0);
    hide WF, Update, DocsOf, Fetch;
    assert Turn(log', f, max, cb, Begin(id)) == NullDereference;
    assert Goes(log', max, Begin(id));
    AfterTurn(log', f, max, cb, Begin(id), 0);
    AfterNone(log', f, max, cb, NullDereference);
  }

  /**
   Iterate over the collection, unless that has no end. `crashed` is the dereference of a null chunk pointer, at a stray
   row that was erased; otherwise these are exactly the calls of the abstract iteration.
   */
  method DocIter(c: Collection, max: nat, from: u64, f: Filter, cb: Callback)
    returns (crashed: bool, calls: seq<Call>, status: Status)
    requires c.Valid() && WF(c.log) && ChunkRoom(c.log, 1)
    requires !Endless(c.log, f, max, cb, from)
    modifies c, c.chunkCache
    ensures c.Valid() && c.log == old(c.log)
    ensures crashed <==> MeetsStray(c.log, f, max, cb, from)
    ensures !crashed ==> (calls, status) == Iterate(DocsOf(c.log), f, from, max, cb)
  {
    hide *;
    ghost var log := c.log;
    LoopBegins(c, f, max, cb, from);
    var id: u64, i: nat := from, 0;
    crashed, calls, status := false, [], OK;
    var lastId := c.LastId();
    LastIdIs(log);
    while i < max && id <= lastId
      invariant c.Valid() && c.log == log && status == OK && !crashed
      invariant Stands(log, f, max, cb, from, id, i, calls)
      decreases lastId + 1 - id
    {
      LoopCrashes(log, f, max, cb, from, id, i, calls);
      var r := c.Fetch(id);
      if r == NullChunk {
        crashed := true;
        return;
      } else if r == Refused(NotFound) {
        LoopSkips(log, f, max, cb, from, id, i, calls);
        id := id + 1;
      } else if !f.accept(id, r.doc) {
        if f.stop(r.doc) {
          LoopStops(log, f, max, cb, from, id, i, calls);
          ResultsMean(log, f, max, cb, from, calls, OK);
          return;
        }
        LoopSkips(log, f, max, cb, from, id, i, calls);
        id := id + 1;
      } else {
        LoopCalls(log, f, max, cb, from, id, i, calls, calls + [(id, f.rewrite(r.doc))]);
        calls := calls + [(id, f.rewrite(r.doc))];
        status := cb(calls);
        if status != OK {
          ResultsMean(log, f, max, cb, from, calls, status);
          return;
        }
        id := id + 1;
        i := i + 1;
      }
    }
    LoopEnds(log, f, max, cb, from, id, i, calls);
    ResultsMean(log, f, max, cb, from, calls, OK);
  }

  // ---- What a load sees ----

  /** The documents a load reads: at a stray row it is refused as if the document were longer than any room. */
  ghost function ItemsSeen(log: Log, ids: seq<nat>, long: nat): (r: Docs)
    requires WF(log)
    ensures |r| == |ids|
  {
    seq(|ids|, k requires 0 <= k < |ids| => if StrayAt(log, ids[k]) then Some(Zeros(long)) else At(DocsOf(log), ids[k]))
  }

  /** Without stray rows among the ids, those are the documents of the collection. */
  lemma SeenAreItems(log: Log, ids: seq<nat>, long: nat)
    requires WF(log) && forall k | 0 <= k < |ids| :: !StrayAt(log, ids[k])
    ensures ItemsSeen(log, ids, long) == ItemsOf(DocsOf(log), ids)
    ensures forall k | 0 <= k < |ids| :: !LostAt(log, ids[k])
  {
  }

  /** What one read of a load gives. */
  lemma ReadSeen(log: Log, ids: seq<nat>, i: nat, long: nat, bufSize: nat)
    requires WF(log) && ChunkRoom(log, 1) && i < |ids| && bufSize < long
    ensures var r, o := Read(log, ids[i], bufSize), ItemsSeen(log, ids, long)[i];
            && (r == NullChunk <==> LostAt(log, ids[i]))
            && (r != NullChunk ==>
                  && (r == Refused(NotFound) || r == Refused(InvalidID) <==> o.None?)
                  && (r == Refused(SizeError) <==> o.Some? && |o.value| > bufSize)
                  && (o.Some? && |o.value| <= bufSize ==> r == Found(o.value)))
  {
    if StrayAt(log, ids[i]) {
      StrayRefused(log, ids[i], bufSize);
    } else {
      ReadRefines(log, ids[i], bufSize);
    }
    hide WF, DocsOf, Read;
  }

  // ---- Packed load ----

  /** A packed load gets to a row without a chunk: everything before it fits. */
  ghost predicate LoadCrashes(log: Log, ids: seq<nat>, capacity: nat)
    requires WF(log)
  {
    exists k :: 0 <= k < |ids| && LostAt(log, ids[k]) && PackedSize(ItemsSeen(log, ids, capacity + 1), k) <= capacity
  }

  ghost predicate NoneLost(log: Log, ids: seq<nat>, i: nat) {
    i <= |ids| && forall k | 0 <= k < i :: !LostAt(log, ids[k])
  }

  lemma NoneLostNext(log: Log, ids: seq<nat>, i: nat)
    requires i < |ids| && NoneLost(log, ids, i) && !LostAt(log, ids[i])
    ensures NoneLost(log, ids, i + 1)
  {
  }

  lemma CrashesHere(log: Log, ids: seq<nat>, buffer: bytes, sizes: seq<nat>, i: nat, used: nat)
    requires WF(log) && i < |ids| && LostAt(log, ids[i])
    requires LoadedSoFar(ItemsSeen(log, ids, |buffer| + 1), buffer, sizes, i, used)
    ensures LoadCrashes(log, ids, |buffer|)
  {
    hide WF, ItemsSeen, LostAt;
  }

  lemma CrashesNowhere(log: Log, ids: seq<nat>, buffer: bytes, sizes: seq<nat>, cut: nat)
    requires WF(log) && PackedLoad(ItemsSeen(log, ids, |buffer| + 1), |buffer|, buffer, sizes, cut)
    requires NoneLost(log, ids, if cut < |ids| then cut + 1 else cut)
    ensures !LoadCrashes(log, ids, |buffer|)
  {
    hide WF, ItemsSeen, LostAt;
    var items := ItemsSeen(log, ids, |buffer| + 1);
    forall k | cut < k < |ids| ensures PackedSize(items, k) > |buffer| {
      PackedSizeMonotone(items, cut + 1, k);
    }
  }

  /**
   Load documents end to end into `documents`: those before the first that no longer fits or has a stray row, and
   too-small marks for that one and every later one. `cut` is the position of that document.
   */
  method DocLoadPacked(c: Collection, ids: seq<nat>, documents: array<byte>, sizes: array<nat>)
    returns (crashed: bool, ghost cut: nat)
    requires c.Valid() && WF(c.log) && ChunkRoom(c.log, 1)
    requires sizes.Length == |ids| && documents as object != sizes
    modifies c, c.chunkCache, documents, sizes
    ensures c.Valid() && c.log == old(c.log)
    ensures crashed <==> LoadCrashes(c.log, ids, documents.Length)
    ensures !crashed ==>
              PackedLoad(ItemsSeen(c.log, ids, documents.Length + 1), documents.Length, documents[..], sizes[..], cut)
  {
    hide *;
    ghost var items := ItemsSeen(c.log, ids, documents.Length + 1);
    var docPtr: nat, remaining: nat, i := 0, documents.Length, 0;
    crashed, cut := false, 0;
    LoadStart(items, documents[..], sizes[..]);
    LostStart(c.log, ids);
    while i < |ids|
      invariant i <= |ids| == |items| == sizes.Length && docPtr + remaining == documents.Length && !crashed
      invariant c.Valid() && c.log == old(c.log) && NoneLost(c.log, ids, i)
      invariant LoadedSoFar(items, documents[..], sizes[..], i, docPtr)
    {
      ghost var buffer, before := documents[..], sizes[..];
      ReadSeen(c.log, ids, i, documents.Length + 1, remaining);
      var r := c.Read(ids[i], remaining);
      if r == NullChunk {
        CrashesHere(c.log, ids, buffer, before, i, docPtr);
        crashed := true;
        return;
      }
      NoneLostNext(c.log, ids, i);
      if r == Refused(SizeError) {
        FillFrom(sizes, i, SIZE_TOO_SMALL);
        LoadCut(items, buffer, before, i, docPtr, sizes[..]);
        CrashesNowhere(c.log, ids, buffer, sizes[..], i);
        cut := i;
        return;
      } else if r == Refused(NotFound) || r == Refused(InvalidID) {
        sizes[i] := KEY_NOT_FOUND;
        LoadAbsent(items, buffer, before, i, docPtr, sizes[..]);
      } else {
        CopyInto(documents, docPtr, r.doc);
        sizes[i] := |r.doc|;
        LoadFound(items, buffer, before, i, docPtr, documents[..], sizes[..]);
        docPtr := docPtr + sizes[i];
        remaining := remaining - sizes[i];
      }
      i := i + 1;
    }
    LoadEnd(items, documents[..], sizes[..], docPtr);
    cut := |items|;
    CrashesNowhere(c.log, ids, documents[..], sizes[..], cut);
  }

  lemma LostStart(log: Log, ids: seq<nat>)
    ensures NoneLost(log, ids, 0)
  {
  }

  lemma LostSomewhere(log: Log, ids: seq<nat>, i: nat)
    requires NoneLost(log, ids, i)
    ensures i < |ids| && LostAt(log, ids[i]) ==> exists k :: 0 <= k < |ids| && LostAt(log, ids[k])
    ensures i == |ids| ==> !exists k :: 0 <= k < |ids| && LostAt(log, ids[k])
  {
  }

  // ---- Unpacked load ----

  /**
   Load documents into slots of the sizes given in `sizes`, one after the other; a document with a stray row counts as
   too large for its slot.
   */
  method DocLoadUnpacked(c: Collection, ids: seq<nat>, documents: array<byte>, sizes: array<nat>)
    returns (crashed: bool)
    requires c.Valid() && WF(c.log) && ChunkRoom(c.log, 1)
    requires sizes.Length == |ids| && documents as object != sizes && IsBatch(documents[..], sizes[..])
    modifies c, c.chunkCache, documents, sizes
    ensures c.Valid() && c.log == old(c.log)
    ensures crashed <==> exists k :: 0 <= k < |ids| && LostAt(c.log, ids[k])
    ensures !crashed ==>
              var items := ItemsSeen(c.log, ids, documents.Length + 1);
              Unpacked(items, old(sizes[..]), false, documents[..], sizes[..], |items|)
  {
    hide *;
    ghost var items: Docs, room: seq<nat> := ItemsSeen(c.log, ids, documents.Length + 1), sizes[..];
    var docPtr: nat, i: nat := 0, 0;
    crashed := false;
    UnpackedStart(items, room, false, documents[..]);
    LostStart(c.log, ids);
    while i < |ids|
      invariant i <= |ids| == |items| == |room| && docPtr == Slot(items, room, i, false) && !crashed
      invariant IsBatch(documents[..], room) && forall k | i <= k < |ids| :: sizes[k] == room[k]
      invariant c.Valid() && c.log == old(c.log) && NoneLost(c.log, ids, i)
      invariant Unpacked(items, room, false, documents[..], sizes[..], i)
    {
      ghost var buffer: bytes, before: seq<nat> := documents[..], sizes[..];
      SlotRoom(items, room, false, buffer, i);
      SlotBelow(buffer, room, i);
      ReadSeen(c.log, ids, i, documents.Length + 1, room[i]);
      SlotCases(items[i], room[i]);
      var bufferSize := sizes[i];
      var r := c.Read(ids[i], bufferSize);
      if r == NullChunk {
        LostSomewhere(c.log, ids, i);
        crashed := true;
        return;
      }
      NoneLostNext(c.log, ids, i);
      if r == Refused(SizeError) {
        UnpackedMark(items, room, false, buffer, before, i);
        sizes[i] := SIZE_TOO_SMALL;
      } else if r == Refused(NotFound) || r == Refused(InvalidID) {
        UnpackedMark(items, room, false, buffer, before, i);
        sizes[i] := KEY_NOT_FOUND;
      } else {
        UnpackedCopy(items, room, false, buffer, before, i);
        CopyInto(documents, docPtr, r.doc);
        sizes[i] := |r.doc|;
      }
      docPtr := docPtr + bufferSize;
      BatchLength(buffer, documents[..], room);
      assert sizes[..] == before[i := sizes[i]];
      i := i + 1;
    }
    LostSomewhere(c.log, ids, i);
  }

  lemma SlotBelow(buffer: bytes, room: seq<nat>, i: nat)
    requires IsBatch(buffer, room) && i < |room|
    ensures room[i] <= |buffer|
  {
    StartMonotone(room, i + 1, |room|);
  }

  // ---- Packed listing ----

  /** List documents end to end into `documents` with their ids, as many as there are slots and as fit. */
  method DocListPacked(c: Collection, from: u64, f: Filter, ids: array<nat>, documents: array<byte>,
                       docSizes: array<nat>)
    returns (crashed: bool, status: Status, ghost cut: nat)
    requires c.Valid() && WF(c.log) && ChunkRoom(c.log, 1)
    requires !Endless(c.log, f, ids.Length, PackCallback(documents.Length), from)
    requires ids.Length == docSizes.Length && ids != docSizes && documents as object !in {ids as object, docSizes}
    modifies c, c.chunkCache, ids, documents, docSizes
    ensures c.Valid() && c.log == old(c.log)
    ensures crashed <==> MeetsStray(c.log, f, ids.Length, PackCallback(documents.Length), from)
    ensures var take := Listing(DocsOf(c.log), f, from, ids.Length);
            !crashed ==>
              && ListedPacked(take, ids[..], documents[..], docSizes[..], cut)
              && status == if cut < |take| then StopIteration else OK
  {
    hide *;
    ghost var take := Listing(DocsOf(c.log), f, from, ids.Length);
    cut := ListingCalls(DocsOf(c.log), f, from, ids.Length, documents.Length);
    var calls;
    crashed, calls, status := DocIter(c, ids.Length, from, f, PackCallback(documents.Length));
    if !crashed {
      CopyListing(calls, status == StopIteration, ids, documents, docSizes, take, cut);
    }
  }
}
