/** The array backend's collection and its document operations. */
module ArrayCollection {
  import opened Basics
  import opened Documents
  import opened Iteration
  import opened Buffers
  import opened ArrayModel
  import opened Transfers

  class Collection {
    var data: bytes
    var count: u64
    var offsets: seq<nat>
    var sizes: seq<nat>
    // how far `count` is from the number of documents; no operation changes it
    ghost var drift: int

    ghost function State(): Coll
      reads this
    {
      Coll(data, offsets, sizes)
    }

    ghost predicate Valid()
      reads this
    {
      WF(State()) && count == Wrap(drift + LiveCount(DocsOf(State())))
    }

    ghost function Contents(): Docs
      requires Valid()
      reads this
    {
      DocsOf(State())
    }

    /** The parts of that, for methods that work on one of them. */
    lemma ValidIs()
      ensures State() == Coll(data, offsets, sizes)
      ensures Valid() <==> WF(State()) && count == Wrap(drift + LiveCount(DocsOf(State())))
      ensures Valid() ==> Contents() == DocsOf(State()) && |Contents()| == |sizes| == |offsets|
    {
    }

    /** A row holds the sentinel exactly when there is no document; otherwise it says where the document lies. */
    lemma RowIs(id: nat)
      requires Valid() && id < |sizes|
      ensures id < |Contents()| && (sizes[id] == KEY_NOT_FOUND <==> Contents()[id].None?)
      ensures sizes[id] != KEY_NOT_FOUND ==>
                && id < |offsets| && offsets[id] + sizes[id] <= |data|
                && Contents()[id] == Some(data[offsets[id]..offsets[id] + sizes[id]])
    {
    }

    /** What changing one document does to the count. */
    lemma CountSet(d: Docs, id: nat, o: Option<bytes>)
      requires id < |d|
      ensures Wrap(Wrap(drift + LiveCount(d)) + (Live(o) - Live(d[id]))) == Wrap(drift + LiveCount(d[id := o]))
      ensures Live(o) == Live(d[id]) ==> LiveCount(d) == LiveCount(d[id := o])
      ensures Live(o) == (if o.Some? then 1 else 0) && Live(d[id]) == (if d[id].Some? then 1 else 0)
    {
      LiveCountUpdate(d, id, o);
      WrapStep(drift + LiveCount(d), Live(o) - Live(d[id]));
      hide LiveCount;
    }

    constructor ()
      ensures Valid() && fresh(this) && Contents() == [] && drift == 0
    {
      data, count, offsets, sizes := [], 0, [], [];
      drift := 0;
    }

    /** A collection rebuilt from parts, as recovery builds it: the count is not among them. */
    constructor Recovered(c: Coll)
      requires WF(c)
      ensures Valid() && fresh(this) && State() == c && count == 0
      ensures drift == 0 - LiveCount(Contents())
    {
      data, count, offsets, sizes := c.data, 0, c.offsets, c.sizes;
      drift := 0 - LiveCount(DocsOf(c));
    }

    // ---- Steps shared by the loops ----

    /** memcpy of a document into the free part of the buffer. */
    method WriteDocument(offset: nat, doc: bytes)
      requires Valid() && Below(State(), offset) && offset + |doc| <= |data|
      modifies this`data
      ensures Valid() && Below(State(), offset) && |data| == |old(data)|
      ensures Contents() == old(Contents()) && data[offset..offset + |doc|] == doc
    {
      WriteAbove(State(), offset, doc);
      data := Splice(data, offset, doc);
    }

    method Reserve(extra: nat)
      requires Valid()
      modifies this`data
      ensures Valid() && Below(State(), |old(data)|) && |data| == |old(data)| + extra && Contents() == old(Contents())
    {
      GrowData(State(), Zeros(extra));
      data := data + Zeros(extra);
    }

    method AddDocument(offset: nat, doc: bytes)
      requires Valid() && Below(State(), offset) && offset + |doc| <= |data| && |doc| < KEY_NOT_FOUND
      modifies this`data, this`sizes, this`offsets, this`count
      ensures Valid() && Below(State(), offset + |doc|) && |data| == |old(data)|
      ensures Contents() == old(Contents()) + [Some(doc)]
    {
      hide *;
      ValidIs();
      CountPush(Contents(), doc);
      WriteDocument(offset, doc);
      ValidIs();
      PushRow(State(), offset, |doc|);
      sizes, offsets := sizes + [|doc|], offsets + [offset];
      count := Wrap(count + 1);
      ValidIs();
    }

    lemma CountPush(d: Docs, doc: bytes)
      ensures Wrap(Wrap(drift + LiveCount(d)) + 1) == Wrap(drift + LiveCount(d + [Some(doc)]))
    {
      LiveCountConcat(d, [Some(doc)]);
      assert LiveCount([Some(doc)]) == 1;
      WrapStep(drift + LiveCount(d), 1);
    }

    lemma CountHole(d: Docs)
      ensures LiveCount(d + [None]) == LiveCount(d)
    {
      LiveCountConcat(d, [None]);
      assert LiveCount([None]) == 0;
    }

    method AddHole(limit: nat)
      requires Valid() && Below(State(), limit)
      modifies this`sizes, this`offsets
      ensures Valid() && Below(State(), limit) && Contents() == old(Contents()) + [None]
      ensures |sizes| == |old(sizes)| + 1
    {
      hide *;
      ValidIs();
      PushHole(State(), limit);
      CountHole(Contents());
      sizes, offsets := sizes + [KEY_NOT_FOUND], offsets + [KEY_NOT_FOUND];
      ValidIs();
    }

    /** Missing ids up to `id` come into being as erased documents. */
    method AddHoles(id: nat, limit: nat)
      requires Valid() && Below(State(), limit)
      modifies this`sizes, this`offsets
      ensures Valid() && Below(State(), limit) && Contents() == PadTo(old(Contents()), id + 1)
    {
      ghost var before := Contents();
      assert |before| == |sizes|;
      if id >= |sizes| {
        hide Valid, Below, State, Contents, PadTo;
        var j := |sizes|;
        while j <= id
          invariant |before| <= j == |sizes| <= id + 1 && Valid() && Below(State(), limit)
          invariant Contents() == PadTo(before, j)
        {
          AddHole(limit);
          j := j + 1;
        }
      }
    }

    method SetDocument(id: nat, offset: nat, doc: bytes)
      requires Valid() && Below(State(), offset) && offset + |doc| <= |data| && |doc| < KEY_NOT_FOUND && id < |sizes|
      modifies this`data, this`sizes, this`offsets, this`count
      ensures Valid() && Below(State(), offset + |doc|) && |data| == |old(data)|
      ensures Contents() == old(Contents())[id := Some(doc)]
    {
      hide *;
      ValidIs();
      RowIs(id);
      var fresh' := sizes[id] == KEY_NOT_FOUND;
      CountSet(Contents(), id, Some(doc));
      WriteDocument(offset, doc);
      ValidIs();
      SetRow(State(), id, offset, |doc|);
      if fresh' {
        count := Wrap(count + 1);
      }
      sizes, offsets := sizes[id := |doc|], offsets[id := offset];
      ValidIs();
    }

    lemma EraseIs(d: Docs, id: nat)
      ensures Documents.Erase(d, id) == if id < |d| then d[id := None] else d
    {
    }

    method EraseDocument(id: nat)
      requires Valid()
      modifies this`sizes, this`offsets, this`count
      ensures Valid() && Contents() == Documents.Erase(old(Contents()), id)
    {
      EraseIs(Contents(), id);
      hide *;
      ValidIs();
      if id >= |sizes| {
        return;
      }
      RowIs(id);
      CountSet(Contents(), id, None);
      ClearRow(State(), id);
      if sizes[id] != KEY_NOT_FOUND {
        count := Wrap(count - 1);
      }
      sizes, offsets := sizes[id := KEY_NOT_FOUND], offsets[id := KEY_NOT_FOUND];
      ValidIs();
    }

    // ---- Store, update, erase ----

    static predicate SizesInRange(sizes: seq<nat>) {
      forall i | 0 <= i < |sizes| :: sizes[i] < KEY_NOT_FOUND
    }

    static lemma SizeInRange(sizes: seq<nat>, i: nat)
      requires SizesInRange(sizes) && i < |sizes|
      ensures sizes[i] < KEY_NOT_FOUND
    {
    }

    method DocStore(documents: bytes, docSizes: seq<nat>) returns (ids: seq<nat>)
      requires Valid() && IsBatch(documents, docSizes) && SizesInRange(docSizes)
      modifies this`data, this`sizes, this`offsets, this`count
      ensures Valid() && Contents() == old(Contents()) + Stored(Slices(documents, docSizes))
      ensures ids == Range(|old(Contents())|, |docSizes|)
    {
      assert |Contents()| == |sizes|;
      hide *;
      ghost var docs, before := Slices(documents, docSizes), Contents();
      var first := |sizes|;
      var docPtr: nat, offset: nat, i := 0, |data|, 0;
      ids := [];
      Reserve(|documents|);
      StartEnds(docSizes);
      RangeNext(first, 0);
      while i < |docSizes|
        invariant i <= |docSizes| == |docs| && Valid() && Below(State(), offset)
        invariant docPtr == Start(docSizes, i) && offset + |documents| - docPtr == |data|
        invariant Contents() == StoreFirst(before, docs, i) && ids == Range(first, i)
      {
        offset, docPtr := StoreItem(documents, docSizes, i, docPtr, offset, before);
        RangeNext(first, i);
        ids := ids + [first + i];
        i := i + 1;
      }
    }

    /** One document of a store. */
    method StoreItem(documents: bytes, docSizes: seq<nat>, i: nat, docPtr: nat, offset: nat, ghost before: Docs)
      returns (offset': nat, docPtr': nat)
      requires Valid() && Below(State(), offset) && IsBatch(documents, docSizes) && SizesInRange(docSizes)
      requires i < |docSizes| && docPtr == Start(docSizes, i) && offset + |documents| - docPtr == |data|
      requires Contents() == StoreFirst(before, Slices(documents, docSizes), i)
      modifies this`data, this`sizes, this`offsets, this`count
      ensures Valid() && Below(State(), offset') && |data| == |old(data)|
      ensures docPtr' == Start(docSizes, i + 1) && offset' - docPtr' == offset - docPtr
      ensures Contents() == StoreFirst(before, Slices(documents, docSizes), i + 1)
    {
      hide *;
      var docSize := docSizes[i];
      SliceWindow(documents, docSizes, i);
      SizeInRange(docSizes, i);
      StoreFirstNext(before, Slices(documents, docSizes), i);
      AddDocument(offset, documents[docPtr..docPtr + docSize]);
      docPtr' := docPtr + docSize;
      offset' := offset + docSize;
    }

    /** Update by id, repeated ids and ids past the end included; the last document of an id wins. */
    method DocUpdate(updateNew: bool, ids: seq<nat>, documents: bytes, docSizes: seq<nat>) returns (status: Status)
      requires Valid() && IsBatch(documents, docSizes) && SizesInRange(docSizes) && |ids| == |docSizes|
      modifies this`data, this`sizes, this`offsets, this`count
      ensures Valid()
      ensures status == if !updateNew && (exists i :: 0 <= i < |ids| && ids[i] >= |old(Contents())|) then InvalidID
              else OK
      ensures Contents() ==
              if status == OK then PutFrom(old(Contents()), ids, Slices(documents, docSizes), 0) else old(Contents())
    {
      if !updateNew {
        for i := 0 to |ids|
          invariant forall j | 0 <= j < i :: ids[j] < |sizes|
        {
          if ids[i] >= |sizes| {
            return InvalidID;
          }
        }
      }
      UpdateAll(ids, documents, docSizes);
      status := OK;
    }

    method UpdateAll(ids: seq<nat>, documents: bytes, docSizes: seq<nat>)
      requires Valid() && IsBatch(documents, docSizes) && SizesInRange(docSizes) && |ids| == |docSizes|
      modifies this`data, this`sizes, this`offsets, this`count
      ensures Valid() && Contents() == PutFrom(old(Contents()), ids, Slices(documents, docSizes), 0)
    {
      hide *;
      ghost var docs, goal := Slices(documents, docSizes), PutFrom(Contents(), ids, Slices(documents, docSizes), 0);
      var docPtr: nat, offset: nat, i := 0, |data|, 0;
      Reserve(|documents|);
      StartEnds(docSizes);
      while i < |ids|
        invariant i <= |ids| == |docs| == |docSizes| && Valid() && Below(State(), offset)
        invariant docPtr == Start(docSizes, i) && offset + |documents| - docPtr == |data|
        invariant PutFrom(Contents(), ids, docs, i) == goal
      {
        SliceWindow(documents, docSizes, i);
        SizeInRange(docSizes, i);
        PutFromStep(Contents(), ids, docs, i);
        PutDocument(ids[i], offset, documents[docPtr..docPtr + docSizes[i]]);
        docPtr := docPtr + docSizes[i];
        offset := offset + docSizes[i];
        i := i + 1;
      }
      PutFromEnd(Contents(), ids, docs);
    }

    /** One document of an update. */
    method PutDocument(id: nat, offset: nat, doc: bytes)
      requires Valid() && Below(State(), offset) && offset + |doc| <= |data| && |doc| < KEY_NOT_FOUND
      modifies this`data, this`sizes, this`offsets, this`count
      ensures Valid() && Below(State(), offset + |doc|) && |data| == |old(data)|
      ensures Contents() == Put(old(Contents()), id, doc)
    {
      AddHoles(id, offset);
      SetDocument(id, offset, doc);
    }

    method DocErase(ids: seq<nat>)
      requires Valid()
      modifies this`sizes, this`offsets, this`count
      ensures Valid() && Contents() == EraseFrom(old(Contents()), ids, 0)
    {
      ghost var goal := EraseFrom(Contents(), ids, 0);
      var i := 0;
      while i < |ids|
        invariant i <= |ids| && Valid() && EraseFrom(Contents(), ids, i) == goal
      {
        EraseDocument(ids[i]);
        i := i + 1;
      }
    }

    // ---- Sizes ----

    /** The reported size is right exactly when the count has not drifted, as after a recovery. */
    method CollSize() returns (n: nat)
      requires Valid()
      ensures n == Wrap(drift + LiveCount(Contents()))
    {
      n := count;
    }

    method DocSize(id: nat) returns (n: nat)
      requires Valid()
      ensures n == match At(Contents(), id) case None => KEY_NOT_FOUND case Some(doc) => |doc|
    {
      n := if |sizes| > id then sizes[id] else KEY_NOT_FOUND;
    }

    // ---- Load ----

    lemma SeenIs(id: nat, o: Option<bytes>)
      requires Valid() && o == At(Contents(), id)
      ensures o.None? <==> id >= |sizes| || sizes[id] == KEY_NOT_FOUND
      ensures o.Some? ==>
                && id < |offsets| && offsets[id] + sizes[id] <= |data|
                && o == Some(data[offsets[id]..offsets[id] + sizes[id]])
    {
      if id < |sizes| {
        RowIs(id);
      }
    }

    /**
     Load documents end to end: those before the first that no longer fits, and too-small marks for that one
     and every later one. `cut` is the position of that document.
     */
    method DocLoadPacked(ids: seq<nat>, documents: array<byte>, docSizes: array<nat>) returns (ghost cut: nat)
      requires Valid() && docSizes.Length == |ids| && documents as object != docSizes
      modifies documents, docSizes
      ensures PackedLoad(ItemsOf(Contents(), ids), documents.Length, documents[..], docSizes[..], cut)
    {
      hide *;
      ValidIs();
      ghost var items := ItemsOf(Contents(), ids);
      var docPtr: nat, remaining: nat, i := 0, documents.Length, 0;
      LoadStart(items, documents[..], docSizes[..]);
      while i < |ids|
        invariant i <= |ids| == |items| && docPtr + remaining == documents.Length
        invariant LoadedSoFar(items, documents[..], docSizes[..], i, docPtr)
      {
        ghost var buffer, before := documents[..], docSizes[..];
        ItemAt(Contents(), ids, i);
        var id := ids[i];
        SeenIs(id, items[i]);
        if id >= |sizes| || sizes[id] == KEY_NOT_FOUND {
          docSizes[i] := KEY_NOT_FOUND;
          LoadAbsent(items, buffer, before, i, docPtr, docSizes[..]);
          i := i + 1;
          continue;
        }
        var size := sizes[id];
        if size > remaining {
          FillFrom(docSizes, i, SIZE_TOO_SMALL);
          LoadCut(items, buffer, before, i, docPtr, docSizes[..]);
          cut := i;
          return;
        }
        CopyInto(documents, docPtr, data[offsets[id]..offsets[id] + size]);
        docSizes[i] := size;
        LoadFound(items, buffer, before, i, docPtr, documents[..], docSizes[..]);
        docPtr := docPtr + size;
        remaining := remaining - size;
        i := i + 1;
      }
      LoadEnd(items, documents[..], docSizes[..], docPtr);
      cut := |items|;
    }

    /**
     Load documents into slots of the sizes given in `docSizes`. The pointer stays where it is after a slot that
     was too small.
     */
    method DocLoadUnpacked(ids: seq<nat>, documents: array<byte>, docSizes: array<nat>)
      requires Valid() && docSizes.Length == |ids| && documents as object != docSizes
      requires IsBatch(documents[..], docSizes[..])
      modifies documents, docSizes
      ensures var items := ItemsOf(Contents(), ids);
              Unpacked(items, old(docSizes[..]), true, documents[..], docSizes[..], |items|)
    {
      hide *;
      ghost var items: Docs, room: seq<nat> := ItemsOf(Contents(), ids), docSizes[..];
      var docPtr: nat, i: nat := 0, 0;
      UnpackedStart(items, room, true, documents[..]);
      while i < |ids|
        invariant i <= |ids| == |items| == |room| && docPtr == Slot(items, room, i, true)
        invariant IsBatch(documents[..], room) && forall k | i <= k < |ids| :: docSizes[k] == room[k]
        invariant Unpacked(items, room, true, documents[..], docSizes[..], i)
      {
        RowItem(ids, i);
        SlotRoom(items, room, true, documents[..], i);
        SlotCases(items[i], room[i]);
        ghost var buffer: bytes, before: seq<nat> := documents[..], docSizes[..];
        var id := ids[i];
        var bufferSize := docSizes[i];
        if id >= |sizes| || sizes[id] == KEY_NOT_FOUND {
          UnpackedMark(items, room, true, buffer, before, i);
          docPtr := docPtr + bufferSize;
          docSizes[i] := KEY_NOT_FOUND;
        } else if sizes[id] > bufferSize {
          UnpackedMark(items, room, true, buffer, before, i);
          docSizes[i] := SIZE_TOO_SMALL;
        } else {
          UnpackedCopy(items, room, true, buffer, before, i);
          CopyInto(documents, docPtr, data[offsets[id]..offsets[id] + sizes[id]]);
          docSizes[i] := sizes[id];
          docPtr := docPtr + bufferSize;
        }
        BatchLength(buffer, documents[..], room);
        assert docSizes[..] == before[i := docSizes[i]];
        i := i + 1;
      }
    }

    /** What the tables say about one id of a batch. */
    lemma RowItem(ids: seq<nat>, i: nat)
      requires Valid() && i < |ids|
      ensures |ItemsOf(Contents(), ids)| == |ids| && |sizes| == |offsets|
      ensures var id, o := ids[i], ItemsOf(Contents(), ids)[i];
              && (id >= |sizes| || sizes[id] == KEY_NOT_FOUND <==> o.None?)
              && (o.Some? ==>
                   && offsets[id] + sizes[id] <= |data| && |o.value| == sizes[id]
                   && o.value == data[offsets[id]..offsets[id] + sizes[id]])
    {
      ItemAt(Contents(), ids, i);
    }

    // ---- Iteration ----

    /** What a row says about its document. */
    lemma RowDocument(f: Filter, id: nat)
      requires Valid() && id < |sizes|
      ensures |Contents()| == |sizes| == |offsets|
      ensures sizes[id] == KEY_NOT_FOUND ==> Contents()[id].None? && !StopsAt(Contents(), f, id)
      ensures sizes[id] != KEY_NOT_FOUND ==>
                && offsets[id] + sizes[id] <= |data|
                && var doc := data[offsets[id]..offsets[id] + sizes[id]];
                   && Contents()[id] == Some(doc)
                   && (StopsAt(Contents(), f, id) <==> !f.accept(id, doc) && f.stop(doc))
    {
    }

    lemma ContentsSize()
      requires Valid()
      ensures |Contents()| == |sizes|
    {
    }

    /** Iterate over the collection; terminates for every filter, limit and callback. */
    method DocIter(max: nat, from: nat, f: Filter, cb: Callback) returns (calls: seq<Call>, status: Status)
      requires Valid()
      ensures (calls, status) == Iterate(Contents(), f, from, max, cb)
    {
      hide *;
      ContentsSize();
      ghost var d := Contents();
      ghost var list := Matching(d, f, from, StopPoint(d, f, from));
      ghost var goal := Iterate(d, f, from, max, cb);
      IterateIs(d, f, from, max, cb);
      ProgressStart(d, f, from);
      var id, i := from, 0;
      calls, status := [], OK;
      while i < max && id < |sizes|
        invariant |calls| == i <= |list| && calls == list[..i] && Progress(d, f, from, id, i)
        invariant status == OK && Deliver(list, max, cb, i) == goal
        decreases |sizes| - id
      {
        RowDocument(f, id);
        if sizes[id] == KEY_NOT_FOUND {
          ProgressSkip(d, f, from, id, i);
          id := id + 1;
          continue;
        }
        var doc := data[offsets[id]..offsets[id] + sizes[id]];
        if !f.accept(id, doc) {
          if f.stop(doc) {
            ProgressEnd(d, f, from, id, i);
            DeliverStops(list, max, cb, i);
            return;
          }
          ProgressSkip(d, f, from, id, i);
          id := id + 1;
          continue;
        }
        ProgressCall(d, f, from, id, i);
        DeliverStep(list, max, cb, i);
        calls := calls + [(id, f.rewrite(doc))];
        status := cb(calls);
        if status != OK {
          return;
        }
        id, i := id + 1, i + 1;
      }
      if i < max {
        ProgressEnd(d, f, from, id, i);
      }
      DeliverStops(list, max, cb, i);
    }

    /** List documents end to end into `documents` with their ids, as many as there are slots and as fit. */
    method DocListPacked(from: nat, f: Filter, ids: array<nat>, documents: array<byte>, docSizes: array<nat>)
      returns (status: Status, ghost cut: nat)
      requires Valid()
      requires ids.Length == docSizes.Length && ids != docSizes && documents as object !in {ids as object, docSizes}
      modifies ids, documents, docSizes
      ensures var take := Listing(Contents(), f, from, ids.Length);
              && ListedPacked(take, ids[..], documents[..], docSizes[..], cut)
              && status == if cut < |take| then StopIteration else OK
    {
      hide *;
      ghost var take := Listing(Contents(), f, from, ids.Length);
      cut := ListingCalls(Contents(), f, from, ids.Length, documents.Length);
      var calls;
      calls, status := DocIter(ids.Length, from, f, PackCallback(documents.Length));
      CopyListing(calls, status == StopIteration, ids, documents, docSizes, take, cut);
    }
  }
}
