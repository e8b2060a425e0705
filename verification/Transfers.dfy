/** What unpacked loads and packed listings of either document backend leave in the caller's memory. */
module Transfers {
  import opened Basics
  import opened Buffers
  import opened Documents
  import opened Iteration

  // ---- Unpacked loads ----

  predicate TooSmall(o: Option<bytes>, room: nat) {
    o.Some? && |o.value| > room
  }

  predicate Fits(o: Option<bytes>, room: nat) {
    o.Some? && |o.value| <= room
  }

  /**
   Where the write pointer stands before slot `i`. The log backend moves it past every slot; the array backend
   (`skip`) leaves it where it is after a slot that was too small.
   */
  function Slot(items: Docs, room: seq<nat>, i: nat, skip: bool): nat
    requires i <= |items| == |room|
  {
    if i == 0 then 0
    else Slot(items, room, i - 1, skip) + (if skip && TooSmall(items[i - 1], room[i - 1]) then 0 else room[i - 1])
  }

  function SlotSize(o: Option<bytes>, room: nat): nat {
    if o.None? then KEY_NOT_FOUND else if TooSmall(o, room) then SIZE_TOO_SMALL else |o.value|
  }

  predicate SlotsMarked(items: Docs, room: seq<nat>, sizes: seq<nat>, n: nat) {
    && n <= |items| == |room| == |sizes|
    && (forall k | 0 <= k < n :: sizes[k] == SlotSize(items[k], room[k]))
    && (forall k | n <= k < |room| :: sizes[k] == room[k])
  }

  predicate SlotPlaced(items: Docs, room: seq<nat>, skip: bool, buffer: bytes, k: int, limit: nat)
    requires 0 <= k < |items| == |room| && items[k].Some?
  {
    var at := Slot(items, room, k, skip);
    at + |items[k].value| <= limit <= |buffer| && buffer[at..at + |items[k].value|] == items[k].value
  }

  ghost predicate SlotsPlaced(items: Docs, room: seq<nat>, skip: bool, buffer: bytes, n: nat) {
    && n <= |items| == |room|
    && forall k | 0 <= k < n && Fits(items[k], room[k]) ::
         SlotPlaced(items, room, skip, buffer, k, Slot(items, room, n, skip))
  }

  /** The first `n` slots of an unpacked load are done. */
  ghost predicate Unpacked(items: Docs, room: seq<nat>, skip: bool, buffer: bytes, sizes: seq<nat>, n: nat) {
    SlotsMarked(items, room, sizes, n) && SlotsPlaced(items, room, skip, buffer, n)
  }

  lemma {:induction false} SlotWithin(items: Docs, room: seq<nat>, i: nat, skip: bool)
    requires i <= |items| == |room|
    ensures Slot(items, room, i, skip) <= Start(room, i)
    ensures !skip ==> Slot(items, room, i, skip) == Start(room, i)
  {
    if i > 0 {
      SlotWithin(items, room, i - 1, skip);
    }
  }

  /**
   The array backend's pointer is where the caller's layout has slot `i` exactly when no earlier slot with room was
   too small.
   */
  lemma {:induction false} SlotExact(items: Docs, room: seq<nat>, i: nat)
    requires i <= |items| == |room|
    ensures Slot(items, room, i, true) == Start(room, i) <==>
            forall j | 0 <= j < i && TooSmall(items[j], room[j]) :: room[j] == 0
  {
    if i > 0 {
      SlotExact(items, room, i - 1);
      SlotWithin(items, room, i - 1, true);
    }
  }

  /** Every document that fits lies in the slot that the sizes before it say. */
  predicate InOwnSlots(items: Docs, room: seq<nat>, buffer: bytes)
    requires |items| == |room|
  {
    forall i | 0 <= i < |items| && Fits(items[i], room[i]) ::
      var at, doc := Start(room, i), items[i].value;
      at + |doc| <= |buffer| && buffer[at..at + |doc|] == doc
  }

  /** Documents under the same positions, each as long as the other. */
  predicate SameShape(items: Docs, other: Docs) {
    && |items| == |other|
    && forall k | 0 <= k < |items| ::
         items[k].Some? == other[k].Some? && (items[k].Some? ==> |items[k].value| == |other[k].value|)
  }

  /** A document with bytes comes after a slot with room that was too small. */
  predicate Shifted(items: Docs, room: seq<nat>, i: nat)
    requires i < |items| == |room|
  {
    && Fits(items[i], room[i]) && items[i].value != []
    && exists j :: 0 <= j < i && TooSmall(items[j], room[j]) && room[j] > 0
  }

  lemma SlotAdvances(items: Docs, room: seq<nat>, skip: bool, i: nat)
    requires i < |items| == |room|
    ensures Slot(items, room, i, skip) <= Slot(items, room, i + 1, skip)
    ensures Fits(items[i], room[i]) ==>
              Slot(items, room, i, skip) + |items[i].value| <= Slot(items, room, i + 1, skip)
  {
  }

  lemma {:induction false} SlotMonotone(items: Docs, room: seq<nat>, skip: bool, i: nat, j: nat)
    requires i <= j <= |items| == |room|
    ensures Slot(items, room, i, skip) <= Slot(items, room, j, skip)
  {
    if i < j {
      SlotMonotone(items, room, skip, i, j - 1);
      SlotAdvances(items, room, skip, j - 1);
    }
  }

  lemma {:induction false} SlotSameShape(items: Docs, other: Docs, room: seq<nat>, skip: bool, i: nat)
    requires SameShape(items, other) && i <= |items| == |room|
    ensures Slot(items, room, i, skip) == Slot(other, room, i, skip)
  {
    if i > 0 {
      SlotSameShape(items, other, room, skip, i - 1);
    }
  }

  function Ones(n: nat): (r: bytes)
    ensures |r| == n
  {
    seq(n, _ => 1)
  }

  /** Zero bytes throughout, but one bytes for document `i`. */
  function MarkedDocs(items: Docs, i: nat): (r: Docs)
    ensures |r| == |items|
  {
    seq(|items|, k requires 0 <= k < |items| =>
      if items[k].None? then None else Some(if k == i then Ones(|items[k].value|) else Zeros(|items[k].value|)))
  }

  lemma MarkedShape(items: Docs, i: nat)
    ensures SameShape(items, MarkedDocs(items, i))
  {
  }

  /** Slots of different documents do not overlap. */
  lemma SlotsApart(items: Docs, room: seq<nat>, skip: bool, i: nat, k: nat)
    requires i < k < |items| == |room| && Fits(items[i], room[i])
    ensures Slot(items, room, i, skip) + |items[i].value| <= Slot(items, room, k, skip)
  {
    hide Slot;
    SlotAdvances(items, room, skip, i);
    SlotMonotone(items, room, skip, i + 1, k);
  }

  function MarkedBuffer(items: Docs, room: seq<nat>, i: nat, capacity: nat): bytes
    requires i < |items| == |room| && Fits(items[i], room[i])
             && Slot(items, room, i, true) + |items[i].value| <= capacity
  {
    Splice(Zeros(capacity), Slot(items, room, i, true), Ones(|items[i].value|))
  }

  lemma MarkedPlaced(items: Docs, room: seq<nat>, i: nat, capacity: nat, k: nat)
    requires i < |items| == |room| && Fits(items[i], room[i])
             && Slot(items, room, i, true) + |items[i].value| <= capacity
    requires k < |items| && Fits(items[k], room[k]) && Slot(items, room, k, true) + |items[k].value| <= capacity
    ensures var buffer, at, len := MarkedBuffer(items, room, i, capacity), Slot(items, room, k, true), |items[k].value|;
            && |buffer| == capacity
            && buffer[at..at + len] == if k == i then Ones(len) else Zeros(len)
  {
    hide Slot;
    if k < i {
      SlotsApart(items, room, true, k, i);
    } else if i < k {
      SlotsApart(items, room, true, i, k);
    }
    var buffer, at, len := MarkedBuffer(items, room, i, capacity), Slot(items, room, k, true), |items[k].value|;
    assert buffer[at..at + len] == if k == i then Ones(len) else Zeros(len);
  }

  lemma SlotEnds(items: Docs, room: seq<nat>, skip: bool, k: nat)
    requires k < |items| == |room| && Fits(items[k], room[k])
    ensures Slot(items, room, k, skip) + |items[k].value| <= Slot(items, room, |items|, skip) <= Start(room, |room|)
  {
    hide Slot;
    SlotAdvances(items, room, skip, k);
    SlotMonotone(items, room, skip, k + 1, |items|);
    SlotWithin(items, room, |items|, skip);
  }

  /** Those documents as the array backend unpacks them over zeros. */
  lemma MarkedUnpacked(items: Docs, room: seq<nat>, i: nat, capacity: nat) returns (buffer: bytes, sizes: seq<nat>)
    requires i < |items| == |room| && Fits(items[i], room[i]) && Start(room, |room|) <= capacity
    ensures Slot(items, room, i, true) + |items[i].value| <= capacity
    ensures buffer == MarkedBuffer(items, room, i, capacity) && |buffer| == capacity
    ensures Unpacked(MarkedDocs(items, i), room, true, buffer, sizes, |items|)
  {
    hide Slot, Start, MarkedBuffer, SlotSize;
    var other := MarkedDocs(items, i);
    MarkedShape(items, i);
    SlotEnds(items, room, true, i);
    MarkedPlaced(items, room, i, capacity, i);
    buffer := MarkedBuffer(items, room, i, capacity);
    sizes := seq(|items|, k requires 0 <= k < |items| => SlotSize(other[k], room[k]));
    SlotSameShape(items, other, room, true, |items|);
    SlotEnds(items, room, true, i);
    forall k | 0 <= k < |items| && Fits(other[k], room[k])
      ensures SlotPlaced(other, room, true, buffer, k, Slot(other, room, |items|, true))
    {
      SlotSameShape(items, other, room, true, k);
      SlotEnds(items, room, true, k);
      MarkedPlaced(items, room, i, capacity, k);
    }
  }

  /** What the caller finds is right for every content of documents of these lengths. */
  ghost predicate AlwaysInOwnSlots(items: Docs, room: seq<nat>, capacity: nat)
    requires |items| == |room|
  {
    forall other: Docs, buffer: bytes, sizes: seq<nat> |
      SameShape(items, other) && |buffer| == capacity && Unpacked(other, room, true, buffer, sizes, |other|) ::
      InOwnSlots(other, room, buffer)
  }

  lemma ShiftedEarlier(items: Docs, room: seq<nat>, i: nat, capacity: nat)
    requires i < |items| == |room| && Start(room, |room|) <= capacity && Shifted(items, room, i)
    ensures Slot(items, room, i, true) < Start(room, i) && Start(room, i) + |items[i].value| <= capacity
  {
    SlotExact(items, room, i);
    SlotWithin(items, room, i, true);
    StartMonotone(room, i + 1, |room|);
    hide Slot;
  }

  lemma NotAllOnes(capacity: nat, at: nat, len: nat, start: nat)
    requires 0 < len && at < start && start + len <= capacity
    ensures Splice(Zeros(capacity), at, Ones(len))[start..start + len] != Ones(len)
  {
    assert Splice(Zeros(capacity), at, Ones(len))[start..start + len][len - 1] == 0;
    assert Ones(len)[len - 1] == 1;
  }

  lemma ShiftedNotFound(items: Docs, room: seq<nat>, i: nat, capacity: nat)
    requires i < |items| == |room| && Start(room, |room|) <= capacity && Shifted(items, room, i)
    ensures !AlwaysInOwnSlots(items, room, capacity)
  {
    hide Slot, Start, Splice, Unpacked, Ones;
    ShiftedEarlier(items, room, i, capacity);
    var buffer, sizes := MarkedUnpacked(items, room, i, capacity);
    var other := MarkedDocs(items, i);
    MarkedShape(items, i);
    NotAllOnes(capacity, Slot(items, room, i, true), |items[i].value|, Start(room, i));
    assert Fits(other[i], room[i]) && other[i].value == Ones(|items[i].value|);
    assert !InOwnSlots(other, room, buffer);
  }

  lemma UnshiftedFound(items: Docs, room: seq<nat>, other: Docs, buffer: bytes, sizes: seq<nat>, i: nat)
    requires SameShape(items, other) && Unpacked(other, room, true, buffer, sizes, |other|)
    requires i < |items| == |room| && Fits(other[i], room[i]) && !Shifted(items, room, i)
    requires Start(room, |room|) <= |buffer|
    ensures var at, doc := Start(room, i), other[i].value;
            at + |doc| <= |buffer| && buffer[at..at + |doc|] == doc
  {
    StartMonotone(room, i + 1, |room|);
    SlotExact(other, room, i);
    if other[i].value != [] {
      assert forall j | 0 <= j < i && TooSmall(other[j], room[j]) :: TooSmall(items[j], room[j]);
      assert SlotPlaced(other, room, true, buffer, i, Slot(other, room, |other|, true));
    }
  }

  /**
   For documents of given lengths, the array backend returns the bytes of each one that fits in its own slot, whatever
   they are, if and only if none with bytes comes after a slot with room that was too small.
   */
  lemma ArrayLoadExact(items: Docs, room: seq<nat>, capacity: nat)
    requires |items| == |room| && Start(room, |room|) <= capacity
    ensures AlwaysInOwnSlots(items, room, capacity) <==> forall i | 0 <= i < |items| :: !Shifted(items, room, i)
  {
    hide Unpacked, Shifted, Start;
    if i :| 0 <= i < |items| && Shifted(items, room, i) {
      ShiftedNotFound(items, room, i, capacity);
    } else {
      forall other: Docs, buffer: bytes, sizes: seq<nat> |
        SameShape(items, other) && |buffer| == capacity && Unpacked(other, room, true, buffer, sizes, |other|)
        ensures InOwnSlots(other, room, buffer)
      {
        forall i | 0 <= i < |other| && Fits(other[i], room[i])
          ensures var at, doc := Start(room, i), other[i].value;
                  at + |doc| <= |buffer| && buffer[at..at + |doc|] == doc
        {
          UnshiftedFound(items, room, other, buffer, sizes, i);
        }
      }
    }
  }

  /** An example: after a document too large for its slot of one byte, the next one is found one slot too early. */
  lemma ShiftedExample(buffer: bytes, sizes: seq<nat>)
    requires Unpacked([Some([7, 8]), Some([9])], [1, 1], true, buffer, sizes, 2) && |buffer| == 2
    ensures buffer[0] == 9 && sizes == [SIZE_TOO_SMALL, 1] && Start([1, 1], 1) == 1
    ensures Unpacked([Some([7, 8]), Some([9])], [1, 1], true, [9, 0], [SIZE_TOO_SMALL, 1], 2)
  {
    var items: Docs, room: seq<nat> := [Some([7, 8]), Some([9])], [1, 1];
    assert Slot(items, room, 0, true) == 0 && Slot(items, room, 1, true) == 0 && Slot(items, room, 2, true) == 1;
    assert Fits(items[1], room[1]) && !Fits(items[0], room[0]);
    assert SlotPlaced(items, room, true, buffer, 1, 1);
    assert buffer[0..1] == [9];
    assert [9, 0][0..1] == [9];
  }

  /** The log backend always returns every document in its own slot. */
  lemma LogLoadExact(items: Docs, room: seq<nat>, buffer: bytes, sizes: seq<nat>, i: nat)
    requires Unpacked(items, room, false, buffer, sizes, |items|) && i < |items| && Fits(items[i], room[i])
    ensures Start(room, i) + |items[i].value| <= |buffer|
    ensures buffer[Start(room, i)..Start(room, i) + |items[i].value|] == items[i].value && sizes[i] == |items[i].value|
  {
    SlotWithin(items, room, i, false);
  }

  lemma UnpackedStart(items: Docs, room: seq<nat>, skip: bool, buffer: bytes)
    requires |items| == |room|
    ensures Unpacked(items, room, skip, buffer, room, 0) && Slot(items, room, 0, skip) == 0
  {
  }

  lemma UnpackedMark(items: Docs, room: seq<nat>, skip: bool, buffer: bytes, sizes: seq<nat>, i: nat)
    requires Unpacked(items, room, skip, buffer, sizes, i) && i < |items| && IsBatch(buffer, room)
    requires !Fits(items[i], room[i])
    ensures Unpacked(items, room, skip, buffer, sizes[i := SlotSize(items[i], room[i])], i + 1)
  {
    SlotWithin(items, room, i + 1, skip);
    StartMonotone(room, i + 1, |room|);
  }

  lemma SlotCases(o: Option<bytes>, room: nat)
    ensures Fits(o, room) <==> o.Some? && |o.value| <= room
    ensures TooSmall(o, room) <==> o.Some? && |o.value| > room
    ensures SlotSize(o, room) == if o.None? then KEY_NOT_FOUND else if |o.value| > room then SIZE_TOO_SMALL
            else |o.value|
  {
  }

  lemma BatchLength(buffer: bytes, buffer': bytes, room: seq<nat>)
    requires IsBatch(buffer, room) && |buffer'| == |buffer|
    ensures IsBatch(buffer', room)
  {
  }

  lemma SlotRoom(items: Docs, room: seq<nat>, skip: bool, buffer: bytes, i: nat)
    requires i < |items| == |room| && IsBatch(buffer, room)
    ensures Slot(items, room, i, skip) + room[i] <= |buffer|
    ensures Slot(items, room, i + 1, skip) ==
            Slot(items, room, i, skip) + if skip && TooSmall(items[i], room[i]) then 0 else room[i]
  {
    SlotWithin(items, room, i, skip);
    StartMonotone(room, i + 1, |room|);
  }

  lemma MarkedNext(items: Docs, room: seq<nat>, sizes: seq<nat>, i: nat, size: nat)
    requires SlotsMarked(items, room, sizes, i) && i < |items| && size == SlotSize(items[i], room[i])
    ensures SlotsMarked(items, room, sizes[i := size], i + 1)
  {
  }

  /** Copying a document into its slot disturbs none before it. */
  lemma PlacedNext(items: Docs, room: seq<nat>, skip: bool, buffer: bytes, i: nat)
    requires SlotsPlaced(items, room, skip, buffer, i) && i < |items| && Fits(items[i], room[i])
    requires Slot(items, room, i, skip) + room[i] <= |buffer|
    requires Slot(items, room, i + 1, skip) == Slot(items, room, i, skip) + room[i]
    ensures SlotsPlaced(items, room, skip, Splice(buffer, Slot(items, room, i, skip), items[i].value), i + 1)
  {
    hide Slot;
    var at, doc := Slot(items, room, i, skip), items[i].value;
    var after := Splice(buffer, at, doc);
    forall k | 0 <= k < i + 1 && Fits(items[k], room[k])
      ensures SlotPlaced(items, room, skip, after, k, Slot(items, room, i + 1, skip))
    {
      if k < i {
        assert SlotPlaced(items, room, skip, buffer, k, at);
        var from := Slot(items, room, k, skip);
        SpliceMiss(buffer, at, doc, from, from + |items[k].value|);
      } else {
        assert after[at..at + |doc|] == doc;
      }
    }
  }

  lemma UnpackedCopy(items: Docs, room: seq<nat>, skip: bool, buffer: bytes, sizes: seq<nat>, i: nat)
    requires Unpacked(items, room, skip, buffer, sizes, i) && i < |items| && IsBatch(buffer, room)
    requires Fits(items[i], room[i])
    ensures Slot(items, room, i, skip) + room[i] <= |buffer|
    ensures var doc := items[i].value;
            Unpacked(items, room, skip, Splice(buffer, Slot(items, room, i, skip), doc), sizes[i := |doc|], i + 1)
  {
    hide Slot, Splice, SlotsPlaced;
    SlotRoom(items, room, skip, buffer, i);
    SlotCases(items[i], room[i]);
    MarkedNext(items, room, sizes, i, |items[i].value|);
    PlacedNext(items, room, skip, buffer, i);
  }

  // ---- Packed listings ----

  function CallDocs(calls: seq<Call>): (r: Docs)
    ensures |r| == |calls|
  {
    seq(|calls|, i requires 0 <= i < |calls| => Some(calls[i].1))
  }

  function TotalSize(calls: seq<Call>): nat {
    if calls == [] then 0 else TotalSize(calls[..|calls| - 1]) + |calls[|calls| - 1].1|
  }

  /** The callback of a packed listing: stop when the next document no longer fits. */
  function PackCallback(capacity: nat): Callback {
    calls => if TotalSize(calls) > capacity then StopIteration else OK
  }

  lemma {:induction false} TotalIsPacked(calls: seq<Call>, n: nat)
    requires n <= |calls|
    ensures TotalSize(calls[..n]) == PackedSize(CallDocs(calls), n)
  {
    if n > 0 {
      assert calls[..n][..n - 1] == calls[..n - 1];
      TotalIsPacked(calls, n - 1);
    }
  }

  /** The first document that no longer fits after its predecessors, from position `i` on. */
  function CutFrom(items: Docs, capacity: nat, i: nat): (cut: nat)
    requires i <= |items| && forall k | 0 <= k < |items| :: items[k].Some?
    requires PackedSize(items, i) <= capacity
    ensures i <= cut && IsCut(items, capacity, cut)
    decreases |items| - i
  {
    if i == |items| || PackedSize(items, i + 1) > capacity then i else CutFrom(items, capacity, i + 1)
  }

  lemma {:induction false} DeliverPacked(list: seq<Call>, limit: nat, capacity: nat, i: nat)
    requires i <= |list| && i <= limit && PackedSize(CallDocs(list), i) <= capacity
    ensures var take := list[..Min(limit, |list|)];
            && i <= |take| && PackedSize(CallDocs(take), i) <= capacity
            && var cut := CutFrom(CallDocs(take), capacity, i);
               Deliver(list, limit, PackCallback(capacity), i) ==
               (if cut < |take| then (list[..cut + 1], StopIteration) else (take, OK))
    decreases |list| - i
  {
    hide CallDocs, PackedSize, TotalSize;
    var take := list[..Min(limit, |list|)];
    TotalIsPacked(list, i);
    TotalIsPacked(take, i);
    assert take[..i] == list[..i];
    if i < |list| && i < limit {
      TotalIsPacked(list, i + 1);
      TotalIsPacked(take, i + 1);
      assert take[..i + 1] == list[..i + 1];
      if PackedSize(CallDocs(list), i + 1) <= capacity {
        DeliverPacked(list, limit, capacity, i + 1);
      }
    }
  }

  /** The documents that a listing with `slots` slots is about. */
  function Listing(d: Docs, f: Filter, from: nat, slots: nat): (take: seq<Call>)
    ensures |take| <= slots
  {
    var all := Matching(d, f, from, StopPoint(d, f, from));
    all[..Min(slots, |all|)]
  }

  /** The calls of the iteration behind a listing: one for each document before the cut, and one for the cut. */
  lemma ListingCalls(d: Docs, f: Filter, from: nat, slots: nat, capacity: nat) returns (cut: nat)
    ensures var take := Listing(d, f, from, slots);
            && cut <= |take| <= slots && IsCut(CallDocs(take), capacity, cut)
            && Iterate(d, f, from, slots, PackCallback(capacity)) ==
               (if cut < |take| then (take[..cut + 1], StopIteration) else (take, OK))
  {
    var all := Matching(d, f, from, StopPoint(d, f, from));
    DeliverPacked(all, slots, capacity, 0);
    var take := Listing(d, f, from, slots);
    cut := CutFrom(CallDocs(take), capacity, 0);
    assert cut < |take| ==> all[..cut + 1] == take[..cut + 1];
  }

  /** What a packed listing of `take` leaves: the documents before the cut with their ids, and marks behind them. */
  ghost predicate ListedPacked(take: seq<Call>, ids: seq<nat>, buffer: bytes, sizes: seq<nat>, cut: nat) {
    && |take| <= |ids| == |sizes|
    && IsCut(CallDocs(take), |buffer|, cut)
    && PackedBytes(CallDocs(take), cut) <= buffer
    && (forall k | 0 <= k < cut :: ids[k] == take[k].0 && sizes[k] == |take[k].1|)
    && (forall k | cut <= k < |ids| :: ids[k] == NO_MORE && sizes[k] == NO_MORE)
  }

  /** The first `i` documents are copied. */
  ghost predicate Copied(take: seq<Call>, ids: seq<nat>, buffer: bytes, sizes: seq<nat>, i: nat, offset: nat) {
    && i <= |take| <= |ids| == |sizes|
    && offset == PackedSize(CallDocs(take), i) <= |buffer|
    && PackedBytes(CallDocs(take), i) == buffer[..offset]
    && forall k | 0 <= k < i :: ids[k] == take[k].0 && sizes[k] == |take[k].1|
  }

  lemma CopiedStart(take: seq<Call>, ids: seq<nat>, buffer: bytes, sizes: seq<nat>)
    requires |take| <= |ids| == |sizes|
    ensures Copied(take, ids, buffer, sizes, 0, 0)
  {
  }

  lemma CopiedNext(take: seq<Call>, ids: seq<nat>, buffer: bytes, sizes: seq<nat>, i: nat, offset: nat)
    requires Copied(take, ids, buffer, sizes, i, offset) && i < |take| && offset + |take[i].1| <= |buffer|
    ensures Copied(take, ids[i := take[i].0], Splice(buffer, offset, take[i].1), sizes[i := |take[i].1|], i + 1,
                   offset + |take[i].1|)
  {
    var doc := take[i].1;
    assert Splice(buffer, offset, doc)[..offset + |doc|] == buffer[..offset] + doc;
  }

  lemma CopiedEnd(take: seq<Call>, ids: seq<nat>, buffer: bytes, sizes: seq<nat>, i: nat, offset: nat)
    requires Copied(take, ids, buffer, sizes, i, offset) && IsCut(CallDocs(take), |buffer|, i)
    requires forall k | i <= k < |ids| :: ids[k] == NO_MORE && sizes[k] == NO_MORE
    ensures ListedPacked(take, ids, buffer, sizes, i)
  {
    assert PackedBytes(CallDocs(take), i) <= buffer;
  }

  lemma CutNext(take: seq<Call>, capacity: nat, cut: nat, i: nat)
    requires IsCut(CallDocs(take), capacity, cut) && i < cut
    ensures PackedSize(CallDocs(take), i) + |take[i].1| <= capacity
  {
    hide PackedSize, CallDocs;
    PackedSizeMonotone(CallDocs(take), i + 1, cut);
    PackedSizeNext(take, i);
  }

  lemma PackedSizeNext(take: seq<Call>, i: nat)
    requires i < |take|
    ensures PackedSize(CallDocs(take), i + 1) == PackedSize(CallDocs(take), i) + |take[i].1|
  {
  }

  /** The copies that the callback makes, one for each call but the one that it stops at, and the marks after them. */
  method CopyListing(calls: seq<Call>, stopped: bool, ids: array<nat>, documents: array<byte>, docSizes: array<nat>,
                     ghost take: seq<Call>, ghost cut: nat)
    requires ids.Length == docSizes.Length && ids != docSizes && documents as object !in {ids as object, docSizes}
    requires |take| <= ids.Length && IsCut(CallDocs(take), documents.Length, cut)
    requires if stopped then cut < |take| && calls == take[..cut + 1] else cut == |take| && calls == take
    modifies ids, documents, docSizes
    ensures ListedPacked(take, ids[..], documents[..], docSizes[..], cut)
  {
    hide *;
    var n: nat := if stopped then |calls| - 1 else |calls|;
    var offset: nat, i: nat := 0, 0;
    CopiedStart(take, ids[..], documents[..], docSizes[..]);
    while i < n
      invariant i <= n == cut && Copied(take, ids[..], documents[..], docSizes[..], i, offset)
    {
      CopiedRoom(take, ids[..], documents[..], docSizes[..], i, offset);
      CutNext(take, documents.Length, cut, i);
      ghost var idsBefore: seq<nat>, buffer: bytes, sizesBefore: seq<nat> := ids[..], documents[..], docSizes[..];
      CopiedNext(take, idsBefore, buffer, sizesBefore, i, offset);
      var (id, doc) := calls[i];
      CopyInto(documents, offset, doc);
      ids[i] := id;
      docSizes[i] := |doc|;
      assert ids[..] == idsBefore[i := id] && docSizes[..] == sizesBefore[i := |doc|];
      offset := offset + |doc|;
      i := i + 1;
    }
    ghost var idsBefore, sizesBefore := ids[..], docSizes[..];
    FillFrom(ids, i, NO_MORE);
    FillFrom(docSizes, i, NO_MORE);
    CopiedSame(take, idsBefore, documents[..], sizesBefore, ids[..], docSizes[..], i, offset);
    CopiedEnd(take, ids[..], documents[..], docSizes[..], i, offset);
  }

  lemma CopiedRoom(take: seq<Call>, ids: seq<nat>, buffer: bytes, sizes: seq<nat>, i: nat, offset: nat)
    requires Copied(take, ids, buffer, sizes, i, offset)
    ensures offset == PackedSize(CallDocs(take), i) <= |buffer| && i <= |take| <= |ids|
  {
  }

  lemma CopiedSame(take: seq<Call>, ids: seq<nat>, buffer: bytes, sizes: seq<nat>, ids': seq<nat>, sizes': seq<nat>,
                   i: nat, offset: nat)
    requires Copied(take, ids, buffer, sizes, i, offset) && |ids'| == |ids| && |sizes'| == |sizes|
    requires forall k | 0 <= k < i :: ids'[k] == ids[k] && sizes'[k] == sizes[k]
    ensures Copied(take, ids', buffer, sizes', i, offset)
  {
  }
}
