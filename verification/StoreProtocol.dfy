/** The mixin as a concurrent protocol. */
module StoreProtocol {
  // The document mixin as a concurrent protocol over one collection. A store reserves ids under the mixin lock,
  // writes its documents without it, and commits under it again; an erase, or an update that allows new ids, holds the
  // lock throughout but asks which documents exist in one call to the key-value store and erases or puts in another.
  // Each step below is one critical section or one call to the key-value store. Next ids are machine words and wrap.

  import opened Basics
  import Documents

  datatype Metadata = Metadata(size: int, nextId: u64)

  datatype Phase = Reserved | Written | Committed | Failed

  /** One call to docStore: the ids it was given start at `first`. */
  datatype StoreCall = StoreCall(first: u64, docs: seq<bytes>, phase: Phase)

  /** A docErase or docUpdate that holds the lock: its ids, and how many it counted as existing. */
  datatype Holder =
    | Erasing(ids: seq<nat>, counted: nat)
    | Updating(ids: seq<nat>, counted: nat, docs: seq<bytes>)

  datatype State = State(
    stored: Metadata,
    cached: Metadata,
    docs: map<nat, bytes>,
    stores: seq<StoreCall>,
    holder: Option<Holder>,
    flushed: nat)  // how many stores had started when metadata was last written to the key-value store

  datatype Action =
    | Reserve(docs: seq<bytes>)
    | Write(k: nat)
    | WriteFails(k: nat)
    | Commit(k: nat)
    | EraseBegin(ids: seq<nat>)
    | EraseEnd
    | UpdateExisting(ids: seq<nat>, docs: seq<bytes>)
    | UpdateBegin(ids: seq<nat>, docs: seq<bytes>)
    | UpdateEnd
    | UpdateFails

  // ---- Steps ----

  function Init(): State {
    State(Metadata(0, 0), Metadata(0, 0), map[], [], None, 0)
  }

  /** The ids [first, first + n). */
  function IdSet(first: nat, n: nat): (r: set<nat>)
    ensures forall id :: id in r <==> first <= id < first + n
    ensures |r| == n
  {
    if n == 0 then {} else IdSet(first, n - 1) + {first + n - 1}
  }

  /** `i` words after `first`. */
  function Advance(first: u64, i: nat): (r: nat)
    ensures r < TWO_TO_THE_64
  {
    Wrap(first + i)
  }

  /** The `n` ids from `first` on, in machine words. */
  function Given(first: u64, n: nat): (r: seq<nat>)
    ensures |r| == n
  {
    seq(n, (i: nat) => Advance(first, i))
  }

  /** How far an id comes after `first` when counting in machine words. */
  function Offset(first: u64, id: u64): nat {
    if first <= id then id - first else id + TWO_TO_THE_64 - first
  }

  /** Later entries of a batch win. */
  function PutBatch(m: map<nat, bytes>, ids: seq<nat>, docs: seq<bytes>): map<nat, bytes>
    requires |ids| == |docs|
  {
    if ids == [] then m else PutBatch(m, ids[..|ids| - 1], docs[..|ids| - 1])[ids[|ids| - 1] := docs[|ids| - 1]]
  }

  /** How many entries of `ids` name an existing document: what the existence bit field counts. */
  function CountIn(ids: seq<nat>, m: map<nat, bytes>): nat {
    if ids == [] then 0 else CountIn(ids[..|ids| - 1], m) + (if ids[|ids| - 1] in m then 1 else 0)
  }

  /** One past the largest id of a batch. */
  function Above(ids: seq<nat>): nat {
    if ids == [] then 1 else Documents.MaxId(ids, 0)
  }

  function Elements(ids: seq<nat>): set<nat> {
    set id | id in ids
  }

  predicate InPhase(s: State, k: nat, p: Phase) {
    k < |s.stores| && s.stores[k].phase == p
  }

  function SetPhase(s: State, k: nat, p: Phase): seq<StoreCall>
    requires k < |s.stores|
  {
    s.stores[k := s.stores[k].(phase := p)]
  }

  /** The lock is free, or the step does not need it. */
  predicate Enabled(s: State, a: Action) {
    match a
    case Reserve(_) => s.holder.None?
    case Write(k) => InPhase(s, k, Reserved)
    case WriteFails(k) => InPhase(s, k, Reserved)
    case Commit(k) => InPhase(s, k, Written) && s.holder.None?
    case EraseBegin(_) => s.holder.None?
    case EraseEnd => s.holder.Some? && s.holder.value.Erasing?
    case UpdateExisting(ids, docs) =>
      |ids| == |docs| && s.holder.None? && forall i | 0 <= i < |ids| :: ids[i] < s.cached.nextId
    case UpdateBegin(ids, docs) => |ids| == |docs| && s.holder.None?
    case UpdateEnd => s.holder.Some? && s.holder.value.Updating? && |s.holder.value.ids| == |s.holder.value.docs|
    case UpdateFails => s.holder.Some? && s.holder.value.Updating?
  }

  /** Metadata written to the cache and to the key-value store. */
  function Flush(s: State, m: Metadata): State {
    s.(cached := m, stored := m, flushed := |s.stores|)
  }

  function Apply(s: State, a: Action): State
    requires Enabled(s, a)
  {
    match a
    case Reserve(docs) =>
      s.(cached := s.cached.(nextId := Wrap(s.cached.nextId + |docs|)),
         stores := s.stores + [StoreCall(s.cached.nextId, docs, Reserved)])
    case Write(k) =>
      var c := s.stores[k];
      s.(docs := PutBatch(s.docs, Given(c.first, |c.docs|), c.docs), stores := SetPhase(s, k, Written))
    case WriteFails(k) =>
      s.(stores := SetPhase(s, k, Failed))
    case Commit(k) =>
      Flush(s.(stores := SetPhase(s, k, Committed)), s.cached.(size := s.cached.size + |s.stores[k].docs|))
    case EraseBegin(ids) =>
      s.(holder := Some(Erasing(ids, CountIn(ids, s.docs))))
    case EraseEnd =>
      var e := s.holder.value;
      Flush(s.(docs := s.docs - Elements(e.ids), holder := None), s.cached.(size := s.cached.size - e.counted))
    case UpdateExisting(ids, docs) =>
      s.(docs := PutBatch(s.docs, ids, docs))
    case UpdateBegin(ids, docs) =>
      s.(holder := Some(Updating(ids, CountIn(ids, s.docs), docs)))
    case UpdateEnd =>
      var u := s.holder.value;
      Flush(s.(docs := PutBatch(s.docs, u.ids, u.docs), holder := None),
            Metadata(s.cached.size + (|u.ids| - u.counted), Wrap(Above(u.ids))))
    case UpdateFails =>
      s.(holder := None)
  }

  // ---- What callers owe ----

  /** The ids handed to one store call. */
  predicate HandedTo(s: State, k: nat, id: nat) {
    k < |s.stores| && id < TWO_TO_THE_64 && Offset(s.stores[k].first, id) < |s.stores[k].docs|
  }

  lemma AdvanceOffset(first: u64, id: u64)
    ensures Advance(first, Offset(first, id)) == id
  {
    WrapPeriod(id);
  }

  lemma OffsetLeast(first: u64, i: nat)
    ensures Offset(first, Advance(first, i)) <= i
  {
    if first + i >= TWO_TO_THE_64 {
      assert Wrap(first + i) == Wrap(first + i - TWO_TO_THE_64);
    }
  }

  /** Those are the ids that the store gets. */
  lemma GivenIds(first: u64, n: nat, id: nat)
    ensures id in Given(first, n) <==> id < TWO_TO_THE_64 && Offset(first, id) < n
  {
    if id < TWO_TO_THE_64 && Offset(first, id) < n {
      AdvanceOffset(first, id);
      assert Given(first, n)[Offset(first, id)] == id;
    }
    if i :| 0 <= i < n && Given(first, n)[i] == id {
      OffsetLeast(first, i);
    }
  }

  /** No store has reserved this id and still has to write it. */
  predicate NotPending(s: State, id: nat) {
    forall k | 0 <= k < |s.stores| && s.stores[k].phase == Reserved :: !HandedTo(s, k, id)
  }

  predicate NonePending(s: State, ids: seq<nat>) {
    forall i | 0 <= i < |ids| :: NotPending(s, ids[i])
  }

  /** The condition of each step for the bookkeeping to stay right; the code checks none of it. */
  predicate Disciplined(s: State, a: Action) {
    match a
    case Reserve(docs) => s.cached.nextId + |docs| < TWO_TO_THE_64
    case EraseBegin(ids) => Distinct(ids) && NonePending(s, ids)
    case UpdateExisting(ids, _) => forall i | 0 <= i < |ids| :: ids[i] in s.docs
    case UpdateBegin(ids, _) =>
      Distinct(ids) && NonePending(s, ids) && s.cached.nextId <= Above(ids) < TWO_TO_THE_64
    case _ => true
  }

  // ---- Invariant ----

  /** Documents written by stores that have not committed yet. */
  function Pending(stores: seq<StoreCall>): nat {
    if stores == [] then 0
    else
      var last := stores[|stores| - 1];
      Pending(stores[..|stores| - 1]) + (if last.phase == Written then |last.docs| else 0)
  }

  /** Cached size plus uncommitted documents is the number of documents. */
  predicate Accounted(s: State) {
    |s.docs| == s.cached.size + Pending(s.stores)
  }

  /** Reserved ranges are in order, without overlap, below the next id. */
  predicate RangesApart(s: State) {
    && (forall i, j | 0 <= i < j < |s.stores| :: s.stores[i].first + |s.stores[i].docs| <= s.stores[j].first)
    && (forall k | 0 <= k < |s.stores| :: s.stores[k].first + |s.stores[k].docs| <= s.cached.nextId)
  }

  predicate DocsBelow(s: State) {
    forall id | id in s.docs :: id < s.cached.nextId && NotPending(s, id)
  }

  /** Who holds the lock counted right: each id once, none about to be written. */
  predicate HolderSound(s: State) {
    s.holder.Some? ==>
      var e := s.holder.value;
      && Distinct(e.ids) && NonePending(s, e.ids) && e.counted == CountIn(e.ids, s.docs)
      && (e.Updating? ==> |e.ids| == |e.docs| && s.cached.nextId <= Above(e.ids) < TWO_TO_THE_64)
  }

  /** How many ids the stores from the `start`-th on reserved. */
  function ReservedFrom(stores: seq<StoreCall>, start: nat): nat {
    if |stores| <= start then 0
    else ReservedFrom(stores[..|stores| - 1], start) + |stores[|stores| - 1].docs|
  }

  /** What the key-value store has differs from the cache by the ids reserved since it was last written. */
  predicate MetadataSound(s: State) {
    && s.stored.size == s.cached.size
    && s.cached.nextId == s.stored.nextId + ReservedFrom(s.stores, s.flushed)
    && s.flushed <= |s.stores|
    && (forall k | s.flushed <= k < |s.stores| :: s.stores[k].phase != Committed)
  }

  predicate Inv(s: State) {
    Accounted(s) && RangesApart(s) && DocsBelow(s) && HolderSound(s) && MetadataSound(s)
  }

  // ---- Counting lemmas ----

  lemma {:induction false} PendingUpdate(stores: seq<StoreCall>, k: nat, p: Phase)
    requires k < |stores|
    ensures Pending(stores[k := stores[k].(phase := p)]) ==
            Pending(stores) - (if stores[k].phase == Written then |stores[k].docs| else 0)
            + (if p == Written then |stores[k].docs| else 0)
  {
    var stores' := stores[k := stores[k].(phase := p)];
    var n := |stores| - 1;
    if k < n {
      assert stores'[..n] == stores[..n][k := stores[..n][k].(phase := p)];
      PendingUpdate(stores[..n], k, p);
    } else {
      assert stores'[..n] == stores[..n];
    }
  }

  /** Before the last word the ids of a store are a range. */
  lemma GivenSet(first: u64, n: nat)
    requires first + n <= TWO_TO_THE_64
    ensures Given(first, n) == Range(first, n)
    ensures Elements(Given(first, n)) == IdSet(first, n) && |Elements(Given(first, n))| == n
  {
    assert Given(first, n) == Range(first, n);
    hide Given, IdSet;
    forall id | id in IdSet(first, n) ensures id in Range(first, n) {
      assert Range(first, n)[id - first] == id;
    }
    assert Elements(Range(first, n)) == IdSet(first, n);
  }

  lemma GivenOne(first: u64)
    ensures Given(first, 1) == [first]
  {
  }

  /** No existing id is named twice. */
  predicate LiveDistinct(ids: seq<nat>, m: map<nat, bytes>) {
    forall i, j | 0 <= i < j < |ids| && ids[i] in m :: ids[i] != ids[j]
  }

  lemma ElementsSnoc(ids: seq<nat>)
    requires ids != []
    ensures Elements(ids) == Elements(ids[..|ids| - 1]) + {ids[|ids| - 1]}
  {
    assert forall id :: id in ids <==> id in ids[..|ids| - 1] || id == ids[|ids| - 1];
  }

  lemma LiveDistinctSnoc(ids: seq<nat>, m: map<nat, bytes>)
    requires ids != []
    ensures var front, last := ids[..|ids| - 1], ids[|ids| - 1];
            LiveDistinct(ids, m) <==> LiveDistinct(front, m) && !(last in m && last in front)
  {
    var front, last := ids[..|ids| - 1], ids[|ids| - 1];
    if last in front {
      var i :| 0 <= i < |front| && front[i] == last;
      assert ids[i] == ids[|ids| - 1];
    }
  }

  /** Counting entries counts documents exactly when no existing id is named twice. */
  lemma {:induction false} CountSubset(ids: seq<nat>, m: map<nat, bytes>)
    ensures CountIn(ids, m) >= |Elements(ids) * m.Keys|
    ensures CountIn(ids, m) == |Elements(ids) * m.Keys| <==> LiveDistinct(ids, m)
  {
    if ids != [] {
      hide LiveDistinct;
      var front, last := ids[..|ids| - 1], ids[|ids| - 1];
      CountSubset(front, m);
      ElementsSnoc(ids);
      LiveDistinctSnoc(ids, m);
      if last in m && last !in front {
        assert Elements(ids) * m.Keys == Elements(front) * m.Keys + {last};
      } else {
        assert Elements(ids) * m.Keys == Elements(front) * m.Keys;
      }
    } else {
      assert LiveDistinct(ids, m);
    }
  }

  lemma EraseSize(m: map<nat, bytes>, ids: seq<nat>)
    ensures |m - Elements(ids)| == |m| - |Elements(ids) * m.Keys|
  {
    var s := Elements(ids);
    assert (m - s).Keys == m.Keys - s;
    assert m.Keys == (m.Keys - s) + (s * m.Keys);
    assert |m.Keys| == |m.Keys - s| + |s * m.Keys|;
  }

  lemma {:induction false} PutBatchKeys(m: map<nat, bytes>, ids: seq<nat>, docs: seq<bytes>)
    requires |ids| == |docs|
    ensures PutBatch(m, ids, docs).Keys == m.Keys + Elements(ids)
  {
    if ids != [] {
      var front, last := ids[..|ids| - 1], ids[|ids| - 1];
      PutBatchKeys(m, front, docs[..|ids| - 1]);
      assert forall id :: id in ids <==> id in front || id == last;
    }
  }

  lemma PutBatchSize(m: map<nat, bytes>, ids: seq<nat>, docs: seq<bytes>)
    requires |ids| == |docs|
    ensures |PutBatch(m, ids, docs)| == |m| + |Elements(ids) - m.Keys|
  {
    PutBatchKeys(m, ids, docs);
    assert m.Keys + Elements(ids) == m.Keys + (Elements(ids) - m.Keys);
    assert |m.Keys + (Elements(ids) - m.Keys)| == |m.Keys| + |Elements(ids) - m.Keys|;
    assert |PutBatch(m, ids, docs).Keys| == |PutBatch(m, ids, docs)|;
  }

  /** How many entries of a batch the existence bit field reports missing: right when no new id is named twice. */
  predicate NewDistinct(ids: seq<nat>, m: map<nat, bytes>) {
    forall i, j | 0 <= i < j < |ids| && ids[i] !in m :: ids[i] != ids[j]
  }

  lemma NewDistinctSnoc(ids: seq<nat>, m: map<nat, bytes>)
    requires ids != []
    ensures var front, last := ids[..|ids| - 1], ids[|ids| - 1];
            NewDistinct(ids, m) <==> NewDistinct(front, m) && !(last !in m && last in front)
  {
    var front, last := ids[..|ids| - 1], ids[|ids| - 1];
    if last in front {
      var i :| 0 <= i < |front| && front[i] == last;
      assert ids[i] == ids[|ids| - 1];
    }
  }

  lemma MissingSnoc(ids: seq<nat>, keys: set<nat>)
    requires ids != []
    ensures var front, last := ids[..|ids| - 1], ids[|ids| - 1];
            |Elements(ids) - keys| == |Elements(front) - keys| + if last in keys || last in front then 0 else 1
  {
    var front, last := ids[..|ids| - 1], ids[|ids| - 1];
    ElementsSnoc(ids);
    if last in keys || last in front {
      assert Elements(ids) - keys == Elements(front) - keys;
    } else {
      assert Elements(ids) - keys == Elements(front) - keys + {last};
    }
  }

  lemma {:induction false} CountMissing(ids: seq<nat>, m: map<nat, bytes>)
    ensures CountIn(ids, m) <= |ids|
    ensures |ids| - CountIn(ids, m) >= |Elements(ids) - m.Keys|
    ensures |ids| - CountIn(ids, m) == |Elements(ids) - m.Keys| <==> NewDistinct(ids, m)
  {
    if ids != [] {
      hide NewDistinct, Elements;
      var front, last := ids[..|ids| - 1], ids[|ids| - 1];
      CountMissing(front, m);
      MissingSnoc(ids, m.Keys);
      NewDistinctSnoc(ids, m);
    } else {
      assert NewDistinct(ids, m);
    }
  }

  // ---- Every step keeps the invariant ----

  lemma {:induction false} ReservedFromUpdate(stores: seq<StoreCall>, k: nat, p: Phase, start: nat)
    requires k < |stores|
    ensures ReservedFrom(stores[k := stores[k].(phase := p)], start) == ReservedFrom(stores, start)
  {
    var stores' := stores[k := stores[k].(phase := p)];
    var n := |stores| - 1;
    if start < |stores| {
      if k < n {
        assert stores'[..n] == stores[..n][k := stores[..n][k].(phase := p)];
        ReservedFromUpdate(stores[..n], k, p, start);
      } else {
        assert stores'[..n] == stores[..n];
      }
    }
  }

  lemma NotPendingUpdate(s: State, t: State, k: nat, p: Phase, id: nat)
    requires k < |s.stores| && p != Reserved && t.stores == SetPhase(s, k, p)
    requires NotPending(s, id)
    ensures NotPending(t, id)
  {
    assert forall j | 0 <= j < |s.stores| :: t.stores[j].phase == Reserved ==> t.stores[j] == s.stores[j];
  }

  /** The steps that change one store's phase keep the ranges and the metadata accounting. */
  lemma PhaseKeeps(s: State, t: State, k: nat, p: Phase)
    requires k < |s.stores| && t.stores == SetPhase(s, k, p) && p != Reserved
    requires t.cached == s.cached && t.stored == s.stored && t.flushed == s.flushed
    requires RangesApart(s) && MetadataSound(s) && (s.stores[k].phase == Reserved && p != Committed)
    ensures RangesApart(t) && MetadataSound(t)
  {
    ReservedFromUpdate(s.stores, k, p, s.flushed);
  }

  lemma ReserveRanges(s: State, docs: seq<bytes>)
    requires RangesApart(s) && MetadataSound(s) && Enabled(s, Reserve(docs)) && Disciplined(s, Reserve(docs))
    ensures var t := Apply(s, Reserve(docs)); RangesApart(t) && MetadataSound(t)
  {
    assert Apply(s, Reserve(docs)).stores[..|s.stores|] == s.stores;
  }

  /** A new store's ids are all at the next id or past it. */
  lemma ReserveNotPending(s: State, docs: seq<bytes>, id: nat)
    requires Enabled(s, Reserve(docs)) && Disciplined(s, Reserve(docs)) && NotPending(s, id) && id < s.cached.nextId
    ensures NotPending(Apply(s, Reserve(docs)), id)
  {
  }

  lemma ReserveBelow(s: State, docs: seq<bytes>)
    requires DocsBelow(s) && Enabled(s, Reserve(docs)) && Disciplined(s, Reserve(docs))
    ensures DocsBelow(Apply(s, Reserve(docs)))
  {
    var t := Apply(s, Reserve(docs));
    hide NotPending;
    forall id | id in t.docs ensures id < t.cached.nextId && NotPending(t, id) {
      ReserveNotPending(s, docs, id);
    }
  }

  lemma ReserveAccount(s: State, docs: seq<bytes>)
    requires Accounted(s) && Enabled(s, Reserve(docs))
    ensures var t := Apply(s, Reserve(docs)); Accounted(t) && HolderSound(t)
  {
    assert Apply(s, Reserve(docs)).stores[..|s.stores|] == s.stores;
  }

  lemma ReserveKeeps(s: State, docs: seq<bytes>)
    requires Inv(s) && Enabled(s, Reserve(docs)) && Disciplined(s, Reserve(docs))
    ensures Inv(Apply(s, Reserve(docs)))
  {
    hide Accounted, HolderSound, RangesApart, MetadataSound, DocsBelow, Apply, Disciplined, Enabled;
    ReserveRanges(s, docs);
    ReserveBelow(s, docs);
    ReserveAccount(s, docs);
  }

  /** Nor do they put a document among the ids still to be written. */
  lemma PhaseBelow(s: State, t: State, k: nat, p: Phase)
    requires k < |s.stores| && p != Reserved && t.stores == SetPhase(s, k, p)
    requires t.docs == s.docs && t.cached.nextId == s.cached.nextId && DocsBelow(s)
    ensures DocsBelow(t)
  {
    hide NotPending;
    forall id | id in t.docs ensures id < t.cached.nextId && NotPending(t, id) {
      NotPendingUpdate(s, t, k, p, id);
    }
  }

  lemma PhaseHolder(s: State, t: State, k: nat, p: Phase)
    requires k < |s.stores| && p != Reserved && t.stores == SetPhase(s, k, p)
    requires t.docs == s.docs && t.cached.nextId == s.cached.nextId && t.holder == s.holder && HolderSound(s)
    ensures HolderSound(t)
  {
    hide NotPending, Distinct, CountIn, Above, SetPhase;
    if s.holder.Some? {
      var ids := s.holder.value.ids;
      forall i | 0 <= i < |ids| ensures NotPending(t, ids[i]) {
        NotPendingUpdate(s, t, k, p, ids[i]);
      }
    }
  }

  lemma WriteFailsKeeps(s: State, k: nat)
    requires Inv(s) && Enabled(s, WriteFails(k))
    ensures Inv(Apply(s, WriteFails(k)))
  {
    var t := Apply(s, WriteFails(k));
    PendingUpdate(s.stores, k, Failed);
    hide RangesApart, MetadataSound, DocsBelow, HolderSound;
    PhaseKeeps(s, t, k, Failed);
    PhaseBelow(s, t, k, Failed);
    PhaseHolder(s, t, k, Failed);
  }

  /** A store still to write owns ids that no document has. */
  lemma WritesNew(s: State, k: nat)
    requires DocsBelow(s) && InPhase(s, k, Reserved)
    ensures s.docs.Keys !! Elements(Given(s.stores[k].first, |s.stores[k].docs|))
  {
    var c := s.stores[k];
    forall id | id in s.docs ensures id !in Elements(Given(c.first, |c.docs|)) {
      GivenIds(c.first, |c.docs|, id);
      assert NotPending(s, id);
    }
  }

  lemma OwnRangeNotPending(s: State, k: nat, id: nat)
    requires RangesApart(s) && InPhase(s, k, Reserved) && HandedTo(s, k, id)
    ensures id < s.cached.nextId
    ensures NotPending(s.(stores := SetPhase(s, k, Written)), id)
  {
    var t := s.(stores := SetPhase(s, k, Written));
    forall j | 0 <= j < |t.stores| && t.stores[j].phase == Reserved ensures !HandedTo(t, j, id) {
      assert j != k && t.stores[j] == s.stores[j];
      if j < k {
        assert s.stores[j].first + |s.stores[j].docs| <= s.stores[k].first;
      } else {
        assert s.stores[k].first + |s.stores[k].docs| <= s.stores[j].first;
      }
    }
  }

  lemma {:induction false} CountSame(ids: seq<nat>, m: map<nat, bytes>, n: map<nat, bytes>)
    requires forall i | 0 <= i < |ids| :: ids[i] in m <==> ids[i] in n
    ensures CountIn(ids, m) == CountIn(ids, n)
  {
    if ids != [] {
      CountSame(ids[..|ids| - 1], m, n);
    }
  }

  lemma WriteKeepsCount(s: State, k: nat, ids: seq<nat>)
    requires InPhase(s, k, Reserved) && NonePending(s, ids)
    ensures CountIn(ids, Apply(s, Write(k)).docs) == CountIn(ids, s.docs)
  {
    var c := s.stores[k];
    var t := Apply(s, Write(k));
    PutBatchKeys(s.docs, Given(c.first, |c.docs|), c.docs);
    forall i | 0 <= i < |ids| ensures ids[i] in t.docs <==> ids[i] in s.docs {
      assert NotPending(s, ids[i]);
      GivenIds(c.first, |c.docs|, ids[i]);
    }
    CountSame(ids, t.docs, s.docs);
  }

  lemma WriteKeepsDocsBelow(s: State, k: nat)
    requires DocsBelow(s) && RangesApart(s) && InPhase(s, k, Reserved)
    ensures DocsBelow(Apply(s, Write(k)))
  {
    var c := s.stores[k];
    var t := Apply(s, Write(k));
    PutBatchKeys(s.docs, Given(c.first, |c.docs|), c.docs);
    hide PutBatch;
    forall id | id in t.docs ensures id < t.cached.nextId && NotPending(t, id) {
      if id in s.docs {
        NotPendingUpdate(s, t, k, Written, id);
      } else {
        GivenIds(c.first, |c.docs|, id);
        OwnRangeNotPending(s, k, id);
        SameStores(s.(stores := SetPhase(s, k, Written)), t, id);
      }
    }
  }

  lemma WriteKeepsNonePending(s: State, k: nat, ids: seq<nat>)
    requires InPhase(s, k, Reserved) && NonePending(s, ids)
    ensures NonePending(Apply(s, Write(k)), ids)
  {
    var t := Apply(s, Write(k));
    hide NotPending;
    forall i | 0 <= i < |ids| ensures NotPending(t, ids[i]) {
      NotPendingUpdate(s, t, k, Written, ids[i]);
    }
  }

  lemma WriteKeepsHolder(s: State, k: nat)
    requires HolderSound(s) && InPhase(s, k, Reserved)
    ensures HolderSound(Apply(s, Write(k)))
  {
    hide NonePending, PutBatch, CountIn, Distinct, Above;
    if s.holder.Some? {
      WriteKeepsNonePending(s, k, s.holder.value.ids);
      WriteKeepsCount(s, k, s.holder.value.ids);
    }
  }

  lemma PutNew(m: map<nat, bytes>, first: u64, docs: seq<bytes>)
    requires first + |docs| <= TWO_TO_THE_64 && m.Keys !! Elements(Given(first, |docs|))
    ensures |PutBatch(m, Given(first, |docs|), docs)| == |m| + |docs|
  {
    hide PutBatch, Given, Elements;
    var ids := Given(first, |docs|);
    GivenSet(first, |docs|);
    PutBatchSize(m, ids, docs);
    assert Elements(ids) - m.Keys == Elements(ids);
  }

  lemma WriteKeepsAccount(s: State, k: nat)
    requires Accounted(s) && DocsBelow(s) && RangesApart(s) && InPhase(s, k, Reserved)
    ensures Accounted(Apply(s, Write(k)))
  {
    var c := s.stores[k];
    assert c.first + |c.docs| <= s.cached.nextId;
    hide DocsBelow, PutBatch, Given, Elements, RangesApart;
    PendingUpdate(s.stores, k, Written);
    WritesNew(s, k);
    PutNew(s.docs, c.first, c.docs);
  }

  lemma WriteKeeps(s: State, k: nat)
    requires Inv(s) && Enabled(s, Write(k))
    ensures Inv(Apply(s, Write(k)))
  {
    var t := Apply(s, Write(k));
    assert InPhase(s, k, Reserved);
    PhaseKeeps(s, t, k, Written);
    WriteKeepsAccount(s, k);
    WriteKeepsDocsBelow(s, k);
    WriteKeepsHolder(s, k);
    hide NotPending, NonePending, RangesApart, MetadataSound, DocsBelow, Accounted, HolderSound, PutBatch;
  }

  lemma CommitRanges(s: State, k: nat)
    requires RangesApart(s) && Enabled(s, Commit(k))
    ensures var t := Apply(s, Commit(k)); RangesApart(t) && MetadataSound(t) && HolderSound(t)
  {
  }

  lemma CommitKeeps(s: State, k: nat)
    requires Inv(s) && Enabled(s, Commit(k))
    ensures Inv(Apply(s, Commit(k)))
  {
    PendingUpdate(s.stores, k, Committed);
    hide RangesApart, MetadataSound, DocsBelow, HolderSound;
    CommitRanges(s, k);
    PhaseBelow(s, Apply(s, Commit(k)), k, Committed);
  }

  lemma EraseBeginKeeps(s: State, ids: seq<nat>)
    requires Inv(s) && Enabled(s, EraseBegin(ids)) && Disciplined(s, EraseBegin(ids))
    ensures Inv(Apply(s, EraseBegin(ids)))
  {
    var t := Apply(s, EraseBegin(ids));
    assert forall i | 0 <= i < |ids| :: NotPending(s, ids[i]) == NotPending(t, ids[i]);
  }

  lemma DistinctIsLiveDistinct(ids: seq<nat>, m: map<nat, bytes>)
    requires Distinct(ids)
    ensures LiveDistinct(ids, m) && NewDistinct(ids, m)
  {
  }

  lemma EraseEndKeeps(s: State)
    requires Inv(s) && Enabled(s, EraseEnd)
    ensures Inv(Apply(s, EraseEnd))
  {
    var t := Apply(s, EraseEnd);
    var e := s.holder.value;
    assert Accounted(t) by {
      hide DocsBelow, RangesApart, MetadataSound, NonePending, Distinct;
      DistinctIsLiveDistinct(e.ids, s.docs);
      CountSubset(e.ids, s.docs);
      EraseSize(s.docs, e.ids);
    }
  }

  lemma UpdateExistingKeeps(s: State, ids: seq<nat>, docs: seq<bytes>)
    requires Inv(s) && Enabled(s, UpdateExisting(ids, docs)) && Disciplined(s, UpdateExisting(ids, docs))
    ensures Inv(Apply(s, UpdateExisting(ids, docs)))
  {
    var t := Apply(s, UpdateExisting(ids, docs));
    PutBatchKeys(s.docs, ids, docs);
    assert t.docs.Keys == s.docs.Keys;
    assert |t.docs.Keys| == |s.docs.Keys|;
  }

  lemma UpdateBeginKeeps(s: State, ids: seq<nat>, docs: seq<bytes>)
    requires Inv(s) && Enabled(s, UpdateBegin(ids, docs)) && Disciplined(s, UpdateBegin(ids, docs))
    ensures Inv(Apply(s, UpdateBegin(ids, docs)))
  {
    var t := Apply(s, UpdateBegin(ids, docs));
    assert forall i | 0 <= i < |ids| :: NotPending(s, ids[i]) == NotPending(t, ids[i]);
  }

  lemma UpdateEndBelow(s: State)
    requires DocsBelow(s) && HolderSound(s) && Enabled(s, UpdateEnd)
    ensures DocsBelow(Apply(s, UpdateEnd))
  {
    var t := Apply(s, UpdateEnd);
    var ids := s.holder.value.ids;
    PutBatchKeys(s.docs, ids, s.holder.value.docs);
    hide NotPending;
    forall id | id in t.docs ensures id < t.cached.nextId && NotPending(t, id) {
      if id !in s.docs {
        assert id in Elements(ids);
        var i :| 0 <= i < |ids| && ids[i] == id;
        assert NotPending(s, ids[i]) && ids[i] < Above(ids);
      }
    }
  }

  /** An update counts right exactly when its count of missing ids is the number of documents that its put adds. */
  lemma UpdateEndAccounts(s: State)
    requires Accounted(s) && Enabled(s, UpdateEnd)
    ensures var u := s.holder.value;
            Accounted(Apply(s, UpdateEnd)) <==> |u.ids| - u.counted == |Elements(u.ids) - s.docs.Keys|
  {
    PutBatchSize(s.docs, s.holder.value.ids, s.holder.value.docs);
    hide Elements, PutBatch, CountIn;
  }

  lemma UpdateEndRanges(s: State)
    requires RangesApart(s) && HolderSound(s) && Enabled(s, UpdateEnd)
    ensures var t := Apply(s, UpdateEnd); RangesApart(t) && HolderSound(t) && MetadataSound(t)
  {
    hide PutBatch, Distinct, NonePending, CountIn, Above;
  }

  lemma UpdateEndCounted(s: State)
    requires Accounted(s) && HolderSound(s) && Enabled(s, UpdateEnd)
    ensures Accounted(Apply(s, UpdateEnd))
  {
    hide Accounted, NonePending, Above, PutBatch, LiveDistinct, NewDistinct, Apply;
    var ids := s.holder.value.ids;
    DistinctIsLiveDistinct(ids, s.docs);
    CountMissing(ids, s.docs);
    UpdateEndAccounts(s);
  }

  lemma UpdateEndKeeps(s: State)
    requires Inv(s) && Enabled(s, UpdateEnd)
    ensures Inv(Apply(s, UpdateEnd))
  {
    hide RangesApart, HolderSound, MetadataSound, Accounted, DocsBelow, Apply, Enabled;
    UpdateEndBelow(s);
    UpdateEndCounted(s);
    UpdateEndRanges(s);
  }

  lemma UpdateFailsKeeps(s: State)
    requires Inv(s) && Enabled(s, UpdateFails)
    ensures Inv(Apply(s, UpdateFails))
  {
    var t := Apply(s, UpdateFails);
    assert DocsBelow(t) by {
      hide NotPending, RangesApart, MetadataSound;
      forall id | id in t.docs ensures id < t.cached.nextId && NotPending(t, id) {
        SameStores(s, t, id);
      }
    }
  }

  lemma SameStores(s: State, t: State, id: nat)
    requires s.stores == t.stores
    ensures NotPending(s, id) == NotPending(t, id)
  {
  }

  lemma StepKeeps(s: State, a: Action)
    requires Inv(s) && Enabled(s, a) && Disciplined(s, a)
    ensures Inv(Apply(s, a))
  {
    hide Inv;
    match a
    case Reserve(docs) => ReserveKeeps(s, docs);
    case Write(k) => WriteKeeps(s, k);
    case WriteFails(k) => WriteFailsKeeps(s, k);
    case Commit(k) => CommitKeeps(s, k);
    case EraseBegin(ids) => EraseBeginKeeps(s, ids);
    case EraseEnd => EraseEndKeeps(s);
    case UpdateExisting(ids, docs) => UpdateExistingKeeps(s, ids, docs);
    case UpdateBegin(ids, docs) => UpdateBeginKeeps(s, ids, docs);
    case UpdateEnd => UpdateEndKeeps(s);
    case UpdateFails => UpdateFailsKeeps(s);
  }

  // ---- Whole runs ----

  /** Every step can happen and its caller keeps its side. */
  predicate Legal(s: State, run: seq<Action>)
    decreases |run|
  {
    run != [] ==> Enabled(s, run[0]) && Disciplined(s, run[0]) && Legal(Apply(s, run[0]), run[1..])
  }

  predicate Possible(s: State, run: seq<Action>)
    decreases |run|
  {
    run != [] ==> Enabled(s, run[0]) && Possible(Apply(s, run[0]), run[1..])
  }

  function Run(s: State, run: seq<Action>): State
    requires Possible(s, run)
    decreases |run|
  {
    if run == [] then s else Run(Apply(s, run[0]), run[1..])
  }

  lemma {:induction false} RunKeeps(s: State, run: seq<Action>)
    requires Inv(s) && Legal(s, run)
    ensures Possible(s, run) && Inv(Run(s, run))
    decreases |run|
  {
    if run != [] {
      StepKeeps(s, run[0]);
      hide Inv, Enabled, Disciplined, Apply;
      RunKeeps(Apply(s, run[0]), run[1..]);
    }
  }

  predicate Quiet(s: State) {
    forall k | 0 <= k < |s.stores| :: s.stores[k].phase == Committed || s.stores[k].phase == Failed
  }

  lemma {:induction false} QuietPending(stores: seq<StoreCall>)
    requires forall k | 0 <= k < |stores| :: stores[k].phase != Written
    ensures Pending(stores) == 0
  {
    if stores != [] {
      QuietPending(stores[..|stores| - 1]);
    }
  }

  /**
   No id is handed out twice; the cached size plus the documents written but not committed is the number of
   documents; when no store is in flight the size is the number of documents, and when moreover none failed the
   key-value store has the cached metadata.
   */
  ghost predicate Safe(s: State) {
    && (forall j: nat, k: nat, id: nat | HandedTo(s, j, id) && HandedTo(s, k, id) :: j == k)
    && (forall k: nat, id: nat | HandedTo(s, k, id) :: id < s.cached.nextId)
    && |s.docs| == s.cached.size + Pending(s.stores)
    && (Quiet(s) ==> s.stored.size == s.cached.size == |s.docs|)
    && (Quiet(s) && (forall k | 0 <= k < |s.stores| :: s.stores[k].phase != Failed) ==> s.stored == s.cached)
  }

  lemma QuietSafe(s: State)
    requires Accounted(s) && MetadataSound(s) && Quiet(s)
    ensures s.stored.size == s.cached.size == |s.docs|
    ensures (forall k | 0 <= k < |s.stores| :: s.stores[k].phase != Failed) ==> s.stored == s.cached
  {
    QuietPending(s.stores);
    if forall k | 0 <= k < |s.stores| :: s.stores[k].phase != Failed {
    }
  }

  lemma InvSafe(s: State)
    requires Inv(s)
    ensures Safe(s)
  {
    if Quiet(s) {
      QuietSafe(s);
    }
    hide HandedTo, RangesApart, MetadataSound, DocsBelow;
    forall j: nat, k: nat, id: nat | HandedTo(s, j, id) && HandedTo(s, k, id) ensures j == k {
    }
    forall k: nat, id: nat | HandedTo(s, k, id) ensures id < s.cached.nextId {
    }
  }

  lemma EmptySound(s: State)
    requires s.stores == [] && s.docs == map[] && s.holder.None? && s.flushed == 0
    requires s.cached == s.stored && s.cached.size == 0
    ensures Inv(s)
  {
  }

  lemma InitSound()
    ensures Inv(Init())
  {
    hide Inv;
    EmptySound(Init());
  }

  /** Every state of every run of overlapping stores, erases and updates is safe. */
  lemma RunSafe(run: seq<Action>)
    requires Legal(Init(), run)
    ensures Possible(Init(), run)
    ensures Safe(Run(Init(), run))
  {
    hide *;
    InitSound();
    RunKeeps(Init(), run);
    InvSafe(Run(Init(), run));
  }

  /** The ids a step replaces or removes. */
  function Named(s: State, a: Action): set<nat> {
    match a
    case EraseEnd => if s.holder.Some? then Elements(s.holder.value.ids) else {}
    case UpdateExisting(ids, _) => Elements(ids)
    case UpdateEnd => if s.holder.Some? then Elements(s.holder.value.ids) else {}
    case _ => {}
  }

  lemma {:induction false} PutBatchKeepsOthers(m: map<nat, bytes>, ids: seq<nat>, docs: seq<bytes>, id: nat)
    requires |ids| == |docs| && id !in Elements(ids) && id in m
    ensures id in PutBatch(m, ids, docs) && PutBatch(m, ids, docs)[id] == m[id]
  {
    if ids != [] {
      PutBatchKeepsOthers(m, ids[..|ids| - 1], docs[..|ids| - 1], id);
    }
  }

  /** The last document that a batch names for an id is the one that stays. */
  lemma {:induction false} PutBatchAt(m: map<nat, bytes>, ids: seq<nat>, docs: seq<bytes>, k: nat)
    requires k < |ids| == |docs| && ids[k] !in ids[k + 1..]
    ensures ids[k] in PutBatch(m, ids, docs) && PutBatch(m, ids, docs)[ids[k]] == docs[k]
  {
    var n := |ids| - 1;
    if k < n {
      assert ids[n] == ids[k + 1..][n - k - 1];
      assert ids[k + 1..] == ids[..n][k + 1..] + [ids[n]];
      PutBatchAt(m, ids[..n], docs[..n], k);
    }
  }

  /** The ids and documents that an update puts. */
  function Updated(s: State, a: Action): (seq<nat>, seq<bytes>)
    requires Enabled(s, a) && (a.UpdateExisting? || a.UpdateEnd?)
  {
    if a.UpdateExisting? then (a.ids, a.docs) else (s.holder.value.ids, s.holder.value.docs)
  }

  /** After an update each id it names has the last document given for it. */
  lemma UpdateIsReadable(s: State, a: Action, k: nat)
    requires Enabled(s, a) && (a.UpdateExisting? || a.UpdateEnd?)
    requires var ids := Updated(s, a).0; k < |ids| && ids[k] !in ids[k + 1..]
    ensures var (ids, docs) := Updated(s, a);
            |ids| == |docs| && ids[k] in Apply(s, a).docs && Apply(s, a).docs[ids[k]] == docs[k]
  {
    var (ids, docs) := Updated(s, a);
    PutBatchAt(s.docs, ids, docs, k);
  }

  /** No store overwrites an existing document: only an erase or update that names it changes it. */
  lemma StepKeepsDocument(s: State, a: Action, id: nat)
    requires DocsBelow(s) && Enabled(s, a)
    requires id in s.docs && id !in Named(s, a)
    ensures id in Apply(s, a).docs && Apply(s, a).docs[id] == s.docs[id]
  {
    match a
    case Write(k) =>
      WritesNew(s, k);
      PutBatchKeepsOthers(s.docs, Given(s.stores[k].first, |s.stores[k].docs|), s.stores[k].docs, id);
    case UpdateExisting(ids, docs) => PutBatchKeepsOthers(s.docs, ids, docs, id);
    case UpdateEnd => PutBatchKeepsOthers(s.docs, s.holder.value.ids, s.holder.value.docs, id);
    case _ =>
  }

  predicate NeverNamed(s: State, run: seq<Action>, id: nat)
    requires Possible(s, run)
    decreases |run|
  {
    run != [] ==> id !in Named(s, run[0]) && NeverNamed(Apply(s, run[0]), run[1..], id)
  }

  /** A document, once written, can be read under its id until an erase or update names it. */
  lemma {:induction false} RunKeepsDocument(s: State, run: seq<Action>, id: nat)
    requires Inv(s) && Legal(s, run) && Possible(s, run)
    requires id in s.docs && NeverNamed(s, run, id)
    ensures id in Run(s, run).docs && Run(s, run).docs[id] == s.docs[id]
    decreases |run|
  {
    if run != [] {
      StepKeepsDocument(s, run[0], id);
      StepKeeps(s, run[0]);
      hide Inv, Enabled, Disciplined, Apply, Named;
      RunKeepsDocument(Apply(s, run[0]), run[1..], id);
    }
  }

  lemma WriteStores(s: State, k: nat, i: nat)
    requires Enabled(s, Write(k)) && i < |s.stores[k].docs| && s.stores[k].first + |s.stores[k].docs| <= TWO_TO_THE_64
    ensures var id := s.stores[k].first + i;
            id in Apply(s, Write(k)).docs && Apply(s, Write(k)).docs[id] == s.stores[k].docs[i]
  {
    hide PutBatch, Given;
    var c := s.stores[k];
    var ids := Given(c.first, |c.docs|);
    GivenSet(c.first, |c.docs|);
    assert ids[i] == c.first + i && ids[i] !in ids[i + 1..];
    PutBatchAt(s.docs, ids, c.docs, i);
  }

  lemma WriteEffect(s: State, k: nat, i: nat, t: State, id: nat)
    requires Inv(s) && InPhase(s, k, Reserved) && t == Apply(s, Write(k))
    requires i < |s.stores[k].docs| && id == s.stores[k].first + i
    ensures Inv(t) && id in t.docs && t.docs[id] == s.stores[k].docs[i]
  {
    assert s.stores[k].first + |s.stores[k].docs| <= s.cached.nextId;
    hide Inv;
    WriteKeeps(s, k);
    WriteStores(s, k, i);
  }

  /** The i-th document of a store is what its i-th id gives, however the run goes on, until the id is named. */
  lemma StoredIsReadable(s: State, k: nat, i: nat, t: State, run: seq<Action>, id: nat)
    requires Possible(t, run) && NeverNamed(t, run, id) && Legal(t, run)
    requires Inv(s) && InPhase(s, k, Reserved) && t == Apply(s, Write(k))
    requires i < |s.stores[k].docs| && id == s.stores[k].first + i
    ensures id in Run(t, run).docs && Run(t, run).docs[id] == s.stores[k].docs[i]
  {
    hide *;
    WriteEffect(s, k, i, t, id);
    RunKeepsDocument(t, run, id);
  }

  // ---- Exactly when the steps go wrong ----

  /** With no step in between, an erase is right exactly when it names no existing document twice. */
  lemma EraseAtOnceAccounts(s: State, ids: seq<nat>)
    requires Accounted(s) && Enabled(s, EraseBegin(ids))
    ensures Enabled(Apply(s, EraseBegin(ids)), EraseEnd)
    ensures Accounted(Apply(Apply(s, EraseBegin(ids)), EraseEnd)) <==> LiveDistinct(ids, s.docs)
  {
    hide LiveDistinct;
    CountSubset(ids, s.docs);
  }

  /** The run stays between the two calls of whoever holds the lock. */
  predicate Within(run: seq<Action>) {
    EraseEnd !in run && UpdateEnd !in run && UpdateFails !in run
  }

  /** While the lock is held, only stores that had reserved before can write: documents only appear. */
  lemma {:induction false} HeldWindow(s: State, run: seq<Action>)
    requires s.holder.Some? && Possible(s, run) && Within(run)
    ensures var t := Run(s, run);
            t.holder == s.holder && s.docs.Keys <= t.docs.Keys && t.cached == s.cached
    decreases |run|
  {
    if run != [] {
      var t := Apply(s, run[0]);
      if run[0].Write? {
        var c := s.stores[run[0].k];
        PutBatchKeys(s.docs, Given(c.first, |c.docs|), c.docs);
      }
      assert run[0] != EraseEnd && run[0] != UpdateEnd && run[0] != UpdateFails;
      assert t.holder == s.holder && s.docs.Keys <= t.docs.Keys && t.cached == s.cached;
      hide Apply, Enabled;
      HeldWindow(t, run[1..]);
    }
  }

  lemma {:induction false} CountGrows(ids: seq<nat>, m: map<nat, bytes>, n: map<nat, bytes>)
    requires m.Keys <= n.Keys
    ensures CountIn(ids, m) <= CountIn(ids, n)
    ensures CountIn(ids, m) == CountIn(ids, n) <==> (forall i | 0 <= i < |ids| && ids[i] in n :: ids[i] in m)
  {
    if ids != [] {
      var front := ids[..|ids| - 1];
      CountGrows(front, m, n);
      assert forall i | 0 <= i < |front| :: front[i] == ids[i];
      if forall i | 0 <= i < |front| && front[i] in n :: front[i] in m {
        assert forall i | 0 <= i < |front| && ids[i] in n :: ids[i] in m;
      }
    }
  }

  /** An erase counts right exactly when its count is the number of documents that it removes. */
  lemma EraseEndAccounts(s: State)
    requires Accounted(s) && Enabled(s, EraseEnd)
    ensures var e := s.holder.value;
            Accounted(Apply(s, EraseEnd)) <==> e.counted == |Elements(e.ids) * s.docs.Keys|
  {
    EraseSize(s.docs, s.holder.value.ids);
    hide Elements, CountIn;
  }

  /**
   An erase of distinct ids that begins in s and ends in t leaves the size right exactly when, between counting
   and erasing, no store wrote one of the ids it names.
   */
  lemma EraseRaceExact(s: State, ids: seq<nat>, run: seq<Action>)
    requires Enabled(s, EraseBegin(ids)) && Distinct(ids)
    requires Possible(Apply(s, EraseBegin(ids)), run) && Within(run)
    ensures var t := Run(Apply(s, EraseBegin(ids)), run);
            Enabled(t, EraseEnd)
            && (Accounted(t) ==> (Accounted(Apply(t, EraseEnd)) <==>
                 forall i | 0 <= i < |ids| && ids[i] in t.docs :: ids[i] in s.docs))
  {
    var b := Apply(s, EraseBegin(ids));
    HeldWindow(b, run);
    var t := Run(b, run);
    hide Run, Possible, CountIn, Elements, Within, LiveDistinct, Distinct;
    CountGrows(ids, s.docs, t.docs);
    DistinctIsLiveDistinct(ids, t.docs);
    CountSubset(ids, t.docs);
    if Accounted(t) {
      EraseEndAccounts(t);
    }
  }

  /** With no step in between, an update that allows new ids is right exactly when it names no new id twice. */
  lemma UpdateNewAccounts(s: State, ids: seq<nat>, docs: seq<bytes>)
    requires Accounted(s) && Enabled(s, UpdateBegin(ids, docs))
    ensures Enabled(Apply(s, UpdateBegin(ids, docs)), UpdateEnd)
    ensures Accounted(Apply(Apply(s, UpdateBegin(ids, docs)), UpdateEnd)) <==> NewDistinct(ids, s.docs)
  {
    var b := Apply(s, UpdateBegin(ids, docs));
    UpdateEndAccounts(b);
    CountMissing(ids, s.docs);
    hide NewDistinct, Elements, CountIn, PutBatch;
  }

  /**
   An update of distinct ids, new ones allowed, that begins in s and ends in t leaves the size right exactly when,
   between counting and putting, no store wrote one of the ids it names.
   */
  lemma UpdateRaceExact(s: State, ids: seq<nat>, docs: seq<bytes>, run: seq<Action>)
    requires Enabled(s, UpdateBegin(ids, docs)) && Distinct(ids)
    requires Possible(Apply(s, UpdateBegin(ids, docs)), run) && Within(run)
    ensures var t := Run(Apply(s, UpdateBegin(ids, docs)), run);
            Enabled(t, UpdateEnd)
            && (Accounted(t) ==> (Accounted(Apply(t, UpdateEnd)) <==>
                 forall i | 0 <= i < |ids| && ids[i] in t.docs :: ids[i] in s.docs))
  {
    var b := Apply(s, UpdateBegin(ids, docs));
    HeldWindow(b, run);
    var t := Run(b, run);
    CountGrows(ids, s.docs, t.docs);
    DistinctIsLiveDistinct(ids, t.docs);
    CountMissing(ids, t.docs);
    if Accounted(t) {
      UpdateEndAccounts(t);
    }
  }

  /** Updating without the flag that allows new ids keeps the size right exactly when all the ids exist. */
  lemma UpdateExistingAccounts(s: State, ids: seq<nat>, docs: seq<bytes>)
    requires Accounted(s) && Enabled(s, UpdateExisting(ids, docs))
    ensures Accounted(Apply(s, UpdateExisting(ids, docs))) <==> forall i | 0 <= i < |ids| :: ids[i] in s.docs
  {
    PutBatchSize(s.docs, ids, docs);
    var missing := Elements(ids) - s.docs.Keys;
    if i :| 0 <= i < |ids| && ids[i] !in s.docs {
      assert ids[i] in missing;
    } else {
      assert missing == {};
    }
  }

  /**
   After an update that allows new ids, every document is below the next id exactly when it was already below Above(ids)
   and that is a machine word: the largest word as an id makes the next id 0.
   */
  lemma UpdateNewNextId(s: State)
    requires Enabled(s, UpdateEnd)
    ensures var t, above := Apply(s, UpdateEnd), Above(s.holder.value.ids);
            (forall id | id in t.docs :: id < t.cached.nextId)
            <==> above < TWO_TO_THE_64 && forall id | id in s.docs :: id < above
  {
    var t := Apply(s, UpdateEnd);
    var ids := s.holder.value.ids;
    PutBatchKeys(s.docs, ids, s.holder.value.docs);
    forall id | id in Elements(ids) ensures id < Above(ids) {
      var i :| 0 <= i < |ids| && ids[i] == id;
    }
    assert forall id | id in s.docs :: id in t.docs;
    if Above(ids) >= TWO_TO_THE_64 {
      assert Above(ids) - 1 in Elements(ids);
    }
  }

  lemma RunFirst(s: State, a: Action, rest: seq<Action>)
    requires Enabled(s, a)
    ensures Possible(s, [a] + rest) <==> Possible(Apply(s, a), rest)
    ensures Possible(Apply(s, a), rest) ==> Run(s, [a] + rest) == Run(Apply(s, a), rest)
  {
    assert ([a] + rest)[1..] == rest;
  }

  /** The race: a store reserves an id, an erase of that id counts nothing and then removes what the store wrote. */
  lemma EraseRace(d: bytes)
    ensures var run := [Reserve([d])] + ([EraseBegin([0])] + ([Write(0)] + ([EraseEnd] + ([Commit(0)] + []))));
            Possible(Init(), run) && Run(Init(), run).cached.size == 1 && Run(Init(), run).docs == map[]
  {
    var c := StoreCall(0, [d], Reserved);
    var m := Metadata(0, 1);
    var s1 := State(Metadata(0, 0), m, map[], [c], None, 0);
    var s2 := s1.(holder := Some(Erasing([0], 0)));
    var s3 := s2.(docs := map[0 := d], stores := [c.(phase := Written)]);
    var s4 := State(m, m, map[], s3.stores, None, 1);
    var s5 := State(Metadata(1, 1), Metadata(1, 1), map[], [c.(phase := Committed)], None, 1);
    assert Apply(Init(), Reserve([d])) == s1;
    assert Apply(s1, EraseBegin([0])) == s2 by { assert CountIn([0], map[]) == 0; }
    assert Apply(s2, Write(0)) == s3 by { GivenOne(0); assert PutBatch(map[], [0], [d]) == map[0 := d]; }
    assert Apply(s3, EraseEnd) == s4 by { assert map[0 := d] - Elements([0]) == map[]; }
    assert Apply(s4, Commit(0)) == s5;
    assert Enabled(s2, Write(0)) && Enabled(s3, EraseEnd) && Enabled(s4, Commit(0));
    hide Apply, Enabled;
    RunFirst(s4, Commit(0), []);
    RunFirst(s3, EraseEnd, [Commit(0)] + []);
    RunFirst(s2, Write(0), [EraseEnd] + ([Commit(0)] + []));
    RunFirst(s1, EraseBegin([0]), [Write(0)] + ([EraseEnd] + ([Commit(0)] + [])));
    RunFirst(Init(), Reserve([d]), [EraseBegin([0])] + ([Write(0)] + ([EraseEnd] + ([Commit(0)] + []))));
  }

  /** The same race with an update: it counts its id as new, and so does the store that writes it in between. */
  lemma UpdateRace(d: bytes, e: bytes)
    ensures var run := [Reserve([d])] + ([UpdateBegin([0], [e])] + ([Write(0)] + ([UpdateEnd] + ([Commit(0)] + []))));
            Possible(Init(), run) && Run(Init(), run).cached.size == 2 && Run(Init(), run).docs == map[0 := e]
  {
    var c := StoreCall(0, [d], Reserved);
    var m := Metadata(1, 1);
    var s1 := State(Metadata(0, 0), Metadata(0, 1), map[], [c], None, 0);
    var s2 := s1.(holder := Some(Updating([0], 0, [e])));
    var s3 := s2.(docs := map[0 := d], stores := [c.(phase := Written)]);
    var s4 := State(m, m, map[0 := e], s3.stores, None, 1);
    var s5 := State(Metadata(2, 1), Metadata(2, 1), map[0 := e], [c.(phase := Committed)], None, 1);
    assert Apply(Init(), Reserve([d])) == s1;
    assert Apply(s1, UpdateBegin([0], [e])) == s2 by { assert CountIn([0], map[]) == 0; }
    assert Apply(s2, Write(0)) == s3 by { GivenOne(0); assert PutBatch(map[], [0], [d]) == map[0 := d]; }
    assert Apply(s3, UpdateEnd) == s4 by {
      assert PutBatch(map[0 := d], [0], [e]) == map[0 := e];
      assert Above([0]) == 1;
    }
    assert Apply(s4, Commit(0)) == s5;
    assert Enabled(s1, UpdateBegin([0], [e])) && Enabled(s2, Write(0)) && Enabled(s3, UpdateEnd)
        && Enabled(s4, Commit(0));
    hide Apply, Enabled;
    RunFirst(s4, Commit(0), []);
    RunFirst(s3, UpdateEnd, [Commit(0)] + []);
    RunFirst(s2, Write(0), [UpdateEnd] + ([Commit(0)] + []));
    RunFirst(s1, UpdateBegin([0], [e]), [Write(0)] + ([UpdateEnd] + ([Commit(0)] + [])));
    RunFirst(Init(), Reserve([d]), [UpdateBegin([0], [e])] + ([Write(0)] + ([UpdateEnd] + ([Commit(0)] + []))));
  }

  /** Reserving ids for `more` hands out an id that an earlier store was given. */
  ghost predicate Reissues(s: State, more: seq<bytes>) {
    exists k: nat, id: nat :: HandedTo(s, k, id) && Offset(s.cached.nextId, id) < |more|
  }

  lemma ReissuesMeans(s: State, more: seq<bytes>)
    requires Enabled(s, Reserve(more))
    ensures Reissues(s, more) <==>
            exists k: nat, id: nat :: k != |s.stores| && HandedTo(Apply(s, Reserve(more)), k, id)
                                      && HandedTo(Apply(s, Reserve(more)), |s.stores|, id)
  {
    var t := Apply(s, Reserve(more));
    assert forall k: nat, id: nat | k < |s.stores| :: HandedTo(s, k, id) == HandedTo(t, k, id);
    assert forall id: nat :: HandedTo(t, |s.stores|, id) <==>
                             id < TWO_TO_THE_64 && Offset(s.cached.nextId, id) < |more|;
  }

  /** The store runs past the last machine word itself. */
  predicate RunsOver(s: State, more: seq<bytes>) {
    s.cached.nextId + |more| > TWO_TO_THE_64
  }

  /**
   An update that allows new ids makes some later store, one that does not run past the last word itself, reuse an id
   exactly when an id from the wrapped Above(ids) on was handed out; with the largest word among the ids, any id.
   */
  lemma UpdateNewReissues(s: State)
    requires Enabled(s, UpdateEnd)
    ensures (exists more :: !RunsOver(Apply(s, UpdateEnd), more) && Reissues(Apply(s, UpdateEnd), more)) <==>
            (exists k: nat, id: nat :: HandedTo(s, k, id) && id >= Wrap(Above(s.holder.value.ids)))
  {
    var t := Apply(s, UpdateEnd);
    var next := Wrap(Above(s.holder.value.ids));
    assert t.stores == s.stores && t.cached.nextId == next;
    assert forall k: nat, id: nat :: HandedTo(s, k, id) == HandedTo(t, k, id);
    hide Wrap, Above, HandedTo, Enabled, Apply;
    if k: nat, id: nat :| HandedTo(s, k, id) && id >= next {
      HandedWord(s, k, id);
      var more: seq<bytes> := seq(id + 1 - next, _ => []);
      assert HandedTo(t, k, id) && Offset(next, id) == id - next;
      assert Reissues(t, more) && !RunsOver(t, more);
    }
    if more :| !RunsOver(t, more) && Reissues(t, more) {
      var k: nat, id: nat :| HandedTo(t, k, id) && Offset(next, id) < |more|;
      HandedWord(s, k, id);
      assert id >= next;
    }
  }

  lemma HandedWord(s: State, k: nat, id: nat)
    ensures HandedTo(s, k, id) ==> id < TWO_TO_THE_64
  {
  }

  /** The largest word as an id: the next store starts from 0 again and overwrites the first document. */
  lemma LargestIdRestarts(d: bytes, e: bytes, f: bytes)
    ensures var last := TWO_TO_THE_64 - 1;
            var run := [Reserve([d])] + ([Write(0)] + ([Commit(0)] + ([UpdateBegin([last], [e])]
                       + ([UpdateEnd] + ([Reserve([f])] + ([Write(1)] + []))))));
            && Possible(Init(), run)
            && var s := Run(Init(), run);
               s.docs == map[0 := f, last := e] && HandedTo(s, 0, 0) && HandedTo(s, 1, 0) && s.cached.size == 2
  {
    var last := TWO_TO_THE_64 - 1;
    var c, c' := StoreCall(0, [d], Committed), StoreCall(0, [f], Reserved);
    var s1 := State(Metadata(0, 0), Metadata(0, 1), map[], [c.(phase := Reserved)], None, 0);
    var s2 := s1.(docs := map[0 := d], stores := [c.(phase := Written)]);
    var s3 := State(Metadata(1, 1), Metadata(1, 1), map[0 := d], [c], None, 1);
    var s4 := s3.(holder := Some(Updating([last], 0, [e])));
    var s5 := State(Metadata(2, 0), Metadata(2, 0), map[0 := d, last := e], [c], None, 1);
    var s6 := s5.(cached := Metadata(2, 1), stores := [c, c']);
    var s7 := s6.(docs := map[0 := f, last := e], stores := [c, c'.(phase := Written)]);
    assert Apply(Init(), Reserve([d])) == s1;
    assert Apply(s1, Write(0)) == s2 by { GivenOne(0); assert PutBatch(map[], [0], [d]) == map[0 := d]; }
    assert Apply(s2, Commit(0)) == s3;
    assert Apply(s3, UpdateBegin([last], [e])) == s4 by { assert CountIn([last], s3.docs) == 0; }
    assert Apply(s4, UpdateEnd) == s5 by {
      assert PutBatch(s4.docs, [last], [e]) == s5.docs;
      assert Above([last]) == TWO_TO_THE_64 && Wrap(TWO_TO_THE_64) == 0;
    }
    assert Apply(s5, Reserve([f])) == s6;
    assert Apply(s6, Write(1)) == s7 by { GivenOne(0); assert PutBatch(s6.docs, [0], [f]) == s7.docs; }
    assert HandedTo(s7, 0, 0) && HandedTo(s7, 1, 0);
    assert Enabled(s1, Write(0)) && Enabled(s2, Commit(0)) && Enabled(s3, UpdateBegin([last], [e]));
    assert Enabled(s4, UpdateEnd) && Enabled(s5, Reserve([f])) && Enabled(s6, Write(1));
    hide *;
    var r7: seq<Action> := [];
    var r6, r5 := [Write(1)] + r7, [Reserve([f])] + ([Write(1)] + r7);
    RunNone(s7);
    RunFirst(s6, Write(1), r7);
    RunFirst(s5, Reserve([f]), r6);
    RunFirst(s4, UpdateEnd, r5);
    RunFirst(s3, UpdateBegin([last], [e]), [UpdateEnd] + r5);
    RunFirst(s2, Commit(0), [UpdateBegin([last], [e])] + ([UpdateEnd] + r5));
    RunFirst(s1, Write(0), [Commit(0)] + ([UpdateBegin([last], [e])] + ([UpdateEnd] + r5)));
    FirstEnabled(d);
    RunFirst(Init(), Reserve([d]), [Write(0)] + ([Commit(0)] + ([UpdateBegin([last], [e])] + ([UpdateEnd] + r5))));
  }

  lemma FirstEnabled(d: bytes)
    ensures Enabled(Init(), Reserve([d]))
  {
  }

  lemma RunNone(s: State)
    ensures Possible(s, []) && Run(s, []) == s
  {
  }
}
