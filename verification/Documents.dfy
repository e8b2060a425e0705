/**
 The abstract document collection that every backend implements: a sequence with one slot per id, empty where the
 document was erased or skipped over. Batches in one buffer, iteration and packed loads are described here once, so
 that two backends meeting the same description agree with each other.
 */
module Documents {
  import opened Basics

  type Docs = seq<Option<bytes>>

  // ---- Operations ----

  function Stored(batch: seq<bytes>): (r: Docs)
    ensures |r| == |batch|
  {
    seq(|batch|, i requires 0 <= i < |batch| => Some(batch[i]))
  }

  function Holes(n: nat): (r: Docs)
    ensures |r| == n
  {
    seq(n, _ => None)
  }

  function PadTo(d: Docs, n: nat): (r: Docs)
    ensures |r| == Max(|d|, n)
  {
    if n <= |d| then d else d + Holes(n - |d|)
  }

  function Put(d: Docs, id: nat, doc: bytes): (r: Docs)
    ensures |r| == Max(|d|, id + 1)
  {
    PadTo(d, id + 1)[id := Some(doc)]
  }

  /** The puts of a batch from position `i` on, in order: the last writer of an id wins. */
  function PutFrom(d: Docs, ids: seq<nat>, batch: seq<bytes>, i: nat): (r: Docs)
    requires i <= |ids| == |batch|
    ensures |r| >= |d|
    decreases |ids| - i
  {
    if i == |ids| then d else PutFrom(Put(d, ids[i], batch[i]), ids, batch, i + 1)
  }

  lemma PutFromStep(d: Docs, ids: seq<nat>, batch: seq<bytes>, i: nat)
    requires i < |ids| == |batch|
    ensures PutFrom(d, ids, batch, i) == PutFrom(Put(d, ids[i], batch[i]), ids, batch, i + 1)
  {
  }

  lemma PutFromEnd(d: Docs, ids: seq<nat>, batch: seq<bytes>)
    requires |ids| == |batch|
    ensures PutFrom(d, ids, batch, |ids|) == d
  {
  }

  /** Only the puts selected by `pick`. */
  function PutPicked(d: Docs, ids: seq<nat>, batch: seq<bytes>, pick: seq<bool>, i: nat): (r: Docs)
    requires i <= |ids| == |batch| == |pick|
    ensures |r| >= |d|
    decreases |ids| - i
  {
    if i == |ids| then d
    else PutPicked(if pick[i] then Put(d, ids[i], batch[i]) else d, ids, batch, pick, i + 1)
  }

  function Erase(d: Docs, id: nat): (r: Docs)
    ensures |r| == |d|
  {
    if id < |d| then d[id := None] else d
  }

  function EraseFrom(d: Docs, ids: seq<nat>, i: nat): (r: Docs)
    requires i <= |ids|
    ensures |r| == |d|
    decreases |ids| - i
  {
    if i == |ids| then d else EraseFrom(Erase(d, ids[i]), ids, i + 1)
  }

  function At(d: Docs, id: nat): Option<bytes> {
    if id < |d| then d[id] else None
  }

  /** The collection once the first `i` documents of a batch are stored. */
  ghost function StoreFirst(d: Docs, docs: seq<bytes>, i: nat): Docs
    requires i <= |docs|
  {
    d + Stored(docs[..i])
  }

  lemma StoreFirstNext(d: Docs, docs: seq<bytes>, i: nat)
    requires i < |docs|
    ensures StoreFirst(d, docs, i) + [Some(docs[i])] == StoreFirst(d, docs, i + 1)
  {
    assert docs[..i + 1] == docs[..i] + [docs[i]];
    assert Stored(docs[..i + 1]) == Stored(docs[..i]) + [Some(docs[i])];
  }

  // ---- Counting ----

  function Live(o: Option<bytes>): nat {
    if o.Some? then 1 else 0
  }

  function LiveCount(d: Docs): nat {
    if d == [] then 0 else LiveCount(d[..|d| - 1]) + Live(d[|d| - 1])
  }

  lemma {:induction false} LiveCountConcat(a: Docs, b: Docs)
    ensures LiveCount(a + b) == LiveCount(a) + LiveCount(b)
  {
    if b == [] {
      assert a + b == a;
    } else {
      assert (a + b)[..|a + b| - 1] == a + b[..|b| - 1];
      LiveCountConcat(a, b[..|b| - 1]);
    }
  }

  lemma {:induction false} LiveCountStored(batch: seq<bytes>)
    ensures LiveCount(Stored(batch)) == |batch|
  {
    if batch != [] {
      assert Stored(batch)[..|batch| - 1] == Stored(batch[..|batch| - 1]);
      LiveCountStored(batch[..|batch| - 1]);
    }
  }

  lemma {:induction false} LiveCountHoles(n: nat)
    ensures LiveCount(Holes(n)) == 0
  {
    if n > 0 {
      assert Holes(n)[..n - 1] == Holes(n - 1);
      LiveCountHoles(n - 1);
    }
  }

  lemma {:induction false} LiveCountUpdate(d: Docs, id: nat, o: Option<bytes>)
    requires id < |d|
    ensures LiveCount(d[id := o]) == LiveCount(d) - Live(d[id]) + Live(o)
  {
    var front := d[..|d| - 1];
    if id == |d| - 1 {
      assert d[id := o][..|d| - 1] == front;
    } else {
      assert d[id := o][..|d| - 1] == front[id := o];
      LiveCountUpdate(front, id, o);
    }
  }

  lemma LiveCountPut(d: Docs, id: nat, doc: bytes)
    ensures LiveCount(Put(d, id, doc)) == LiveCount(d) + 1 - Live(At(d, id))
  {
    var p := PadTo(d, id + 1);
    if |d| < id + 1 {
      LiveCountConcat(d, Holes(id + 1 - |d|));
      LiveCountHoles(id + 1 - |d|);
    }
    LiveCountUpdate(p, id, Some(doc));
  }

  /** How many entries of a batch, from position `i` on, name an id that holds no document. */
  function Fresh(d: Docs, ids: seq<nat>, i: nat): (n: nat)
    requires i <= |ids|
    ensures n <= |ids| - i
    decreases |ids| - i
  {
    if i == |ids| then 0 else (if At(d, ids[i]).None? then 1 else 0) + Fresh(d, ids, i + 1)
  }

  predicate AllPicked(pick: seq<bool>, i: nat) {
    forall k | i <= k < |pick| :: pick[k]
  }

  lemma {:induction false} PickAll(d: Docs, ids: seq<nat>, batch: seq<bytes>, pick: seq<bool>, i: nat)
    requires i <= |ids| == |batch| == |pick| && AllPicked(pick, i)
    ensures PutPicked(d, ids, batch, pick, i) == PutFrom(d, ids, batch, i)
    decreases |ids| - i
  {
    if i < |ids| {
      PickAll(Put(d, ids[i], batch[i]), ids, batch, pick, i + 1);
    }
  }

  lemma {:induction false} PickNone(d: Docs, ids: seq<nat>, batch: seq<bytes>, pick: seq<bool>, i: nat)
    requires i <= |ids| == |batch| == |pick| && forall k | i <= k < |pick| :: !pick[k]
    ensures PutPicked(d, ids, batch, pick, i) == d
    decreases |ids| - i
  {
    if i < |ids| {
      PickNone(d, ids, batch, pick, i + 1);
    }
  }

  lemma PickNext(d: Docs, ids: seq<nat>, batch: seq<bytes>, pick: seq<bool>, i: nat)
    requires i < |ids| == |batch| == |pick|
    ensures PutPicked(d, ids, batch, pick, i) ==
            PutPicked(if pick[i] then Put(d, ids[i], batch[i]) else d, ids, batch, pick, i + 1)
  {
  }

  /** Two collections with documents under the same ids hold equally many. */
  lemma {:induction false} SameLive(d: Docs, e: Docs)
    requires |d| == |e| && forall i | 0 <= i < |d| :: d[i].Some? == e[i].Some?
    ensures LiveCount(d) == LiveCount(e)
  {
    if d != [] {
      SameLive(d[..|d| - 1], e[..|e| - 1]);
    }
  }

  /** `k` is the last selected entry of the batch that names `id`. */
  predicate IsLastWriter(ids: seq<nat>, pick: seq<bool>, i: nat, id: nat, k: int)
    requires |ids| == |pick|
  {
    i <= k < |ids| && pick[k] && ids[k] == id && forall j | k < j < |ids| && pick[j] :: ids[j] != id
  }

  /** What a batch of puts leaves at an id: its last writer's document, or what was there. */
  lemma {:induction false} PutPickedAt(d: Docs, ids: seq<nat>, batch: seq<bytes>, pick: seq<bool>, i: nat, id: nat)
    requires i <= |ids| == |batch| == |pick|
    ensures (forall k | i <= k < |ids| && pick[k] :: ids[k] != id) ==>
              At(PutPicked(d, ids, batch, pick, i), id) == At(d, id)
    ensures forall k | IsLastWriter(ids, pick, i, id, k) ::
              At(PutPicked(d, ids, batch, pick, i), id) == Some(batch[k])
    decreases |ids| - i
  {
    if i < |ids| {
      var d' := if pick[i] then Put(d, ids[i], batch[i]) else d;
      PutPickedAt(d', ids, batch, pick, i + 1, id);
      forall k | IsLastWriter(ids, pick, i, id, k)
        ensures At(PutPicked(d, ids, batch, pick, i), id) == Some(batch[k])
      {
        if k > i {
          assert IsLastWriter(ids, pick, i + 1, id, k);
        }
      }
    }
  }

  lemma {:induction false} LastWriterExists(ids: seq<nat>, pick: seq<bool>, i: nat, id: nat) returns (k: nat)
    requires |ids| == |pick| && i <= |ids|
    requires exists j :: i <= j < |ids| && pick[j] && ids[j] == id
    ensures IsLastWriter(ids, pick, i, id, k)
    decreases |ids| - i
  {
    if exists j :: i + 1 <= j < |ids| && pick[j] && ids[j] == id {
      k := LastWriterExists(ids, pick, i + 1, id);
    } else {
      k := i;
    }
  }

  /** One past the largest id of a batch from position `i` on. */
  function MaxId(ids: seq<nat>, i: nat): (m: nat)
    requires i <= |ids|
    ensures forall k | i <= k < |ids| :: ids[k] < m
    ensures i < |ids| ==> m > 0 && exists k :: i <= k < |ids| && ids[k] == m - 1
    decreases |ids| - i
  {
    if i == |ids| then 0 else Max(ids[i] + 1, MaxId(ids, i + 1))
  }

  lemma {:induction false} PutFromLength(d: Docs, ids: seq<nat>, batch: seq<bytes>, i: nat)
    requires i <= |ids| == |batch|
    ensures |PutFrom(d, ids, batch, i)| == Max(|d|, MaxId(ids, i))
    decreases |ids| - i
  {
    if i < |ids| {
      PutFromLength(Put(d, ids[i], batch[i]), ids, batch, i + 1);
    }
  }

  lemma {:induction false} PutPickedLength(d: Docs, ids: seq<nat>, batch: seq<bytes>, pick: seq<bool>, i: nat)
    requires i <= |ids| == |batch| == |pick|
    requires forall k | i <= k < |ids| :: ids[k] < |d|
    ensures |PutPicked(d, ids, batch, pick, i)| == |d|
    decreases |ids| - i
  {
    if i < |ids| {
      PutPickedLength(if pick[i] then Put(d, ids[i], batch[i]) else d, ids, batch, pick, i + 1);
    }
  }

  lemma {:induction false} EraseFromAt(d: Docs, ids: seq<nat>, i: nat, id: nat)
    requires i <= |ids|
    ensures At(EraseFrom(d, ids, i), id) == if id in ids[i..] then None else At(d, id)
    decreases |ids| - i
  {
    if i < |ids| {
      EraseFromAt(Erase(d, ids[i]), ids, i + 1, id);
      assert ids[i..] == [ids[i]] + ids[i + 1..];
    }
  }

  /** No id without a document is named twice. */
  predicate FreshDistinct(d: Docs, ids: seq<nat>, i: nat) {
    forall j, k | i <= j < k < |ids| && At(d, ids[j]).None? :: ids[j] != ids[k]
  }

  lemma PutAtOther(d: Docs, id: nat, doc: bytes, other: nat)
    ensures At(Put(d, id, doc), other) == if other == id then Some(doc) else At(d, other)
  {
  }

  lemma {:induction false} FreshAfterPut(d: Docs, ids: seq<nat>, i: nat, id: nat, doc: bytes)
    requires i <= |ids|
    ensures Fresh(Put(d, id, doc), ids, i) <= Fresh(d, ids, i)
    ensures At(d, id).Some? || id !in ids[i..] ==> Fresh(Put(d, id, doc), ids, i) == Fresh(d, ids, i)
    ensures At(d, id).None? && id in ids[i..] ==> Fresh(Put(d, id, doc), ids, i) < Fresh(d, ids, i)
    decreases |ids| - i
  {
    if i < |ids| {
      FreshAfterPut(d, ids, i + 1, id, doc);
      PutAtOther(d, id, doc, ids[i]);
      assert ids[i..] == [ids[i]] + ids[i + 1..];
    }
  }

  /** Whether an id without a document is named twice, seen from the first of the batch. */
  lemma FreshDistinctNext(d: Docs, ids: seq<nat>, i: nat, doc: bytes)
    requires i < |ids|
    ensures FreshDistinct(d, ids, i) <==>
            FreshDistinct(Put(d, ids[i], doc), ids, i + 1) && !(At(d, ids[i]).None? && ids[i] in ids[i + 1..])
  {
    var d' := Put(d, ids[i], doc);
    forall k | 0 <= k < |ids| ensures At(d', ids[k]) == if ids[k] == ids[i] then Some(doc) else At(d, ids[k]) {
      PutAtOther(d, ids[i], doc, ids[k]);
    }
    hide Put;
    assert forall k | i < k < |ids| :: ids[k] == ids[i + 1..][k - i - 1];
    if At(d, ids[i]).None? && ids[i] in ids[i + 1..] {
      var k :| 0 <= k < |ids[i + 1..]| && ids[i + 1..][k] == ids[i];
      assert ids[i + 1 + k] == ids[i];
    }
  }

  /** Counting each entry that names an empty id counts documents exactly when no such id repeats. */
  lemma {:induction false} LiveCountPutFrom(d: Docs, ids: seq<nat>, batch: seq<bytes>, i: nat)
    requires i <= |ids| == |batch|
    ensures LiveCount(PutFrom(d, ids, batch, i)) <= LiveCount(d) + Fresh(d, ids, i)
    ensures LiveCount(PutFrom(d, ids, batch, i)) == LiveCount(d) + Fresh(d, ids, i) <==> FreshDistinct(d, ids, i)
    decreases |ids| - i
  {
    if i < |ids| {
      hide Put, LiveCount, FreshDistinct, At;
      var d' := Put(d, ids[i], batch[i]);
      LiveCountPutFrom(d', ids, batch, i + 1);
      LiveCountPut(d, ids[i], batch[i]);
      LiveIs(At(d, ids[i]));
      FreshAfterPut(d, ids, i + 1, ids[i], batch[i]);
      FreshDistinctNext(d, ids, i, batch[i]);
    }
  }

  lemma LiveIs(o: Option<bytes>)
    ensures Live(o) == if o.None? then 0 else 1
  {
  }

  /** Two collections are equal when they have as many slots and agree at every id. */
  lemma SameDocs(d: Docs, e: Docs)
    requires |d| == |e|
    requires forall id | 0 <= id < |d| :: At(d, id) == At(e, id)
    ensures d == e
  {
    forall id | 0 <= id < |d| ensures d[id] == e[id] {
      assert At(d, id) == At(e, id);
    }
  }

  // ---- Batches in one buffer ----

  /** Where document `i` of a batch starts when the documents lie end to end. */
  function Start(sizes: seq<nat>, i: nat): nat
    requires i <= |sizes|
  {
    if i == 0 then 0 else Start(sizes, i - 1) + sizes[i - 1]
  }

  lemma {:induction false} StartMonotone(sizes: seq<nat>, i: nat, j: nat)
    requires i <= j <= |sizes|
    ensures Start(sizes, i) <= Start(sizes, j)
  {
    if i < j {
      StartMonotone(sizes, i, j - 1);
    }
  }

  /** A buffer of documents end to end, with their sizes. */
  predicate IsBatch(data: bytes, sizes: seq<nat>) {
    Start(sizes, |sizes|) <= |data|
  }

  function Slice(data: bytes, sizes: seq<nat>, i: nat): (doc: bytes)
    requires IsBatch(data, sizes) && i < |sizes|
    ensures |doc| == sizes[i]
  {
    StartMonotone(sizes, i + 1, |sizes|);
    data[Start(sizes, i)..Start(sizes, i) + sizes[i]]
  }

  function Slices(data: bytes, sizes: seq<nat>): (docs: seq<bytes>)
    requires IsBatch(data, sizes)
    ensures |docs| == |sizes|
  {
    seq(|sizes|, i requires 0 <= i < |sizes| => Slice(data, sizes, i))
  }

  lemma StartEnds(sizes: seq<nat>)
    ensures Start(sizes, 0) == 0
  {
  }

  lemma SliceWindow(data: bytes, sizes: seq<nat>, i: nat)
    requires IsBatch(data, sizes) && i < |sizes|
    ensures Start(sizes, i) + sizes[i] == Start(sizes, i + 1) <= |data|
    ensures Slices(data, sizes)[i] == data[Start(sizes, i)..Start(sizes, i) + sizes[i]]
  {
    StartMonotone(sizes, i + 1, |sizes|);
  }

  lemma {:induction false} StartPrefix(sizes: seq<nat>, n: nat, i: nat)
    requires i <= n <= |sizes|
    ensures Start(sizes[..n], i) == Start(sizes, i)
  {
    if i > 0 {
      StartPrefix(sizes, n, i - 1);
    }
  }

  lemma SlicesPrefix(data: bytes, sizes: seq<nat>, n: nat)
    requires IsBatch(data, sizes) && n <= |sizes|
    ensures IsBatch(data, sizes[..n]) && Slices(data, sizes[..n]) == Slices(data, sizes)[..n]
  {
    StartMonotone(sizes, n, |sizes|);
    StartPrefix(sizes, n, n);
    forall i | 0 <= i < n ensures Slices(data, sizes[..n])[i] == Slices(data, sizes)[i] {
      StartPrefix(sizes, n, i);
      SliceWindow(data, sizes, i);
      SliceWindow(data, sizes[..n], i);
    }
  }

  function Lengths(batch: seq<bytes>): (r: seq<nat>)
    ensures |r| == |batch|
  {
    seq(|batch|, i requires 0 <= i < |batch| => |batch[i]|)
  }

  lemma {:induction false} PackedStart(batch: seq<bytes>, i: nat)
    requires i <= |batch|
    ensures Start(Lengths(batch), i) == |Concat(batch[..i])|
  {
    if i > 0 {
      PackedStart(batch, i - 1);
      assert batch[..i][..i - 1] == batch[..i - 1];
    }
  }

  lemma ConcatWindow(batch: seq<bytes>, i: nat)
    requires i < |batch|
    ensures var lo := |Concat(batch[..i])|;
            lo + |batch[i]| <= |Concat(batch)| && Concat(batch)[lo..lo + |batch[i]|] == batch[i]
  {
    var before := Concat(batch[..i]);
    assert batch[..i + 1][..i] == batch[..i];
    assert Concat(batch[..i + 1]) == before + batch[i];
    ConcatPrefix(batch, i + 1);
    assert Concat(batch)[..|before| + |batch[i]|] == before + batch[i];
  }

  /** A batch laid end to end is cut back into the same documents. */
  lemma PackedBatch(batch: seq<bytes>)
    ensures IsBatch(Concat(batch), Lengths(batch)) && Slices(Concat(batch), Lengths(batch)) == batch
  {
    var data, lengths := Concat(batch), Lengths(batch);
    PackedStart(batch, |batch|);
    assert batch[..|batch|] == batch;
    forall i | 0 <= i < |batch| ensures Slices(data, lengths)[i] == batch[i] {
      hide Concat, Start;
      PackedStart(batch, i);
      ConcatWindow(batch, i);
      SliceWindow(data, lengths, i);
    }
  }

  // ---- Iteration ----

  /** A document filter: which documents pass, when no later one will, and how a passing one is rewritten. */
  datatype Filter = Filter(accept: (nat, bytes) -> bool, stop: bytes -> bool, rewrite: bytes -> bytes)

  type Call = (nat, bytes)

  /** A callback may remember its earlier calls; it is given the whole history, the new call last. */
  type Callback = seq<Call> -> Status

  /** The documents with ids in [from, upto) that pass the filter, in increasing id order. */
  function Matching(d: Docs, f: Filter, from: nat, upto: nat): seq<Call>
    decreases upto - from
  {
    if from >= upto || from >= |d| then []
    else (if d[from].Some? && f.accept(from, d[from].value) then [(from, f.rewrite(d[from].value))] else [])
         + Matching(d, f, from + 1, upto)
  }

  /** Hand the calls of `list` from position `i` on to `cb`, until `limit` were made or one fails. */
  function Deliver<T>(list: seq<T>, limit: nat, cb: seq<T> -> Status, i: nat): (r: (seq<T>, Status))
    requires i <= |list|
    ensures r.0 <= list
    ensures i <= |r.0|
    decreases |list| - i
  {
    if i == |list| || i >= limit then (list[..i], OK)
    else
      var s := cb(list[..i + 1]);
      if s != OK then (list[..i + 1], s) else Deliver(list, limit, cb, i + 1)
  }

  /** A filter's stop verdict is sound on `d` when no later document passes after it. */
  ghost predicate StopSound(d: Docs, f: Filter) {
    forall i, j | 0 <= i < j < |d| && d[i].Some? && d[j].Some?
                  && !f.accept(i, d[i].value) && f.stop(d[i].value) ::
      !f.accept(j, d[j].value)
  }

  lemma {:induction false} MatchingMembers(d: Docs, f: Filter, from: nat, upto: nat)
    ensures forall c | c in Matching(d, f, from, upto) ::
              from <= c.0 < upto && c.0 < |d| && d[c.0].Some? && f.accept(c.0, d[c.0].value)
              && c.1 == f.rewrite(d[c.0].value)
    ensures forall id | from <= id < upto && id < |d| && d[id].Some? && f.accept(id, d[id].value) ::
              (id, f.rewrite(d[id].value)) in Matching(d, f, from, upto)
    decreases upto - from
  {
    if !(from >= upto || from >= |d|) {
      MatchingMembers(d, f, from + 1, upto);
    }
  }

  /** `Matching` lists each passing document once, in increasing id order. */
  lemma {:induction false} MatchingAscending(d: Docs, f: Filter, from: nat, upto: nat)
    ensures forall i, j | 0 <= i < j < |Matching(d, f, from, upto)| ::
              Matching(d, f, from, upto)[i].0 < Matching(d, f, from, upto)[j].0
    decreases upto - from
  {
    if !(from >= upto || from >= |d|) {
      MatchingAscending(d, f, from + 1, upto);
      MatchingMembers(d, f, from + 1, upto);
      var rest := Matching(d, f, from + 1, upto);
      forall j | 0 <= j < |rest| ensures from < rest[j].0 {
        assert rest[j] in rest;
      }
    }
  }

  lemma {:induction false} MatchingSplit(d: Docs, f: Filter, from: nat, mid: nat, upto: nat)
    requires from <= mid <= upto
    ensures Matching(d, f, from, upto) == Matching(d, f, from, mid) + Matching(d, f, mid, upto)
    decreases mid - from
  {
    if from < mid {
      if from < |d| {
        MatchingSplit(d, f, from + 1, mid, upto);
      }
    }
  }

  lemma {:induction false} MatchingNone(d: Docs, f: Filter, from: nat, upto: nat)
    requires forall id | from <= id < upto && id < |d| && d[id].Some? :: !f.accept(id, d[id].value)
    ensures Matching(d, f, from, upto) == []
    decreases upto - from
  {
    if !(from >= upto || from >= |d|) {
      MatchingNone(d, f, from + 1, upto);
    }
  }

  /** A callback that never fails receives exactly the first `limit` calls. */
  lemma {:induction false} DeliverAll<T(!new)>(list: seq<T>, limit: nat, cb: seq<T> -> Status, i: nat)
    requires i <= |list|
    requires forall h :: cb(h) == OK
    ensures Deliver(list, limit, cb, i) == (list[..Max(i, Min(limit, |list|))], OK)
    decreases |list| - i
  {
    if !(i == |list| || i >= limit) {
      DeliverAll(list, limit, cb, i + 1);
    }
  }

  /**
   Whatever the callback answers: the calls are a beginning of the list, never more than `limit`; every call but the
   last one was answered OK; without a failure the limit or the end was reached, and a failure is the last answer.
   */
  lemma {:induction false} DeliverExact<T>(list: seq<T>, limit: nat, cb: seq<T> -> Status, i: nat)
    requires i <= |list| && i <= limit
    ensures var (calls, status) := Deliver(list, limit, cb, i);
            && calls <= list && |calls| <= limit
            && (forall n | i < n < |calls| :: cb(list[..n]) == OK)
            && (status == OK ==> |calls| == Min(limit, |list|) && (|calls| > i ==> cb(calls) == OK))
            && (status != OK ==> |calls| > i && cb(calls) == status)
    decreases |list| - i
  {
    if !(i == |list| || i >= limit) && cb(list[..i + 1]) == OK {
      DeliverExact(list, limit, cb, i + 1);
    }
  }

  // ---- Packed layout ----

  /** Bytes taken by the documents found among the first `n` items. */
  function PackedSize(items: Docs, n: nat): nat
    requires n <= |items|
  {
    if n == 0 then 0
    else PackedSize(items, n - 1) + (if items[n - 1].Some? then |items[n - 1].value| else 0)
  }

  /** Those documents end to end. */
  function PackedBytes(items: Docs, n: nat): (r: bytes)
    requires n <= |items|
    ensures |r| == PackedSize(items, n)
  {
    if n == 0 then []
    else PackedBytes(items, n - 1) + (if items[n - 1].Some? then items[n - 1].value else [])
  }

  /** `cut` is the first document that no longer fits after its predecessors, or the number of items. */
  ghost predicate IsCut(items: Docs, capacity: nat, cut: nat) {
    && cut <= |items|
    && PackedSize(items, cut) <= capacity
    && (cut < |items| ==> items[cut].Some? && PackedSize(items, cut + 1) > capacity)
  }

  lemma {:induction false} PackedSizeMonotone(items: Docs, i: nat, j: nat)
    requires i <= j <= |items|
    ensures PackedSize(items, i) <= PackedSize(items, j)
  {
    if i < j {
      PackedSizeMonotone(items, i, j - 1);
    }
  }

  /** Exactly the items before the cut fit, together with all that come before them. */
  lemma CutExact(items: Docs, capacity: nat, cut: nat, i: nat)
    requires IsCut(items, capacity, cut) && i < |items|
    ensures i < cut <==> PackedSize(items, i + 1) <= capacity
  {
    if i < cut {
      PackedSizeMonotone(items, i + 1, cut);
    } else {
      PackedSizeMonotone(items, cut + 1, i + 1);
    }
  }

  lemma CutUnique(items: Docs, capacity: nat, c: nat, c': nat)
    requires IsCut(items, capacity, c) && IsCut(items, capacity, c')
    ensures c == c'
  {
    if c < c' {
      PackedSizeMonotone(items, c + 1, c');
    } else if c' < c {
      PackedSizeMonotone(items, c' + 1, c);
    }
  }

  function SizeOf(o: Option<bytes>): nat {
    if o.Some? then |o.value| else KEY_NOT_FOUND
  }

  function ItemsOf(d: Docs, ids: seq<nat>): (r: Docs)
    ensures |r| == |ids|
  {
    seq(|ids|, i requires 0 <= i < |ids| => At(d, ids[i]))
  }

  lemma ItemAt(d: Docs, ids: seq<nat>, i: nat)
    requires i < |ids|
    ensures ItemsOf(d, ids)[i] == At(d, ids[i])
  {
  }

  /** What a packed load of `items` must leave in the buffer and in the size slots. */
  ghost predicate PackedLoad(items: Docs, capacity: nat, buffer: bytes, sizes: seq<nat>, cut: nat) {
    && IsCut(items, capacity, cut)
    && |sizes| == |items|
    && |buffer| == capacity
    && PackedBytes(items, cut) <= buffer
    && (forall k | 0 <= k < cut :: sizes[k] == SizeOf(items[k]))
    && (forall k | cut <= k < |items| :: sizes[k] == SIZE_TOO_SMALL)
  }

  /** The meaningful part of a packed load is determined by the items and the capacity. */
  lemma PackedLoadUnique(items: Docs, capacity: nat, b: bytes, s: seq<nat>, c: nat, b': bytes, s': seq<nat>, c': nat)
    requires PackedLoad(items, capacity, b, s, c) && PackedLoad(items, capacity, b', s', c')
    ensures c == c' && s == s' && b[..PackedSize(items, c)] == b'[..PackedSize(items, c)]
  {
    CutUnique(items, capacity, c, c');
  }

  // ---- A packed load in progress ----

  /** The first `i` items are dealt with and `used` bytes of the buffer are taken. */
  ghost predicate LoadedSoFar(items: Docs, buffer: bytes, sizes: seq<nat>, i: nat, used: nat) {
    && i <= |items| == |sizes|
    && used == PackedSize(items, i) <= |buffer|
    && PackedBytes(items, i) == buffer[..used]
    && forall k | 0 <= k < i :: sizes[k] == SizeOf(items[k])
  }

  lemma LoadStart(items: Docs, buffer: bytes, sizes: seq<nat>)
    requires |items| == |sizes|
    ensures LoadedSoFar(items, buffer, sizes, 0, 0)
  {
  }

  lemma LoadAbsent(items: Docs, buffer: bytes, sizes: seq<nat>, i: nat, used: nat, sizes': seq<nat>)
    requires LoadedSoFar(items, buffer, sizes, i, used) && i < |items| && items[i].None?
    requires sizes' == sizes[i := KEY_NOT_FOUND]
    ensures LoadedSoFar(items, buffer, sizes', i + 1, used)
  {
  }

  lemma LoadFound(items: Docs, buffer: bytes, sizes: seq<nat>, i: nat, used: nat, buffer': bytes, sizes': seq<nat>)
    requires LoadedSoFar(items, buffer, sizes, i, used) && i < |items| && items[i].Some?
    requires |items[i].value| <= |buffer| - used
    requires buffer' == Splice(buffer, used, items[i].value) && sizes' == sizes[i := |items[i].value|]
    ensures LoadedSoFar(items, buffer', sizes', i + 1, used + |items[i].value|)
  {
    var doc := items[i].value;
    assert buffer'[..used + |doc|] == buffer[..used] + doc;
  }

  lemma LoadCut(items: Docs, buffer: bytes, sizes: seq<nat>, i: nat, used: nat, sizes': seq<nat>)
    requires LoadedSoFar(items, buffer, sizes, i, used) && i < |items| && items[i].Some?
    requires |items[i].value| > |buffer| - used
    requires |sizes'| == |sizes|
    requires forall k | 0 <= k < |sizes| :: sizes'[k] == if k < i then sizes[k] else SIZE_TOO_SMALL
    ensures PackedLoad(items, |buffer|, buffer, sizes', i)
  {
    assert PackedBytes(items, i) <= buffer;
  }

  lemma LoadEnd(items: Docs, buffer: bytes, sizes: seq<nat>, used: nat)
    requires LoadedSoFar(items, buffer, sizes, |items|, used)
    ensures PackedLoad(items, |buffer|, buffer, sizes, |items|)
  {
    assert PackedBytes(items, |items|) <= buffer;
  }
}
