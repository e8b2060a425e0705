/** What the log's update does, whatever the batch. */
module LogUpdateResults {
  // The collection, the live rows and the size in the header after any update of any well-formed log: with repeated
  // ids, documents no chunk can hold, and rows that lost their place.

  import opened Basics
  import opened Documents
  import opened LogModel
  import opened LogOperations
  import opened LogUpdate

  /** Outcome of an update; `Crashed` is the dereference of a null chunk pointer. */
  datatype Outcome = Finished(status: Status, log: Log) | Crashed

  predicate UpdateRoom(log: Log, ids: seq<nat>) {
    ChunkRoom(log, |ids| + 1) && Room(log, 0) && MaxId(ids, 0) < 0x200_0000_0000_0000
  }

  lemma PadKnows(log: Log, ids: seq<nat>, docs: seq<bytes>)
    requires WF(log) && ChunkRoom(log, 0) && |ids| == |docs|
    ensures KnownIds(PadEntries(log, MaxId(ids, 0)), ids, docs)
  {
  }

  /** The update of a batch; the final status is that of a flush, which succeeds whatever was stored. */
  ghost function Update(log: Log, ids: seq<nat>, docs: seq<bytes>): Outcome
    requires WF(log) && |ids| == |docs| > 0 && UpdateRoom(log, ids)
  {
    if AnyLonger(docs, log.chunkSize) then Finished(SizeError, log)
    else
      var padded := PadEntries(log, MaxId(ids, 0));
      PadRefines(log, MaxId(ids, 0));
      PadKnows(log, ids, docs);
      match Pass1(padded, ids, docs, [])
      case NullPass => Crashed
      case FirstPass(s, log1, read) =>
        if s != OK then Finished(s, log1)
        else if log.chunkSize < 8 then Finished(SizeError, log1)
        else Finished(OK, Pass2(log1, ids, docs, read, 0))
  }

  /** The update step by step. */
  lemma UpdateUnfold(log: Log, ids: seq<nat>, docs: seq<bytes>)
    requires WF(log) && |ids| == |docs| > 0 && UpdateRoom(log, ids)
    ensures ChunkRoom(log, 1) && |log.entries| < 0x200_0000_0000_0000 && MaxId(ids, 0) < 0x200_0000_0000_0000
    ensures AnyLonger(docs, log.chunkSize) ==> Update(log, ids, docs) == Finished(SizeError, log)
    ensures !AnyLonger(docs, log.chunkSize) ==>
              var padded := PadEntries(log, MaxId(ids, 0));
              && WF(padded) && ChunkRoom(padded, 1) && KnownIds(padded, ids, docs)
              && var r := Pass1(padded, ids, docs, []);
                 && (r.NullPass? ==> Update(log, ids, docs) == Crashed)
                 && (r.FirstPass? ==>
                       && r.status == OK && WF(r.log) && r.log.chunkSize == log.chunkSize && |r.read| == |ids|
                       && |r.log.entries| >= MaxId(ids, 0)
                       && (log.chunkSize < 8 ==> Update(log, ids, docs) == Finished(SizeError, r.log))
                       && (log.chunkSize >= 8 ==>
                             KnownIds(r.log, ids, docs) && ChunkRoom(r.log, |ids|) && Shape(r.log)
                             && Update(log, ids, docs) == Finished(OK, Pass2(r.log, ids, docs, r.read, 0))))
  {
    PadRefines(log, MaxId(ids, 0));
    PadKnows(log, ids, docs);
  }

  // ---- An update always leaves a well-formed log ----

  lemma {:induction false} Pass2Keeps(log: Log, ids: seq<nat>, docs: seq<bytes>, read: seq<Entry>, i: nat)
    requires WF(log) && log.chunkSize >= 8
    requires KnownIds(log, ids, docs) && |read| == |ids| && i <= |ids| && ChunkRoom(log, |ids| - i)
    ensures var log' := Pass2(log, ids, docs, read, i);
            WF(log') && |log'.entries| == |log.entries| && |log'.chunks| <= |log.chunks| + (|ids| - i)
    decreases |ids| - i
  {
    hide Pass2, Place, DocsOf, Apart, EntryOk, ChunkOk;
    if i == |ids| {
      Pass2End(log, ids, docs, read);
    } else {
      Pass2Unfold(log, ids, docs, read, i);
      if |docs[i]| <= read[i].alloc {
        Pass2Keeps(log, ids, docs, read, i + 1);
      } else if |docs[i]| > log.chunkSize - 8 {
        PlaceRefused(log, docs[i]);
      } else {
        Pass2Step(log, ids[i], read[i], docs[i]);
        Pass2Keeps(WithPlaced(log, ids[i], read[i], Place(log, docs[i])), ids, docs, read, i + 1);
      }
    }
  }

  lemma UpdateKeeps(log: Log, ids: seq<nat>, docs: seq<bytes>)
    requires WF(log) && |ids| == |docs| > 0 && UpdateRoom(log, ids)
    ensures var r := Update(log, ids, docs);
            r.Finished? ==> WF(r.log) && |r.log.chunks| <= |log.chunks| + |ids|
                            && |r.log.entries| <= Max(|log.entries|, MaxId(ids, 0))
  {
    if !AnyLonger(docs, log.chunkSize) {
      var padded := PadEntries(log, MaxId(ids, 0));
      PadRefines(log, MaxId(ids, 0));
      PadKnows(log, ids, docs);
      var r := Pass1(padded, ids, docs, []);
      if r.FirstPass? && log.chunkSize >= 8 {
        Pass2Keeps(r.log, ids, docs, r.read, 0);
      }
    }
  }

  // ---- What an update does ----

  function AllocOf(log: Log, id: nat): nat {
    if id < |log.entries| then log.entries[id].alloc else 0
  }

  predicate PlacedAt(log: Log, id: nat) {
    id < |log.entries| && IsPlaced(log.entries[id])
  }

  /** The document would be written in place although its row, erased or never written, has no place. */
  predicate Misplaced(log: Log, id: nat, doc: bytes) {
    !PlacedAt(log, id) && |doc| <= AllocOf(log, id)
  }

  predicate NoneMisplaced(log: Log, ids: seq<nat>, docs: seq<bytes>)
    requires |ids| == |docs|
  {
    forall k | 0 <= k < |ids| :: !Misplaced(log, ids[k], docs[k])
  }

  /** Some document of the batch is written in place without a place, and is not empty. */
  predicate CrashesOn(log: Log, ids: seq<nat>, docs: seq<bytes>)
    requires |ids| == |docs|
  {
    exists k :: 0 <= k < |ids| && docs[k] != [] && Misplaced(log, ids[k], docs[k])
  }

  /** Which documents of the batch are written over a document that is there. */
  function Overwritten(log: Log, ids: seq<nat>, docs: seq<bytes>): (r: seq<bool>)
    requires |ids| == |docs|
    ensures |r| == |ids|
  {
    seq(|ids|, k requires 0 <= k < |ids| => |docs[k]| <= AllocOf(log, ids[k]) && PlacedAt(log, ids[k]))
  }

  /** The first document from `i` on that has to be appended and that no chunk can hold, or the end of the batch. */
  function CutFrom(log: Log, ids: seq<nat>, docs: seq<bytes>, i: nat): (k: nat)
    requires i <= |ids| == |docs|
    ensures i <= k <= |ids|
    ensures forall j | i <= j < k :: |docs[j]| <= AllocOf(log, ids[j]) || |docs[j]| <= log.chunkSize - 8
    ensures k < |ids| ==> |docs[k]| > AllocOf(log, ids[k]) && |docs[k]| > log.chunkSize - 8
    decreases |ids| - i
  {
    if i == |ids| || (|docs[i]| > AllocOf(log, ids[i]) && |docs[i]| > log.chunkSize - 8) then i
    else CutFrom(log, ids, docs, i + 1)
  }

  /** Which documents of the batch are appended. */
  function AppendedOf(log: Log, ids: seq<nat>, docs: seq<bytes>): (r: seq<bool>)
    requires |ids| == |docs|
    ensures |r| == |ids|
  {
    var cut := CutFrom(log, ids, docs, 0);
    seq(|ids|, k requires 0 <= k < |ids| => k < cut && |docs[k]| > AllocOf(log, ids[k]))
  }

  /** The collection after an update: first what is overwritten, then what is appended, each in order. */
  function AfterUpdate(log: Log, d: Docs, ids: seq<nat>, docs: seq<bytes>): Docs
    requires |ids| == |docs|
  {
    PutPicked(PutPicked(PadTo(d, MaxId(ids, 0)), ids, docs, Overwritten(log, ids, docs), 0), ids, docs,
              AppendedOf(log, ids, docs), 0)
  }

  predicate LiveAt(log: Log, id: nat) {
    id < |log.entries| && IsLive(log.entries[id])
  }

  /** Some document that fits the old allocation of `id` is among those from `i` to `n`. */
  predicate FitsAmong(log: Log, ids: seq<nat>, docs: seq<bytes>, i: nat, n: nat, id: nat)
    requires n <= |ids| == |docs|
  {
    exists j :: i <= j < n && ids[j] == id && |docs[j]| <= AllocOf(log, id)
  }

  predicate AppendedAmong(log: Log, ids: seq<nat>, docs: seq<bytes>, n: nat, id: nat)
    requires n <= |ids| == |docs|
  {
    exists j :: 0 <= j < n && ids[j] == id && AppendedOf(log, ids, docs)[j]
  }

  /**
   The appended document counts as a new one although another of the batch has claimed its row, which was not live:
   one appended before it, or one written in place after it.
   */
  predicate Recounted(log: Log, ids: seq<nat>, docs: seq<bytes>, k: nat)
    requires k < |ids| == |docs|
  {
    && AppendedOf(log, ids, docs)[k] && !LiveAt(log, ids[k]) && !FitsAmong(log, ids, docs, 0, k, ids[k])
    && (AppendedAmong(log, ids, docs, k, ids[k]) || FitsAmong(log, ids, docs, k, |ids|, ids[k]))
  }

  predicate NoneRecounted(log: Log, ids: seq<nat>, docs: seq<bytes>)
    requires |ids| == |docs|
  {
    forall k | 0 <= k < |ids| :: !Recounted(log, ids, docs, k)
  }

  /** What an update that reaches its end has done. */
  ghost predicate Means(log: Log, ids: seq<nat>, docs: seq<bytes>, log': Log)
    requires |ids| == |docs|
  {
    && WF(log) && WF(log') && |log'.entries| == Max(|log.entries|, MaxId(ids, 0))
    && DocsOf(log') == AfterUpdate(log, DocsOf(log), ids, docs)
    && Drift(log') >= Drift(log) && (Drift(log') == Drift(log) <==> NoneRecounted(log, ids, docs))
    && forall id | 0 <= id < |log'.entries| ::
         IsLive(log'.entries[id]) <==>
         LiveAt(log, id) || FitsAmong(log, ids, docs, 0, |ids|, id) || AppendedAmong(log, ids, docs, |ids|, id)
  }

  // ---- The padded log ----

  lemma PaddedRow(log: Log, n: nat, id: nat)
    requires ChunkRoom(log, 0) && log.chunks != [] && id < Max(|log.entries|, n)
    ensures var padded := PadEntries(log, n);
            && padded.entries[id].alloc == AllocOf(log, id)
            && IsPlaced(padded.entries[id]) == PlacedAt(log, id)
            && IsLive(padded.entries[id]) == LiveAt(log, id)
  {
  }

  lemma PaddedDrift(log: Log, n: nat)
    requires 0 < |log.chunks| < MAX_FILE
    ensures Drift(PadEntries(log, n)) == Drift(log)
  {
    if n > |log.entries| {
      var more := seq(n - |log.entries|, _ => Placeholder(log));
      RowsPushed(log.entries, more);
      assert Rows(more) == Holes(n - |log.entries|);
      LiveCountHoles(n - |log.entries|);
    }
  }

  lemma PaddedCrash(log: Log, ids: seq<nat>, docs: seq<bytes>, padded: Log)
    requires WF(log) && ChunkRoom(log, 1) && |ids| == |docs| && padded == PadEntries(log, MaxId(ids, 0))
    requires WF(padded) && ChunkRoom(padded, 1) && KnownIds(padded, ids, docs)
    ensures Pass1(padded, ids, docs, []).NullPass? <==> CrashesOn(log, ids, docs)
  {
    Pass1Null(padded, ids, docs, []);
    forall k | 0 <= k < |ids|
      ensures InPlaceWithoutPlace(padded, ids[k], docs[k]) <==> Misplaced(log, ids[k], docs[k])
    {
      PaddedRow(log, MaxId(ids, 0), ids[k]);
    }
  }

  lemma PaddedOverwrites(log: Log, ids: seq<nat>, docs: seq<bytes>, padded: Log)
    requires ChunkRoom(log, 0) && log.chunks != [] && |ids| == |docs|
    requires padded == PadEntries(log, MaxId(ids, 0)) && KnownIds(padded, ids, docs)
    ensures Overwrites(padded, ids, docs) == Overwritten(log, ids, docs)
  {
    forall k | 0 <= k < |ids| ensures Overwrites(padded, ids, docs)[k] == Overwritten(log, ids, docs)[k] {
      PaddedRow(log, MaxId(ids, 0), ids[k]);
    }
  }

  lemma PaddedLiveBy(log: Log, ids: seq<nat>, docs: seq<bytes>, padded: Log, n: nat, id: nat)
    requires ChunkRoom(log, 0) && log.chunks != [] && n <= |ids| == |docs|
    requires padded == PadEntries(log, MaxId(ids, 0)) && id < |padded.entries|
    ensures LiveBy(padded, ids, docs, 0, n, id) <==> LiveAt(log, id) || FitsAmong(log, ids, docs, 0, n, id)
  {
    PaddedRow(log, MaxId(ids, 0), id);
    assert forall doc :: FitsOld(padded, id, doc) <==> |doc| <= AllocOf(log, id);
  }

  // ---- The rows that the first pass read ----

  /** The rows read by the first pass, in terms of the log before it. */
  ghost predicate ReadsOf(log: Log, ids: seq<nat>, docs: seq<bytes>, read: seq<Entry>) {
    && |ids| == |docs| == |read|
    && forall k | 0 <= k < |ids| ::
         && read[k].alloc == AllocOf(log, ids[k])
         && (IsLive(read[k]) <==> LiveAt(log, ids[k]) || FitsAmong(log, ids, docs, 0, k + 1, ids[k]))
  }

  lemma ReadsOfPadded(log: Log, ids: seq<nat>, docs: seq<bytes>, padded: Log, read: seq<Entry>)
    requires ChunkRoom(log, 0) && log.chunks != [] && |ids| == |docs|
    requires padded == PadEntries(log, MaxId(ids, 0)) && KnownIds(padded, ids, docs)
    requires ReadsRows(padded, ids, docs, read, 0)
    ensures ReadsOf(log, ids, docs, read)
  {
    hide LiveBy, FitsAmong;
    forall k | 0 <= k < |ids|
      ensures read[k].alloc == AllocOf(log, ids[k])
      ensures IsLive(read[k]) <==> LiveAt(log, ids[k]) || FitsAmong(log, ids, docs, 0, k + 1, ids[k])
    {
      PaddedRow(log, MaxId(ids, 0), ids[k]);
      PaddedLiveBy(log, ids, docs, padded, k + 1, ids[k]);
    }
  }

  lemma {:induction false} CutIs(log: Log, ids: seq<nat>, docs: seq<bytes>, read: seq<Entry>, i: nat)
    requires ReadsOf(log, ids, docs, read) && i <= |ids|
    ensures FirstRefused(docs, read, log.chunkSize, i) == CutFrom(log, ids, docs, i)
    decreases |ids| - i
  {
    if i < |ids| {
      CutIs(log, ids, docs, read, i + 1);
    }
  }

  lemma AppendsAre(log: Log, ids: seq<nat>, docs: seq<bytes>, read: seq<Entry>)
    requires ReadsOf(log, ids, docs, read)
    ensures Appends(docs, read, FirstRefused(docs, read, log.chunkSize, 0)) == AppendedOf(log, ids, docs)
  {
    CutIs(log, ids, docs, read, 0);
    hide FirstRefused, CutFrom;
  }

  /** The rows that are live after the first pass. */
  ghost predicate LiveThen(log: Log, ids: seq<nat>, docs: seq<bytes>, log1: Log)
    requires |ids| == |docs|
  {
    forall id | 0 <= id < |log1.entries| ::
      IsLive(log1.entries[id]) <==> LiveAt(log, id) || FitsAmong(log, ids, docs, 0, |ids|, id)
  }

  lemma LiveThenPadded(log: Log, ids: seq<nat>, docs: seq<bytes>, padded: Log, log1: Log)
    requires ChunkRoom(log, 0) && log.chunks != [] && |ids| == |docs|
    requires padded == PadEntries(log, MaxId(ids, 0)) && LiveAfter(padded, ids, docs, log1, 0)
    ensures LiveThen(log, ids, docs, log1)
  {
    hide LiveBy, FitsAmong, LiveAt;
    forall id | 0 <= id < |log1.entries|
      ensures IsLive(log1.entries[id]) <==> LiveAt(log, id) || FitsAmong(log, ids, docs, 0, |ids|, id)
    {
      PaddedLiveBy(log, ids, docs, padded, |ids|, id);
    }
  }

  lemma ReadyThen(log: Log, ids: seq<nat>, docs: seq<bytes>, log1: Log, read: seq<Entry>)
    requires ReadsOf(log, ids, docs, read) && LiveThen(log, ids, docs, log1) && KnownIds(log1, ids, docs)
    ensures Ready(log1, ids, docs, read)
  {
    forall k | 0 <= k < |ids| && IsLive(read[k]) ensures IsLive(log1.entries[ids[k]]) {
      assert FitsAmong(log, ids, docs, 0, k + 1, ids[k]) ==> FitsAmong(log, ids, docs, 0, |ids|, ids[k]);
    }
  }

  lemma FitsSplit(log: Log, ids: seq<nat>, docs: seq<bytes>, k: nat)
    requires k < |ids| == |docs|
    ensures FitsAmong(log, ids, docs, 0, |ids|, ids[k]) <==>
            FitsAmong(log, ids, docs, 0, k, ids[k]) || FitsAmong(log, ids, docs, k, |ids|, ids[k])
    ensures FitsAmong(log, ids, docs, 0, k + 1, ids[k]) <==>
            FitsAmong(log, ids, docs, 0, k, ids[k]) || |docs[k]| <= AllocOf(log, ids[k])
  {
    if FitsAmong(log, ids, docs, 0, |ids|, ids[k]) {
      var j :| 0 <= j < |ids| && ids[j] == ids[k] && |docs[j]| <= AllocOf(log, ids[k]);
    }
    if FitsAmong(log, ids, docs, 0, k + 1, ids[k]) {
      var j :| 0 <= j < k + 1 && ids[j] == ids[k] && |docs[j]| <= AllocOf(log, ids[k]);
    }
  }

  lemma DoubledIs(log: Log, ids: seq<nat>, docs: seq<bytes>, log1: Log, read: seq<Entry>, k: nat)
    requires ReadsOf(log, ids, docs, read) && LiveThen(log, ids, docs, log1) && KnownIds(log1, ids, docs) && k < |ids|
    ensures Doubled(log1, ids, read, AppendedOf(log, ids, docs), 0, k) <==> Recounted(log, ids, docs, k)
  {
    FitsSplit(log, ids, docs, k);
    var pick := AppendedOf(log, ids, docs);
    assert pick[k] ==> |docs[k]| > AllocOf(log, ids[k]);
    hide FitsAmong, CutFrom, AllocOf, AppendedOf;
  }

  lemma NoneDoubledIs(log: Log, ids: seq<nat>, docs: seq<bytes>, log1: Log, read: seq<Entry>)
    requires ReadsOf(log, ids, docs, read) && LiveThen(log, ids, docs, log1) && KnownIds(log1, ids, docs)
    ensures NoneDoubled(log1, ids, read, AppendedOf(log, ids, docs), 0) <==> NoneRecounted(log, ids, docs)
  {
    assert |read| == |ids|;
    hide LiveThen, ReadsOf, Recounted, Doubled, AppendedOf;
    var pick := AppendedOf(log, ids, docs);
    forall k | 0 <= k < |ids| ensures Doubled(log1, ids, read, pick, 0, k) <==> Recounted(log, ids, docs, k) {
      DoubledIs(log, ids, docs, log1, read, k);
    }
  }

  // ---- Both passes ----

  lemma LiveAtEnd(log: Log, ids: seq<nat>, docs: seq<bytes>, log1: Log, id: nat)
    requires |ids| == |docs| && LiveThen(log, ids, docs, log1) && id < |log1.entries|
    ensures LiveWith(log1, ids, AppendedOf(log, ids, docs), 0, |ids|, id) <==>
            LiveAt(log, id) || FitsAmong(log, ids, docs, 0, |ids|, id) || AppendedAmong(log, ids, docs, |ids|, id)
  {
    hide FitsAmong, AppendedOf;
  }

  /** The first pass in terms of the log before the update. */
  ghost predicate Halfway(log: Log, ids: seq<nat>, docs: seq<bytes>, log1: Log, read: seq<Entry>) {
    && WF(log) && WF(log1) && KnownIds(log1, ids, docs) && |log1.entries| == Max(|log.entries|, MaxId(ids, 0))
    && ReadsOf(log, ids, docs, read) && LiveThen(log, ids, docs, log1) && Drift(log1) == Drift(log)
    && DocsOf(log1) == PutPicked(PadTo(DocsOf(log), MaxId(ids, 0)), ids, docs, Overwritten(log, ids, docs), 0)
  }

  lemma PassedParts(padded: Log, ids: seq<nat>, docs: seq<bytes>, log1: Log, read: seq<Entry>)
    requires Passed(padded, ids, docs, [], FirstPass(OK, log1, read))
    ensures WF(log1) && KnownIds(padded, ids, docs) && WF(padded) && |log1.entries| == |padded.entries|
    ensures ReadsRows(padded, ids, docs, read, 0) && LiveAfter(padded, ids, docs, log1, 0)
            && Drift(log1) == Drift(padded)
    ensures DocsOf(log1) == PutPicked(DocsOf(padded), ids, docs, Overwrites(padded, ids, docs), 0)
  {
    hide WF, DocsOf, PutPicked, Overwrites, ReadsRows, Drift;
  }

  lemma HalfwayThere(log: Log, ids: seq<nat>, docs: seq<bytes>, padded: Log, log1: Log, read: seq<Entry>)
    requires WF(log) && ChunkRoom(log, 0) && log.chunks != [] && |ids| == |docs|
    requires padded == PadEntries(log, MaxId(ids, 0)) && WF(padded) && KnownIds(log1, ids, docs)
    requires DocsOf(padded) == PadTo(DocsOf(log), MaxId(ids, 0))
    requires Passed(padded, ids, docs, [], FirstPass(OK, log1, read))
    ensures Halfway(log, ids, docs, log1, read)
  {
    hide WF, DocsOf, ReadsRows, LiveAfter, LiveThen, Drift, Overwrites, Overwritten, ReadsOf, PutPicked, Passed;
    PassedParts(padded, ids, docs, log1, read);
    PaddedDrift(log, MaxId(ids, 0));
    PaddedOverwrites(log, ids, docs, padded);
    ReadsOfPadded(log, ids, docs, padded, read);
    LiveThenPadded(log, ids, docs, padded, log1);
  }

  lemma MeansThen(log: Log, ids: seq<nat>, docs: seq<bytes>, log1: Log, read: seq<Entry>, log': Log)
    requires Halfway(log, ids, docs, log1, read) && log1.chunkSize == log.chunkSize
    requires Appended(log1, ids, docs, read, FirstRefused(docs, read, log.chunkSize, 0), 0, log')
    ensures Means(log, ids, docs, log')
  {
    hide WF, DocsOf, AppendedOf, Appends, LiveWith, LiveThen, Drift, NoneDoubled, NoneRecounted, FirstRefused,
      FitsAmong, AppendedAmong, LiveAt, Overwritten, ReadsOf, NoStray, PutPicked;
    AppendsAre(log, ids, docs, read);
    NoneDoubledIs(log, ids, docs, log1, read);
    forall id | 0 <= id < |log'.entries|
      ensures IsLive(log'.entries[id]) <==>
              LiveAt(log, id) || FitsAmong(log, ids, docs, 0, |ids|, id) || AppendedAmong(log, ids, docs, |ids|, id)
    {
      LiveAtEnd(log, ids, docs, log1, id);
    }
  }

  /** Any update of any well-formed log: it is refused, crashes, or does exactly this. */
  lemma UpdateMeans(log: Log, ids: seq<nat>, docs: seq<bytes>)
    requires WF(log) && |ids| == |docs| > 0 && UpdateRoom(log, ids)
    ensures var r := Update(log, ids, docs);
            if AnyLonger(docs, log.chunkSize) then r == Finished(SizeError, log)
            else if CrashesOn(log, ids, docs) then r == Crashed
            else if log.chunkSize < 8 then
              r.Finished? && r.status == SizeError && WF(r.log) && Drift(r.log) == Drift(log)
            else r.Finished? && r.status == OK && Means(log, ids, docs, r.log)
  {
    assert Shape(log) && log.chunks != [];
    hide WF, DocsOf, Shape, Update, Pass1, Pass2, Means, Passed, Appended, Ready, CrashesOn, Halfway, FirstRefused,
      Drift, ReadsRows, LiveAfter;
    UpdateUnfold(log, ids, docs);
    if !AnyLonger(docs, log.chunkSize) {
      var padded := PadEntries(log, MaxId(ids, 0));
      PadRefines(log, MaxId(ids, 0));
      PaddedCrash(log, ids, docs, padded);
      var r := Pass1(padded, ids, docs, []);
      if r.FirstPass? {
        Pass1Refines(padded, ids, docs, []);
        PassedParts(padded, ids, docs, r.log, r.read);
        PaddedDrift(log, MaxId(ids, 0));
      }
      if r.FirstPass? && log.chunkSize >= 8 {
        HalfwayThere(log, ids, docs, padded, r.log, r.read);
        HalfwayReady(log, ids, docs, r.log, r.read);
        var cut := FirstRefused(docs, r.read, log.chunkSize, 0);
        Pass2Refines(r.log, ids, docs, r.read, cut, 0);
        MeansThen(log, ids, docs, r.log, r.read, Pass2(r.log, ids, docs, r.read, 0));
      }
    }
  }

  lemma HalfwayReady(log: Log, ids: seq<nat>, docs: seq<bytes>, log1: Log, read: seq<Entry>)
    requires Halfway(log, ids, docs, log1, read)
    ensures Ready(log1, ids, docs, read)
  {
    hide WF, DocsOf;
    ReadyThen(log, ids, docs, log1, read);
  }
}
