/** The exact conditions under which the log's update is the abstract update. */
module LogUpdateExact {
  // For any batch, repeated ids and lost rows included, then in the simpler words that batches of suitable sizes and
  // batches of distinct ids allow.

  import opened Basics
  import opened Documents
  import opened LogModel
  import opened LogOperations
  import opened LogUpdateResults

  // ---- The abstract update of a batch ----

  predicate IsLastUse(ids: seq<nat>, k: int) {
    0 <= k < |ids| && forall j | k < j < |ids| :: ids[j] != ids[k]
  }

  function Everything(n: nat): (r: seq<bool>)
    ensures |r| == n
  {
    seq(n, _ => true)
  }

  lemma PutFromAt(d: Docs, ids: seq<nat>, docs: seq<bytes>, id: nat)
    requires |ids| == |docs|
    ensures (forall k | 0 <= k < |ids| :: ids[k] != id) ==> At(PutFrom(d, ids, docs, 0), id) == At(d, id)
    ensures forall k | IsLastUse(ids, k) && ids[k] == id :: At(PutFrom(d, ids, docs, 0), id) == Some(docs[k])
  {
    var pick := Everything(|ids|);
    PickAll(d, ids, docs, pick, 0);
    PutPickedAt(d, ids, docs, pick, 0, id);
    forall k | IsLastUse(ids, k) && ids[k] == id ensures At(PutFrom(d, ids, docs, 0), id) == Some(docs[k]) {
      assert IsLastWriter(ids, pick, 0, id, k);
    }
  }

  /** An id that the batch names has a last use. */
  lemma LastUseExists(ids: seq<nat>, id: nat) returns (k: nat)
    requires exists j :: 0 <= j < |ids| && ids[j] == id
    ensures IsLastUse(ids, k) && ids[k] == id
  {
    var j :| 0 <= j < |ids| && ids[j] == id;
    assert Everything(|ids|)[j];
    k := LastWriterExists(ids, Everything(|ids|), 0, id);
    assert forall i | k < i < |ids| :: Everything(|ids|)[i];
  }

  // ---- Any batch ----

  /**
   What the update leaves at an id: the last document appended for it, else the last overwritten, else what was
   there.
   */
  lemma AfterUpdateAt(log: Log, d: Docs, ids: seq<nat>, docs: seq<bytes>, id: nat)
    requires |ids| == |docs|
    ensures var after := At(AfterUpdate(log, d, ids, docs), id);
            && (forall j | IsLastWriter(ids, AppendedOf(log, ids, docs), 0, id, j) :: after == Some(docs[j]))
            && (!AppendedAmong(log, ids, docs, |ids|, id) ==>
                  && (forall j | IsLastWriter(ids, Overwritten(log, ids, docs), 0, id, j) :: after == Some(docs[j]))
                  && ((forall j | 0 <= j < |ids| && ids[j] == id :: !Overwritten(log, ids, docs)[j]) ==>
                        after == At(d, id)))
  {
    var over, app := Overwritten(log, ids, docs), AppendedOf(log, ids, docs);
    var padded := PadTo(d, MaxId(ids, 0));
    var first := PutPicked(padded, ids, docs, over, 0);
    PutPickedAt(padded, ids, docs, over, 0, id);
    PutPickedAt(first, ids, docs, app, 0, id);
    assert At(padded, id) == At(d, id);
    hide Overwritten, AppendedOf, PutPicked, PadTo;
  }

  lemma AfterUpdateLength(log: Log, d: Docs, ids: seq<nat>, docs: seq<bytes>)
    requires |ids| == |docs|
    ensures |AfterUpdate(log, d, ids, docs)| == |PutFrom(d, ids, docs, 0)|
  {
    var padded := PadTo(d, MaxId(ids, 0));
    PutPickedLength(padded, ids, docs, Overwritten(log, ids, docs), 0);
    PutPickedLength(PutPicked(padded, ids, docs, Overwritten(log, ids, docs), 0), ids, docs, AppendedOf(log, ids, docs),
                    0);
    PutFromLength(d, ids, docs, 0);
  }

  /**
   The last document given for an id stays: it overwrites one that is there and nothing is appended for the id, or it
   has to be appended and what is appended last for the id is no different.
   */
  predicate LastDocStays(log: Log, ids: seq<nat>, docs: seq<bytes>, k: nat)
    requires k < |ids| == |docs|
  {
    if |docs[k]| <= AllocOf(log, ids[k]) then
      PlacedAt(log, ids[k]) && !AppendedAmong(log, ids, docs, |ids|, ids[k])
    else
      exists j :: 0 <= j < |ids| && IsLastWriter(ids, AppendedOf(log, ids, docs), 0, ids[k], j) && docs[j] == docs[k]
  }

  predicate LastDocsStay(log: Log, ids: seq<nat>, docs: seq<bytes>)
    requires |ids| == |docs|
  {
    forall k | 0 <= k < |ids| && IsLastUse(ids, k) :: LastDocStays(log, ids, docs, k)
  }

  /** A document is never longer than its row's allocation. */
  lemma RowDoc(log: Log, id: nat)
    requires WF(log)
    ensures At(DocsOf(log), id).Some? <==> PlacedAt(log, id)
    ensures At(DocsOf(log), id).Some? ==> |At(DocsOf(log), id).value| <= AllocOf(log, id) <= log.chunkSize - 8
  {
    if id < |log.entries| {
      assert EntryOk(log.chunkSize, log.chunks, log.entries[id]);
    }
  }

  lemma LastAppended(log: Log, ids: seq<nat>, docs: seq<bytes>, id: nat) returns (j: nat)
    requires |ids| == |docs| && AppendedAmong(log, ids, docs, |ids|, id)
    ensures IsLastWriter(ids, AppendedOf(log, ids, docs), 0, id, j)
    ensures j < |ids| && |docs[j]| > AllocOf(log, id)
  {
    j := LastWriterExists(ids, AppendedOf(log, ids, docs), 0, id);
  }

  lemma LastOverwritten(log: Log, ids: seq<nat>, docs: seq<bytes>, id: nat) returns (j: nat)
    requires |ids| == |docs| && exists j :: 0 <= j < |ids| && ids[j] == id && Overwritten(log, ids, docs)[j]
    ensures IsLastWriter(ids, Overwritten(log, ids, docs), 0, id, j)
    ensures j < |ids| && |docs[j]| <= AllocOf(log, id)
  {
    j := LastWriterExists(ids, Overwritten(log, ids, docs), 0, id);
  }

  /** The last use of an id overwrites the last of all, if it fits a document that is there. */
  lemma LastUseOverwrites(log: Log, ids: seq<nat>, docs: seq<bytes>, k: nat)
    requires |ids| == |docs| && IsLastUse(ids, k) && |docs[k]| <= AllocOf(log, ids[k])
    ensures PlacedAt(log, ids[k]) ==> IsLastWriter(ids, Overwritten(log, ids, docs), 0, ids[k], k)
    ensures !PlacedAt(log, ids[k]) ==> forall j | 0 <= j < |ids| && ids[j] == ids[k] :: !Overwritten(log, ids, docs)[j]
  {
  }

  lemma NoLastAppended(log: Log, ids: seq<nat>, docs: seq<bytes>, id: nat)
    requires |ids| == |docs| && !AppendedAmong(log, ids, docs, |ids|, id)
    ensures forall j :: !IsLastWriter(ids, AppendedOf(log, ids, docs), 0, id, j)
  {
    hide AppendedOf;
  }

  lemma StaysExactly(log: Log, ids: seq<nat>, docs: seq<bytes>, k: nat)
    requires WF(log) && |ids| == |docs| && IsLastUse(ids, k)
    ensures At(AfterUpdate(log, DocsOf(log), ids, docs), ids[k]) == Some(docs[k]) <==> LastDocStays(log, ids, docs, k)
  {
    var id, d := ids[k], DocsOf(log);
    hide WF, DocsOf, AfterUpdate, Overwritten, AppendedOf, IsLastWriter, AllocOf, PlacedAt, IsLastUse;
    AfterUpdateAt(log, d, ids, docs, id);
    RowDoc(log, id);
    if AppendedAmong(log, ids, docs, |ids|, id) {
      var j := LastAppended(log, ids, docs, id);
      LastIsUnique(ids, AppendedOf(log, ids, docs), id, j);
    } else {
      NoLastAppended(log, ids, docs, id);
      if |docs[k]| <= AllocOf(log, id) {
        LastUseOverwrites(log, ids, docs, k);
      } else if exists j :: 0 <= j < |ids| && ids[j] == id && Overwritten(log, ids, docs)[j] {
        var j := LastOverwritten(log, ids, docs, id);
      }
    }
  }

  lemma LastIsUnique(ids: seq<nat>, pick: seq<bool>, id: nat, j: int)
    requires |ids| == |pick| && IsLastWriter(ids, pick, 0, id, j)
    ensures forall i | IsLastWriter(ids, pick, 0, id, i) :: i == j
  {
  }

  /** The collection after the update is the abstract one exactly when each id's last document stays. */
  lemma AfterIsPutFrom(log: Log, ids: seq<nat>, docs: seq<bytes>)
    requires WF(log) && |ids| == |docs|
    ensures AfterUpdate(log, DocsOf(log), ids, docs) == PutFrom(DocsOf(log), ids, docs, 0) <==>
            LastDocsStay(log, ids, docs)
  {
    var d := DocsOf(log);
    var after, put := AfterUpdate(log, d, ids, docs), PutFrom(d, ids, docs, 0);
    hide WF, DocsOf, AfterUpdate, PutFrom, LastDocStays, IsLastUse;
    AfterUpdateLength(log, d, ids, docs);
    forall k: nat | IsLastUse(ids, k)
      ensures k < |ids| && (At(after, ids[k]) == At(put, ids[k]) <==> LastDocStays(log, ids, docs, k))
    {
      LastUseRange(ids, k);
      StaysExactly(log, ids, docs, k);
      PutFromAt(d, ids, docs, ids[k]);
    }
    if LastDocsStay(log, ids, docs) {
      forall id | 0 <= id < |after| ensures At(after, id) == At(put, id) {
        SameElsewhere(log, d, ids, docs, id);
        if exists j :: 0 <= j < |ids| && ids[j] == id {
          var k := LastUseExists(ids, id);
        }
      }
      SameDocs(after, put);
    }
  }

  lemma LastUseRange(ids: seq<nat>, k: int)
    requires IsLastUse(ids, k)
    ensures 0 <= k < |ids|
  {
  }

  lemma SameElsewhere(log: Log, d: Docs, ids: seq<nat>, docs: seq<bytes>, id: nat)
    requires |ids| == |docs|
    ensures (forall k | 0 <= k < |ids| :: ids[k] != id) ==>
              At(AfterUpdate(log, d, ids, docs), id) == At(PutFrom(d, ids, docs, 0), id) == At(d, id)
  {
    AfterUpdateAt(log, d, ids, docs, id);
    PutFromAt(d, ids, docs, id);
  }

  /** The update returns success, is the abstract update, moves the size by what it should, and adds no stray row. */
  ghost predicate Faithful(log: Log, ids: seq<nat>, docs: seq<bytes>)
    requires WF(log) && |ids| == |docs| > 0 && UpdateRoom(log, ids)
  {
    var r := Update(log, ids, docs);
    && r.Finished? && r.status == OK && WF(r.log)
    && DocsOf(r.log) == PutFrom(DocsOf(log), ids, docs, 0)
    && Drift(r.log) == Drift(log) && forall id | StrayAt(r.log, id) :: StrayAt(log, id)
  }

  /** The condition on the rows and sizes, to be checked before the call. */
  predicate UpdateOk(log: Log, ids: seq<nat>, docs: seq<bytes>)
    requires |ids| == |docs|
  {
    && log.chunkSize >= 8 && !AnyLonger(docs, log.chunkSize) && !CrashesOn(log, ids, docs)
    && LastDocsStay(log, ids, docs) && NoneRecounted(log, ids, docs)
  }

  /** Rows that the abstract update names have their document, and the others are as before. */
  lemma NoNewStray(log: Log, ids: seq<nat>, docs: seq<bytes>, log': Log, id: nat)
    requires |ids| == |docs| && Means(log, ids, docs, log') && DocsOf(log') == PutFrom(DocsOf(log), ids, docs, 0)
    requires StrayAt(log', id)
    ensures StrayAt(log, id)
  {
    assert !(exists j :: 0 <= j < |ids| && ids[j] == id) ==>
        !FitsAmong(log, ids, docs, 0, |ids|, id) && !AppendedAmong(log, ids, docs, |ids|, id);
    hide WF, DocsOf, PutFrom, AfterUpdate, FitsAmong, AppendedAmong, Drift;
    RowDoc(log, id);
    RowDoc(log', id);
    PutFromAt(DocsOf(log), ids, docs, id);
    if exists j :: 0 <= j < |ids| && ids[j] == id {
      var k := LastUseExists(ids, id);
    }
  }

  /** For any batch and any log: the update is the abstract update if and only if the condition holds. */
  lemma AnyUpdateExact(log: Log, ids: seq<nat>, docs: seq<bytes>)
    requires WF(log) && |ids| == |docs| > 0 && UpdateRoom(log, ids)
    ensures Faithful(log, ids, docs) <==> UpdateOk(log, ids, docs)
  {
    hide WF, DocsOf, Update, AfterUpdate, PutFrom, NoneRecounted, LastDocsStay, CrashesOn, AnyLonger, UpdateRoom, Drift,
      StrayAt, FitsAmong, AppendedAmong, LiveAt, IsLive;
    UpdateMeans(log, ids, docs);
    AfterIsPutFrom(log, ids, docs);
    var r := Update(log, ids, docs);
    if UpdateOk(log, ids, docs) {
      forall id | StrayAt(r.log, id) ensures StrayAt(log, id) {
        NoNewStray(log, ids, docs, r.log, id);
      }
    }
  }

  /** So an update that is faithful keeps an honest and exact log honest and exact. */
  lemma FaithfulKeeps(log: Log, ids: seq<nat>, docs: seq<bytes>)
    requires WF(log) && |ids| == |docs| > 0 && UpdateRoom(log, ids) && Faithful(log, ids, docs)
    ensures var log' := Update(log, ids, docs).log;
            NoStray(log) && Counted(log) ==> NoStray(log') && Counted(log')
  {
    var log' := Update(log, ids, docs).log;
    hide WF, DocsOf, Update, PutFrom, UpdateRoom, Counted;
    if NoStray(log) && Counted(log) {
      assert NoStray(log') by {
        forall id | 0 <= id < |log'.entries| && IsLive(log'.entries[id]) ensures IsPlaced(log'.entries[id]) {
          assert StrayAt(log', id) ==> StrayAt(log, id);
        }
      }
      RowsAreDocuments(log);
      RowsAreDocuments(log');
    }
  }

  // ---- Batches of suitable sizes ----

  function FitsOf(log: Log, ids: seq<nat>, docs: seq<bytes>): (r: seq<bool>)
    requires |ids| == |docs|
    ensures |r| == |ids|
  {
    seq(|ids|, k requires 0 <= k < |ids| => |docs[k]| <= AllocOf(log, ids[k]))
  }

  function Negate(pick: seq<bool>): (r: seq<bool>)
    ensures |r| == |pick|
  {
    seq(|pick|, k requires 0 <= k < |pick| => !pick[k])
  }

  /** The batch with the fitting documents first, then the others, each group in order. */
  function Reordered(d: Docs, ids: seq<nat>, docs: seq<bytes>, fits: seq<bool>): Docs
    requires |ids| == |docs| == |fits|
  {
    PutPicked(PutPicked(PadTo(d, MaxId(ids, 0)), ids, docs, fits, 0), ids, docs, Negate(fits), 0)
  }

  /** Every document fits a chunk, and none is written in place without a place. */
  predicate Suits(log: Log, ids: seq<nat>, docs: seq<bytes>)
    requires |ids| == |docs|
  {
    log.chunkSize >= 8 && NoneMisplaced(log, ids, docs) && !AnyLonger(docs, log.chunkSize - 8)
  }

  lemma SuitsMeans(log: Log, ids: seq<nat>, docs: seq<bytes>)
    requires |ids| == |docs| && Suits(log, ids, docs)
    ensures !AnyLonger(docs, log.chunkSize) && !CrashesOn(log, ids, docs) && CutFrom(log, ids, docs, 0) == |ids|
    ensures Overwritten(log, ids, docs) == FitsOf(log, ids, docs)
    ensures AppendedOf(log, ids, docs) == Negate(FitsOf(log, ids, docs))
  {
    var cut := CutFrom(log, ids, docs, 0);
    assert cut < |ids| ==> AnyLonger(docs, log.chunkSize - 8);
    hide CutFrom;
    forall k | 0 <= k < |ids| ensures Overwritten(log, ids, docs)[k] == FitsOf(log, ids, docs)[k] {
      assert !Misplaced(log, ids[k], docs[k]);
    }
  }

  lemma NamedHasDocument(d: Docs, ids: seq<nat>, docs: seq<bytes>, fits: seq<bool>, id: nat)
    requires |ids| == |docs| == |fits| && exists j :: 0 <= j < |ids| && ids[j] == id
    ensures At(Reordered(d, ids, docs, fits), id).Some?
  {
    hide Reordered;
    ReorderedAt(d, ids, docs, fits, id);
    if j :| 0 <= j < |ids| && ids[j] == id && !fits[j] {
      assert Negate(fits)[j];
      var k := LastWriterExists(ids, Negate(fits), 0, id);
    } else {
      var k := LastWriterExists(ids, fits, 0, id);
    }
  }

  /** For any batch of suitable sizes, repeated ids included: the update is the reordered abstract update. */
  lemma UpdateRefines(log: Log, ids: seq<nat>, docs: seq<bytes>)
    requires WF(log) && |ids| == |docs| > 0 && UpdateRoom(log, ids) && Suits(log, ids, docs)
    ensures var r := Update(log, ids, docs);
            && r.Finished? && r.status == OK && WF(r.log)
            && DocsOf(r.log) == Reordered(DocsOf(log), ids, docs, FitsOf(log, ids, docs))
            && forall id | StrayAt(r.log, id) :: StrayAt(log, id)
  {
    UpdateMeans(log, ids, docs);
    SuitsMeans(log, ids, docs);
    var log' := Update(log, ids, docs).log;
    assert DocsOf(log') == Reordered(DocsOf(log), ids, docs, FitsOf(log, ids, docs));
    hide WF, DocsOf, Update, Suits, UpdateRoom, Reordered, AfterUpdate, FitsOf, StrayAt;
    forall id | StrayAt(log', id) ensures StrayAt(log, id) {
      SuitedNotStray(log, ids, docs, log', id);
    }
  }

  lemma SuitedNotStray(log: Log, ids: seq<nat>, docs: seq<bytes>, log': Log, id: nat)
    requires |ids| == |docs| && Means(log, ids, docs, log') && StrayAt(log', id)
    requires DocsOf(log') == Reordered(DocsOf(log), ids, docs, FitsOf(log, ids, docs))
    ensures StrayAt(log, id)
  {
    assert !(exists j :: 0 <= j < |ids| && ids[j] == id) ==>
        !FitsAmong(log, ids, docs, 0, |ids|, id) && !AppendedAmong(log, ids, docs, |ids|, id);
    hide WF, DocsOf, Reordered, AfterUpdate, FitsAmong, AppendedAmong, Drift, FitsOf;
    RowDoc(log, id);
    RowDoc(log', id);
    ReorderedAt(DocsOf(log), ids, docs, FitsOf(log, ids, docs), id);
    if exists j :: 0 <= j < |ids| && ids[j] == id {
      NamedHasDocument(DocsOf(log), ids, docs, FitsOf(log, ids, docs), id);
    }
  }

  // ---- Repeated ids ----

  /** An id's last document is appended whenever any of its documents is. */
  predicate LastWins(ids: seq<nat>, fits: seq<bool>)
    requires |ids| == |fits|
  {
    forall j, k | 0 <= j < k < |ids| && ids[j] == ids[k] && IsLastUse(ids, k) && fits[k] :: fits[j]
  }

  /** What the reordered batch leaves: an id's last appended document, else its last document. */
  lemma ReorderedAt(d: Docs, ids: seq<nat>, docs: seq<bytes>, fits: seq<bool>, id: nat)
    requires |ids| == |docs| == |fits|
    ensures (forall k | 0 <= k < |ids| :: ids[k] != id) ==> At(Reordered(d, ids, docs, fits), id) == At(d, id)
    ensures forall k | IsLastWriter(ids, Negate(fits), 0, id, k) ::
            At(Reordered(d, ids, docs, fits), id) == Some(docs[k])
    ensures forall k | IsLastWriter(ids, fits, 0, id, k) && (forall j | 0 <= j < |ids| && !fits[j] :: ids[j] != id) ::
              At(Reordered(d, ids, docs, fits), id) == Some(docs[k])
  {
    var padded := PadTo(d, MaxId(ids, 0));
    var first := PutPicked(padded, ids, docs, fits, 0);
    PutPickedAt(padded, ids, docs, fits, 0, id);
    PutPickedAt(first, ids, docs, Negate(fits), 0, id);
  }

  lemma ReorderedLength(d: Docs, ids: seq<nat>, docs: seq<bytes>, fits: seq<bool>)
    requires |ids| == |docs| == |fits|
    ensures |Reordered(d, ids, docs, fits)| == |PutFrom(d, ids, docs, 0)|
  {
    var padded := PadTo(d, MaxId(ids, 0));
    PutPickedLength(padded, ids, docs, fits, 0);
    PutPickedLength(PutPicked(padded, ids, docs, fits, 0), ids, docs, Negate(fits), 0);
    PutFromLength(d, ids, docs, 0);
  }

  lemma ReorderedAgrees(d: Docs, ids: seq<nat>, docs: seq<bytes>, fits: seq<bool>, id: nat)
    requires |ids| == |docs| == |fits| && LastWins(ids, fits)
    ensures At(Reordered(d, ids, docs, fits), id) == At(PutFrom(d, ids, docs, 0), id)
  {
    ReorderedAt(d, ids, docs, fits, id);
    PutFromAt(d, ids, docs, id);
    if exists j :: 0 <= j < |ids| && ids[j] == id {
      var k := LastUseExists(ids, id);
      if fits[k] {
        assert IsLastWriter(ids, fits, 0, id, k);
      } else {
        assert IsLastWriter(ids, Negate(fits), 0, id, k);
      }
    }
  }

  lemma ReorderedDiffers(d: Docs, ids: seq<nat>, docs: seq<bytes>, fits: seq<bool>, j: nat, k: nat)
    requires |ids| == |docs| == |fits|
    requires j < k < |ids| && ids[j] == ids[k] && IsLastUse(ids, k) && fits[k] && !fits[j]
    requires forall x, y | 0 <= x < |ids| && 0 <= y < |ids| && ids[x] == ids[y] && fits[x] && !fits[y] ::
             docs[x] != docs[y]
    ensures At(Reordered(d, ids, docs, fits), ids[k]) != At(PutFrom(d, ids, docs, 0), ids[k])
  {
    ReorderedAt(d, ids, docs, fits, ids[k]);
    PutFromAt(d, ids, docs, ids[k]);
    assert Negate(fits)[j];
    var y := LastWriterExists(ids, Negate(fits), 0, ids[k]);
  }

  /** Repeated ids keep last-writer order exactly when no id's last document fits while an earlier one did not. */
  lemma RepeatedIds(log: Log, ids: seq<nat>, docs: seq<bytes>, d: Docs)
    requires |ids| == |docs|
    ensures var fits := FitsOf(log, ids, docs);
            Reordered(d, ids, docs, fits) == PutFrom(d, ids, docs, 0) <==> LastWins(ids, fits)
  {
    var fits := FitsOf(log, ids, docs);
    ReorderedLength(d, ids, docs, fits);
    if LastWins(ids, fits) {
      forall id | 0 <= id < |Reordered(d, ids, docs, fits)|
        ensures At(Reordered(d, ids, docs, fits), id) == At(PutFrom(d, ids, docs, 0), id)
      {
        ReorderedAgrees(d, ids, docs, fits, id);
      }
      SameDocs(Reordered(d, ids, docs, fits), PutFrom(d, ids, docs, 0));
    } else {
      var j, k :| 0 <= j < k < |ids| && ids[j] == ids[k] && IsLastUse(ids, k) && fits[k] && !fits[j];
      ReorderedDiffers(d, ids, docs, fits, j, k);
    }
  }

  lemma SuitedRecount(log: Log, ids: seq<nat>, docs: seq<bytes>, k: nat)
    requires WF(log) && |ids| == |docs| && Suits(log, ids, docs) && k < |ids|
    ensures Recounted(log, ids, docs, k) <==>
            At(Rows(log.entries), ids[k]).None? && exists j :: 0 <= j < k && ids[j] == ids[k]
  {
    SuitsMeans(log, ids, docs);
    assert At(Rows(log.entries), ids[k]).None? <==> !LiveAt(log, ids[k]);
    if !LiveAt(log, ids[k]) {
      RowDoc(log, ids[k]);
      NotLiveNotPlaced(log, ids[k]);
      assert forall j | 0 <= j < |ids| && ids[j] == ids[k] :: !Misplaced(log, ids[j], docs[j]);
      assert !FitsAmong(log, ids, docs, 0, k, ids[k]) && !FitsAmong(log, ids, docs, k, |ids|, ids[k]);
    }
    hide WF, Rows, CutFrom, Overwritten, FitsAmong, DocsOf;
  }

  lemma NotLiveNotPlaced(log: Log, id: nat)
    requires WF(log) && !LiveAt(log, id)
    ensures !PlacedAt(log, id)
  {
    if id < |log.entries| {
      PlacedIsDocument(log, id);
    }
  }

  /** The size stays as exact as it was exactly when no row that is not live is named twice, in any such batch. */
  lemma UpdateCounts(log: Log, ids: seq<nat>, docs: seq<bytes>)
    requires WF(log) && |ids| == |docs| > 0 && UpdateRoom(log, ids) && Suits(log, ids, docs)
    ensures Update(log, ids, docs).Finished?
    ensures var log' := Update(log, ids, docs).log;
            && (Drift(log') == Drift(log) <==> FreshDistinct(Rows(log.entries), ids, 0))
            && (NoStray(log) && Counted(log) ==>
                  WF(log') && (Counted(log') <==> FreshDistinct(DocsOf(log), ids, 0)))
  {
    UpdateMeans(log, ids, docs);
    SuitsMeans(log, ids, docs);
    UpdateRefines(log, ids, docs);
    var log' := Update(log, ids, docs).log;
    hide WF, DocsOf, Update, UpdateRoom, Rows, Drift, Recounted, AfterUpdate, Reordered, NoStray, Suits, Counted,
      StrayAt;
    SuitedNoneRecounted(log, ids, docs);
    if NoStray(log) && Counted(log) {
      RowsAreDocuments(log);
      StillHonest(log, log');
      RowsAreDocuments(log');
      SameFresh(Rows(log.entries), DocsOf(log), ids);
      CountedIs(log, log');
    }
  }

  lemma CountedIs(log: Log, log': Log)
    requires RowsCounted(log)
    ensures Drift(log') == Drift(log) <==> RowsCounted(log')
  {
  }

  lemma StillHonest(log: Log, log': Log)
    requires NoStray(log) && forall id | StrayAt(log', id) :: StrayAt(log, id)
    ensures NoStray(log')
  {
    forall id | 0 <= id < |log'.entries| && IsLive(log'.entries[id]) ensures IsPlaced(log'.entries[id]) {
      assert StrayAt(log', id) ==> StrayAt(log, id);
    }
  }

  lemma SameFresh(d: Docs, e: Docs, ids: seq<nat>)
    requires |d| == |e| && forall i | 0 <= i < |d| :: d[i].Some? == e[i].Some?
    ensures FreshDistinct(d, ids, 0) <==> FreshDistinct(e, ids, 0)
  {
    assert forall j | 0 <= j < |ids| :: At(d, ids[j]).None? <==> At(e, ids[j]).None?;
  }

  lemma SuitedNoneRecounted(log: Log, ids: seq<nat>, docs: seq<bytes>)
    requires WF(log) && |ids| == |docs| && Suits(log, ids, docs)
    ensures NoneRecounted(log, ids, docs) <==> FreshDistinct(Rows(log.entries), ids, 0)
  {
    hide WF, Suits, Recounted, Rows;
    forall k | 0 <= k < |ids|
      ensures Recounted(log, ids, docs, k) <==>
              At(Rows(log.entries), ids[k]).None? && exists j :: 0 <= j < k && ids[j] == ids[k]
    {
      SuitedRecount(log, ids, docs, k);
    }
    if j, k :| 0 <= j < k < |ids| && At(Rows(log.entries), ids[j]).None? && ids[j] == ids[k] {
      assert Recounted(log, ids, docs, k);
    }
  }

  // ---- Distinct ids ----

  lemma DistinctStays(log: Log, ids: seq<nat>, docs: seq<bytes>, k: nat)
    requires |ids| == |docs| && Distinct(ids) && k < |ids|
    ensures IsLastUse(ids, k) && !Recounted(log, ids, docs, k)
    ensures LastDocStays(log, ids, docs, k) <==>
            !Misplaced(log, ids[k], docs[k])
            && (|docs[k]| > AllocOf(log, ids[k]) ==> k < CutFrom(log, ids, docs, 0))
  {
    assert forall j | 0 <= j < |ids| && ids[j] == ids[k] :: j == k;
    var app := AppendedOf(log, ids, docs);
    assert app[k] <==> k < CutFrom(log, ids, docs, 0) && |docs[k]| > AllocOf(log, ids[k]);
    assert IsLastWriter(ids, app, 0, ids[k], k) <==> app[k];
    hide CutFrom, AppendedOf, PlacedAt;
  }

  /** For distinct ids the condition is that every document fits a chunk and none is misplaced. */
  lemma DistinctOk(log: Log, ids: seq<nat>, docs: seq<bytes>)
    requires WF(log) && |ids| == |docs| > 0 && Distinct(ids)
    ensures UpdateOk(log, ids, docs) <==> NoneMisplaced(log, ids, docs) && !AnyLonger(docs, log.chunkSize - 8)
  {
    var cut := CutFrom(log, ids, docs, 0);
    forall k | 0 <= k < |ids|
      ensures IsLastUse(ids, k) && !Recounted(log, ids, docs, k)
      ensures LastDocStays(log, ids, docs, k) <==>
              !Misplaced(log, ids[k], docs[k]) && (|docs[k]| > AllocOf(log, ids[k]) ==> k < cut)
    {
      DistinctStays(log, ids, docs, k);
    }
    forall k | 0 <= k < |ids| ensures PlacedAt(log, ids[k]) ==> AllocOf(log, ids[k]) <= log.chunkSize - 8 {
      RowDoc(log, ids[k]);
    }
    hide WF, DocsOf, CutFrom, LastDocStays, IsLastUse, Recounted, Overwritten, AppendedOf, AllocOf, PlacedAt;
    if NoneMisplaced(log, ids, docs) && !AnyLonger(docs, log.chunkSize - 8) {
      assert |docs[0]| <= log.chunkSize - 8;
      SuitsMeans(log, ids, docs);
    } else if UpdateOk(log, ids, docs) {
      DistinctSuits(log, ids, docs);
    }
  }

  lemma DistinctSuits(log: Log, ids: seq<nat>, docs: seq<bytes>)
    requires WF(log) && |ids| == |docs| > 0 && Distinct(ids) && UpdateOk(log, ids, docs)
    ensures NoneMisplaced(log, ids, docs) && !AnyLonger(docs, log.chunkSize - 8)
  {
    var cut := CutFrom(log, ids, docs, 0);
    forall k | 0 <= k < |ids| ensures !Misplaced(log, ids[k], docs[k]) && |docs[k]| <= log.chunkSize - 8 {
      DistinctStays(log, ids, docs, k);
      RowDoc(log, ids[k]);
    }
    hide WF, CutFrom, LastDocStays, Recounted;
  }

  /**
   For distinct ids the log's update is the abstract update exactly when every document fits a chunk next to
   its header word and no document takes the in-place path on a row that was erased or never written.
   */
  lemma UpdateExact(log: Log, ids: seq<nat>, docs: seq<bytes>)
    requires WF(log) && |ids| == |docs| > 0 && UpdateRoom(log, ids) && Distinct(ids)
    ensures Faithful(log, ids, docs) <==> NoneMisplaced(log, ids, docs) && !AnyLonger(docs, log.chunkSize - 8)
  {
    AnyUpdateExact(log, ids, docs);
    DistinctOk(log, ids, docs);
  }

  // ---- Examples ----

  /** A document of chunk_size - 7 bytes passes the size check, is dropped, and the call still reports success. */
  lemma DroppedButReportedOk(log: Log, doc: bytes)
    requires WF(log) && UpdateRoom(log, [0]) && log.chunkSize >= 8
    requires log.entries == [] && |doc| == log.chunkSize - 7
    ensures var r := Update(log, [0], [doc]); r.Finished? && r.status == OK && !Faithful(log, [0], [doc])
  {
    assert !AnyLonger([doc], log.chunkSize) && !CrashesOn(log, [0], [doc]);
    assert AnyLonger([doc], log.chunkSize - 8) by {
      assert |[doc][0]| > log.chunkSize - 8;
    }
    hide WF, Update, Means, Faithful, CrashesOn, AnyLonger, UpdateRoom;
    UpdateMeans(log, [0], [doc]);
    UpdateExact(log, [0], [doc]);
  }

  /** Storing a document, erasing it and updating it with one no longer dereferences a null chunk. */
  lemma EraseThenUpdateCrashes(log: Log, id: nat, doc: bytes)
    requires WF(log) && UpdateRoom(log, [id]) && id < |log.entries| && IsLive(log.entries[id])
    requires 0 < |doc| <= log.entries[id].alloc && |doc| <= log.chunkSize
    ensures var erased := LogOperations.Erase(log, id).1; WF(erased) && Update(erased, [id], [doc]) == Crashed
  {
    var erased := LogOperations.Erase(log, id).1;
    EraseRefines(log, id);
    assert !AnyLonger([doc], erased.chunkSize);
    assert [doc][0] != [] && Misplaced(erased, [id][0], [doc][0]);
    assert CrashesOn(erased, [id], [doc]);
    hide WF, Update, Means, CrashesOn, AnyLonger;
    UpdateMeans(erased, [id], [doc]);
  }

  lemma TwoDocs(log: Log, id: nat, first: bytes, second: bytes)
    requires log.chunkSize >= 8 && |first| <= log.chunkSize - 8 && |second| <= log.chunkSize - 8
    requires !Misplaced(log, id, first) && !Misplaced(log, id, second)
    ensures Suits(log, [id, id], [first, second])
  {
  }

  /** A large document and then a small one that fits: the large one is appended last, and stays. */
  lemma WrittenOutOfOrder(log: Log, id: nat, large: bytes, small: bytes)
    requires WF(log) && UpdateRoom(log, [id, id]) && PlacedAt(log, id)
    requires |small| <= AllocOf(log, id) < |large| <= log.chunkSize - 8
    ensures var r := Update(log, [id, id], [large, small]);
            && r.Finished? && r.status == OK && WF(r.log)
            && At(DocsOf(r.log), id) == Some(large)
            && At(PutFrom(DocsOf(log), [id, id], [large, small], 0), id) == Some(small)
  {
    var ids, docs := [id, id], [large, small];
    TwoDocs(log, id, large, small);
    var fits := FitsOf(log, ids, docs);
    assert !fits[0] && fits[1] && Negate(fits)[0] && !Negate(fits)[1];
    assert IsLastWriter(ids, Negate(fits), 0, id, 0) && IsLastUse(ids, 1);
    hide WF, Update, Reordered, Suits, DocsOf, PutFrom, FitsOf;
    UpdateRefines(log, ids, docs);
    ReorderedAt(DocsOf(log), ids, docs, fits, id);
    PutFromAt(DocsOf(log), ids, docs, id);
  }

  /** Two documents for one new id: the size goes up by one more than the number of documents. */
  lemma CountedTwice(log: Log, id: nat, first: bytes, second: bytes)
    requires WF(log) && UpdateRoom(log, [id, id]) && id >= |log.entries| && first != [] && second != []
    requires |first| <= log.chunkSize - 8 && |second| <= log.chunkSize - 8
    ensures var r := Update(log, [id, id], [first, second]);
            && r.Finished? && r.status == OK && WF(r.log) && Drift(r.log) > Drift(log)
            && DocsOf(r.log) == PutFrom(DocsOf(log), [id, id], [first, second], 0)
  {
    var ids, docs := [id, id], [first, second];
    TwoDocs(log, id, first, second);
    SuitsMeans(log, ids, docs);
    assert [id, id][0] == [id, id][1] && At(Rows(log.entries), ids[0]).None?;
    assert !FreshDistinct(Rows(log.entries), ids, 0);
    var fits := FitsOf(log, ids, docs);
    assert !fits[0] && !fits[1];
    assert LastWins(ids, fits);
    hide WF, Update, Suits, DocsOf, PutFrom, FitsOf, Drift, Rows, CutFrom, FreshDistinct, NoneRecounted;
    UpdateMeans(log, ids, docs);
    UpdateCounts(log, ids, docs);
    UpdateRefines(log, ids, docs);
    RepeatedIds(log, ids, docs, DocsOf(log));
  }
}
