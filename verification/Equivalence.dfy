/** Whole runs on both document backends. */
module Equivalence {
  // Any sequence of stores, updates and erases that stays within what the log can do leaves the log and the array
  // backend with the same abstract collection, hence with equal sizes, loads and iterations.

  import opened Basics
  import opened Documents
  import LogModel
  import LogOperations
  import LogUpdateResults
  import LogUpdateExact
  import LogCollection
  import LogIteration
  import LogDocuments
  import ArrayCollection
  import Iteration

  datatype Op =
    | Store(batch: seq<bytes>)
    | Update(ids: seq<nat>, batch: seq<bytes>)
    | Erase(id: nat)

  /** Documents have machine sizes, updates name one id per document. */
  predicate OpOk(op: Op) {
    match op
    case Store(batch) => SizesOk(batch)
    case Update(ids, batch) => |ids| == |batch| > 0 && SizesOk(batch)
    case Erase(_) => true
  }

  predicate SizesOk(batch: seq<bytes>) {
    forall i | 0 <= i < |batch| :: |batch[i]| < KEY_NOT_FOUND
  }

  /** How many ids and chunks an operation may add. */
  function Cost(op: Op): nat {
    match op
    case Store(batch) => |batch|
    case Update(ids, batch) => |ids| + MaxId(ids, 0)
    case Erase(_) => 0
  }

  function TotalCost(ops: seq<Op>): nat {
    if ops == [] then 0 else Cost(ops[0]) + TotalCost(ops[1..])
  }

  predicate RunRoom(log: LogModel.Log, cost: nat) {
    LogModel.Room(log, cost + 1)
  }

  // ---- The abstract run ----

  function Step(d: Docs, op: Op): Docs
    requires OpOk(op)
  {
    match op
    case Store(batch) => d + Stored(batch)
    case Update(ids, batch) => PutFrom(d, ids, batch, 0)
    case Erase(id) => Documents.Erase(d, id)
  }

  ghost predicate AllOk(ops: seq<Op>) {
    forall i | 0 <= i < |ops| :: OpOk(ops[i])
  }

  ghost function Run(d: Docs, ops: seq<Op>): Docs
    requires AllOk(ops)
    decreases |ops|
  {
    if ops == [] then d else Run(Step(d, ops[0]), ops[1..])
  }

  // ---- The log's run ----

  /** A log that runs keep: well formed, every row honest, the size exact. */
  ghost predicate Good(log: LogModel.Log) {
    LogModel.WF(log) && LogModel.NoStray(log) && LogModel.Counted(log)
  }

  /** Outcome of one operation: the status, and the log unless the process crashed. */
  ghost function LogStep(log: LogModel.Log, op: Op): LogUpdateResults.Outcome
    requires LogModel.WF(log) && OpOk(op) && RunRoom(log, Cost(op))
  {
    match op
    case Store(batch) =>
      var (s, log') := LogOperations.Append(log, batch);
      LogUpdateResults.Finished(s, log')
    case Update(ids, batch) => LogUpdateResults.Update(log, ids, batch)
    case Erase(id) => LogUpdateResults.Finished(OK, LogOperations.Erase(log, id).1)
  }

  /** What a caller must check first: documents fit a chunk, and updates meet the exact condition. */
  predicate Admissible(log: LogModel.Log, op: Op)
    requires OpOk(op)
  {
    match op
    case Store(batch) => log.chunkSize >= 8 && !LogOperations.AnyLonger(batch, log.chunkSize - 8)
    case Update(ids, batch) => LogUpdateExact.UpdateOk(log, ids, batch)
    case Erase(_) => true
  }

  /** The operation succeeded and did on the log what it does on the abstract collection. */
  ghost predicate StepRefines(log: LogModel.Log, op: Op)
    requires LogModel.WF(log) && OpOk(op) && RunRoom(log, Cost(op))
  {
    var r := LogStep(log, op);
    && r.Finished? && r.status == OK && Good(r.log) && LogModel.DocsOf(r.log) == Step(LogModel.DocsOf(log), op)
  }

  lemma StoreRefines(log: LogModel.Log, batch: seq<bytes>)
    requires Good(log) && SizesOk(batch) && RunRoom(log, |batch|)
    ensures StepRefines(log, Store(batch)) <==> Admissible(log, Store(batch))
    ensures var log' := LogOperations.Append(log, batch).1;
            |log'.chunks| <= |log.chunks| + |batch| && |log'.entries| <= |log.entries| + |batch|
  {
    LogOperations.AppendStores(log, batch);
    var k := LogOperations.StoredCount(log.chunkSize, batch);
    var (s, log') := LogOperations.Append(log, batch);
    LogOperations.AppendCounts(log, batch, k, log');
    if s == OK {
      assert batch[0..k] == batch;
    }
  }

  lemma EraseStep(log: LogModel.Log, id: nat)
    requires Good(log) && RunRoom(log, 0)
    ensures StepRefines(log, Erase(id))
    ensures var log' := LogOperations.Erase(log, id).1;
            |log'.chunks| <= |log.chunks| && |log'.entries| <= |log.entries|
  {
    LogOperations.EraseRefines(log, id);
    LogOperations.EraseCounts(log, id);
  }

  lemma UpdateStep(log: LogModel.Log, ids: seq<nat>, batch: seq<bytes>)
    requires Good(log) && OpOk(Update(ids, batch)) && RunRoom(log, Cost(Update(ids, batch)))
    ensures StepRefines(log, Update(ids, batch)) <==> Admissible(log, Update(ids, batch))
    ensures var r := LogUpdateResults.Update(log, ids, batch);
            r.Finished? ==> |r.log.chunks| <= |log.chunks| + |ids| && |r.log.entries| <= |log.entries| + MaxId(ids, 0)
  {
    LogUpdateExact.AnyUpdateExact(log, ids, batch);
    LogUpdateResults.UpdateKeeps(log, ids, batch);
    var r := LogUpdateResults.Update(log, ids, batch);
    hide LogModel.WF, LogModel.DocsOf, LogModel.NoStray, LogModel.Counted, LogModel.Drift, LogUpdateResults.Update,
      LogUpdateExact.UpdateOk, PutFrom;
    if LogUpdateExact.Faithful(log, ids, batch) {
      LogUpdateExact.FaithfulKeeps(log, ids, batch);
    } else if StepRefines(log, Update(ids, batch)) {
      LogModel.RowsAreDocuments(log);
      LogModel.RowsAreDocuments(r.log);
      HonestIsFaithful(log, r.log);
    }
  }

  lemma HonestIsFaithful(log: LogModel.Log, log': LogModel.Log)
    requires LogModel.RowsCounted(log) && LogModel.RowsCounted(log') && LogModel.NoStray(log')
    ensures LogModel.Drift(log') == LogModel.Drift(log) && forall id :: !LogModel.StrayAt(log', id)
  {
  }

  /** Each operation does on the log what it does on the abstract collection exactly when it is admissible. */
  lemma StepExact(log: LogModel.Log, op: Op)
    requires Good(log) && OpOk(op) && RunRoom(log, Cost(op))
    ensures StepRefines(log, op) <==> Admissible(log, op)
    ensures var r := LogStep(log, op);
            r.Finished? ==> |r.log.chunks| <= |log.chunks| + Cost(op) && |r.log.entries| <= |log.entries| + Cost(op)
  {
    match op
    case Store(batch) => StoreRefines(log, batch);
    case Update(ids, batch) => UpdateStep(log, ids, batch);
    case Erase(id) => EraseStep(log, id);
  }

  /** Every operation of the run is admissible when its turn comes. */
  ghost predicate AdmissibleRun(log: LogModel.Log, ops: seq<Op>)
    requires Good(log) && AllOk(ops) && RunRoom(log, TotalCost(ops))
    decreases |ops|
  {
    ops == [] ||
    (&& Admissible(log, ops[0])
     && (StepExact(log, ops[0]); AdmissibleRun(LogStep(log, ops[0]).log, ops[1..])))
  }

  ghost function LogRun(log: LogModel.Log, ops: seq<Op>): LogModel.Log
    requires Good(log) && AllOk(ops) && RunRoom(log, TotalCost(ops)) && AdmissibleRun(log, ops)
    decreases |ops|
  {
    if ops == [] then log
    else
      StepExact(log, ops[0]);
      LogRun(LogStep(log, ops[0]).log, ops[1..])
  }

  /** Refinement over whole runs: an admissible run leaves exactly the abstract collection, with its exact size. */
  lemma {:induction false} LogRunRefines(log: LogModel.Log, ops: seq<Op>)
    requires Good(log) && AllOk(ops) && RunRoom(log, TotalCost(ops)) && AdmissibleRun(log, ops)
    ensures var log' := LogRun(log, ops);
            && Good(log') && LogModel.DocsOf(log') == Run(LogModel.DocsOf(log), ops)
            && log'.collSize == LiveCount(Run(LogModel.DocsOf(log), ops))
    decreases |ops|
  {
    if ops != [] {
      StepExact(log, ops[0]);
      LogRunRefines(LogStep(log, ops[0]).log, ops[1..]);
    }
  }

  // ---- Any run on the log ----

  /** Whatever the operation, a log that does not crash stays well formed and within its room. */
  lemma StepKeeps(log: LogModel.Log, op: Op)
    requires LogModel.WF(log) && OpOk(op) && RunRoom(log, Cost(op))
    ensures var r := LogStep(log, op);
            r.Finished? ==>
              && LogModel.WF(r.log)
              && |r.log.chunks| <= |log.chunks| + Cost(op) && |r.log.entries| <= |log.entries| + Cost(op)
  {
    match op
    case Store(batch) => LogOperations.AppendStores(log, batch);
    case Update(ids, batch) => LogUpdateResults.UpdateKeeps(log, ids, batch);
    case Erase(id) => LogOperations.EraseRefines(log, id);
  }

  /** The update reaches its second pass and counts an appended document twice. */
  predicate Recounts(log: LogModel.Log, op: Op)
    requires OpOk(op)
  {
    && op.Update? && log.chunkSize >= 8 && !LogOperations.AnyLonger(op.batch, log.chunkSize)
    && !LogUpdateResults.NoneRecounted(log, op.ids, op.batch)
  }

  /** The size moves away from the number of live rows only by documents counted twice, and only upwards. */
  lemma StepDrifts(log: LogModel.Log, op: Op)
    requires LogModel.WF(log) && OpOk(op) && RunRoom(log, Cost(op)) && LogStep(log, op).Finished?
    ensures var log' := LogStep(log, op).log;
            && LogModel.Drift(log') >= LogModel.Drift(log)
            && (LogModel.Drift(log') == LogModel.Drift(log) <==> !Recounts(log, op))
  {
    hide LogModel.WF, LogModel.DocsOf, LogModel.Drift;
    match op
    case Store(batch) => LogOperations.AppendStores(log, batch);
    case Update(ids, batch) => LogUpdateResults.UpdateMeans(log, ids, batch);
    case Erase(id) => LogOperations.EraseCounts(log, id);
  }

  /** The log after a run of any operations at all, unless the process crashes in one of them. */
  ghost function AnyRun(log: LogModel.Log, ops: seq<Op>): Option<LogModel.Log>
    requires LogModel.WF(log) && AllOk(ops) && RunRoom(log, TotalCost(ops))
    decreases |ops|
  {
    if ops == [] then Some(log)
    else
      StepKeeps(log, ops[0]);
      match LogStep(log, ops[0])
      case Crashed => None
      case Finished(_, log') => AnyRun(log', ops[1..])
  }

  ghost predicate RunRecounts(log: LogModel.Log, ops: seq<Op>)
    requires LogModel.WF(log) && AllOk(ops) && RunRoom(log, TotalCost(ops)) && AnyRun(log, ops).Some?
    decreases |ops|
  {
    ops != [] &&
    (Recounts(log, ops[0]) || (StepKeeps(log, ops[0]); RunRecounts(LogStep(log, ops[0]).log, ops[1..])))
  }

  /**
   Every run that does not crash, with stray rows, refused documents and repeated ids, leaves all extents in place and
   apart, and the size in the header is the number of live rows if and only if no update counted a document twice.
   */
  lemma AnyRunKeeps(log: LogModel.Log, ops: seq<Op>)
    requires LogModel.WF(log) && LogModel.RowsCounted(log) && AllOk(ops) && RunRoom(log, TotalCost(ops))
    requires AnyRun(log, ops).Some?
    ensures var log' := AnyRun(log, ops).value;
            LogModel.WF(log') && (LogModel.RowsCounted(log') <==> !RunRecounts(log, ops))
  {
    AnyRunDrifts(log, ops);
  }

  lemma {:induction false} AnyRunDrifts(log: LogModel.Log, ops: seq<Op>)
    requires LogModel.WF(log) && AllOk(ops) && RunRoom(log, TotalCost(ops)) && AnyRun(log, ops).Some?
    ensures var log' := AnyRun(log, ops).value;
            && LogModel.WF(log') && LogModel.Drift(log') >= LogModel.Drift(log)
            && (LogModel.Drift(log') == LogModel.Drift(log) <==> !RunRecounts(log, ops))
    decreases |ops|
  {
    if ops != [] {
      StepKeeps(log, ops[0]);
      StepDrifts(log, ops[0]);
      hide LogModel.WF, LogModel.Drift, LogStep, Recounts;
      AnyRunDrifts(LogStep(log, ops[0]).log, ops[1..]);
    }
  }

  // ---- Both backends ----

  /** One operation on the log backend. */
  method ApplyToLog(c: LogCollection.Collection, op: Op)
    requires c.Valid() && Good(c.log) && OpOk(op) && RunRoom(c.log, Cost(op)) && Admissible(c.log, op)
    modifies c, c.chunkCache
    ensures c.Valid() && LogStep(old(c.log), op) == LogUpdateResults.Finished(OK, c.log)
  {
    match op
    case Store(batch) => StoreInLog(c, batch);
    case Update(ids, batch) => UpdateInLog(c, ids, batch);
    case Erase(id) => var status := c.Erase(id);
  }

  method StoreInLog(c: LogCollection.Collection, batch: seq<bytes>)
    requires c.Valid() && LogModel.WF(c.log) && LogModel.Room(c.log, |batch|)
    requires c.log.chunkSize >= 8 && !LogOperations.AnyLonger(batch, c.log.chunkSize - 8)
    modifies c, c.chunkCache
    ensures c.Valid() && LogOperations.Append(old(c.log), batch) == (OK, c.log)
  {
    hide *;
    LogOperations.AppendStores(c.log, batch);
    PackedBatch(batch);
    var status, ids := c.Append(Concat(batch), Lengths(batch));
  }

  method UpdateInLog(c: LogCollection.Collection, ids: seq<nat>, batch: seq<bytes>)
    requires c.Valid() && Good(c.log) && OpOk(Update(ids, batch)) && RunRoom(c.log, Cost(Update(ids, batch)))
    requires Admissible(c.log, Update(ids, batch)) && LogModel.WF(c.log)
    requires LogUpdateResults.UpdateRoom(c.log, ids) && |ids| == |batch| > 0
    modifies c, c.chunkCache
    ensures c.Valid() && LogUpdateResults.Update(old(c.log), ids, batch) == LogUpdateResults.Finished(OK, c.log)
  {
    hide *;
    UpdateSucceeds(c.log, ids, batch);
    PackedBatch(batch);
    var crashed, status := c.Update(ids, Concat(batch), Lengths(batch));
  }

  lemma UpdateSucceeds(log: LogModel.Log, ids: seq<nat>, batch: seq<bytes>)
    requires Good(log) && OpOk(Update(ids, batch)) && RunRoom(log, Cost(Update(ids, batch)))
    requires Admissible(log, Update(ids, batch)) && LogUpdateResults.UpdateRoom(log, ids)
    ensures var r := LogUpdateResults.Update(log, ids, batch); r.Finished? && r.status == OK
  {
    UpdateStep(log, ids, batch);
  }

  /** One operation on the array backend. */
  method ApplyToArray(c: ArrayCollection.Collection, op: Op)
    requires c.Valid() && OpOk(op)
    modifies c
    ensures c.Valid() && c.Contents() == Step(old(c.Contents()), op) && c.drift == old(c.drift)
  {
    match op
    case Store(batch) =>
      PackedBatch(batch);
      var ids := c.DocStore(Concat(batch), Lengths(batch));
    case Update(ids, batch) =>
      PackedBatch(batch);
      var status := c.DocUpdate(true, ids, Concat(batch), Lengths(batch));
    case Erase(id) =>
      c.DocErase([id]);
      assert EraseFrom(old(c.Contents()), [id], 0) == Documents.Erase(old(c.Contents()), id);
  }

  /** The first step of an admissible run, and the rest. */
  lemma RunUnfold(log: LogModel.Log, ops: seq<Op>)
    requires Good(log) && AllOk(ops) && RunRoom(log, TotalCost(ops)) && AdmissibleRun(log, ops)
    ensures LogModel.WF(log)
    ensures ops == [] ==> Run(LogModel.DocsOf(log), ops) == LogModel.DocsOf(log)
    ensures ops != [] ==>
              && OpOk(ops[0]) && RunRoom(log, Cost(ops[0])) && Admissible(log, ops[0])
              && var r := LogStep(log, ops[0]);
                 && r.Finished? && Good(r.log) && LogModel.WF(r.log)
                 && AllOk(ops[1..]) && RunRoom(r.log, TotalCost(ops[1..])) && AdmissibleRun(r.log, ops[1..])
                 && LogModel.DocsOf(r.log) == Step(LogModel.DocsOf(log), ops[0])
                 && Run(LogModel.DocsOf(log), ops) == Run(LogModel.DocsOf(r.log), ops[1..])
  {
    if ops != [] {
      StepExact(log, ops[0]);
      hide LogModel.WF, LogModel.DocsOf, LogStep, Admissible, Step, LogModel.NoStray, LogModel.Counted;
    }
  }

  /** Running the same operations on both backends, for any run the log admits. */
  method RunBoth(l: LogCollection.Collection, a: ArrayCollection.Collection, ops: seq<Op>)
    requires l.Valid() && Good(l.log) && a.Valid() && a.drift == 0
    requires LogModel.DocsOf(l.log) == a.Contents()
    requires AllOk(ops) && RunRoom(l.log, TotalCost(ops)) && AdmissibleRun(l.log, ops)
    modifies l, l.chunkCache, a
    ensures l.Valid() && Good(l.log) && a.Valid() && a.drift == 0
    ensures LogModel.DocsOf(l.log) == a.Contents() == Run(old(a.Contents()), ops)
    decreases |ops|
  {
    hide *;
    RunUnfold(l.log, ops);
    if ops == [] {
      return;
    }
    ApplyToLog(l, ops[0]);
    ApplyToArray(a, ops[0]);
    RunBoth(l, a, ops[1..]);
  }

  lemma ReadBothSizes(l: LogCollection.Collection, a: ArrayCollection.Collection)
    requires l.Valid() && Good(l.log) && a.Valid() && a.drift == 0 && LogModel.DocsOf(l.log) == a.Contents()
    ensures LogModel.WF(l.log) && LogModel.NoStray(l.log)
    ensures Wrap(l.log.collSize) == Wrap(a.drift + LiveCount(a.Contents()))
  {
  }

  lemma NothingStray(log: LogModel.Log, ids: seq<nat>, capacity: nat)
    requires Good(log)
    ensures LogDocuments.ItemsSeen(log, ids, capacity + 1) == ItemsOf(LogModel.DocsOf(log), ids)
    ensures !LogDocuments.LoadCrashes(log, ids, capacity)
  {
    LogDocuments.SeenAreItems(log, ids, capacity + 1);
  }

  method LoadFromLog(l: LogCollection.Collection, ids: seq<nat>, buffer: array<byte>, sizes: array<nat>)
    returns (ghost cut: nat)
    requires l.Valid() && Good(l.log) && LogModel.WF(l.log) && LogModel.ChunkRoom(l.log, 1)
    requires sizes.Length == |ids| && buffer as object != sizes
    modifies l, l.chunkCache, buffer, sizes
    ensures l.log == old(l.log)
    ensures PackedLoad(ItemsOf(LogModel.DocsOf(old(l.log)), ids), buffer.Length, buffer[..], sizes[..], cut)
  {
    hide *;
    NothingStray(l.log, ids, buffer.Length);
    var crashed;
    crashed, cut := LogDocuments.DocLoadPacked(l, ids, buffer, sizes);
  }

  /** What a reader sees after such a run is the same on both: size, document sizes, packed loads. */
  method ReadBoth(l: LogCollection.Collection, a: ArrayCollection.Collection, ids: seq<nat>,
                  buffer: array<byte>, sizes: array<nat>, buffer': array<byte>, sizes': array<nat>)
    returns (n: nat, n': nat, ghost cut: nat)
    requires l.Valid() && Good(l.log) && LogModel.ChunkRoom(l.log, 1) && a.Valid() && a.drift == 0
    requires LogModel.DocsOf(l.log) == a.Contents()
    requires sizes.Length == sizes'.Length == |ids| && buffer.Length == buffer'.Length
    requires buffer as object != sizes && buffer' as object != sizes' && buffer != buffer' && sizes != sizes'
    requires buffer as object != sizes' && buffer' as object != sizes
    modifies l, l.chunkCache, buffer, sizes, buffer', sizes'
    ensures n == n' && sizes[..] == sizes'[..]
    ensures PackedLoad(ItemsOf(a.Contents(), ids), buffer.Length, buffer[..], sizes[..], cut)
    ensures PackedLoad(ItemsOf(a.Contents(), ids), buffer.Length, buffer'[..], sizes'[..], cut)
  {
    ReadBothSizes(l, a);
    hide *;
    n := l.Size();
    n' := a.CollSize();
    cut := LoadBoth(l, a, ids, buffer, sizes, buffer', sizes', ItemsOf(a.Contents(), ids));
  }

  method LoadBoth(l: LogCollection.Collection, a: ArrayCollection.Collection, ids: seq<nat>, buffer: array<byte>,
                  sizes: array<nat>, buffer': array<byte>, sizes': array<nat>, ghost items: Docs)
    returns (ghost cut: nat)
    requires l.Valid() && LogModel.WF(l.log) && Good(l.log) && LogModel.ChunkRoom(l.log, 1) && a.Valid()
    requires items == ItemsOf(LogModel.DocsOf(l.log), ids) == ItemsOf(a.Contents(), ids)
    requires sizes.Length == sizes'.Length == |ids| && buffer.Length == buffer'.Length
    requires buffer as object != sizes && buffer' as object != sizes' && buffer != buffer' && sizes != sizes'
    requires buffer as object != sizes' && buffer' as object != sizes
    modifies l, l.chunkCache, buffer, sizes, buffer', sizes'
    ensures sizes[..] == sizes'[..]
    ensures PackedLoad(items, buffer.Length, buffer[..], sizes[..], cut)
    ensures PackedLoad(items, buffer.Length, buffer'[..], sizes'[..], cut)
  {
    hide *;
    cut := LoadFromLog(l, ids, buffer, sizes);
    LoadAgain(a, ids, buffer[..], sizes[..], buffer', sizes', items, cut);
  }

  /** A second packed load of the same documents, from the array backend, leaves the same sizes. */
  method LoadAgain(a: ArrayCollection.Collection, ids: seq<nat>, ghost bytes: bytes, ghost lengths: seq<nat>,
                   buffer': array<byte>, sizes': array<nat>, ghost items: Docs, ghost cut: nat)
    requires a.Valid() && items == ItemsOf(a.Contents(), ids) && sizes'.Length == |ids| && buffer' as object != sizes'
    requires PackedLoad(items, buffer'.Length, bytes, lengths, cut)
    modifies buffer', sizes'
    ensures sizes'[..] == lengths && PackedLoad(items, buffer'.Length, buffer'[..], sizes'[..], cut)
  {
    hide *;
    ghost var cut' := a.DocLoadPacked(ids, buffer', sizes');
    PackedLoadUnique(items, buffer'.Length, bytes, lengths, cut, buffer'[..], sizes'[..], cut');
  }

  lemma IterationHasEnd(log: LogModel.Log, f: Filter, max: nat, cb: Callback, from: nat)
    requires Good(log) && (log.entries != [] || max == 0)
    ensures LogModel.WF(log) && !LogDocuments.Endless(log, f, max, cb, from)
    ensures !LogIteration.MeetsStray(log, f, max, cb, from)
  {
    LogIteration.NoStrayMet(log, f, max, cb, from);
  }

  /**
   And so is an iteration, with any filter, limit and callback: it ends on both, with the same calls and the same
   status, unless the collection is empty, where the log's does not end.
   */
  method IterateBoth(l: LogCollection.Collection, a: ArrayCollection.Collection, max: nat, from: u64, f: Filter,
                     cb: Callback)
    returns (calls: seq<Call>, status: Status, calls': seq<Call>, status': Status)
    requires l.Valid() && Good(l.log) && LogModel.ChunkRoom(l.log, 1) && a.Valid()
    requires LogModel.DocsOf(l.log) == a.Contents() && (a.Contents() != [] || max == 0)
    modifies l, l.chunkCache
    ensures (calls, status) == (calls', status') == Iteration.Iterate(a.Contents(), f, from, max, cb)
  {
    assert |l.log.entries| == |a.Contents()|;
    IterationHasEnd(l.log, f, max, cb, from);
    hide *;
    calls', status' := a.DocIter(max, from, f, cb);
    var crashed;
    crashed, calls, status := LogDocuments.DocIter(l, max, from, f, cb);
  }
}
