/** The iteration loop of the log backend, and exactly when it ends. */
module LogIteration {
  // The loop as a machine whose step is a fetch. It can fail to end: over an empty collection the word that bounds it
  // wraps, and a fetch that never reaches its callback leaves the loop where it is.

  import opened Basics
  import opened Documents
  import opened Iteration
  import opened LogModel
  import opened LogOperations

  /** `last_id()`: one less than the next id, in a machine word. */
  function LastIdWord(log: Log): nat {
    if log.entries == [] then TWO_TO_THE_64 - 1 else |log.entries| - 1
  }

  /**
   Where the loop stands: the next id, the number of passed documents, the calls made and the callback's last word.
   */
  datatype Loop = Loop(id: u64, i: nat, calls: seq<Call>, status: Status) | NullDereference

  function Begin(from: u64): Loop {
    Loop(from, 0, [], OK)
  }

  predicate Goes(log: Log, max: nat, s: Loop) {
    s.Loop? && s.status == OK && s.i < max && s.id <= LastIdWord(log)
  }

  function NextWord(id: u64): u64 {
    if id == TWO_TO_THE_64 - 1 then 0 else id + 1
  }

  /** One fetch and what its callback, if it is reached, makes of it. */
  function Turn(log: Log, f: Filter, max: nat, cb: Callback, s: Loop): Loop
    requires Shape(log) && s.Loop?
  {
    match Fetch(log, s.id)
    case NullChunk => NullDereference
    case Refused(status) => if status == NotFound then s.(id := NextWord(s.id)) else s
    case Found(doc) =>
      if !f.accept(s.id, doc) then
        if f.stop(doc) then s.(i := max) else s.(id := NextWord(s.id))
      else
        var calls := s.calls + [(s.id, f.rewrite(doc))];
        if cb(calls) != OK then s.(i := max, calls := calls, status := cb(calls))
        else s.(id := NextWord(s.id), i := s.i + 1, calls := calls)
  }

  /** The loop after at most `n` turns. */
  function After(log: Log, f: Filter, max: nat, cb: Callback, s: Loop, n: nat): Loop
    requires Shape(log)
    decreases n
  {
    if n == 0 || !Goes(log, max, s) then s else After(log, f, max, cb, Turn(log, f, max, cb, s), n - 1)
  }

  predicate Ended(log: Log, max: nat, s: Loop) {
    s.Loop? && !Goes(log, max, s)
  }

  // ---- An empty collection ----

  lemma NextWraps(from: u64, n: nat)
    ensures Wrap(NextWord(from) + n) == Wrap(from + 1 + n)
  {
  }

  /** On an empty collection the loop counts through all machine words, again and again. */
  lemma {:induction false} EmptyTurns(log: Log, f: Filter, max: nat, cb: Callback, from: u64, n: nat)
    requires Shape(log) && log.entries == [] && max >= 1
    ensures After(log, f, max, cb, Begin(from), n) == Begin(Wrap(from + n))
    ensures Goes(log, max, Begin(Wrap(from + n)))
    decreases n
  {
    if n > 0 {
      assert Turn(log, f, max, cb, Begin(from)) == Begin(NextWord(from));
      EmptyTurns(log, f, max, cb, NextWord(from), n - 1);
      NextWraps(from, n - 1);
    }
  }

  /** So iterating an empty collection never ends, whatever the filter, unless nothing was asked for. */
  lemma EmptyIterationDiverges(log: Log, f: Filter, max: nat, cb: Callback, from: u64)
    requires Shape(log) && log.entries == []
    ensures (forall n: nat :: Goes(log, max, After(log, f, max, cb, Begin(from), n))) <==> max >= 1
    ensures max >= 1 ==> forall n: nat :: After(log, f, max, cb, Begin(from), n) == Begin(Wrap(from + n))
  {
    if max >= 1 {
      forall n: nat
        ensures After(log, f, max, cb, Begin(from), n) == Begin(Wrap(from + n))
        ensures Goes(log, max, After(log, f, max, cb, Begin(from), n))
      {
        EmptyTurns(log, f, max, cb, from, n);
      }
    } else {
      assert !Goes(log, max, After(log, f, max, cb, Begin(from), 0));
    }
  }

  // ---- Stray rows ----

  /** The first stray row from `from` on, or the end of the table. */
  function FirstStray(log: Log, from: nat): (k: nat)
    ensures from <= k && (from <= |log.entries| ==> k <= |log.entries|)
    ensures forall id | from <= id < k :: !StrayAt(log, id)
    ensures k < |log.entries| ==> StrayAt(log, k)
    decreases |log.entries| - from
  {
    if from >= |log.entries| || StrayAt(log, from) then from else FirstStray(log, from + 1)
  }

  /**
   The iteration reaches row `k` of the table: before it there are too few passing documents to be done, no rejected one
   stops the iteration, and no call fails.
   */
  ghost predicate GetsTo(d: Docs, f: Filter, max: nat, cb: Callback, from: nat, k: nat) {
    var before := Matching(d, f, from, k);
    && k < |d| && k <= StopPoint(d, f, from) && |before| < max
    && forall j | 0 < j <= |before| :: cb(before[..j]) == OK
  }

  ghost predicate MeetsStray(log: Log, f: Filter, max: nat, cb: Callback, from: nat)
    requires WF(log)
  {
    GetsTo(DocsOf(log), f, max, cb, from, FirstStray(log, from))
  }

  // ---- The loop over rows before `k` ----

  /** Everything that holds while the loop runs over the rows before `k`. */
  ghost predicate Under(d: Docs, f: Filter, max: nat, cb: Callback, from: nat, k: nat, s: Loop) {
    var list := Matching(d, f, from, StopPoint(d, f, from));
    && s.Loop? && s.status == OK && s.i <= |list| && Progress(d, f, from, s.id, s.i)
    && s.calls == list[..s.i] == Matching(d, f, from, s.id)
    && Deliver(list, max, cb, s.i) == Iterate(d, f, from, max, cb)
    && (forall j | 0 < j <= s.i :: cb(s.calls[..j]) == OK)
    && from <= s.id <= k
  }

  /** The abstract iteration is over with these calls and this status, before row `k`. */
  ghost predicate Over(d: Docs, f: Filter, max: nat, cb: Callback, from: nat, k: nat, calls: seq<Call>,
                       status: Status) {
    (calls, status) == Iterate(d, f, from, max, cb) && !GetsTo(d, f, max, cb, from, k)
  }

  lemma BeginUnder(d: Docs, f: Filter, max: nat, cb: Callback, from: u64, k: nat)
    requires from <= k
    ensures Under(d, f, max, cb, from, k, Begin(from))
  {
    ProgressStart(d, f, from);
    IterateIs(d, f, from, max, cb);
  }

  /** The calls made so far are the first of those before a later row. */
  lemma CallsBefore(d: Docs, f: Filter, from: nat, id: nat, k: nat)
    requires from <= id <= k
    ensures Matching(d, f, from, id) <= Matching(d, f, from, k)
  {
    MatchingSplit(d, f, from, id, k);
  }

  lemma UnderEnds(d: Docs, f: Filter, max: nat, cb: Callback, from: nat, k: nat, s: Loop)
    requires Under(d, f, max, cb, from, k, s) && (s.i >= max || s.id >= |d|)
    ensures Over(d, f, max, cb, from, k, s.calls, OK)
  {
    var list := Matching(d, f, from, StopPoint(d, f, from));
    CallsBefore(d, f, from, s.id, k);
    if s.i < max {
      ProgressEnd(d, f, from, s.id, s.i);
    }
    DeliverStops(list, max, cb, s.i);
    hide Progress, Deliver, StopPoint, Iterate, Matching;
  }

  lemma UnderStops(d: Docs, f: Filter, max: nat, cb: Callback, from: nat, k: nat, s: Loop)
    requires Under(d, f, max, cb, from, k, s) && s.id < k && StopsAt(d, f, s.id)
    ensures Over(d, f, max, cb, from, k, s.calls, OK)
  {
    ProgressEnd(d, f, from, s.id, s.i);
    DeliverStops(Matching(d, f, from, StopPoint(d, f, from)), max, cb, s.i);
    StopPointRange(d, f, from);
    ProgressRange(d, f, from, s.id, s.i);
    hide Progress, Deliver, StopPoint, Iterate, Matching;
  }

  lemma ProgressRange(d: Docs, f: Filter, from: nat, id: nat, i: nat)
    requires Progress(d, f, from, id, i)
    ensures from <= id <= StopPoint(d, f, from)
  {
  }

  /** Whether a document passes decides what the next row adds to the calls. */
  lemma MatchingNext(d: Docs, f: Filter, from: nat, id: nat)
    requires from <= id < |d|
    ensures Matching(d, f, from, id + 1) ==
            Matching(d, f, from, id)
            + if d[id].Some? && f.accept(id, d[id].value) then [(id, f.rewrite(d[id].value))] else []
  {
    MatchingSplit(d, f, from, id, id + 1);
    assert Matching(d, f, id + 1, id + 1) == [];
  }

  lemma UnderSkips(d: Docs, f: Filter, max: nat, cb: Callback, from: nat, k: nat, s: Loop)
    requires Under(d, f, max, cb, from, k, s) && s.id < k && s.id < |d| < TWO_TO_THE_64 && !StopsAt(d, f, s.id)
    requires d[s.id].None? || !f.accept(s.id, d[s.id].value)
    ensures Under(d, f, max, cb, from, k, s.(id := s.id + 1))
  {
    hide Progress, Deliver, StopPoint, StopsAt, Iterate, Matching;
    ProgressSkip(d, f, from, s.id, s.i);
    MatchingNext(d, f, from, s.id);
    assert Matching(d, f, from, s.id) + [] == Matching(d, f, from, s.id);
  }

  lemma UnderCalls(d: Docs, f: Filter, max: nat, cb: Callback, from: nat, k: nat, s: Loop, call: Call, calls: seq<Call>)
    requires Under(d, f, max, cb, from, k, s) && s.i < max && s.id < k && s.id < |d| < TWO_TO_THE_64
    requires d[s.id].Some? && f.accept(s.id, d[s.id].value) && call == (s.id, f.rewrite(d[s.id].value))
    requires calls == s.calls + [call]
    ensures cb(calls) == OK ==> Under(d, f, max, cb, from, k, s.(id := s.id + 1, i := s.i + 1, calls := calls))
    ensures cb(calls) != OK ==> Over(d, f, max, cb, from, k, calls, cb(calls))
  {
    var list := Matching(d, f, from, StopPoint(d, f, from));
    hide Progress, Deliver, StopPoint, Iterate, Matching;
    ProgressCall(d, f, from, s.id, s.i);
    DeliverStep(list, max, cb, s.i);
    MatchingNext(d, f, from, s.id);
    CallsBefore(d, f, from, s.id + 1, k);
    assert calls == list[..s.i + 1];
    if cb(calls) == OK {
      assert calls[..s.i + 1] == calls;
      assert forall j | 0 < j <= s.i :: calls[..j] == s.calls[..j];
    } else {
      assert Matching(d, f, from, k)[..s.i + 1] == calls;
    }
  }

  // ---- The loop over the log ----

  /** The loop has ended with what the abstract iteration gives, and has met no stray row. */
  ghost predicate Done(log: Log, f: Filter, max: nat, cb: Callback, from: nat, s: Loop)
    requires WF(log)
  {
    Ended(log, max, s) && Over(DocsOf(log), f, max, cb, from, FirstStray(log, from), s.calls, s.status)
  }

  /** What a turn does at a row that is not stray. */
  lemma TurnIs(log: Log, f: Filter, max: nat, cb: Callback, s: Loop)
    requires WF(log) && |log.entries| < TWO_TO_THE_64 && s.Loop? && s.id < |log.entries| && !StrayAt(log, s.id)
    ensures var d, id, t := DocsOf(log), s.id, Turn(log, f, max, cb, s);
            && (d[id].None? ==> t == s.(id := id + 1))
            && (d[id].Some? && !f.accept(id, d[id].value) ==>
                  t == if f.stop(d[id].value) then s.(i := max) else s.(id := id + 1))
            && (d[id].Some? && f.accept(id, d[id].value) ==>
                  var calls := s.calls + [(id, f.rewrite(d[id].value))];
                  t == if cb(calls) != OK then s.(i := max, calls := calls, status := cb(calls))
                       else s.(id := id + 1, i := s.i + 1, calls := calls))
  {
    FetchRefines(log, s.id);
    hide WF, Fetch, DocsOf;
  }

  /** A turn at a row that is not stray leads on to the next row or to the end. */
  lemma TurnGoesOn(log: Log, f: Filter, max: nat, cb: Callback, from: nat, s: Loop)
    requires WF(log) && 0 < |log.entries| < TWO_TO_THE_64 && Goes(log, max, s) && s.id < FirstStray(log, from)
    requires Under(DocsOf(log), f, max, cb, from, FirstStray(log, from), s)
    ensures var t := Turn(log, f, max, cb, s);
            || Done(log, f, max, cb, from, t)
            || (t.Loop? && t.id == s.id + 1 && Under(DocsOf(log), f, max, cb, from, FirstStray(log, from), t))
  {
    var d, k := DocsOf(log), FirstStray(log, from);
    UnderFrom(d, f, max, cb, from, k, s);
    TurnIs(log, f, max, cb, s);
    hide WF, DocsOf, Turn, Under, Over, FirstStray;
    if d[s.id].Some? && f.accept(s.id, d[s.id].value) {
      var call := (s.id, f.rewrite(d[s.id].value));
      UnderCalls(d, f, max, cb, from, k, s, call, s.calls + [call]);
    } else if StopsAt(d, f, s.id) {
      UnderStops(d, f, max, cb, from, k, s);
    } else {
      UnderSkips(d, f, max, cb, from, k, s);
    }
  }

  lemma UnderFrom(d: Docs, f: Filter, max: nat, cb: Callback, from: nat, k: nat, s: Loop)
    requires Under(d, f, max, cb, from, k, s)
    ensures s.Loop? && s.status == OK && from <= s.id <= k
  {
  }

  lemma LoopEnds(log: Log, f: Filter, max: nat, cb: Callback, from: nat, s: Loop)
    requires WF(log) && log.entries != [] && !Goes(log, max, s)
    requires Under(DocsOf(log), f, max, cb, from, FirstStray(log, from), s)
    ensures Done(log, f, max, cb, from, s)
  {
    UnderFrom(DocsOf(log), f, max, cb, from, FirstStray(log, from), s);
    hide WF, Under, Over, FirstStray;
    UnderEnds(DocsOf(log), f, max, cb, from, FirstStray(log, from), s);
  }

  /** At a stray row the loop dereferences a null chunk or stays for ever. */
  lemma TurnStray(log: Log, f: Filter, max: nat, cb: Callback, from: nat, s: Loop)
    requires WF(log) && ChunkRoom(log, 1) && 0 < |log.entries| && Goes(log, max, s) && s.id == FirstStray(log, from)
    requires Under(DocsOf(log), f, max, cb, from, FirstStray(log, from), s)
    ensures MeetsStray(log, f, max, cb, from)
    ensures Turn(log, f, max, cb, s) == if LostAt(log, s.id) then NullDereference else s
  {
    StrayRefused(log, s.id, 0);
    ProgressRange(DocsOf(log), f, from, s.id, s.i);
    hide WF, DocsOf, StopPoint, Matching, Fetch, Progress, Deliver, Iterate;
  }

  lemma {:induction false} StaysFor(log: Log, f: Filter, max: nat, cb: Callback, s: Loop, n: nat)
    requires Shape(log) && (Goes(log, max, s) ==> Turn(log, f, max, cb, s) == s)
    ensures After(log, f, max, cb, s, n) == s
    decreases n
  {
    if n > 0 && Goes(log, max, s) {
      StaysFor(log, f, max, cb, s, n - 1);
    }
  }

  /** Where the loop gets to: it ends, dereferences a null chunk, or sits at a stray row. */
  ghost predicate Reached(log: Log, f: Filter, max: nat, cb: Callback, from: nat, s: Loop)
    requires WF(log)
  {
    var k := FirstStray(log, from);
    if MeetsStray(log, f, max, cb, from) then
      if LostAt(log, k) then s == NullDereference
      else Goes(log, max, s) && s.id == k && Turn(log, f, max, cb, s) == s
    else Done(log, f, max, cb, from, s)
  }

  lemma AfterTurn(log: Log, f: Filter, max: nat, cb: Callback, s: Loop, n: nat)
    requires Shape(log) && Goes(log, max, s)
    ensures After(log, f, max, cb, s, n + 1) == After(log, f, max, cb, Turn(log, f, max, cb, s), n)
  {
  }

  lemma AfterNone(log: Log, f: Filter, max: nat, cb: Callback, s: Loop)
    requires Shape(log)
    ensures After(log, f, max, cb, s, 0) == s
  {
  }

  lemma DoneReached(log: Log, f: Filter, max: nat, cb: Callback, from: nat, s: Loop)
    requires WF(log) && Done(log, f, max, cb, from, s)
    ensures Reached(log, f, max, cb, from, s)
  {
    hide WF, DocsOf, GetsTo, FirstStray, Iterate;
  }

  lemma StrayReached(log: Log, f: Filter, max: nat, cb: Callback, from: nat, s: Loop)
    requires WF(log) && ChunkRoom(log, 1) && 0 < |log.entries| && Goes(log, max, s) && s.id == FirstStray(log, from)
    requires Under(DocsOf(log), f, max, cb, from, FirstStray(log, from), s)
    ensures Reached(log, f, max, cb, from, if LostAt(log, s.id) then Turn(log, f, max, cb, s) else s)
  {
    TurnStray(log, f, max, cb, from, s);
    hide WF, DocsOf, MeetsStray, FirstStray, Turn, Done, Under;
  }

  lemma StopReached(log: Log, f: Filter, max: nat, cb: Callback, from: nat, s: Loop)
    requires WF(log) && log.entries != [] && !Goes(log, max, s)
    requires Under(DocsOf(log), f, max, cb, from, FirstStray(log, from), s)
    ensures Reached(log, f, max, cb, from, s)
  {
    LoopEnds(log, f, max, cb, from, s);
    DoneReached(log, f, max, cb, from, s);
  }

  /** The loop is where it gets to, or is there after a turn, or goes on to the next row. */
  lemma TurnReaches(log: Log, f: Filter, max: nat, cb: Callback, from: nat, s: Loop)
    requires WF(log) && ChunkRoom(log, 1) && 0 < |log.entries| < TWO_TO_THE_64 && Goes(log, max, s)
    requires Under(DocsOf(log), f, max, cb, from, FirstStray(log, from), s)
    ensures var t := Turn(log, f, max, cb, s);
            || Reached(log, f, max, cb, from, s)
            || Reached(log, f, max, cb, from, t)
            || (t.Loop? && t.id == s.id + 1 && Under(DocsOf(log), f, max, cb, from, FirstStray(log, from), t))
  {
    var t := Turn(log, f, max, cb, s);
    UnderFrom(DocsOf(log), f, max, cb, from, FirstStray(log, from), s);
    hide *;
    if s.id == FirstStray(log, from) {
      StrayReached(log, f, max, cb, from, s);
    } else {
      TurnGoesOn(log, f, max, cb, from, s);
      if Done(log, f, max, cb, from, t) {
        DoneReached(log, f, max, cb, from, t);
      }
    }
  }

  lemma {:induction false} Reaches(log: Log, f: Filter, max: nat, cb: Callback, from: nat, s: Loop) returns (n: nat)
    requires WF(log) && ChunkRoom(log, 1) && 0 < |log.entries| < TWO_TO_THE_64
    requires s.Loop? && Under(DocsOf(log), f, max, cb, from, FirstStray(log, from), s)
    ensures Reached(log, f, max, cb, from, After(log, f, max, cb, s, n))
    decreases |log.entries| - s.id
  {
    assert Shape(log);
    assert Goes(log, max, s) ==> s.id < |log.entries|;
    hide *;
    AfterNone(log, f, max, cb, s);
    if !Goes(log, max, s) {
      StopReached(log, f, max, cb, from, s);
      return 0;
    }
    TurnReaches(log, f, max, cb, from, s);
    if Reached(log, f, max, cb, from, s) {
      return 0;
    }
    var t := Turn(log, f, max, cb, s);
    AfterNone(log, f, max, cb, t);
    n := 0;
    if !Reached(log, f, max, cb, from, t) {
      n := Reaches(log, f, max, cb, from, t);
    }
    AfterTurn(log, f, max, cb, s, n);
    n := n + 1;
  }

  /** What was reached is the same after any larger number of turns. */
  lemma {:induction false} AfterMore(log: Log, f: Filter, max: nat, cb: Callback, s: Loop, n: nat, m: nat)
    requires Shape(log)
    ensures After(log, f, max, cb, s, n + m) == After(log, f, max, cb, After(log, f, max, cb, s, n), m)
    decreases n
  {
    if n == 0 || !Goes(log, max, s) {
      if !Goes(log, max, s) {
        StaysFor(log, f, max, cb, s, m);
        StaysFor(log, f, max, cb, s, n + m);
      }
    } else {
      AfterMore(log, f, max, cb, Turn(log, f, max, cb, s), n - 1, m);
    }
  }

  lemma AfterLater(log: Log, f: Filter, max: nat, cb: Callback, s: Loop, n: nat, m: nat)
    requires Shape(log) && n <= m
    requires var t := After(log, f, max, cb, s, n); Goes(log, max, t) ==> Turn(log, f, max, cb, t) == t
    ensures After(log, f, max, cb, s, m) == After(log, f, max, cb, s, n)
  {
    AfterMore(log, f, max, cb, s, n, m - n);
    StaysFor(log, f, max, cb, After(log, f, max, cb, s, n), m - n);
  }

  /** The loop ends, without a null chunk, after some number of turns. */
  ghost predicate Terminates(log: Log, f: Filter, max: nat, cb: Callback, from: u64)
    requires Shape(log)
  {
    exists n: nat :: Ended(log, max, After(log, f, max, cb, Begin(from), n))
  }

  /** From `n` turns on, the loop is where it gets to. */
  ghost predicate Settles(log: Log, f: Filter, max: nat, cb: Callback, from: u64, n: nat)
    requires WF(log)
  {
    forall m: nat | m >= n :: Reached(log, f, max, cb, from, After(log, f, max, cb, Begin(from), m))
  }

  /**
   Over a collection with ids the loop ends if and only if it meets no stray row, and then with exactly the calls and
   the status of the abstract iteration; otherwise it crashes or fetches that row for ever.
   */
  lemma IterationExact(log: Log, f: Filter, max: nat, cb: Callback, from: u64)
    requires WF(log) && ChunkRoom(log, 1) && 0 < |log.entries| < TWO_TO_THE_64
    ensures Terminates(log, f, max, cb, from) <==> !MeetsStray(log, f, max, cb, from)
    ensures exists n: nat :: Settles(log, f, max, cb, from, n)
  {
    BeginUnder(DocsOf(log), f, max, cb, from, FirstStray(log, from));
    var n := Reaches(log, f, max, cb, from, Begin(from));
    forall m: nat | m >= n
      ensures After(log, f, max, cb, Begin(from), m) == After(log, f, max, cb, Begin(from), n)
    {
      AfterLater(log, f, max, cb, Begin(from), n, m);
    }
    assert Settles(log, f, max, cb, from, n);
    if m: nat :| Ended(log, max, After(log, f, max, cb, Begin(from), m)) {
      AfterLater(log, f, max, cb, Begin(from), m, m + n);
      assert After(log, f, max, cb, Begin(from), m + n) == After(log, f, max, cb, Begin(from), n);
    }
  }

  /**
   In any log the loop ends exactly when, if it has ids, no stray row is met, and if it has none, none was asked
   for.
   */
  lemma TerminatesExactly(log: Log, f: Filter, max: nat, cb: Callback, from: u64)
    requires WF(log) && ChunkRoom(log, 1) && |log.entries| < TWO_TO_THE_64
    ensures Terminates(log, f, max, cb, from) <==>
            if log.entries == [] then max == 0 else !MeetsStray(log, f, max, cb, from)
  {
    if log.entries == [] {
      EmptyIterationDiverges(log, f, max, cb, from);
      if max == 0 {
        assert Ended(log, max, After(log, f, max, cb, Begin(from), 0));
      }
    } else {
      IterationExact(log, f, max, cb, from);
    }
  }

  lemma NoStrayMet(log: Log, f: Filter, max: nat, cb: Callback, from: nat)
    requires WF(log) && NoStray(log)
    ensures !MeetsStray(log, f, max, cb, from)
  {
  }
}
