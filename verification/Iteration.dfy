/** What iterating over a collection means, for every backend: filter, limit, early stop and failing callbacks. */
module Iteration {
  import opened Basics
  import opened Documents

  /** A rejected document on which the filter says that nothing later will pass. */
  predicate StopsAt(d: Docs, f: Filter, id: nat) {
    id < |d| && d[id].Some? && !f.accept(id, d[id].value) && f.stop(d[id].value)
  }

  /** The first id from `from` on at which iteration stops early, or the end of the collection. */
  function StopPoint(d: Docs, f: Filter, from: nat): (s: nat)
    ensures from <= s
    decreases |d| - from
  {
    if from >= |d| || StopsAt(d, f, from) then from else StopPoint(d, f, from + 1)
  }

  /** The calls an iteration makes and the status it returns. */
  ghost function Iterate(d: Docs, f: Filter, from: nat, limit: nat, cb: Callback): (seq<Call>, Status) {
    Deliver(Matching(d, f, from, StopPoint(d, f, from)), limit, cb, 0)
  }

  lemma {:induction false} StopPointRange(d: Docs, f: Filter, from: nat)
    ensures var s := StopPoint(d, f, from);
            && (s < |d| ==> StopsAt(d, f, s))
            && (from <= |d| ==> s <= |d|)
            && forall id | from <= id < s :: !StopsAt(d, f, id)
    decreases |d| - from
  {
    if !(from >= |d| || StopsAt(d, f, from)) {
      StopPointRange(d, f, from + 1);
    }
  }

  /** With a sound stop verdict nothing is missed: the calls come from all matching documents. */
  lemma StopMissesNothing(d: Docs, f: Filter, from: nat)
    requires StopSound(d, f)
    ensures Matching(d, f, from, StopPoint(d, f, from)) == Matching(d, f, from, Max(from, |d|))
  {
    var s := StopPoint(d, f, from);
    StopPointRange(d, f, from);
    if from < |d| {
      MatchingSplit(d, f, from, s, |d|);
      if s < |d| {
        forall id | s <= id < |d| && d[id].Some? ensures !f.accept(id, d[id].value) {
          assert StopsAt(d, f, s);
        }
        MatchingNone(d, f, s, |d|);
      } else {
        MatchingNone(d, f, s, |d|);
      }
    }
  }

  /**
   With a sound filter and a callback that never fails, iteration calls back on exactly the first `limit`
   matching documents with ids >= `from`, each once, in increasing id order.
   */
  lemma IterateExact(d: Docs, f: Filter, from: nat, limit: nat, cb: Callback)
    requires StopSound(d, f)
    requires forall h :: cb(h) == OK
    ensures var all := Matching(d, f, from, Max(from, |d|));
            && Iterate(d, f, from, limit, cb) == (all[..Min(limit, |all|)], OK)
            && (forall i, j | 0 <= i < j < |all| :: all[i].0 < all[j].0)
            && (forall id, doc :: (id, doc) in all <==>
                  from <= id < |d| && d[id].Some? && f.accept(id, d[id].value) && doc == f.rewrite(d[id].value))
  {
    StopMissesNothing(d, f, from);
    var all := Matching(d, f, from, Max(from, |d|));
    DeliverAll(all, limit, cb, 0);
    MatchingAscending(d, f, from, Max(from, |d|));
    MatchingMembers(d, f, from, Max(from, |d|));
    forall id, doc ensures (id, doc) in all <==>
                             from <= id < |d| && d[id].Some? && f.accept(id, d[id].value)
                             && doc == f.rewrite(d[id].value)
    {
      if (id, doc) in all {
        assert (id, doc).0 == id && (id, doc).1 == doc;
      }
    }
  }

  // ---- One step of an iteration loop ----

  /** Where a loop stands: `i` calls made, the rest of the list still ahead from `id` on. */
  ghost predicate Progress(d: Docs, f: Filter, from: nat, id: nat, i: nat) {
    var s := StopPoint(d, f, from);
    var list := Matching(d, f, from, s);
    && from <= id <= s && i <= |list|
    && list == list[..i] + Matching(d, f, id, s)
  }

  lemma ProgressStart(d: Docs, f: Filter, from: nat)
    ensures Progress(d, f, from, from, 0)
  {
    var list := Matching(d, f, from, StopPoint(d, f, from));
    assert list == list[..0] + list;
  }

  /** Skipping an id without a passing document. */
  lemma ProgressSkip(d: Docs, f: Filter, from: nat, id: nat, i: nat)
    requires Progress(d, f, from, id, i) && id < |d| && !StopsAt(d, f, id)
    requires d[id].None? || !f.accept(id, d[id].value)
    ensures Progress(d, f, from, id + 1, i)
  {
    StopPointRange(d, f, from);
    var s := StopPoint(d, f, from);
    assert Matching(d, f, id, s) == [] + Matching(d, f, id + 1, s);
  }

  /** Calling back on a passing document. */
  lemma ProgressCall(d: Docs, f: Filter, from: nat, id: nat, i: nat)
    requires Progress(d, f, from, id, i) && id < |d| && d[id].Some? && f.accept(id, d[id].value)
    ensures var list := Matching(d, f, from, StopPoint(d, f, from));
            && Progress(d, f, from, id + 1, i + 1)
            && i < |list| && list[..i + 1] == list[..i] + [(id, f.rewrite(d[id].value))]
  {
    StopPointRange(d, f, from);
    var s := StopPoint(d, f, from);
    var list := Matching(d, f, from, s);
    var call := (id, f.rewrite(d[id].value));
    assert Matching(d, f, id, s) == [call] + Matching(d, f, id + 1, s);
    assert list == (list[..i] + [call]) + Matching(d, f, id + 1, s);
    assert list[..i + 1] == list[..i] + [call];
  }

  /** Nothing is left at the stop point or past the end. */
  lemma ProgressEnd(d: Docs, f: Filter, from: nat, id: nat, i: nat)
    requires Progress(d, f, from, id, i) && (id >= |d| || StopsAt(d, f, id))
    ensures i == |Matching(d, f, from, StopPoint(d, f, from))|
  {
    StopPointRange(d, f, from);
    var s := StopPoint(d, f, from);
    assert Matching(d, f, id, s) == [];
  }

  lemma DeliverStep<T>(list: seq<T>, limit: nat, cb: seq<T> -> Status, i: nat)
    requires i < |list| && i < limit
    ensures Deliver(list, limit, cb, i) ==
            var s := cb(list[..i + 1]);
            if s != OK then (list[..i + 1], s) else Deliver(list, limit, cb, i + 1)
  {
  }

  lemma DeliverStops<T>(list: seq<T>, limit: nat, cb: seq<T> -> Status, i: nat)
    requires i <= |list| && (i == |list| || i >= limit)
    ensures Deliver(list, limit, cb, i) == (list[..i], OK)
  {
  }

  lemma IterateIs(d: Docs, f: Filter, from: nat, max: nat, cb: Callback)
    ensures Iterate(d, f, from, max, cb) == Deliver(Matching(d, f, from, StopPoint(d, f, from)), max, cb, 0)
  {
  }
}
