/** The cache of chunk handles of the log backend, and the stack property of least-recently-used eviction. */
module LruCache {
  import opened Basics

  // ---- Recency ----

  function Remove(list: seq<nat>, id: nat): (r: seq<nat>)
    ensures forall x :: x in r <==> x != id && x in list
  {
    if list == [] then []
    else if list[0] == id then Remove(list[1..], id)
    else [list[0]] + Remove(list[1..], id)
  }

  /** The distinct ids of an access history, most recently used first. */
  function Recency(history: seq<nat>): seq<nat> {
    if history == [] then []
    else
      var last := history[|history| - 1];
      [last] + Remove(Recency(history[..|history| - 1]), last)
  }

  function Take(list: seq<nat>, n: nat): seq<nat> {
    if n <= |list| then list[..n] else list
  }

  /** Position just after the last access to `id`, or 0. */
  function LastUse(history: seq<nat>, id: nat): (n: nat)
    ensures n <= |history|
  {
    if history == [] then 0
    else if history[|history| - 1] == id then |history|
    else LastUse(history[..|history| - 1], id)
  }

  ghost predicate ByLastUse(list: seq<nat>, history: seq<nat>) {
    forall i, j | 0 <= i < j < |list| :: LastUse(history, list[i]) > LastUse(history, list[j])
  }

  lemma {:induction false} LastUseIsLast(history: seq<nat>, id: nat)
    ensures var n := LastUse(history, id);
            && (n == 0 <==> id !in history)
            && (n > 0 ==> history[n - 1] == id)
            && id !in history[n..]
  {
    if history != [] && history[|history| - 1] != id {
      var before := history[..|history| - 1];
      LastUseIsLast(before, id);
      assert history == before + [history[|history| - 1]];
      assert history[LastUse(history, id)..] == before[LastUse(before, id)..] + [history[|history| - 1]];
    }
  }

  lemma {:induction false} RemoveKeepsOrder(list: seq<nat>, id: nat, history: seq<nat>)
    requires ByLastUse(list, history)
    ensures ByLastUse(Remove(list, id), history)
  {
    if list != [] {
      var tail := list[1..];
      assert ByLastUse(tail, history);
      RemoveKeepsOrder(tail, id, history);
      if list[0] != id {
        var rest := Remove(tail, id);
        forall j | 0 <= j < |rest| ensures LastUse(history, list[0]) > LastUse(history, rest[j]) {
          assert rest[j] in tail;
        }
        assert ByLastUse([list[0]] + rest, history);
      }
    }
  }

  /** `Recency` is what its name says: the accessed ids, in decreasing order of last access. */
  lemma {:induction false} RecencyOrder(history: seq<nat>)
    ensures ByLastUse(Recency(history), history)
    ensures forall x :: x in Recency(history) <==> x in history
  {
    if history != [] {
      var before, last := history[..|history| - 1], history[|history| - 1];
      assert history == before + [last];
      RecencyOrder(before);
      var rest := Remove(Recency(before), last);
      RemoveKeepsOrder(Recency(before), last, before);
      forall k | 0 <= k < |rest| ensures LastUse(history, rest[k]) == LastUse(before, rest[k]) {
        assert rest[k] in rest;
      }
      assert ByLastUse([last] + rest, history);
    }
  }

  // ---- One access ----

  /** Effect of `get` on the ids of the access list. */
  function Touch(list: seq<nat>, id: nat, max: nat): seq<nat>
    requires max >= 1
  {
    if id in list then [id] + Remove(list, id)
    else [id] + (if |list| >= max then list[..|list| - 1] else list)
  }

  /** The list with its k-th node moved to the front. */
  function MoveToFront<T>(list: seq<T>, k: nat): (r: seq<T>)
    requires k < |list|
    ensures |r| == |list|
  {
    [list[k]] + (list[..k] + list[k + 1..])
  }

  lemma {:induction false} RemoveAbsent(list: seq<nat>, id: nat)
    requires id !in list
    ensures Remove(list, id) == list
  {
    if list != [] {
      RemoveAbsent(list[1..], id);
    }
  }

  lemma {:induction false} RemoveSlice(list: seq<nat>, k: nat)
    requires k < |list|
    requires Distinct(list)
    ensures Remove(list, list[k]) == list[..k] + list[k + 1..]
  {
    var tail := list[1..];
    if k == 0 {
      RemoveAbsent(tail, list[0]);
    } else {
      assert Distinct(tail) by {
        forall i, j | 0 <= i < j < |tail| ensures tail[i] != tail[j] {
          assert list[i + 1] != list[j + 1];
        }
      }
      RemoveSlice(tail, k - 1);
      assert list[0] != list[k];
      assert list[..k] + list[k + 1..] == [list[0]] + (tail[..k - 1] + tail[k..]);
    }
  }

  lemma TouchIsMove(list: seq<nat>, k: nat, max: nat)
    requires Distinct(list) && k < |list| && max >= 1
    ensures [list[k]] + Remove(list, list[k]) == MoveToFront(list, k)
    ensures Touch(list, list[k], max) == MoveToFront(list, k)
  {
    RemoveSlice(list, k);
  }

  lemma TouchPrefix(list: seq<nat>, k: nat, max: nat)
    requires Distinct(list) && k < max <= |list|
    ensures Touch(list[..max], list[k], max) == MoveToFront(list, k)[..max]
  {
    assert list[..max][k] == list[k];
    TouchIsMove(list[..max], k, max);
  }

  lemma TouchTakeHit(list: seq<nat>, k: nat, max: nat)
    requires Distinct(list) && k < |list| && k < max
    ensures Touch(Take(list, max), list[k], max) == Take(MoveToFront(list, k), max)
  {
    if max < |list| {
      TouchPrefix(list, k, max);
    } else {
      assert Take(list, max) == list;
      TouchIsMove(list, k, max);
    }
  }

  lemma TouchTakeMiss(list: seq<nat>, id: nat, max: nat)
    requires max >= 1 && Distinct(list) && id !in Take(list, max)
    ensures Touch(Take(list, max), id, max) == Take([id] + Remove(list, id), max)
  {
    if id in list {
      var k :| 0 <= k < |list| && list[k] == id;
      assert k >= max;
      RemoveSlice(list, k);
    } else {
      RemoveAbsent(list, id);
    }
  }

  lemma TouchTake(list: seq<nat>, id: nat, max: nat)
    requires max >= 1 && Distinct(list)
    ensures Touch(Take(list, max), id, max) == Take([id] + Remove(list, id), max)
  {
    if id in Take(list, max) {
      var k :| 0 <= k < |Take(list, max)| && Take(list, max)[k] == id;
      assert list[k] == id;
      TouchTakeHit(list, k, max);
      TouchIsMove(list, k, max);
    } else {
      TouchTakeMiss(list, id, max);
    }
  }

  /** The access list after a history of accesses. */
  function Run(history: seq<nat>, max: nat): seq<nat>
    requires max >= 1
  {
    if history == [] then [] else Touch(Run(history[..|history| - 1], max), history[|history| - 1], max)
  }

  /** Stack property: the list holds the `max` most recently used distinct ids, in order of recency. */
  lemma {:induction false} StackProperty(history: seq<nat>, max: nat)
    requires max >= 1
    ensures Run(history, max) == Take(Recency(history), max)
  {
    if history != [] {
      var before := history[..|history| - 1];
      StackProperty(before, max);
      RecencyOrder(before);
      TouchTake(Recency(before), history[|history| - 1], max);
    }
  }

  /** Inclusion: a larger cache fed the same accesses holds everything a smaller one holds, in the same order. */
  lemma Inclusion(history: seq<nat>, small: nat, large: nat)
    requires 1 <= small <= large
    ensures Run(history, small) <= Run(history, large)
  {
    StackProperty(history, small);
    StackProperty(history, large);
  }

  // ---- List and map ----

  function Ids<T>(list: seq<(nat, T)>): (r: seq<nat>)
    ensures |r| == |list|
  {
    seq(|list|, i requires 0 <= i < |list| => list[i].0)
  }

  /** The map indexes exactly the list: each cached id leads to its list node. */
  ghost predicate Indexed<T>(list: seq<(nat, T)>, index: map<nat, (nat, T)>) {
    && Distinct(Ids(list))
    && |index| == |list|
    && (forall i | 0 <= i < |list| :: list[i].0 in index && index[list[i].0] == list[i])
    && (forall id | id in index :: index[id].0 == id && index[id] in list)
  }

  lemma IndexedIds<T>(list: seq<(nat, T)>, index: map<nat, (nat, T)>, id: nat)
    requires Indexed(list, index)
    ensures id in index <==> id in Ids(list)
  {
    if id in Ids(list) {
      var k :| 0 <= k < |list| && Ids(list)[k] == id;
      assert list[k].0 in index;
    }
    if id in index {
      var k :| 0 <= k < |list| && list[k] == index[id];
      assert Ids(list)[k] == id;
    }
  }

  lemma IndexedEvict<T>(list: seq<(nat, T)>, index: map<nat, (nat, T)>)
    requires Indexed(list, index) && list != []
    ensures var n := |list| - 1; list[n].0 in index && Indexed(list[..n], index - {list[n].0})
  {
    var n := |list| - 1;
    var front, rest := list[..n], index - {list[n].0};
    assert forall i | 0 <= i < n :: Ids(list)[i] == front[i].0 && Ids(list)[i] != Ids(list)[n];
    assert rest.Keys == index.Keys - {list[n].0};
    assert |rest.Keys| == |index.Keys| - 1;
    forall id | id in rest ensures rest[id] in front {
      var k :| 0 <= k < |list| && list[k] == index[id];
      assert k != n;
      assert front[k] == rest[id];
    }
  }

  lemma PushIds<T>(list: seq<(nat, T)>, node: (nat, T))
    requires Distinct(Ids(list)) && node.0 !in Ids(list)
    ensures Distinct(Ids([node] + list))
  {
    assert Ids([node] + list) == [node.0] + Ids(list);
  }

  lemma IndexedPush<T>(list: seq<(nat, T)>, index: map<nat, (nat, T)>, node: (nat, T))
    requires Indexed(list, index) && node.0 !in index
    ensures Indexed([node] + list, index[node.0 := node])
  {
    IndexedIds(list, index, node.0);
    PushIds(list, node);
    assert index[node.0 := node].Keys == index.Keys + {node.0};
  }

  lemma IndexedMove<T>(list: seq<(nat, T)>, index: map<nat, (nat, T)>, k: nat)
    requires Indexed(list, index) && k < |list|
    ensures Indexed(MoveToFront(list, k), index)
    ensures Ids(MoveToFront(list, k)) == [list[k].0] + Remove(Ids(list), list[k].0)
  {
    var ids, moved := Ids(list), MoveToFront(list, k);
    assert Ids(moved) == MoveToFront(ids, k);
    RemoveSlice(ids, k);
    assert Distinct(MoveToFront(ids, k));
    forall i | 0 <= i < |moved| ensures moved[i].0 in index && index[moved[i].0] == moved[i] {
      var j := if i == 0 then k else if i <= k then i - 1 else i;
      assert moved[i] == list[j];
    }
    forall id | id in index ensures index[id] in moved {
      var j :| 0 <= j < |list| && list[j] == index[id];
      assert moved[if j == k then 0 else if j < k then j + 1 else j] == list[j];
    }
  }

  // ---- The cache ----

  class LruCache<T(==)> {
    const maxSize: nat
    // (id, object) nodes, most recently used first
    var accessList: seq<(nat, T)>
    // the list node of each cached id
    var cacheMap: map<nat, (nat, T)>
    ghost var history: seq<nat>

    ghost predicate Valid()
      reads this
    {
      && maxSize >= 1
      && Indexed(accessList, cacheMap)
      && |accessList| <= maxSize
      && Ids(accessList) == Run(history, maxSize)
    }

    constructor (max: nat)
      requires max >= 1
      ensures Valid() && fresh(this) && maxSize == max && history == [] && accessList == []
    {
      maxSize := max;
      accessList, cacheMap, history := [], map[], [];
    }

    /** Fetch an object by id, making and caching it when it is not there. */
    method Get(id: nat, make: nat -> T) returns (obj: T)
      requires Valid()
      modifies this
      ensures Valid() && history == old(history) + [id]
      ensures obj == if id in old(cacheMap) then old(cacheMap)[id].1 else make(id)
      ensures accessList != [] && accessList[0] == (id, obj)
      ensures forall p | p in accessList :: p == (id, obj) || p in old(accessList)
    {
      IndexedIds(accessList, cacheMap, id);
      assert (history + [id])[..|history|] == history;
      if id !in cacheMap {
        obj := make(id);
        PutNew(obj, id);
      } else {
        var k := Position(id);
        obj := cacheMap[id].1;
        IndexedMove(accessList, cacheMap, k);
        assert accessList[k].0 in cacheMap;
        accessList := MoveToFront(accessList, k);
      }
      history := history + [id];
    }

    /** Where the node that `cacheMap` gives for `id` stands in the list. */
    method Position(id: nat) returns (k: nat)
      requires Indexed(accessList, cacheMap) && id in cacheMap
      ensures k < |accessList| && accessList[k] == cacheMap[id]
    {
      k := 0;
      while accessList[k] != cacheMap[id]
        invariant k < |accessList| && cacheMap[id] in accessList[k..]
        decreases |accessList| - k
      {
        assert accessList[k..] == [accessList[k]] + accessList[k + 1..];
        k := k + 1;
      }
    }

    /** Insertion of an id that is not cached, evicting the least recently used node when full. */
    method PutNew(obj: T, id: nat)
      requires maxSize >= 1 && Indexed(accessList, cacheMap) && |accessList| <= maxSize && id !in cacheMap
      modifies this`accessList, this`cacheMap
      ensures Indexed(accessList, cacheMap) && |accessList| <= maxSize
      ensures Ids(accessList) == Touch(Ids(old(accessList)), id, maxSize)
      ensures accessList[0] == (id, obj)
      ensures forall p | p in accessList :: p == (id, obj) || p in old(accessList)
    {
      IndexedIds(accessList, cacheMap, id);
      if |cacheMap| >= maxSize {
        EvictLast();
      }
      assert Ids(accessList) ==
             if |old(accessList)| >= maxSize then Ids(old(accessList))[..|old(accessList)| - 1]
             else Ids(old(accessList));
      assert Ids([(id, obj)] + accessList) == [id] + Ids(accessList);
      IndexedPush(accessList, cacheMap, (id, obj));
      accessList := [(id, obj)] + accessList;
      cacheMap := cacheMap[id := (id, obj)];
    }

    /** Removal of the least recently used node. */
    method EvictLast()
      requires Indexed(accessList, cacheMap) && accessList != []
      modifies this`accessList, this`cacheMap
      ensures Indexed(accessList, cacheMap)
      ensures accessList == old(accessList)[..|old(accessList)| - 1]
      ensures cacheMap == old(cacheMap) - {old(accessList)[|old(accessList)| - 1].0}
    {
      IndexedEvict(accessList, cacheMap);
      var lru := accessList[|accessList| - 1];
      cacheMap := cacheMap - {lru.0};
      accessList := accessList[..|accessList| - 1];
    }
  }
}
