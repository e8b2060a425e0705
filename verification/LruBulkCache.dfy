/** The buffer cache with a bounded queue per access mode, emptied from the least recently released end. */
module LruBulkCache {
  // A request looks its buffer up under the lock, drops the lock when it finds none, and allocates without it; a
  // release lowers the counter first and inserts the buffer under the lock afterwards. Each of these steps is one
  // method, so the calls of overlapping users may come in any order.

  import opened Basics
  import opened BulkBuffers

  /** One mode's buffers: most recently released first, and by size. */
  datatype Shelf = Shelf(queue: seq<Buffer>, index: seq<Buffer>)

  predicate ShelfOk(sh: Shelf, mode: Mode) {
    && Distinct(sh.queue) && Ordered(sh.index) && Members(sh.queue) == Members(sh.index)
    && forall b | b in sh.queue :: b.mode == mode
  }

  /** The buffer at position `i` of the index leaves both. */
  function Taken(sh: Shelf, i: nat): Shelf
    requires i < |sh.index| && sh.index[i] in sh.queue
  {
    Shelf(RemoveAt(sh.queue, Position(sh.queue, sh.index[i])), RemoveAt(sh.index, i))
  }

  function Pushed(sh: Shelf, b: Buffer): Shelf {
    Shelf([b] + sh.queue, InsertOrdered(sh.index, b))
  }

  function Oldest(sh: Shelf): Buffer
    requires sh.queue != []
  {
    sh.queue[|sh.queue| - 1]
  }

  function Popped(sh: Shelf): Shelf
    requires sh.queue != [] && Oldest(sh) in sh.index
  {
    Shelf(sh.queue[..|sh.queue| - 1], RemoveAt(sh.index, Position(sh.index, Oldest(sh))))
  }

  /** Released later means closer to the front. */
  predicate ByRelease(queue: seq<Buffer>, releasedAt: map<Buffer, nat>) {
    && (forall b | b in queue :: b in releasedAt)
    && forall i, j | 0 <= i < j < |queue| :: releasedAt[queue[i]] > releasedAt[queue[j]]
  }

  lemma TakenKeeps(sh: Shelf, mode: Mode, i: nat)
    requires ShelfOk(sh, mode) && i < |sh.index|
    ensures sh.index[i] in sh.queue
    ensures ShelfOk(Taken(sh, i), mode) && Members(Taken(sh, i).queue) == Members(sh.queue) - {sh.index[i]}
    ensures |Taken(sh, i).queue| == |sh.queue| - 1
    ensures forall at | ByRelease(sh.queue, at) :: ByRelease(Taken(sh, i).queue, at)
  {
    var b := sh.index[i];
    assert b in Members(sh.index);
    OrderedDistinct(sh.index);
    RemoveMembers(sh.index, i);
    RemoveMembers(sh.queue, Position(sh.queue, b));
    var t := Taken(sh, i);
    forall c | c in t.queue ensures c in sh.queue {
      assert c in Members(t.queue);
    }
    hide Ordered, Distinct;
    forall at | ByRelease(sh.queue, at) ensures ByRelease(t.queue, at) {
      ByReleaseWithout(sh.queue, Position(sh.queue, b), at);
    }
  }

  lemma ByReleaseWithout(queue: seq<Buffer>, i: nat, at: map<Buffer, nat>)
    requires i < |queue| && ByRelease(queue, at)
    ensures ByRelease(RemoveAt(queue, i), at)
  {
    var r := RemoveAt(queue, i);
    forall k | 0 <= k < |r| ensures r[k] == queue[if k < i then k else k + 1] {
    }
  }

  lemma PushedKeeps(sh: Shelf, mode: Mode, b: Buffer)
    requires ShelfOk(sh, mode) && b.mode == mode && forall c | c in sh.queue :: c.data != b.data
    ensures ShelfOk(Pushed(sh, b), mode) && Members(Pushed(sh, b).queue) == Members(sh.queue) + {b}
  {
    forall c | c in sh.index ensures c.data != b.data {
      assert c in Members(sh.index);
    }
    InsertKeepsOrder(sh.index, b);
    InsertMembers(sh.index, b);
  }

  lemma PoppedKeeps(sh: Shelf, mode: Mode)
    requires ShelfOk(sh, mode) && sh.queue != []
    ensures Oldest(sh) in sh.index
    ensures ShelfOk(Popped(sh), mode) && Members(Popped(sh).queue) == Members(sh.queue) - {Oldest(sh)}
    ensures forall at | ByRelease(sh.queue, at) :: ByRelease(Popped(sh).queue, at)
  {
    var n := |sh.queue| - 1;
    assert Oldest(sh) in Members(sh.queue);
    OrderedDistinct(sh.index);
    RemoveMembers(sh.index, Position(sh.index, Oldest(sh)));
    RemoveMembers(sh.queue, n);
    assert RemoveAt(sh.queue, n) == sh.queue[..n];
  }

  /** The last buffer of the queue is the one released longest ago. */
  lemma OldestIsOldest(sh: Shelf, releasedAt: map<Buffer, nat>)
    requires ByRelease(sh.queue, releasedAt) && sh.queue != []
    ensures forall b | b in sh.queue && b != Oldest(sh) :: releasedAt[Oldest(sh)] < releasedAt[b]
  {
  }

  lemma PushedByRelease(queue: seq<Buffer>, releasedAt: map<Buffer, nat>, b: Buffer, clock: nat)
    requires ByRelease(queue, releasedAt) && b !in queue && forall c | c in releasedAt :: releasedAt[c] < clock
    ensures ByRelease([b] + queue, releasedAt[b := clock])
  {
  }

  // ---- All modes together ----

  /** Map and queue of a mode hold the cached buffers of that mode, most recently released first, within capacity. */
  predicate ShelfFits(sh: Shelf, m: Mode, cached: set<Buffer>, releasedAt: map<Buffer, nat>, capacity: nat) {
    && ShelfOk(sh, m) && |sh.queue| <= capacity
    && Members(sh.queue) == OfMode(cached, m) && ByRelease(sh.queue, releasedAt)
  }

  ghost predicate AllFit(shelves: map<Mode, Shelf>, cached: set<Buffer>, releasedAt: map<Buffer, nat>, capacity: nat) {
    forall m: Mode :: m in shelves && ShelfFits(shelves[m], m, cached, releasedAt, capacity)
  }

  lemma ShelfOf(shelves: map<Mode, Shelf>, cached: set<Buffer>, releasedAt: map<Buffer, nat>, capacity: nat, m: Mode)
    requires AllFit(shelves, cached, releasedAt, capacity)
    ensures m in shelves && ShelfFits(shelves[m], m, cached, releasedAt, capacity)
  {
  }

  lemma EmptyFits(capacity: nat)
    ensures AllFit(map[ReadOnly := Shelf([], []), WriteOnly := Shelf([], []), ReadWrite := Shelf([], [])], {}, map[],
                   capacity)
  {
    var shelves := map[ReadOnly := Shelf([], []), WriteOnly := Shelf([], []), ReadWrite := Shelf([], [])];
    forall m: Mode ensures m in shelves && shelves[m] == Shelf([], []) && OfMode({}, m) == {} == Members([]) {
      match m
      case ReadOnly =>
      case WriteOnly =>
      case ReadWrite =>
    }
  }

  /** Changing one mode's shelf and a buffer of that mode leaves the other modes alone. */
  lemma OneShelf(shelves: map<Mode, Shelf>, cached: set<Buffer>, cached': set<Buffer>, at: map<Buffer, nat>,
                 at': map<Buffer, nat>, capacity: nat, mode: Mode, sh: Shelf)
    requires AllFit(shelves, cached, at, capacity) && ShelfFits(sh, mode, cached', at', capacity)
    requires forall m: Mode | m != mode :: OfMode(cached', m) == OfMode(cached, m)
    requires forall b | b in at && b.mode != mode :: b in at' && at'[b] == at[b]
    ensures AllFit(shelves[mode := sh], cached', at', capacity)
  {
    hide OfMode, Distinct, Ordered, Members;
    forall m: Mode | m != mode ensures m in shelves && ShelfFits(shelves[m], m, cached', at', capacity) {
      assert ShelfFits(shelves[m], m, cached, at, capacity);
      SameRelease(shelves[m].queue, at, at', mode);
    }
  }

  lemma SameRelease(queue: seq<Buffer>, at: map<Buffer, nat>, at': map<Buffer, nat>, mode: Mode)
    requires ByRelease(queue, at) && forall b | b in queue :: b.mode != mode
    requires forall b | b in at && b.mode != mode :: b in at' && at'[b] == at[b]
    ensures ByRelease(queue, at')
  {
  }

  lemma TakeFits(shelves: map<Mode, Shelf>, cached: set<Buffer>, at: map<Buffer, nat>, capacity: nat, mode: Mode,
                 i: nat)
    requires AllFit(shelves, cached, at, capacity) && mode in shelves && i < |shelves[mode].index|
    ensures var b := shelves[mode].index[i];
            && b in cached && b.mode == mode && b in shelves[mode].queue
            && AllFit(shelves[mode := Taken(shelves[mode], i)], cached - {b}, at, capacity)
  {
    var sh := shelves[mode];
    var b := sh.index[i];
    ShelfOf(shelves, cached, at, capacity, mode);
    assert b in Members(sh.index);
    TakenKeeps(sh, mode, i);
    forall m: Mode ensures OfMode(cached - {b}, m) == if m == mode then OfMode(cached, m) - {b} else OfMode(cached, m) {
      OfModeMinus(cached, b, m);
    }
    hide AllFit, ShelfOk, OfMode, Members, ByRelease;
    OneShelf(shelves, cached, cached - {b}, at, at, capacity, mode, Taken(sh, i));
  }

  /** One released buffer, put in front of its mode's queue at time `clock`. */
  lemma PushShelf(before: Shelf, mode: Mode, cached: set<Buffer>, at: map<Buffer, nat>, capacity: nat, b: Buffer,
                  clock: nat)
    requires ShelfFits(before, mode, cached, at, capacity) && b !in cached && b.mode == mode
    requires forall c | c in cached :: c.data != b.data
    requires forall c | c in at :: at[c] < clock
    ensures var sh := Pushed(before, b);
            && ShelfOk(sh, mode) && Members(sh.queue) == OfMode(cached + {b}, mode)
            && ByRelease(sh.queue, at[b := clock]) && 0 < |sh.queue| <= capacity + 1
  {
    forall c | c in before.queue ensures c in cached {
      assert c in Members(before.queue);
    }
    OfModePlus(cached, b, mode);
    hide OfMode;
    PushedKeeps(before, mode, b);
    PushedByRelease(before.queue, at, b, clock);
  }

  /** The last buffer of an overfull queue leaves. */
  lemma PopShelf(sh: Shelf, mode: Mode, cached: set<Buffer>, at: map<Buffer, nat>, capacity: nat)
    requires ShelfOk(sh, mode) && Members(sh.queue) == OfMode(cached, mode) && ByRelease(sh.queue, at)
    requires |sh.queue| == capacity + 1
    ensures var last := Oldest(sh);
            && last in sh.index && last in cached && last.mode == mode
            && ShelfFits(Popped(sh), mode, cached - {last}, at, capacity)
            && last in at && forall c | c in cached && c.mode == mode && c != last :: c in at && at[last] < at[c]
  {
    var last := Oldest(sh);
    PoppedKeeps(sh, mode);
    OldestIsOldest(sh, at);
    assert last in Members(sh.queue);
    OfModeMinus(cached, last, mode);
    forall c | c in cached && c.mode == mode && c != last ensures c in at && at[last] < at[c] {
      assert c in Members(sh.queue);
    }
  }

  /** The shelves after a release: trimmed when the queue has grown past the capacity. */
  function Released(shelves: map<Mode, Shelf>, b: Buffer, capacity: nat): (map<Mode, Shelf>, Option<Buffer>)
    requires b.mode in shelves
  {
    var sh := Pushed(shelves[b.mode], b);
    if |sh.queue| > capacity && Oldest(sh) in sh.index then (shelves[b.mode := Popped(sh)], Some(Oldest(sh)))
    else (shelves[b.mode := sh], None)
  }

  /** The owner's books after a release. */
  function Returned(o: Ownership, b: Buffer, evicted: Option<Buffer>): Ownership {
    if evicted.Some? then Free(TakeBack(o, b), evicted.value) else TakeBack(o, b)
  }

  /**
   An eviction takes, among all cached buffers of the mode and the one just released, the one released longest ago.
   */
  lemma ReleaseFits(shelves: map<Mode, Shelf>, cached: set<Buffer>, at: map<Buffer, nat>, capacity: nat, b: Buffer,
                    clock: nat)
    requires AllFit(shelves, cached, at, capacity) && b !in cached && b.mode in shelves
    requires forall c | c in cached :: c.data != b.data
    requires forall c | c in at :: at[c] < clock
    ensures var r := Released(shelves, b, capacity);
            var at' := at[b := clock];
            && AllFit(r.0, if r.1.Some? then cached + {b} - {r.1.value} else cached + {b}, at', capacity)
            && (r.1.Some? <==> |shelves[b.mode].queue| == capacity)
            && (r.1.Some? ==>
                 && r.1.value in cached + {b} && r.1.value.mode == b.mode && r.1.value in at'
                 && forall c | c in cached + {b} && c.mode == b.mode && c != r.1.value ::
                       c in at' && at'[r.1.value] < at'[c])
  {
    var mode := b.mode;
    var sh := Pushed(shelves[mode], b);
    var at' := at[b := clock];
    ShelfOf(shelves, cached, at, capacity, mode);
    PushShelf(shelves[mode], mode, cached, at, capacity, b, clock);
    assert |sh.queue| == |shelves[mode].queue| + 1;
    OtherModes(cached, b);
    if |sh.queue| > capacity {
      PopShelf(sh, mode, cached + {b}, at', capacity);
      OtherModesMinus(cached + {b}, Oldest(sh));
      hide AllFit, ShelfOk, OfMode, Members, ByRelease, Pushed, Popped;
      OneShelf(shelves, cached, cached + {b} - {Oldest(sh)}, at, at', capacity, mode, Popped(sh));
    } else {
      hide AllFit, ShelfOk, OfMode, Members, ByRelease, Pushed;
      OneShelf(shelves, cached, cached + {b}, at, at', capacity, mode, sh);
    }
  }

  lemma OtherModes(cached: set<Buffer>, b: Buffer)
    ensures forall m: Mode | m != b.mode :: OfMode(cached + {b}, m) == OfMode(cached, m)
  {
    forall m: Mode {
      OfModePlus(cached, b, m);
    }
  }

  lemma OtherModesMinus(cached: set<Buffer>, b: Buffer)
    ensures forall m: Mode | m != b.mode :: OfMode(cached - {b}, m) == OfMode(cached, m)
  {
    forall m: Mode {
      OfModeMinus(cached, b, m);
    }
  }

  // ---- The cache ----

  /** Everything that holds between calls. */
  ghost predicate CacheOk(shelves: map<Mode, Shelf>, o: Ownership, at: map<Buffer, nat>, clock: nat, capacity: nat,
                          numInUse: int) {
    && AllFit(shelves, o.cached, at, capacity) && Partition(o) && numInUse == |o.inUse|
    && forall b | b in at :: at[b] < clock
  }

  lemma TakeOk(shelves: map<Mode, Shelf>, o: Ownership, at: map<Buffer, nat>, clock: nat, capacity: nat, numInUse: int,
               mode: Mode, i: nat)
    requires CacheOk(shelves, o, at, clock, capacity, numInUse) && mode in shelves && i < |shelves[mode].index|
    ensures var b := shelves[mode].index[i];
            && b in o.cached && b.mode == mode && b in shelves[mode].queue && b !in o.inUse
            && CacheOk(shelves[mode := Taken(shelves[mode], i)], HandOut(o, b), at, clock, capacity, numInUse + 1)
  {
    hide AllFit, Partition, Taken;
    TakeFits(shelves, o.cached, at, capacity, mode, i);
    HandOutKeeps(o, shelves[mode].index[i]);
  }

  lemma AllocateOk(shelves: map<Mode, Shelf>, o: Ownership, at: map<Buffer, nat>, clock: nat, capacity: nat,
                   numInUse: int, b: Buffer)
    requires CacheOk(shelves, o, at, clock, capacity, numInUse)
    requires NewAddress(o, b.data) && b.serial == o.serials
    ensures CacheOk(shelves, Allocate(o, b), at, clock, capacity, numInUse + 1) && b !in All(o)
  {
    hide AllFit, Partition;
    AllocateKeeps(o, b);
  }

  lemma ReleaseOk(shelves: map<Mode, Shelf>, o: Ownership, at: map<Buffer, nat>, clock: nat, capacity: nat,
                  numInUse: int, b: Buffer)
    requires CacheOk(shelves, o, at, clock, capacity, numInUse) && b in o.inUse
    ensures b.mode in shelves
    ensures var r := Released(shelves, b, capacity);
            && CacheOk(r.0, Returned(o, b, r.1), at[b := clock], clock + 1, capacity, numInUse - 1)
            && (r.1.Some? <==> |shelves[b.mode].queue| == capacity)
            && (r.1.Some? ==> LeastRecent(r.1.value, o.cached + {b}, at[b := clock]))
  {
    hide Partition, Released, ShelfFits, Returned;
    ShelfOf(shelves, o.cached, at, capacity, b.mode);
    hide AllFit;
    NotCached(o, b);
    ReleaseFits(shelves, o.cached, at, capacity, b, clock);
    ReturnedKeeps(o, b, Released(shelves, b, capacity).1);
  }

  /** Of these buffers with its mode, this one was released longest ago. */
  predicate LeastRecent(b: Buffer, among: set<Buffer>, at: map<Buffer, nat>) {
    b in among && b in at && forall c | c in among && c.mode == b.mode && c != b :: c in at && at[b] < at[c]
  }

  lemma ReturnedKeeps(o: Ownership, b: Buffer, evicted: Option<Buffer>)
    requires Partition(o) && b in o.inUse && (evicted.Some? ==> evicted.value in o.cached + {b})
    ensures var p := Returned(o, b, evicted);
            && Partition(p) && |p.inUse| == |o.inUse| - 1
            && p.cached == if evicted.Some? then o.cached + {b} - {evicted.value} else o.cached + {b}
  {
    hide Partition;
    TakeBackKeeps(o, b);
    if evicted.Some? {
      FreeKeeps(TakeBack(o, b), evicted.value);
    }
  }

  lemma NotCached(o: Ownership, b: Buffer)
    requires Partition(o) && b in o.inUse
    ensures b !in o.cached && forall c | c in o.cached :: c.data != b.data
  {
    InUseAddress(o, b);
  }

  lemma InitOk(capacity: nat)
    ensures CacheOk(map[ReadOnly := Shelf([], []), WriteOnly := Shelf([], []), ReadWrite := Shelf([], [])],
                    Ownership({}, {}, {}, 0), map[], 0, capacity, 0)
  {
    EmptyFits(capacity);
  }

  /** What a lookup in a mode's index finds. */
  lemma LookupFinds(shelves: map<Mode, Shelf>, o: Ownership, at: map<Buffer, nat>, clock: nat, capacity: nat,
                    numInUse: int, mode: Mode, size: nat)
    requires CacheOk(shelves, o, at, clock, capacity, numInUse)
    ensures mode in shelves
    ensures FirstFit(shelves[mode].index, size) < |shelves[mode].index| <==> Fitting(o, size, mode)
    ensures var i := FirstFit(shelves[mode].index, size);
            i < |shelves[mode].index| ==>
              var c := shelves[mode].index[i];
              c.size >= size && forall b | b in o.cached && b.mode == mode && b.size >= size :: c.size <= b.size
  {
    ShelfOf(shelves, o.cached, at, capacity, mode);
    BestFit(shelves[mode].index, o.cached, mode, size);
  }

  class Cache {
    const capacity: nat
    const margin: real
    var shelves: map<Mode, Shelf>
    var numInUse: int
    ghost var owner: Ownership
    ghost var releasedAt: map<Buffer, nat>
    ghost var clock: nat
    ghost var pending: multiset<Request>
    ghost var leaving: set<Buffer>

    /** `pending` missed and have not allocated yet; `leaving` are counted as released but not inserted yet. */
    ghost predicate Valid() reads this {
      && margin >= 0.0 && leaving <= owner.inUse
      && CacheOk(shelves, owner, releasedAt, clock, capacity, numInUse + |leaving|)
    }

    constructor (capacity: nat, margin: real)
      ensures Valid() && this.capacity == capacity && owner == Ownership({}, {}, {}, 0)
      ensures pending == multiset{} && leaving == {}
      ensures this.margin == if margin < 0.0 then 0.0 else margin
    {
      hide CacheOk;
      this.capacity := capacity;
      this.margin := if margin < 0.0 then 0.0 else margin;
      shelves := map[ReadOnly := Shelf([], []), WriteOnly := Shelf([], []), ReadWrite := Shelf([], [])];
      numInUse := 0;
      owner := Ownership({}, {}, {}, 0);
      releasedAt := map[];
      clock, pending, leaving := 0, multiset{}, {};
      InitOk(capacity);
    }

    /** The locked part of a request: a smallest cached buffer of the mode that is large enough, or a miss. */
    method Lookup(size: nat, mode: Mode) returns (result: Option<Buffer>)
      requires Valid()
      modifies this
      ensures Valid() && releasedAt == old(releasedAt) && clock == old(clock) && leaving == old(leaving)
      ensures result.Some? <==> size > 0 && Fitting(old(owner), size, mode)
      ensures result.Some? ==>
                && Serves(result.value, Request(size, mode)) && result.value in old(owner).cached
                && result.value !in old(owner).inUse
                && owner == HandOut(old(owner), result.value) && pending == old(pending)
                && forall b | b in old(owner).cached && b.mode == mode && b.size >= size :: result.value.size <= b.size
      ensures result.None? ==>
                && owner == old(owner) && shelves == old(shelves)
                && pending == if size == 0 then old(pending) else old(pending) + multiset{Request(size, mode)}
    {
      hide CacheOk, Taken, FirstFit, Fitting;
      if size == 0 {
        return None;
      }
      ghost var held := numInUse + |leaving|;
      LookupFinds(shelves, owner, releasedAt, clock, capacity, held, mode, size);
      var i := FirstFit(shelves[mode].index, size);
      if i < |shelves[mode].index| {
        TakeOk(shelves, owner, releasedAt, clock, capacity, held, mode, i);
        var b := shelves[mode].index[i];
        shelves, numInUse := shelves[mode := Taken(shelves[mode], i)], numInUse + 1;
        owner := HandOut(owner, b);
        return Some(b);
      }
      pending := pending + multiset{Request(size, mode)};
      result := None;
    }

    /** The rest of a request that missed: a new buffer in the memory that the allocator gives, if it gives any. */
    method Allocate(size: nat, mode: Mode, memory: Option<Memory>) returns (result: Option<Buffer>)
      requires Valid() && Request(size, mode) in pending
      requires memory.Some? ==> FreshMemory(owner, memory.value)
      modifies this
      ensures Valid() && shelves == old(shelves) && releasedAt == old(releasedAt) && leaving == old(leaving)
      ensures pending == old(pending) - multiset{Request(size, mode)} && clock == old(clock)
      ensures memory.None? ==> result.None? && owner == old(owner)
      ensures memory.Some? ==>
                && result == Some(Buffer(memory.value.serial, memory.value.data, AllocatedSize(size, margin), mode))
                && Serves(result.value, Request(size, mode)) && result.value !in All(old(owner))
                && owner == BulkBuffers.Allocate(old(owner), result.value)
    {
      hide CacheOk, NewAddress, All;
      pending := pending - multiset{Request(size, mode)};
      if memory.None? {
        return None;
      }
      var b := Buffer(memory.value.serial, memory.value.data, AllocatedSize(size, margin), mode);
      AllocateOk(shelves, owner, releasedAt, clock, capacity, numInUse + |leaving|, b);
      numInUse := numInUse + 1;
      owner := BulkBuffers.Allocate(owner, b);
      result := Some(b);
    }

    /** The first part of a release: the buffer no longer counts as in use. */
    method BeginRelease(b: Buffer)
      requires Valid() && b in owner.inUse && b !in leaving
      modifies this`numInUse, this`leaving
      ensures Valid() && numInUse == old(numInUse) - 1 && leaving == old(leaving) + {b}
    {
      hide CacheOk;
      numInUse := numInUse - 1;
      leaving := leaving + {b};
    }

    /**
     The locked part of a release: the buffer becomes the most recent of its mode, and the least recently released one
     is freed when there are too many.
     */
    method EndRelease(b: Buffer) returns (freed: Option<Buffer>)
      requires Valid() && b in leaving
      modifies this
      ensures Valid() && b.mode in old(shelves) && pending == old(pending) && leaving == old(leaving) - {b}
      ensures shelves == Released(old(shelves), b, capacity).0 && freed == Released(old(shelves), b, capacity).1
      ensures owner == Returned(old(owner), b, freed)
      ensures releasedAt == old(releasedAt)[b := old(clock)] && clock == old(clock) + 1
      ensures freed.Some? <==> |old(shelves)[b.mode].queue| == capacity
      ensures freed.Some? ==> LeastRecent(freed.value, old(owner).cached + {b}, releasedAt)
    {
      hide CacheOk, Pushed, Popped, LeastRecent;
      ReleaseOk(shelves, owner, releasedAt, clock, capacity, numInUse + |leaving|, b);
      StillHeld(owner, b, Released(shelves, b, capacity).1, leaving);
      var sh := Pushed(shelves[b.mode], b);
      freed := None;
      if |sh.queue| > capacity && Oldest(sh) in sh.index {
        freed := Some(Oldest(sh));
        sh := Popped(sh);
      }
      shelves := shelves[b.mode := sh];
      owner := Returned(owner, b, freed);
      releasedAt, clock, leaving := releasedAt[b := clock], clock + 1, leaving - {b};
    }

    /** Free what the three indexes hold, which is everything cached, and report how many buffers callers still hold. */
    method Finalize() returns (freed: set<Buffer>, leaked: int)
      requires Valid()
      modifies this
      ensures leaked == |old(owner).inUse| - |old(leaving)| && freed == old(owner).cached
      ensures Partition(owner) && owner == old(owner).(cached := {}, freed := old(owner).freed + freed)
    {
      hide AllFit, Partition, Members;
      leaked := numInUse;
      IndexesHoldAll(shelves, owner.cached, releasedAt, capacity);
      AllFreed(owner);
      freed := Members(shelves[ReadOnly].index) + Members(shelves[WriteOnly].index) + Members(shelves[ReadWrite].index);
      shelves := map[];
      owner := owner.(cached := {}, freed := owner.freed + freed);
    }
  }

  lemma IndexesHoldAll(shelves: map<Mode, Shelf>, cached: set<Buffer>, at: map<Buffer, nat>, capacity: nat)
    requires AllFit(shelves, cached, at, capacity)
    ensures ReadOnly in shelves && WriteOnly in shelves && ReadWrite in shelves
    ensures Members(shelves[ReadOnly].index) + Members(shelves[WriteOnly].index) + Members(shelves[ReadWrite].index)
            == cached
  {
    forall m: Mode ensures m in shelves && Members(shelves[m].index) == OfMode(cached, m) {
      ShelfOf(shelves, cached, at, capacity, m);
    }
    ModesCover(cached);
    hide AllFit, Members, OfMode;
  }

  /** Who else is on the way back keeps what they hold. */
  lemma StillHeld(o: Ownership, b: Buffer, freed: Option<Buffer>, leaving: set<Buffer>)
    requires leaving <= o.inUse && b in leaving
    ensures leaving - {b} <= Returned(o, b, freed).inUse && |leaving - {b}| == |leaving| - 1
  {
  }

  lemma AllFreed(o: Ownership)
    requires Partition(o)
    ensures Partition(o.(cached := {}, freed := o.freed + o.cached))
  {
    var p := o.(cached := {}, freed := o.freed + o.cached);
    hide Numbered, Addressed;
    assert All(p) == All(o);
    SameAll(o, p);
    SameAddresses(o, p);
  }
}
