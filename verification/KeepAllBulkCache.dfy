/** The buffer cache that never frees. */
module KeepAllBulkCache {
  // How many buffers overlapping callers make it allocate.
  //
  // A request looks its buffer up under the lock, drops the lock when it finds none, and allocates without it; a
  // release lowers the counter first and inserts the buffer under the lock afterwards. Callers may overlap between
  // these steps, so the bounds are proved of every run of single steps.

  import opened Basics
  import opened BulkBuffers

  // ---- Steps of overlapping callers ----

  /**
   Who has which buffer, the requests that missed and have not allocated yet, the buffers counted as released but not
   inserted yet, what was asked for, and how many allocations failed. `peak` is the largest number of buffers in use
   or missed so far and `used` the largest number in use.
   */
  datatype Books = Books(o: Ownership, pending: multiset<Request>, leaving: set<Buffer>, requests: set<Request>,
                         failures: nat, peak: nat, used: nat)

  datatype Event =
    | Hit(b: Buffer, r: Request)
    | Miss(r: Request)
    | Allocated(b: Buffer, r: Request)
    | AllocationFailed(r: Request)
    | Leave(b: Buffer)
    | Back(b: Buffer)

  function Start(): Books {
    Books(Ownership({}, {}, {}, 0), multiset{}, {}, {}, 0, 0, 0)
  }

  predicate Enabled(s: Books, e: Event) {
    match e
    case Hit(b, r) => b in s.o.cached && Serves(b, r)
    case Miss(r) => forall c | c in s.o.cached :: !Serves(c, r)
    case Allocated(b, r) => r in s.pending && NewAddress(s.o, b.data) && b.serial == s.o.serials && Serves(b, r)
    case AllocationFailed(r) => r in s.pending
    case Leave(b) => b in s.o.inUse && b !in s.leaving
    case Back(b) => b in s.leaving
  }

  function Moved(s: Books, e: Event): Books {
    match e
    case Hit(b, r) => s.(o := HandOut(s.o, b), requests := s.requests + {r})
    case Miss(r) => s.(pending := s.pending + multiset{r}, requests := s.requests + {r})
    case Allocated(b, r) => s.(o := Allocate(s.o, b), pending := s.pending - multiset{r})
    case AllocationFailed(r) => s.(pending := s.pending - multiset{r}, failures := s.failures + 1)
    case Leave(b) => s.(leaving := s.leaving + {b})
    case Back(b) => s.(o := TakeBack(s.o, b), leaving := s.leaving - {b})
  }

  function Apply(s: Books, e: Event): Books {
    var t := Moved(s, e);
    t.(peak := Max(s.peak, |t.o.inUse| + |t.pending|), used := Max(s.used, |t.o.inUse|))
  }

  predicate Possible(s: Books, run: seq<Event>)
    decreases |run|
  {
    run != [] ==> Enabled(s, run[0]) && Possible(Apply(s, run[0]), run[1..])
  }

  function Run(s: Books, run: seq<Event>): Books
    decreases |run|
  {
    if run == [] then s else Run(Apply(s, run[0]), run[1..])
  }

  // ---- What every step keeps ----

  predicate Alike(requests: set<Request>) {
    forall r, q | r in requests && q in requests :: r == q
  }

  /** Every buffer was allocated for some request made so far. */
  predicate Wanted(s: Books) {
    && (forall b | b in All(s.o) :: exists r :: r in s.requests && Serves(b, r))
    && (forall r | r in s.pending :: r in s.requests)
  }

  /** Each buffer is in one place, none was freed, and those on their way back still count as in use. */
  predicate Sound(s: Books) {
    Partition(s.o) && s.o.freed == {} && s.leaving <= s.o.inUse && Wanted(s)
  }

  /**
   Never fewer allocated, pending or failed than the peak of buffers in use or missed, and never more allocated or
   pending than that when all requests are alike.
   */
  predicate Bounded(s: Books) {
    && |s.o.inUse| <= s.used <= s.o.serials
    && |s.o.inUse| + |s.pending| <= s.peak <= s.o.serials + |s.pending| + s.failures
    && (Alike(s.requests) ==> s.o.serials + |s.pending| <= s.peak)
  }

  predicate Inv(s: Books) {
    Sound(s) && Bounded(s)
  }

  /** All that was allocated is in use or cached. */
  lemma Accounted(s: Books)
    requires Sound(s)
    ensures s.o.serials == |s.o.inUse| + |s.o.cached|
    ensures s.o.cached == {} <==> |s.o.inUse| == s.o.serials
  {
    assert All(s.o) == s.o.inUse + s.o.cached;
    assert |s.o.inUse + s.o.cached| == |s.o.inUse| + |s.o.cached|;
  }

  lemma AlikeBefore(requests: set<Request>, r: Request)
    requires Alike(requests + {r})
    ensures Alike(requests) && forall q | q in requests :: q == r
  {
    forall q | q in requests ensures q == r {
      assert q in requests + {r} && r in requests + {r};
    }
  }

  lemma CachedServe(s: Books, r: Request)
    requires Sound(s) && Alike(s.requests + {r})
    ensures forall b | b in s.o.cached :: Serves(b, r)
  {
    AlikeBefore(s.requests, r);
    hide Alike, Partition;
    forall b | b in s.o.cached ensures Serves(b, r) {
      assert b in All(s.o);
      var q :| q in s.requests && Serves(b, q);
      assert q == r;
    }
  }

  /** When requests are alike, a request misses only if nothing is cached. */
  lemma MissEmpty(s: Books, r: Request)
    requires Sound(s) && Enabled(s, Miss(r)) && Alike(s.requests + {r})
    ensures s.o.cached == {}
  {
    hide Sound, Alike, Serves;
    CachedServe(s, r);
  }

  lemma WantedKeeps(s: Books, e: Event)
    requires Sound(s) && Enabled(s, e)
    ensures Wanted(Apply(s, e))
  {
    hide Partition;
    var t := Apply(s, e);
    forall b | b in All(t.o) ensures exists r :: r in t.requests && Serves(b, r) {
      if b in All(s.o) {
        var r :| r in s.requests && Serves(b, r);
        assert r in t.requests;
      } else {
        assert e.Allocated? && b == e.b;
        assert e.r in t.requests;
      }
    }
  }

  lemma LeavingKeeps(s: Books, e: Event)
    requires Sound(s) && Enabled(s, e)
    ensures Apply(s, e).o.freed == {} && Apply(s, e).leaving <= Apply(s, e).o.inUse
  {
    hide Partition, Wanted, Serves, NewAddress;
  }

  lemma PlacesKept(s: Books, e: Event)
    requires Sound(s) && Enabled(s, e)
    ensures Partition(Apply(s, e).o)
    ensures e.Hit? ==> e.b !in s.o.inUse
    ensures e.Allocated? ==> e.b !in All(s.o)
    ensures |Apply(s, e).o.inUse| == |s.o.inUse| + (if e.Hit? || e.Allocated? then 1 else if e.Back? then -1 else 0)
  {
    hide Partition, Wanted, Serves, NewAddress, HandOut, Allocate, TakeBack, All;
    match e
    case Hit(b, r) => HandOutKeeps(s.o, b);
    case Miss(r) =>
    case Allocated(b, r) => AllocateKeeps(s.o, b);
    case AllocationFailed(r) =>
    case Leave(b) =>
    case Back(b) => TakeBackKeeps(s.o, b);
  }

  lemma SoundKeeps(s: Books, e: Event)
    requires Sound(s) && Enabled(s, e)
    ensures Sound(Apply(s, e))
    ensures e.Hit? ==> e.b !in s.o.inUse
    ensures e.Allocated? ==> e.b !in All(s.o)
    ensures |Apply(s, e).o.inUse| == |s.o.inUse| + (if e.Hit? || e.Allocated? then 1 else if e.Back? then -1 else 0)
  {
    WantedKeeps(s, e);
    LeavingKeeps(s, e);
    PlacesKept(s, e);
    hide Partition, Wanted, Enabled, Apply, All;
  }

  lemma PendingCounts(s: Books, e: Event)
    requires Enabled(s, e)
    ensures var t := Apply(s, e);
            && |t.pending| ==
               |s.pending| + (if e.Miss? then 1 else if e.Allocated? || e.AllocationFailed? then -1 else 0)
            && t.o.serials == s.o.serials + (if e.Allocated? then 1 else 0)
  {
    hide Serves, NewAddress;
  }

  /** How a step changes the counts. */
  lemma StepCounts(s: Books, e: Event)
    requires Sound(s) && Enabled(s, e)
    ensures var t := Apply(s, e);
            && |t.o.inUse| == |s.o.inUse| + (if e.Hit? || e.Allocated? then 1 else if e.Back? then -1 else 0)
            && |t.pending| ==
               |s.pending| + (if e.Miss? then 1 else if e.Allocated? || e.AllocationFailed? then -1 else 0)
            && t.o.serials == s.o.serials + (if e.Allocated? then 1 else 0)
  {
    SoundKeeps(s, e);
    PendingCounts(s, e);
  }

  lemma HitCounts(s: Books, b: Buffer, r: Request)
    requires Sound(s) && Enabled(s, Hit(b, r))
    ensures |s.o.inUse| < s.o.serials
  {
    Accounted(s);
    hide Sound;
    assert |s.o.cached| > 0;
  }

  lemma AlikeSteps(s: Books, e: Event)
    requires Sound(s) && Enabled(s, e) && Alike(Apply(s, e).requests)
    ensures Alike(s.requests) && (e.Miss? ==> |s.o.inUse| == s.o.serials)
  {
    if e.Miss? || e.Hit? {
      AlikeBefore(s.requests, e.r);
    }
    if e.Miss? {
      MissEmpty(s, e.r);
      Accounted(s);
    }
    hide Sound, Serves, NewAddress;
  }

  lemma InUseWithin(s: Books, e: Event)
    requires Sound(s) && Enabled(s, e)
    ensures |s.o.inUse| <= s.o.serials && (e.Hit? ==> |s.o.inUse| < s.o.serials)
  {
    Accounted(s);
    if e.Hit? {
      HitCounts(s, e.b, e.r);
    }
  }

  lemma BoundedStep(s: Books, e: Event, t: Books)
    requires Bounded(s) && t == Apply(s, e)
    requires |t.o.inUse| == |s.o.inUse| + (if e.Hit? || e.Allocated? then 1 else if e.Back? then -1 else 0)
    requires |t.pending| == |s.pending| + (if e.Miss? then 1 else if e.Allocated? || e.AllocationFailed? then -1 else 0)
    requires t.o.serials == s.o.serials + (if e.Allocated? then 1 else 0)
    requires |s.o.inUse| <= s.o.serials && (e.Hit? ==> |s.o.inUse| < s.o.serials)
    requires Alike(t.requests) ==> Alike(s.requests) && (e.Miss? ==> |s.o.inUse| == s.o.serials)
    ensures Bounded(t)
  {
    hide Alike, HandOut, Allocate, TakeBack;
  }

  lemma BoundedKeeps(s: Books, e: Event)
    requires Inv(s) && Enabled(s, e)
    ensures Bounded(Apply(s, e))
  {
    StepCounts(s, e);
    InUseWithin(s, e);
    if Alike(Apply(s, e).requests) {
      AlikeSteps(s, e);
    }
    hide Sound, Alike, Enabled;
    BoundedStep(s, e, Apply(s, e));
  }

  /** Each single step of each caller keeps the books in order and all bounds. */
  lemma StepKeeps(s: Books, e: Event)
    requires Inv(s) && Enabled(s, e)
    ensures Inv(Apply(s, e))
  {
    SoundKeeps(s, e);
    BoundedKeeps(s, e);
    hide Sound, Bounded, Enabled, Apply;
  }

  lemma StartInv()
    ensures Inv(Start())
  {
  }

  lemma {:induction false} RunKeeps(s: Books, run: seq<Event>)
    requires Inv(s) && Possible(s, run)
    ensures Inv(Run(s, run))
    decreases |run|
  {
    hide Inv, Enabled, Apply;
    if run != [] {
      StepKeeps(s, run[0]);
      RunKeeps(Apply(s, run[0]), run[1..]);
    }
  }

  /**
   In every run of overlapping requests and releases: at least as many buffers are allocated as were ever in use at
   once; and when all requests are alike, the allocated and the pending ones are never more than were ever in use or
   missed at once, and exactly as many unless an allocation failed.
   */
  lemma RunBounded(run: seq<Event>)
    requires Possible(Start(), run)
    ensures var s := Run(Start(), run);
            && Partition(s.o) && s.o.freed == {} && s.o.serials >= s.used
            && (s.failures == 0 ==> s.o.serials + |s.pending| >= s.peak)
            && (Alike(s.requests) ==> s.o.serials + |s.pending| <= s.peak)
            && (Alike(s.requests) && s.failures == 0 ==> s.o.serials + |s.pending| == s.peak)
  {
    StartInv();
    RunKeeps(Start(), run);
    hide Possible, Run, Alike, Partition, Wanted;
  }

  function InUseAt(s: Books, run: seq<Event>, n: nat): nat
    requires n <= |run|
  {
    |Run(s, run[..n]).o.inUse|
  }

  function WantedAt(s: Books, run: seq<Event>, n: nat): nat
    requires n <= |run|
  {
    |Run(s, run[..n]).o.inUse| + |Run(s, run[..n]).pending|
  }

  lemma AfterFirst(s: Books, run: seq<Event>, n: nat)
    requires 1 <= n <= |run|
    ensures Run(s, run) == Run(Apply(s, run[0]), run[1..])
    ensures InUseAt(s, run, n) == InUseAt(Apply(s, run[0]), run[1..], n - 1)
    ensures WantedAt(s, run, n) == WantedAt(Apply(s, run[0]), run[1..], n - 1)
  {
    hide Apply;
    assert run[..n][1..] == run[1..][..n - 1];
  }

  lemma AtStart(s: Books, run: seq<Event>)
    ensures InUseAt(s, run, 0) == |s.o.inUse| && WantedAt(s, run, 0) == |s.o.inUse| + |s.pending|
    ensures run == [] ==> Run(s, run) == s
  {
  }

  lemma PeaksOf(s: Books, e: Event)
    ensures Apply(s, e).used == Max(s.used, |Apply(s, e).o.inUse|)
    ensures Apply(s, e).peak == Max(s.peak, |Apply(s, e).o.inUse| + |Apply(s, e).pending|)
  {
  }

  /** `used` and `peak` are the largest numbers in use, and in use or missed, in any state of the run. */
  lemma {:induction false} PeaksReached(s: Books, run: seq<Event>)
    requires s.used >= |s.o.inUse| && s.peak >= |s.o.inUse| + |s.pending|
    ensures var t := Run(s, run);
            && s.used <= t.used && s.peak <= t.peak
            && (forall n: nat | n <= |run| :: InUseAt(s, run, n) <= t.used && WantedAt(s, run, n) <= t.peak)
            && (t.used == s.used || exists n: nat :: n <= |run| && InUseAt(s, run, n) == t.used)
            && (t.peak == s.peak || exists n: nat :: n <= |run| && WantedAt(s, run, n) == t.peak)
    decreases |run|
  {
    hide Apply, Run, InUseAt, WantedAt;
    AtStart(s, run);
    if run != [] {
      var s1, rest := Apply(s, run[0]), run[1..];
      PeaksOf(s, run[0]);
      PeaksReached(s1, rest);
      AtStart(s1, rest);
      forall n: nat | 1 <= n <= |run|
        ensures InUseAt(s, run, n) == InUseAt(s1, rest, n - 1) && WantedAt(s, run, n) == WantedAt(s1, rest, n - 1)
      {
        AfterFirst(s, run, n);
      }
      AfterFirst(s, run, 1);
      var t := Run(s, run);
      if n: nat :| n <= |rest| && InUseAt(s1, rest, n) == t.used {
        assert InUseAt(s, run, n + 1) == t.used;
      }
      if n: nat :| n <= |rest| && WantedAt(s1, rest, n) == t.peak {
        assert WantedAt(s, run, n + 1) == t.peak;
      }
    }
  }

  /** As many buffers as are in use in any state of a run have been allocated at its end. */
  lemma InUseAllocated(run: seq<Event>, n: nat)
    requires Possible(Start(), run) && n <= |run|
    ensures |Run(Start(), run[..n]).o.inUse| <= Run(Start(), run).o.serials
  {
    RunBounded(run);
    PeaksReached(Start(), run);
    assert InUseAt(Start(), run, n) <= Run(Start(), run).used;
    hide Run, Possible, Partition;
  }

  // ---- When the peak in use alone is the bound ----

  /** In every state of the run as many buffers are allocated as were ever in use at once. */
  predicate AlwaysTight(s: Books, run: seq<Event>)
    decreases |run|
  {
    s.o.serials == s.used && (run != [] ==> AlwaysTight(Apply(s, run[0]), run[1..]))
  }

  /** A buffer is only ever allocated when none is cached. */
  predicate AllocatesWhenEmpty(s: Books, run: seq<Event>)
    decreases |run|
  {
    run != [] ==> (run[0].Allocated? ==> s.o.cached == {}) && AllocatesWhenEmpty(Apply(s, run[0]), run[1..])
  }

  lemma TightStep(s: Books, e: Event)
    requires Inv(s) && Enabled(s, e) && s.o.serials == s.used
    ensures Apply(s, e).o.serials == Apply(s, e).used <==> e.Allocated? ==> s.o.cached == {}
  {
    SoundKeeps(s, e);
    Accounted(s);
    StepKeeps(s, e);
    hide Sound, Alike, Enabled;
  }

  lemma {:induction false} TightFrom(s: Books, run: seq<Event>)
    requires Inv(s) && Possible(s, run) && s.o.serials == s.used
    ensures AlwaysTight(s, run) <==> AllocatesWhenEmpty(s, run)
    decreases |run|
  {
    hide Inv, Enabled, Apply;
    if run != [] {
      TightStep(s, run[0]);
      StepKeeps(s, run[0]);
      var t := Apply(s, run[0]);
      if t.o.serials == t.used {
        TightFrom(t, run[1..]);
      }
    }
  }

  /** No more than were ever in use at once, all along, exactly when every allocation still finds the cache empty. */
  lemma TightExactly(run: seq<Event>)
    requires Possible(Start(), run)
    ensures AlwaysTight(Start(), run) <==> AllocatesWhenEmpty(Start(), run)
  {
    StartInv();
    TightFrom(Start(), run);
  }

  /** No buffer comes back between a miss and its allocation. */
  predicate Undisturbed(s: Books, run: seq<Event>)
    decreases |run|
  {
    run != [] ==> (run[0].Back? ==> s.pending == multiset{}) && Undisturbed(Apply(s, run[0]), run[1..])
  }

  lemma EmptyStep(s: Books, e: Event)
    requires Inv(s) && Enabled(s, e) && Alike(Apply(s, e).requests)
    requires s.pending == multiset{} || s.o.cached == {}
    requires e.Back? ==> s.pending == multiset{}
    ensures e.Allocated? ==> s.o.cached == {}
    ensures Apply(s, e).pending == multiset{} || Apply(s, e).o.cached == {}
  {
    if e.Miss? {
      MissEmpty(s, e.r);
    }
    hide Inv, Alike, Serves, NewAddress;
  }

  lemma {:induction false} RequestsGrow(s: Books, run: seq<Event>)
    ensures s.requests <= Run(s, run).requests
    decreases |run|
  {
    if run != [] {
      RequestsGrow(Apply(s, run[0]), run[1..]);
    }
  }

  lemma AlikeLess(requests: set<Request>, more: set<Request>)
    requires requests <= more && Alike(more)
    ensures Alike(requests)
  {
  }

  lemma {:induction false} UndisturbedEmpty(s: Books, run: seq<Event>)
    requires Inv(s) && Possible(s, run) && Alike(Run(s, run).requests) && Undisturbed(s, run)
    requires s.pending == multiset{} || s.o.cached == {}
    ensures AllocatesWhenEmpty(s, run)
    decreases |run|
  {
    hide Inv, Enabled, Apply, Alike;
    if run != [] {
      var t := Apply(s, run[0]);
      RequestsGrow(t, run[1..]);
      AlikeLess(t.requests, Run(s, run).requests);
      EmptyStep(s, run[0]);
      StepKeeps(s, run[0]);
      UndisturbedEmpty(t, run[1..]);
    }
  }

  /** With alike requests and no release between a miss and its allocation, the peak in use is what is allocated. */
  lemma UndisturbedTight(run: seq<Event>)
    requires Possible(Start(), run) && Alike(Run(Start(), run).requests) && Undisturbed(Start(), run)
    ensures AlwaysTight(Start(), run)
  {
    StartInv();
    UndisturbedEmpty(Start(), run);
    TightExactly(run);
  }

  lemma RunCons(s: Books, e: Event, rest: seq<Event>)
    ensures Possible(s, [e] + rest) == (Enabled(s, e) && Possible(Apply(s, e), rest))
    ensures Run(s, [e] + rest) == Run(Apply(s, e), rest)
  {
    assert ([e] + rest)[1..] == rest;
  }

  lemma RunNone(s: Books)
    ensures Possible(s, []) && Run(s, []) == s
  {
  }

  /** Otherwise not: a caller misses, the only buffer comes back, and a second one is allocated with none in use. */
  lemma ReleaseRace() returns (run: seq<Event>)
    ensures var s := Run(Start(), run);
            Possible(Start(), run) && Alike(s.requests) && s.o.serials == 2 && s.used == 1 && s.peak == 2
  {
    var r, b1, b2 := Request(8, ReadWrite), Buffer(0, 64, 8, ReadWrite), Buffer(1, 128, 8, ReadWrite);
    run := [Miss(r)] + ([Allocated(b1, r)] + ([Miss(r)] + ([Leave(b1)] + ([Back(b1)] + ([Allocated(b2, r)] + [])))));
    var s1 := Apply(Start(), Miss(r));
    var s2 := Apply(s1, Allocated(b1, r));
    var s3 := Apply(s2, Miss(r));
    var s4 := Apply(s3, Leave(b1));
    var s5 := Apply(s4, Back(b1));
    var s6 := Apply(s5, Allocated(b2, r));
    assert s1 == Books(Ownership({}, {}, {}, 0), multiset{r}, {}, {r}, 0, 1, 0);
    assert s2 == Books(Ownership({b1}, {}, {}, 1), multiset{}, {}, {r}, 0, 1, 1);
    assert s3 == Books(Ownership({b1}, {}, {}, 1), multiset{r}, {}, {r}, 0, 2, 1);
    assert s4 == Books(Ownership({b1}, {}, {}, 1), multiset{r}, {b1}, {r}, 0, 2, 1);
    assert s5 == Books(Ownership({}, {b1}, {}, 1), multiset{r}, {}, {r}, 0, 2, 1);
    assert s6 == Books(Ownership({b2}, {b1}, {}, 2), multiset{}, {}, {r}, 0, 2, 1);
    assert Enabled(s5, Allocated(b2, r)) && Enabled(s4, Back(b1)) && Enabled(s3, Leave(b1)) && Enabled(s2, Miss(r));
    hide Enabled, Apply, Possible, Run;
    RunNone(s6);
    RunCons(s5, Allocated(b2, r), []);
    RunCons(s4, Back(b1), [Allocated(b2, r)] + []);
    RunCons(s3, Leave(b1), [Back(b1)] + ([Allocated(b2, r)] + []));
    RunCons(s2, Miss(r), [Leave(b1)] + ([Back(b1)] + ([Allocated(b2, r)] + [])));
    RunCons(s1, Allocated(b1, r), [Miss(r)] + ([Leave(b1)] + ([Back(b1)] + ([Allocated(b2, r)] + []))));
    RunCons(Start(), Miss(r),
            [Allocated(b1, r)] + ([Miss(r)] + ([Leave(b1)] + ([Back(b1)] + ([Allocated(b2, r)] + [])))));
  }

  // ---- The index of each mode ----

  /** The index of a mode holds the cached buffers of that mode. */
  predicate IndexFits(index: seq<Buffer>, m: Mode, cached: set<Buffer>) {
    Ordered(index) && Members(index) == OfMode(cached, m)
  }

  ghost predicate AllFit(indexes: map<Mode, seq<Buffer>>, cached: set<Buffer>) {
    forall m: Mode :: m in indexes && IndexFits(indexes[m], m, cached)
  }

  lemma TakeFits(indexes: map<Mode, seq<Buffer>>, cached: set<Buffer>, mode: Mode, i: nat)
    requires AllFit(indexes, cached) && mode in indexes && i < |indexes[mode]|
    ensures var b := indexes[mode][i];
            && b in cached && b.mode == mode
            && AllFit(indexes[mode := RemoveAt(indexes[mode], i)], cached - {b})
  {
    var index := indexes[mode];
    var b := index[i];
    assert b in Members(index);
    RemoveMembers(index, i);
    forall m: Mode ensures OfMode(cached - {b}, m) == if m == mode then OfMode(cached, m) - {b} else OfMode(cached, m) {
      OfModeMinus(cached, b, m);
    }
    hide AllFit, OfMode, Members;
  }

  lemma GiveFits(indexes: map<Mode, seq<Buffer>>, cached: set<Buffer>, b: Buffer)
    requires AllFit(indexes, cached) && forall c | c in cached :: c.data != b.data
    ensures b.mode in indexes && AllFit(indexes[b.mode := InsertOrdered(indexes[b.mode], b)], cached + {b})
  {
    var mode := b.mode;
    var index := indexes[mode];
    forall c | c in index ensures c.data != b.data {
      assert c in Members(index);
    }
    InsertKeepsOrder(index, b);
    InsertMembers(index, b);
    forall m: Mode ensures OfMode(cached + {b}, m) == if m == mode then OfMode(cached, m) + {b} else OfMode(cached, m) {
      OfModePlus(cached, b, m);
    }
    hide AllFit, OfMode, Members;
  }

  // ---- The cache ----

  ghost predicate CacheOk(indexes: map<Mode, seq<Buffer>>, s: Books, numInUse: int) {
    AllFit(indexes, s.o.cached) && Inv(s) && numInUse == |s.o.inUse| - |s.leaving|
  }

  lemma EmptyFits()
    ensures CacheOk(map[ReadOnly := [], WriteOnly := [], ReadWrite := []], Start(), 0)
  {
    StartInv();
    var indexes: map<Mode, seq<Buffer>> := map[ReadOnly := [], WriteOnly := [], ReadWrite := []];
    forall m: Mode ensures m in indexes && indexes[m] == [] && OfMode({}, m) == {} == Members([]) {
      match m
      case ReadOnly =>
      case WriteOnly =>
      case ReadWrite =>
    }
  }

  lemma Looked(index: seq<Buffer>, s: Books, r: Request)
    requires IndexFits(index, r.mode, s.o.cached)
    ensures var i := FirstFit(index, r.size);
            && (i < |index| ==>
                  && Enabled(s, Hit(index[i], r))
                  && forall c | c in s.o.cached && Serves(c, r) :: index[i].size <= c.size)
            && (i == |index| ==> Enabled(s, Miss(r)))
  {
    BestFit(index, s.o.cached, r.mode, r.size);
    hide FirstFit, OfMode, Members, Ordered;
  }

  lemma LookupFinds(indexes: map<Mode, seq<Buffer>>, s: Books, numInUse: int, r: Request)
    requires CacheOk(indexes, s, numInUse)
    ensures r.mode in indexes
    ensures var i := FirstFit(indexes[r.mode], r.size);
            && (i < |indexes[r.mode]| ==>
                  && Enabled(s, Hit(indexes[r.mode][i], r))
                  && forall c | c in s.o.cached && Serves(c, r) :: indexes[r.mode][i].size <= c.size)
            && (i == |indexes[r.mode]| ==> Enabled(s, Miss(r)))
  {
    hide Inv, IndexFits, Enabled, Serves, FirstFit;
    Looked(indexes[r.mode], s, r);
  }

  lemma HitOk(indexes: map<Mode, seq<Buffer>>, s: Books, numInUse: int, i: nat, r: Request)
    requires CacheOk(indexes, s, numInUse) && r.mode in indexes && i < |indexes[r.mode]|
    requires Enabled(s, Hit(indexes[r.mode][i], r))
    ensures var b := indexes[r.mode][i];
            && b !in s.o.inUse
            && CacheOk(indexes[r.mode := RemoveAt(indexes[r.mode], i)], Apply(s, Hit(b, r)), numInUse + 1)
  {
    hide AllFit, Inv, Enabled, RemoveAt;
    var b := indexes[r.mode][i];
    TakeFits(indexes, s.o.cached, r.mode, i);
    StepKeeps(s, Hit(b, r));
    InvSound(s);
    SoundKeeps(s, Hit(b, r));
  }

  lemma InvSound(s: Books)
    requires Inv(s)
    ensures Sound(s) && s.leaving <= s.o.inUse
  {
  }

  lemma QuietBooks(s: Books, e: Event)
    requires Enabled(s, e) && !e.Hit? && !e.Back?
    ensures var t := Apply(s, e);
            t.o.cached == s.o.cached && |t.leaving| == |s.leaving| + (if e.Leave? then 1 else 0)
  {
    hide Serves, NewAddress;
  }

  lemma NewlyAllocated(indexes: map<Mode, seq<Buffer>>, s: Books, numInUse: int, b: Buffer, r: Request)
    requires CacheOk(indexes, s, numInUse) && Enabled(s, Allocated(b, r))
    ensures b !in All(s.o)
  {
    hide AllFit;
    SoundKeeps(s, Allocated(b, r));
  }

  /** A step that leaves the cached buffers alone. */
  lemma QuietOk(indexes: map<Mode, seq<Buffer>>, s: Books, numInUse: int, e: Event)
    requires CacheOk(indexes, s, numInUse) && Enabled(s, e) && !e.Hit? && !e.Back?
    ensures var k := if e.Allocated? then 1 else if e.Leave? then -1 else 0;
            CacheOk(indexes, Apply(s, e), numInUse + k)
  {
    InvSound(s);
    hide AllFit, Inv, Sound, Enabled, Apply, All, Partition;
    StepKeeps(s, e);
    StepCounts(s, e);
    QuietBooks(s, e);
  }

  lemma BackIndex(indexes: map<Mode, seq<Buffer>>, s: Books, b: Buffer)
    requires AllFit(indexes, s.o.cached) && Sound(s) && b in s.leaving
    ensures b.mode in indexes && AllFit(indexes[b.mode := InsertOrdered(indexes[b.mode], b)], TakeBack(s.o, b).cached)
  {
    hide AllFit, Wanted, Partition, InsertOrdered;
    TakeBackKeeps(s.o, b);
    GiveFits(indexes, s.o.cached, b);
  }

  lemma BackBooks(s: Books, b: Buffer)
    requires b in s.leaving
    ensures Enabled(s, Back(b)) && Apply(s, Back(b)).o == TakeBack(s.o, b)
    ensures |Apply(s, Back(b)).leaving| == |s.leaving| - 1
  {
  }

  lemma BackOk(indexes: map<Mode, seq<Buffer>>, s: Books, numInUse: int, b: Buffer)
    requires CacheOk(indexes, s, numInUse) && b in s.leaving
    ensures b.mode in indexes
    ensures CacheOk(indexes[b.mode := InsertOrdered(indexes[b.mode], b)], Apply(s, Back(b)), numInUse)
  {
    InvSound(s);
    hide AllFit, Inv, Sound, InsertOrdered, Partition, Enabled, Apply, TakeBack;
    BackBooks(s, b);
    BackIndex(indexes, s, b);
    StepKeeps(s, Back(b));
    StepCounts(s, Back(b));
  }

  class Cache {
    const margin: real
    var indexes: map<Mode, seq<Buffer>>
    var numInUse: int
    ghost var books: Books

    ghost predicate Valid() reads this {
      margin >= 0.0 && CacheOk(indexes, books, numInUse)
    }

    constructor (margin: real)
      ensures Valid() && books == Start()
      ensures this.margin == if margin < 0.0 then 0.0 else margin
    {
      this.margin := if margin < 0.0 then 0.0 else margin;
      indexes := map[ReadOnly := [], WriteOnly := [], ReadWrite := []];
      numInUse := 0;
      books := Start();
      EmptyFits();
    }

    /** The locked part of a request: a smallest cached buffer of the mode that is large enough, or a miss. */
    method Lookup(size: nat, mode: Mode) returns (result: Option<Buffer>)
      requires Valid()
      modifies this
      ensures Valid()
      ensures size == 0 ==> result.None? && books == old(books)
      ensures size > 0 ==>
                var r := Request(size, mode);
                match result
                case None => Enabled(old(books), Miss(r)) && books == Apply(old(books), Miss(r))
                case Some(b) =>
                  && Enabled(old(books), Hit(b, r)) && books == Apply(old(books), Hit(b, r)) && b !in old(books).o.inUse
                  && forall c | c in old(books).o.cached && Serves(c, r) :: b.size <= c.size
    {
      hide CacheOk, Apply, Enabled, FirstFit, RemoveAt;
      if size == 0 {
        return None;
      }
      var r := Request(size, mode);
      LookupFinds(indexes, books, numInUse, r);
      var i := FirstFit(indexes[mode], size);
      if i < |indexes[mode]| {
        result := Some(indexes[mode][i]);
        HitOk(indexes, books, numInUse, i, r);
        indexes, numInUse := indexes[mode := RemoveAt(indexes[mode], i)], numInUse + 1;
        books := Apply(books, Hit(result.value, r));
      } else {
        QuietOk(indexes, books, numInUse, Miss(r));
        result := None;
        books := Apply(books, Miss(r));
      }
    }

    /** The rest of a request that missed: a new buffer in the memory that the allocator gives, if it gives any. */
    method Allocate(size: nat, mode: Mode, memory: Option<Memory>) returns (result: Option<Buffer>)
      requires Valid() && Request(size, mode) in books.pending
      requires memory.Some? ==> FreshMemory(books.o, memory.value)
      modifies this
      ensures Valid()
      ensures var r := Request(size, mode);
              match memory
              case None => result.None? && books == Apply(old(books), AllocationFailed(r))
              case Some(m) =>
                && result == Some(Buffer(m.serial, m.data, AllocatedSize(size, margin), mode))
                && result.value !in All(old(books).o)
                && Enabled(old(books), Allocated(result.value, r))
                && books == Apply(old(books), Allocated(result.value, r))
    {
      hide CacheOk, NewAddress, Apply, Sound, Partition, Inv, All;
      var r := Request(size, mode);
      if memory.None? {
        QuietOk(indexes, books, numInUse, AllocationFailed(r));
        books := Apply(books, AllocationFailed(r));
        return None;
      }
      var b := Buffer(memory.value.serial, memory.value.data, AllocatedSize(size, margin), mode);
      QuietOk(indexes, books, numInUse, Allocated(b, r));
      NewlyAllocated(indexes, books, numInUse, b, r);
      numInUse := numInUse + 1;
      books := Apply(books, Allocated(b, r));
      result := Some(b);
    }

    /** The first part of a release: the buffer no longer counts as in use. */
    method BeginRelease(b: Buffer)
      requires Valid() && b in books.o.inUse && b !in books.leaving
      modifies this
      ensures Valid() && Enabled(old(books), Leave(b)) && books == Apply(old(books), Leave(b))
    {
      hide CacheOk, Apply;
      QuietOk(indexes, books, numInUse, Leave(b));
      numInUse := numInUse - 1;
      books := Apply(books, Leave(b));
    }

    /** The locked part of a release: the buffer joins the index of its mode. */
    method EndRelease(b: Buffer)
      requires Valid() && b in books.leaving
      modifies this
      ensures Valid() && Enabled(old(books), Back(b)) && books == Apply(old(books), Back(b))
    {
      hide CacheOk, InsertOrdered, Apply;
      BackOk(indexes, books, numInUse, b);
      indexes := indexes[b.mode := InsertOrdered(indexes[b.mode], b)];
      books := Apply(books, Back(b));
    }

    /** Free what the three indexes hold, which is everything cached, and report how many buffers callers still hold. */
    method Finalize() returns (freed: set<Buffer>, leaked: int)
      requires Valid()
      modifies this
      ensures leaked == |old(books).o.inUse| - |old(books).leaving| && freed == old(books).o.cached && indexes == map[]
    {
      hide Inv, Members, OfMode, IndexFits;
      leaked := numInUse;
      IndexesHoldAll(indexes, books.o.cached);
      freed := Members(indexes[ReadOnly]) + Members(indexes[WriteOnly]) + Members(indexes[ReadWrite]);
      indexes := map[];
    }
  }

  lemma IndexesHoldAll(indexes: map<Mode, seq<Buffer>>, cached: set<Buffer>)
    requires AllFit(indexes, cached)
    ensures ReadOnly in indexes && WriteOnly in indexes && ReadWrite in indexes
    ensures Members(indexes[ReadOnly]) + Members(indexes[WriteOnly]) + Members(indexes[ReadWrite]) == cached
  {
    ModesCover(cached);
    hide Members, OfMode;
  }
}
