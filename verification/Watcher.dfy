/** Waiting for keys. */
module Watcher {
  // Readers register with the key watcher and block, writers insert keys and notify. Every step below is one
  // critical section of the map's lock or of the watcher's mutex; runs interleave them freely.

  import opened Basics

  datatype WaitStatus = Pending | KeyPresent | Timeout

  /**
   Where a reader that waits for one key stands. It holds the map's lock for reading in the first three phases, and
   has an entry in the watcher in the four from Added on.
   */
  datatype Phase = Looking | Absent | Added | Unlocked | Waiting | Spinning | Woken | Found | TimedOut

  /** A reader; `ticket` orders the watcher's entries for equal keys, `status` is its entry's. */
  datatype Waiter = Waiter(key: bytes, phase: Phase, ticket: nat, status: WaitStatus)

  /** A put that holds the map's lock: it is at key `next`, which it has inserted but not yet notified or not. */
  datatype Writer = Writer(keys: seq<bytes>, next: nat, inserted: bool, notify: bool)

  datatype State = State(db: set<bytes>, waiters: seq<Waiter>, writer: Option<Writer>, tickets: nat)

  datatype Action =
    | Arrive(key: bytes)
    | Look(w: nat)
    | Add(w: nat)
    | Unlock(w: nat)
    | StartWait(w: nat)
    | Wake(w: nat)
    | Relock(w: nat)
    | LockWrite(keys: seq<bytes>, notify: bool)
    | Insert
    | Skip
    | Notify
    | UnlockWrite
    | Erase(key: bytes)
    | Shutdown

  function Init(): State {
    State({}, [], None, 0)
  }

  predicate Reading(w: Waiter) {
    w.phase == Looking || w.phase == Absent || w.phase == Added
  }

  predicate Registered(w: Waiter) {
    w.phase == Added || w.phase == Unlocked || w.phase == Waiting || w.phase == Spinning
  }

  predicate InPhase(s: State, w: nat, p: Phase) {
    w < |s.waiters| && s.waiters[w].phase == p
  }

  /** Only a thread stuck in waitKey holds the watcher's mutex between steps. */
  predicate MutexFree(s: State) {
    forall w | 0 <= w < |s.waiters| :: s.waiters[w].phase != Spinning
  }

  predicate NoReader(s: State) {
    forall w | 0 <= w < |s.waiters| :: !Reading(s.waiters[w])
  }

  /** The watcher keeps entries for equal keys in the order in which they were added. */
  predicate Before(s: State, v: nat, w: nat)
    requires v < |s.waiters| && w < |s.waiters|
  {
    s.waiters[v].ticket < s.waiters[w].ticket || (s.waiters[v].ticket == s.waiters[w].ticket && v < w)
  }

  predicate HasEntry(s: State, v: nat, key: bytes) {
    v < |s.waiters| && Registered(s.waiters[v]) && s.waiters[v].key == key
  }

  /** The first entry for a key among the readers from `i` on: where equal_range begins, with `i` = 0. */
  function FirstEntry(s: State, key: bytes, i: nat): (r: Option<nat>)
    requires i <= |s.waiters|
    ensures r.Some? ==> i <= r.value && HasEntry(s, r.value, key)
    ensures r.Some? ==>
              forall v: nat | i <= v < |s.waiters| && HasEntry(s, v, key) && v != r.value :: Before(s, r.value, v)
    ensures r.None? ==> forall v: nat | i <= v < |s.waiters| :: !HasEntry(s, v, key)
    decreases |s.waiters| - i
  {
    if i == |s.waiters| then None
    else
      var rest := FirstEntry(s, key, i + 1);
      if HasEntry(s, i, key) && (rest.None? || Before(s, i, rest.value)) then Some(i) else rest
  }

  /** The lookup loop of waitKey: the entry that its iterator is at, unless past the range, and whether it has left. */
  datatype Search = Search(it: Option<nat>, left: bool)

  function BeginSearch(s: State, w: nat): Search
    requires w < |s.waiters|
  {
    Search(FirstEntry(s, s.waiters[w].key, 0), false)
  }

  /** One turn: past the range or at its own entry the reader leaves; otherwise nothing moves the iterator on. */
  function Turn(w: nat, x: Search): Search {
    if x.left then x
    else if x.it.None? || x.it.value == w then x.(left := true)
    else x
  }

  function Turns(w: nat, x: Search, n: nat): Search
    decreases n
  {
    if n == 0 then x else Turns(w, Turn(w, x), n - 1)
  }

  predicate Enabled(s: State, a: Action) {
    match a
    case Arrive(_) => s.writer.None?
    case Look(w) => InPhase(s, w, Looking)
    case Add(w) => InPhase(s, w, Absent) && MutexFree(s)
    case Unlock(w) => InPhase(s, w, Added)
    case StartWait(w) => InPhase(s, w, Unlocked) && MutexFree(s)
    case Wake(w) => InPhase(s, w, Waiting) && MutexFree(s) && s.waiters[w].status != Pending
    case Relock(w) => InPhase(s, w, Woken) && s.writer.None?
    case LockWrite(_, _) => s.writer.None? && NoReader(s)
    case Insert => s.writer.Some? && !s.writer.value.inserted && s.writer.value.next < |s.writer.value.keys|
    case Skip => s.writer.Some? && !s.writer.value.inserted && s.writer.value.next < |s.writer.value.keys|
    case Notify =>
      s.writer.Some? && s.writer.value.inserted && s.writer.value.next < |s.writer.value.keys|
      && (s.writer.value.notify ==> MutexFree(s))
    case UnlockWrite => s.writer.Some? && s.writer.value.next >= |s.writer.value.keys|
    case Erase(_) => s.writer.None?
    case Shutdown => MutexFree(s)
  }

  function SetPhase(s: State, w: nat, p: Phase): State
    requires w < |s.waiters|
  {
    s.(waiters := s.waiters[w := s.waiters[w].(phase := p)])
  }

  /** The statuses of all entries for one key, or for all keys, set in place. */
  function Mark(waiters: seq<Waiter>, key: Option<bytes>, status: WaitStatus): (r: seq<Waiter>)
    ensures |r| == |waiters|
  {
    seq(|waiters|, w requires 0 <= w < |waiters| =>
      if Registered(waiters[w]) && (key.None? || waiters[w].key == key.value) then waiters[w].(status := status)
      else waiters[w])
  }

  function Apply(s: State, a: Action): State
    requires Enabled(s, a)
  {
    match a
    case Arrive(key) => s.(waiters := s.waiters + [Waiter(key, Looking, 0, Pending)])
    case Look(w) => SetPhase(s, w, if s.waiters[w].key in s.db then Found else Absent)
    case Add(w) =>
      s.(waiters := s.waiters[w := Waiter(s.waiters[w].key, Added, s.tickets, Pending)], tickets := s.tickets + 1)
    case Unlock(w) => SetPhase(s, w, Unlocked)
    case StartWait(w) => SetPhase(s, w, if Turn(w, BeginSearch(s, w)).left then Waiting else Spinning)
    case Wake(w) => SetPhase(s, w, if s.waiters[w].status == KeyPresent then Woken else TimedOut)
    case Relock(w) => SetPhase(s, w, Looking)
    case LockWrite(keys, notify) => s.(writer := Some(Writer(keys, 0, false, notify)))
    case Insert =>
      var p := s.writer.value;
      s.(db := s.db + {p.keys[p.next]}, writer := Some(p.(inserted := true)))
    case Skip =>
      var p := s.writer.value;
      s.(writer := Some(p.(next := p.next + 1)))
    case Notify =>
      var p := s.writer.value;
      s.(waiters := if p.notify then Mark(s.waiters, Some(p.keys[p.next]), KeyPresent) else s.waiters,
         writer := Some(p.(next := p.next + 1, inserted := false)))
    case UnlockWrite => s.(writer := None)
    case Erase(key) => s.(db := s.db - {key})
    case Shutdown => s.(waiters := Mark(s.waiters, None, Timeout))
  }

  // ---- No lost wakeup ----

  /** The writer has inserted this key and is about to notify it. */
  predicate AboutToNotify(s: State, key: bytes) {
    && s.writer.Some? && s.writer.value.inserted && s.writer.value.notify
    && s.writer.value.next < |s.writer.value.keys| && s.writer.value.keys[s.writer.value.next] == key
  }

  /** An entry still pending means that its key is absent or that its notification is on the way. */
  predicate NoLostWakeup(s: State) {
    forall w | 0 <= w < |s.waiters| && Registered(s.waiters[w]) && s.waiters[w].status == Pending ::
      s.waiters[w].key !in s.db || AboutToNotify(s, s.waiters[w].key)
  }

  predicate Locking(s: State) {
    && (s.writer.Some? ==> NoReader(s))
    && (forall w | 0 <= w < |s.waiters| && s.waiters[w].phase == Absent :: s.waiters[w].key !in s.db)
  }

  predicate Notifying(s: State) {
    s.writer.Some? ==> s.writer.value.notify
  }

  predicate Inv(s: State) {
    NoLostWakeup(s) && Locking(s) && Notifying(s)
  }

  /** Every put asks for notification. */
  predicate Loud(a: Action) {
    a.LockWrite? ==> a.notify
  }

  lemma WaiterStepKeeps(s: State, a: Action)
    requires Inv(s) && Enabled(s, a)
    requires a.Look? || a.Add? || a.Unlock? || a.StartWait? || a.Wake? || a.Relock? || a.Arrive?
    ensures Inv(Apply(s, a))
  {
    var t := Apply(s, a);
    assert t.db == s.db && t.writer == s.writer;
    hide FirstEntry, MutexFree;
  }

  lemma WriterStepKeeps(s: State, a: Action)
    requires Inv(s) && Enabled(s, a) && Loud(a)
    requires a.LockWrite? || a.Insert? || a.Skip? || a.UnlockWrite? || a.Erase?
    ensures Inv(Apply(s, a))
  {
    hide FirstEntry, MutexFree;
  }

  lemma MarkKeeps(s: State, a: Action)
    requires Inv(s) && Enabled(s, a) && (a.Notify? || a.Shutdown?)
    ensures Inv(Apply(s, a))
  {
    hide FirstEntry, MutexFree;
    var t := Apply(s, a);
    forall w | 0 <= w < |t.waiters|
      ensures t.waiters[w].phase == s.waiters[w].phase && t.waiters[w].key == s.waiters[w].key
    {
    }
  }

  lemma StepKeeps(s: State, a: Action)
    requires Inv(s) && Enabled(s, a) && Loud(a)
    ensures Inv(Apply(s, a))
  {
    hide Inv, Apply, Enabled;
    match a
    case Notify => MarkKeeps(s, a);
    case Shutdown => MarkKeeps(s, a);
    case LockWrite(_, _) => WriterStepKeeps(s, a);
    case Insert => WriterStepKeeps(s, a);
    case Skip => WriterStepKeeps(s, a);
    case UnlockWrite => WriterStepKeeps(s, a);
    case Erase(_) => WriterStepKeeps(s, a);
    case _ => WaiterStepKeeps(s, a);
  }

  // ---- Whole runs ----

  predicate Possible(s: State, run: seq<Action>)
    decreases |run|
  {
    run != [] ==> Enabled(s, run[0]) && Possible(Apply(s, run[0]), run[1..])
  }

  function Run(s: State, run: seq<Action>): State
    requires Possible(s, run)
    decreases |run|
  {
    if run == [] then s else Run(Apply(s, run[0]), run[1..])
  }

  predicate AllLoud(run: seq<Action>) {
    forall i | 0 <= i < |run| :: Loud(run[i])
  }

  lemma {:induction false} RunKeeps(s: State, run: seq<Action>)
    requires Inv(s) && Possible(s, run) && AllLoud(run)
    ensures Inv(Run(s, run))
    decreases |run|
  {
    if run != [] {
      assert Loud(run[0]);
      hide Inv, Apply, Enabled, Loud;
      StepKeeps(s, run[0]);
      RunKeeps(Apply(s, run[0]), run[1..]);
    }
  }

  /**
   In every state of every run in which all puts notify: a reader blocked on a key that is present, while nobody
   holds the map's lock for writing, has been notified.
   */
  lemma NoneLost(run: seq<Action>, w: nat)
    requires Possible(Init(), run) && AllLoud(run)
    requires InPhase(Run(Init(), run), w, Waiting)
    ensures var s := Run(Init(), run);
            s.waiters[w].key in s.db && s.writer.None? ==> s.waiters[w].status != Pending
  {
    RunKeeps(Init(), run);
    hide Run, Possible, AllLoud;
  }

  lemma RunCons(s: State, a: Action, rest: seq<Action>)
    requires Enabled(s, a)
    ensures Possible(s, [a] + rest) <==> Possible(Apply(s, a), rest)
    ensures Possible(Apply(s, a), rest) ==> Run(s, [a] + rest) == Run(Apply(s, a), rest)
  {
    assert ([a] + rest)[1..] == rest;
  }

  lemma ThreeSteps(s: State, a: Action, b: Action, c: Action)
    requires Enabled(s, a) && Enabled(Apply(s, a), b) && Enabled(Apply(Apply(s, a), b), c)
    ensures Possible(s, [a, b, c]) && Run(s, [a, b, c]) == Apply(Apply(Apply(s, a), b), c)
  {
    hide Apply, Enabled;
    RunCons(Apply(Apply(s, a), b), c, []);
    RunCons(Apply(s, a), b, [c]);
    RunCons(s, a, [b, c]);
    assert [a] + [b, c] == [a, b, c] && [b] + [c] == [b, c] && [c] + [] == [c];
  }

  /**
   Such a reader is served: unless the service shuts down, its own next three steps find the key, provided that no
   thread is stuck in the watcher.
   */
  lemma WaiterServed(s: State, w: nat)
    requires Inv(s) && InPhase(s, w, Waiting) && MutexFree(s)
    requires s.waiters[w].key in s.db && s.writer.None? && s.waiters[w].status != Timeout
    ensures Possible(s, [Wake(w), Relock(w), Look(w)])
    ensures InPhase(Run(s, [Wake(w), Relock(w), Look(w)]), w, Found)
  {
    assert Registered(s.waiters[w]);
    ThreeSteps(s, Wake(w), Relock(w), Look(w));
  }

  // ---- A put from its lock to its unlock ----

  /** What a put does at its keys: insert and notify where the mode lets the entry in, pass on where it does not. */
  function PutSteps(chosen: seq<bool>): seq<Action> {
    if chosen == [] then [] else (if chosen[0] then [Insert, Notify] else [Skip]) + PutSteps(chosen[1..])
  }

  /** The keys from the `i`-th on that the mode lets in. */
  function Chosen(keys: seq<bytes>, chosen: seq<bool>, i: nat): set<bytes>
    requires |keys| == |chosen|
  {
    set j | i <= j < |keys| && chosen[j] :: keys[j]
  }

  /** Exactly these keys are new in the map, and exactly their readers are notified, if any are. */
  ghost predicate Served(s: State, t: State, keys: set<bytes>, notify: bool) {
    && t.db == s.db + keys && t.tickets == s.tickets && |t.waiters| == |s.waiters|
    && forall w | 0 <= w < |s.waiters| ::
         t.waiters[w] == if notify && Registered(s.waiters[w]) && s.waiters[w].key in keys
                         then s.waiters[w].(status := KeyPresent) else s.waiters[w]
  }

  /** The writer stands before key `i` and nobody keeps it from notifying. */
  predicate PutStands(s: State, keys: seq<bytes>, i: nat, notify: bool) {
    i <= |keys| && MutexFree(s) && s.writer == Some(Writer(keys, i, false, notify))
  }

  /** One key of a put: its steps lead to the next key, whatever is done from there on. */
  lemma PutKey(s: State, keys: seq<bytes>, i: nat, notify: bool, take: bool, rest: seq<Action>)
    requires PutStands(s, keys, i, notify) && i < |keys|
    ensures var steps := if take then [Insert, Notify] else [Skip];
            exists t ::
              && PutStands(t, keys, i + 1, notify) && Served(s, t, if take then {keys[i]} else {}, notify)
              && (Possible(t, rest) ==> Possible(s, steps + rest) && Run(s, steps + rest) == Run(t, rest))
  {
    if take {
      var t1 := Apply(s, Insert);
      var t := Apply(t1, Notify);
      assert PutStands(t, keys, i + 1, notify) && Served(s, t, {keys[i]}, notify);
      RunCons(t1, Notify, rest);
      RunCons(s, Insert, [Notify] + rest);
      assert [Insert] + ([Notify] + rest) == [Insert, Notify] + rest;
    } else {
      var t := Apply(s, Skip);
      assert PutStands(t, keys, i + 1, notify) && Served(s, t, {}, notify);
      RunCons(s, Skip, rest);
    }
  }

  lemma ServedTwice(s: State, t: State, u: State, a: set<bytes>, b: set<bytes>, notify: bool)
    requires Served(s, t, a, notify) && Served(t, u, b, notify)
    ensures Served(s, u, a + b, notify)
  {
  }

  lemma {:induction false} PutFrom(s: State, keys: seq<bytes>, chosen: seq<bool>, i: nat, notify: bool)
    requires PutStands(s, keys, i, notify) && |chosen| == |keys|
    ensures var run := PutSteps(chosen[i..]) + [UnlockWrite];
            Possible(s, run) && Run(s, run).writer.None? && Served(s, Run(s, run), Chosen(keys, chosen, i), notify)
    decreases |keys| - i
  {
    if i == |keys| {
      RunCons(s, UnlockWrite, []);
      assert PutSteps(chosen[i..]) + [UnlockWrite] == [UnlockWrite] + [];
    } else {
      var rest := PutSteps(chosen[i + 1..]) + [UnlockWrite];
      var steps := if chosen[i] then [Insert, Notify] else [Skip];
      assert chosen[i..][1..] == chosen[i + 1..];
      assert PutSteps(chosen[i..]) + [UnlockWrite] == steps + rest;
      assert Chosen(keys, chosen, i) == (if chosen[i] then {keys[i]} else {}) + Chosen(keys, chosen, i + 1);
      hide *;
      PutKey(s, keys, i, notify, chosen[i], rest);
      var t :| PutStands(t, keys, i + 1, notify) && Served(s, t, if chosen[i] then {keys[i]} else {}, notify)
               && (Possible(t, rest) ==> Possible(s, steps + rest) && Run(s, steps + rest) == Run(t, rest));
      PutFrom(t, keys, chosen, i + 1, notify);
      ServedTwice(s, t, Run(t, rest), if chosen[i] then {keys[i]} else {}, Chosen(keys, chosen, i + 1), notify);
    }
  }

  /**
   A put of any keys that takes the free lock, in any mode, runs to its end undisturbed: then the keys that its mode
   let in are in the map, no writer is left, and exactly the readers registered for one of them have been notified
   if the put notifies, and nobody otherwise.
   */
  lemma PutServes(s: State, keys: seq<bytes>, chosen: seq<bool>, notify: bool)
    requires s.writer.None? && NoReader(s) && MutexFree(s) && |chosen| == |keys|
    ensures var run := [LockWrite(keys, notify)] + (PutSteps(chosen) + [UnlockWrite]);
            && Possible(s, run) && Run(s, run).writer.None?
            && Run(s, run).db == s.db + (set j | 0 <= j < |keys| && chosen[j] :: keys[j])
            && |Run(s, run).waiters| == |s.waiters|
            && forall w | 0 <= w < |s.waiters| ::
                 Run(s, run).waiters[w] ==
                 var waiter := s.waiters[w];
                 if notify && Registered(waiter) && exists j :: 0 <= j < |keys| && chosen[j] && keys[j] == waiter.key
                 then waiter.(status := KeyPresent) else waiter
  {
    var t := Apply(s, LockWrite(keys, notify));
    assert PutStands(t, keys, 0, notify) && chosen[0..] == chosen;
    var rest := PutSteps(chosen) + [UnlockWrite];
    PutFrom(t, keys, chosen, 0, notify);
    RunCons(s, LockWrite(keys, notify), rest);
    hide Run, Possible, PutSteps, Apply, Enabled;
  }

  /** The notifying put of one key. */
  lemma NotifyingPut(s: State, key: bytes)
    requires s.writer.None? && NoReader(s) && MutexFree(s)
    ensures var run := [LockWrite([key], true), Insert, Notify, UnlockWrite];
            && Possible(s, run) && Run(s, run).writer.None? && key in Run(s, run).db
            && |Run(s, run).waiters| == |s.waiters|
            && forall w | 0 <= w < |s.waiters| && Registered(s.waiters[w]) && s.waiters[w].key == key ::
                 Run(s, run).waiters[w].status == KeyPresent
  {
    PutServes(s, [key], [true], true);
    assert PutSteps([true][1..]) == [] && PutSteps([true]) == [Insert, Notify] + [];
    assert [LockWrite([key], true)] + (PutSteps([true]) + [UnlockWrite])
        == [LockWrite([key], true), Insert, Notify, UnlockWrite];
    hide Run, Possible, PutSteps;
  }

  // ---- Shutting down ----

  /** Some step notifies the readers of a key. */
  predicate KeyNotified(s: State, run: seq<Action>, key: bytes)
    requires Possible(s, run)
    decreases |run|
  {
    run != [] &&
    (|| (run[0].Notify? && s.writer.value.notify && s.writer.value.keys[s.writer.value.next] == key)
     || KeyNotified(Apply(s, run[0]), run[1..], key))
  }

  /** The reader has been timed out: it returns so, or its entry says so. */
  predicate Ended(s: State, w: nat) {
    w < |s.waiters| && (s.waiters[w].phase == TimedOut || (Registered(s.waiters[w]) && s.waiters[w].status == Timeout))
  }

  lemma EndedStep(s: State, a: Action, w: nat)
    requires Ended(s, w) && Enabled(s, a)
    requires a.Notify? && s.writer.value.notify ==> s.writer.value.keys[s.writer.value.next] != s.waiters[w].key
    ensures Ended(Apply(s, a), w) && Apply(s, a).waiters[w].key == s.waiters[w].key
  {
    hide FirstEntry, MutexFree;
  }

  lemma {:induction false} EndedRun(s: State, run: seq<Action>, w: nat)
    requires Ended(s, w) && Possible(s, run) && !KeyNotified(s, run, s.waiters[w].key)
    ensures Ended(Run(s, run), w)
    decreases |run|
  {
    if run != [] {
      hide Apply, Enabled, Ended;
      EndedStep(s, run[0], w);
      EndedRun(Apply(s, run[0]), run[1..], w);
    }
  }

  /**
   A shutdown ends every reader that has an entry: in any run from there on, unless a put of its key still notifies
   it, waking it is possible as soon as it waits and nobody is stuck, and waking it makes it return that it timed out.
   */
  lemma ShutdownEnds(s: State, run: seq<Action>, w: nat)
    requires w < |s.waiters| && Registered(s.waiters[w]) && Enabled(s, Shutdown)
    requires var after := Apply(s, Shutdown); Possible(after, run) && !KeyNotified(after, run, s.waiters[w].key)
    ensures var t := Run(Apply(s, Shutdown), run);
            && Ended(t, w)
            && (InPhase(t, w, Waiting) && MutexFree(t) ==>
                  Enabled(t, Wake(w)) && InPhase(Apply(t, Wake(w)), w, TimedOut))
  {
    assert Ended(Apply(s, Shutdown), w) && Apply(s, Shutdown).waiters[w].key == s.waiters[w].key;
    EndedRun(Apply(s, Shutdown), run, w);
    hide Run, Possible, KeyNotified;
  }

  // ---- The lookup loop ----

  lemma {:induction false} TurnsSettle(w: nat, x: Search, n: nat)
    requires n >= 1
    ensures Turns(w, x, n) == Turn(w, x)
    decreases n
  {
    if n > 1 {
      TurnsSettle(w, Turn(w, x), n - 1);
    }
  }

  /** The lookup loop of waitKey goes on for ever exactly when another entry for the same key came first. */
  lemma StuckExactly(s: State, w: nat)
    requires Enabled(s, StartWait(w))
    ensures (forall n: nat :: !Turns(w, BeginSearch(s, w), n).left) <==>
            exists v :: 0 <= v < |s.waiters| && HasEntry(s, v, s.waiters[w].key) && Before(s, v, w)
    ensures (forall n: nat :: !Turns(w, BeginSearch(s, w), n).left) <==> InPhase(Apply(s, StartWait(w)), w, Spinning)
  {
    var x := BeginSearch(s, w);
    assert HasEntry(s, w, s.waiters[w].key);
    forall n: nat ensures Turns(w, x, n).left ==> Turn(w, x).left {
      if n >= 1 {
        TurnsSettle(w, x, n);
      }
    }
    TurnsSettle(w, x, 1);
    if v :| 0 <= v < |s.waiters| && HasEntry(s, v, s.waiters[w].key) && Before(s, v, w) {
      assert x.it != Some(w);
    }
  }

  lemma StuckStep(s: State, a: Action, w: nat)
    requires InPhase(s, w, Spinning) && Enabled(s, a)
    ensures InPhase(Apply(s, a), w, Spinning)
    ensures !(a.Add? || a.StartWait? || a.Wake? || a.Shutdown?)
    ensures a.Notify? ==> !s.writer.value.notify
    ensures forall v | 0 <= v < |s.waiters| && (s.waiters[v].phase == Unlocked || s.waiters[v].phase == Waiting) ::
              v < |Apply(s, a).waiters| && Apply(s, a).waiters[v] == s.waiters[v]
  {
    assert !MutexFree(s);
    hide FirstEntry, MutexFree;
  }

  /**
   Once a reader is stuck it keeps the mutex for ever: no later reader of any key is woken and no put that notifies
   goes on.
   */
  lemma {:induction false} StuckForEver(s: State, run: seq<Action>, w: nat)
    requires InPhase(s, w, Spinning) && Possible(s, run)
    ensures InPhase(Run(s, run), w, Spinning)
    ensures forall v | 0 <= v < |s.waiters| && (s.waiters[v].phase == Unlocked || s.waiters[v].phase == Waiting) ::
              v < |Run(s, run).waiters| && Run(s, run).waiters[v] == s.waiters[v]
    decreases |run|
  {
    if run != [] {
      hide Apply, Enabled;
      StuckStep(s, run[0], w);
      StuckForEver(Apply(s, run[0]), run[1..], w);
    }
  }

  /** A reader registers for an absent key. */
  lemma Registers(s: State, key: bytes, rest: seq<Action>)
    requires s.writer.None? && key !in s.db && MutexFree(s)
    ensures var w := |s.waiters|;
            var t := s.(waiters := s.waiters + [Waiter(key, Unlocked, s.tickets, Pending)], tickets := s.tickets + 1);
            && (Possible(t, rest) ==> Possible(s, [Arrive(key)] + ([Look(w)] + ([Add(w)] + ([Unlock(w)] + rest)))))
            && (Possible(t, rest) ==>
                Run(s, [Arrive(key)] + ([Look(w)] + ([Add(w)] + ([Unlock(w)] + rest)))) == Run(t, rest))
  {
    var w := |s.waiters|;
    var s1 := s.(waiters := s.waiters + [Waiter(key, Looking, 0, Pending)]);
    var s2 := s.(waiters := s.waiters + [Waiter(key, Absent, 0, Pending)]);
    var s3 := s.(waiters := s.waiters + [Waiter(key, Added, s.tickets, Pending)], tickets := s.tickets + 1);
    var t := s.(waiters := s.waiters + [Waiter(key, Unlocked, s.tickets, Pending)], tickets := s.tickets + 1);
    assert Enabled(s, Arrive(key)) && Apply(s, Arrive(key)) == s1;
    assert Enabled(s1, Look(w)) && Apply(s1, Look(w)) == s2;
    assert Enabled(s2, Add(w)) && Apply(s2, Add(w)) == s3;
    assert Enabled(s3, Unlock(w)) && Apply(s3, Unlock(w)) == t;
    hide *;
    RunCons(s3, Unlock(w), rest);
    RunCons(s2, Add(w), [Unlock(w)] + rest);
    RunCons(s1, Look(w), [Add(w)] + ([Unlock(w)] + rest));
    RunCons(s, Arrive(key), [Look(w)] + ([Add(w)] + ([Unlock(w)] + rest)));
  }

  /** It does happen: two readers of one absent key, of which the later one waits first. */
  lemma TwoReadersStick(key: bytes) returns (run: seq<Action>)
    ensures Possible(Init(), run) && InPhase(Run(Init(), run), 1, Spinning)
  {
    var one := Waiter(key, Unlocked, 0, Pending);
    var s := State({}, [one], None, 1);
    var t := State({}, [one, Waiter(key, Unlocked, 1, Pending)], None, 2);
    assert Enabled(t, StartWait(1));
    assert InPhase(Apply(t, StartWait(1)), 1, Spinning) by {
      StuckExactly(t, 1);
      assert HasEntry(t, 0, key) && Before(t, 0, 1);
    }
    assert s == Init().(waiters := Init().waiters + [one], tickets := 1);
    assert t == s.(waiters := s.waiters + [Waiter(key, Unlocked, 1, Pending)], tickets := 2);
    assert Possible(Apply(t, StartWait(1)), []) && Run(Apply(t, StartWait(1)), []) == Apply(t, StartWait(1));
    assert MutexFree(s) && MutexFree(Init()) && Init() == State({}, [], None, 0);
    hide *;
    var last := [StartWait(1)] + [];
    RunCons(t, StartWait(1), []);
    var second := [Arrive(key)] + ([Look(1)] + ([Add(1)] + ([Unlock(1)] + last)));
    Registers(s, key, last);
    Registers(Init(), key, second);
    run := [Arrive(key)] + ([Look(0)] + ([Add(0)] + ([Unlock(0)] + second)));
  }

  /** At most one reader waits for each key: what callers must see to. */
  predicate OneEach(s: State) {
    forall v, w | 0 <= v < w < |s.waiters| && Registered(s.waiters[v]) && Registered(s.waiters[w]) ::
      s.waiters[v].key != s.waiters[w].key
  }

  predicate AddsAlone(s: State, a: Action)
    requires Enabled(s, a)
  {
    a.Add? ==> forall v | 0 <= v < |s.waiters| && Registered(s.waiters[v]) :: s.waiters[v].key != s.waiters[a.w].key
  }

  predicate AllAlone(s: State, run: seq<Action>)
    requires Possible(s, run)
    decreases |run|
  {
    run != [] ==> AddsAlone(s, run[0]) && AllAlone(Apply(s, run[0]), run[1..])
  }

  /** A reader has an entry after a step if it had one before, or the step is its own registration. */
  lemma EntryBefore(s: State, a: Action, v: nat)
    requires Enabled(s, a) && v < |Apply(s, a).waiters| && Registered(Apply(s, a).waiters[v])
    ensures v < |s.waiters| && Apply(s, a).waiters[v].key == s.waiters[v].key
    ensures Registered(s.waiters[v]) || a == Add(v)
  {
    hide MutexFree, Turn, BeginSearch;
  }

  lemma OneEachStays(s: State, a: Action)
    requires OneEach(s) && Enabled(s, a) && AddsAlone(s, a)
    ensures OneEach(Apply(s, a))
  {
    var t := Apply(s, a);
    hide Apply, Enabled;
    forall v, w | 0 <= v < w < |t.waiters| && Registered(t.waiters[v]) && Registered(t.waiters[w])
      ensures t.waiters[v].key != t.waiters[w].key
    {
      EntryBefore(s, a, v);
      EntryBefore(s, a, w);
    }
  }

  lemma MutexStaysFree(s: State, a: Action)
    requires OneEach(s) && MutexFree(s) && Enabled(s, a)
    ensures MutexFree(Apply(s, a))
  {
    if a.StartWait? {
      assert HasEntry(s, a.w, s.waiters[a.w].key) && BeginSearch(s, a.w).it == Some(a.w);
    } else {
      hide Turn, BeginSearch, OneEach;
    }
    hide FirstEntry;
  }

  lemma OneEachKeeps(s: State, a: Action)
    requires OneEach(s) && MutexFree(s) && Enabled(s, a) && AddsAlone(s, a)
    ensures OneEach(Apply(s, a)) && MutexFree(Apply(s, a))
  {
    OneEachStays(s, a);
    MutexStaysFree(s, a);
  }

  /** With one waiter per key no reader is ever stuck. */
  lemma {:induction false} NeverStuck(s: State, run: seq<Action>)
    requires OneEach(s) && MutexFree(s) && Possible(s, run) && AllAlone(s, run)
    ensures OneEach(Run(s, run)) && MutexFree(Run(s, run))
    decreases |run|
  {
    if run != [] {
      hide Apply, Enabled, OneEach, MutexFree, AddsAlone;
      OneEachKeeps(s, run[0]);
      NeverStuck(Apply(s, run[0]), run[1..]);
    }
  }

  // ---- Puts that do not notify ----

  /** Inserting a key without notifying keeps the promise exactly when nobody pending waits for it. */
  lemma SilentPut(s: State)
    requires NoLostWakeup(s) && Enabled(s, Insert) && !s.writer.value.notify
    ensures var key := s.writer.value.keys[s.writer.value.next];
            NoLostWakeup(Apply(s, Insert)) <==>
            forall w | 0 <= w < |s.waiters| && Registered(s.waiters[w]) && s.waiters[w].key == key ::
              s.waiters[w].status != Pending
  {
    var key := s.writer.value.keys[s.writer.value.next];
    var t := Apply(s, Insert);
    assert t.waiters == s.waiters && t.db == s.db + {key};
    assert forall k :: !AboutToNotify(t, k) && !AboutToNotify(s, k);
  }

  /** The step notifies the readers of a key. */
  predicate Notifies(s: State, a: Action, key: bytes)
    requires Enabled(s, a)
  {
    a.Shutdown? || (a.Notify? && s.writer.value.notify && s.writer.value.keys[s.writer.value.next] == key)
  }

  predicate PutsSilently(s: State, a: Action, key: bytes)
    requires Enabled(s, a)
  {
    a.Insert? && !s.writer.value.notify && s.writer.value.keys[s.writer.value.next] == key
  }

  /** No step of the run notifies the readers of a key. */
  predicate Unnotified(s: State, run: seq<Action>, key: bytes)
    requires Possible(s, run)
    decreases |run|
  {
    run != [] ==> !Notifies(s, run[0], key) && Unnotified(Apply(s, run[0]), run[1..], key)
  }

  /** Of the silent insertions and the erasures of a key in the run, if any, the last is an insertion. */
  predicate SilentlyPut(s: State, run: seq<Action>, key: bytes, before: bool)
    requires Possible(s, run)
    decreases |run|
  {
    if run == [] then before
    else SilentlyPut(Apply(s, run[0]), run[1..], key,
                     PutsSilently(s, run[0], key) || (before && run[0] != Erase(key)))
  }

  /**
   The entry of reader `w` is pending, and its key is there when it was put silently or a notification is on the
   way.
   */
  predicate StillPending(s: State, w: nat, key: bytes, silent: bool) {
    && HasEntry(s, w, key) && s.waiters[w].status == Pending
    && (silent ==> key in s.db) && (key in s.db ==> silent || AboutToNotify(s, key))
    && (AboutToNotify(s, key) ==> key in s.db)
  }

  /** The reader has been notified since it registered. */
  predicate NotPending(s: State, w: nat) {
    w < |s.waiters| && (Registered(s.waiters[w]) ==> s.waiters[w].status != Pending)
  }

  lemma PendingStep(s: State, a: Action, w: nat, key: bytes, silent: bool)
    requires StillPending(s, w, key, silent) && Enabled(s, a) && a != Add(w) && !Notifies(s, a, key)
    ensures StillPending(Apply(s, a), w, key, PutsSilently(s, a, key) || (silent && a != Erase(key)))
  {
    hide FirstEntry, MutexFree;
  }

  lemma NotifiedStep(s: State, a: Action, w: nat, key: bytes)
    requires w < |s.waiters| && s.waiters[w].key == key && Enabled(s, a) && a != Add(w)
    requires NotPending(s, w) || Notifies(s, a, key)
    ensures NotPending(Apply(s, a), w) && Apply(s, a).waiters[w].key == key
  {
    hide FirstEntry, MutexFree;
  }

  lemma {:induction false} NotifiedRun(s: State, run: seq<Action>, w: nat, key: bytes)
    requires NotPending(s, w) && s.waiters[w].key == key && Possible(s, run) && Add(w) !in run
    ensures NotPending(Run(s, run), w)
    decreases |run|
  {
    if run != [] {
      hide Apply, Enabled, NotPending;
      NotifiedStep(s, run[0], w, key);
      NotifiedRun(Apply(s, run[0]), run[1..], w, key);
    }
  }

  lemma {:induction false} PendingRun(s: State, run: seq<Action>, w: nat, key: bytes, silent: bool)
    requires StillPending(s, w, key, silent) && Possible(s, run) && Add(w) !in run
    ensures var t := Run(s, run);
            if Unnotified(s, run, key) then StillPending(t, w, key, SilentlyPut(s, run, key, silent))
            else NotPending(t, w)
    decreases |run|
  {
    if run != [] {
      var a, rest := run[0], run[1..];
      assert s.waiters[w].key == key;
      hide Apply, Enabled, NotPending, StillPending, Notifies, PutsSilently;
      if Notifies(s, a, key) {
        NotifiedStep(s, a, w, key);
        NotifiedRun(Apply(s, a), rest, w, key);
      } else {
        PendingStep(s, a, w, key, silent);
        PendingRun(Apply(s, a), rest, w, key, PutsSilently(s, a, key) || (silent && a != Erase(key)));
      }
    }
  }

  /**
   Over any run after a reader has registered for an absent key, with puts that notify and puts that do not: while
   nobody writes, the reader blocks on a key that is there, without having been notified, if and only if no step
   notified it and the key was inserted silently and not erased since.
   */
  lemma LostExactly(s: State, run: seq<Action>, w: nat)
    requires InPhase(s, w, Added) && s.waiters[w].status == Pending && s.waiters[w].key !in s.db && s.writer.None?
    requires Possible(s, run) && Add(w) !in run && InPhase(Run(s, run), w, Waiting) && Run(s, run).writer.None?
    ensures var t, key := Run(s, run), s.waiters[w].key;
            t.waiters[w].status == Pending && key in t.db <==>
            Unnotified(s, run, key) && SilentlyPut(s, run, key, false)
  {
    PendingRun(s, run, w, s.waiters[w].key, false);
    hide Run, Unnotified, SilentlyPut;
  }
}
