/** The in-memory ordered backend: put, erase, packed get, packed listing and iteration over sorted items. */
module MapDatabase {
  import opened Basics
  import opened Documents
  import opened Iteration
  import opened Buffers
  import opened KeyValueMap
  import KeyCodec

  // ---- Filters ----

  /** Which items pass, when no later item will, and what listing copies out of a passing one. */
  datatype KeyValueFilter = KeyValueFilter(
    check: (bytes, bytes) -> bool,
    stop: (bytes, bytes) -> bool,
    keyOut: bytes -> bytes,
    valOut: bytes -> bytes)

  /** The items a scan from position `i` accepts before the filter stops it. */
  function Passing(items: seq<Item>, f: KeyValueFilter, i: nat): seq<Item>
    requires i <= |items|
    decreases |items| - i
  {
    if i == |items| then []
    else if f.check(items[i].key, items[i].val) then [items[i]] + Passing(items, f, i + 1)
    else if f.stop(items[i].key, items[i].val) then []
    else Passing(items, f, i + 1)
  }

  /** From position `start` on, no item is accepted after one on which the filter says stop. */
  ghost predicate StopIsSound(items: seq<Item>, f: KeyValueFilter, start: nat) {
    forall i, j | start <= i < j < |items|
                  && !f.check(items[i].key, items[i].val) && f.stop(items[i].key, items[i].val) ::
      !f.check(items[j].key, items[j].val)
  }

  /** Where a listing or iteration begins; an empty key means the beginning, inclusive or not. */
  function First(items: seq<Item>, fromKey: bytes, inclusive: bool): (i: nat)
    ensures i <= |items|
  {
    if fromKey == [] then 0
    else if inclusive then LowerBound(items, fromKey, 0)
    else UpperBound(items, fromKey, 0)
  }

  /** It begins at the first key past the given one, or at that key itself when it is inclusive. */
  lemma FirstMeans(items: seq<Item>, fromKey: bytes, inclusive: bool, i: nat)
    requires Sorted(items) && i < |items|
    ensures i >= First(items, fromKey, inclusive) <==>
            fromKey == [] || KeyCodec.DefaultMemCmp(fromKey, items[i].key) || (inclusive && items[i].key == fromKey)
  {
    LowerBoundSplits(items, fromKey, 0);
    UpperBoundSplits(items, fromKey, 0);
    KeyCodec.OrderTotal(items[i].key, fromKey);
    hide KeyCodec.DefaultMemCmp, LowerBound, UpperBound, Sorted;
  }

  /** With a sound filter, exactly the accepted items from position `start` on are passed. */
  lemma {:induction false} PassingMembers(items: seq<Item>, f: KeyValueFilter, start: nat)
    requires start <= |items| && StopIsSound(items, f, start)
    ensures forall item :: item in Passing(items, f, start) <==>
              exists i | start <= i < |items| :: items[i] == item && f.check(item.key, item.val)
    decreases |items| - start
  {
    if start < |items| {
      PassingMembers(items, f, start + 1);
      var item := items[start];
      if !f.check(item.key, item.val) && f.stop(item.key, item.val) {
        assert forall j | start <= j < |items| :: !f.check(items[j].key, items[j].val);
      }
    }
  }

  /** No item between `start` and this one is rejected with a stop verdict. */
  ghost predicate Reached(items: seq<Item>, f: KeyValueFilter, start: nat, i: nat) {
    && start <= i < |items|
    && forall k | start <= k < i :: f.check(items[k].key, items[k].val) || !f.stop(items[k].key, items[k].val)
  }

  lemma ReachedNext(items: seq<Item>, f: KeyValueFilter, start: nat)
    requires start < |items|
    ensures Reached(items, f, start, start)
    ensures var goesOn := f.check(items[start].key, items[start].val) || !f.stop(items[start].key, items[start].val);
            forall i: nat :: Reached(items, f, start, i) <==> i == start || (goesOn && Reached(items, f, start + 1, i))
  {
  }

  lemma PassingNext(items: seq<Item>, f: KeyValueFilter, start: nat)
    requires start < |items|
    ensures Passing(items, f, start) ==
            if f.check(items[start].key, items[start].val) then [items[start]] + Passing(items, f, start + 1)
            else if f.stop(items[start].key, items[start].val) then []
            else Passing(items, f, start + 1)
  {
  }

  /** The item is accepted and reached before a stop, somewhere from `start` on. */
  ghost predicate IsPassed(items: seq<Item>, f: KeyValueFilter, start: nat, item: Item) {
    exists i: nat | i < |items| :: Reached(items, f, start, i) && items[i] == item && f.check(item.key, item.val)
  }

  lemma PassedNext(items: seq<Item>, f: KeyValueFilter, start: nat, item: Item)
    requires start < |items|
    ensures var first := items[start];
            var goesOn := f.check(first.key, first.val) || !f.stop(first.key, first.val);
            IsPassed(items, f, start, item) <==>
            (item == first && f.check(item.key, item.val)) || (goesOn && IsPassed(items, f, start + 1, item))
  {
    hide Reached;
    ReachedNext(items, f, start);
    if IsPassed(items, f, start, item) {
      var i: nat :| i < |items| && Reached(items, f, start, i) && items[i] == item && f.check(item.key, item.val);
    }
    if IsPassed(items, f, start + 1, item) {
      var i: nat :| i < |items| && Reached(items, f, start + 1, i) && items[i] == item && f.check(item.key, item.val);
    }
  }

  /** For any filter, sound or not, the accepted items that are passed are those reached before a stop. */
  lemma {:induction false} PassingReached(items: seq<Item>, f: KeyValueFilter, start: nat)
    requires start <= |items|
    ensures forall item :: item in Passing(items, f, start) <==> IsPassed(items, f, start, item)
    decreases |items| - start
  {
    if start < |items| {
      hide *;
      PassingReached(items, f, start + 1);
      PassingNext(items, f, start);
      forall item ensures item in Passing(items, f, start) <==> IsPassed(items, f, start, item) {
        PassedNext(items, f, start, item);
      }
    }
  }

  /** They come in key order. */
  lemma {:induction false} PassingSorted(items: seq<Item>, f: KeyValueFilter, start: nat)
    requires Sorted(items) && start <= |items|
    ensures Sorted(Passing(items, f, start))
    ensures forall item | item in Passing(items, f, start) :: exists i | start <= i < |items| :: items[i] == item
    decreases |items| - start
  {
    if start < |items| {
      PassingSorted(items, f, start + 1);
      var rest := Passing(items, f, start + 1);
      forall k | 0 <= k < |rest| ensures KeyCodec.DefaultMemCmp(items[start].key, rest[k].key) {
        assert rest[k] in rest;
        var i :| start + 1 <= i < |items| && items[i] == rest[k];
      }
    }
  }

  // ---- Packed output ----

  /**
   A packed read: values before the cut lie end to end, found ones from the cut on are marked too small, and
   absent ones are marked not found wherever they stand.
   */
  ghost predicate PackedRead(items: Docs, capacity: nat, buffer: bytes, sizes: seq<nat>, cut: nat) {
    && IsCut(items, capacity, cut)
    && |sizes| == |items| && |buffer| == capacity
    && PackedBytes(items, cut) <= buffer
    && (forall k | 0 <= k < cut :: sizes[k] == SizeOf(items[k]))
    && (forall k | cut <= k < |items| :: sizes[k] == if items[k].Some? then SIZE_TOO_SMALL else KEY_NOT_FOUND)
  }

  /** What such a read leaves is determined by the items and the capacity. */
  lemma PackedReadUnique(items: Docs, capacity: nat, b: bytes, s: seq<nat>, c: nat, b': bytes, s': seq<nat>, c': nat)
    requires PackedRead(items, capacity, b, s, c) && PackedRead(items, capacity, b', s', c')
    ensures c == c' && s == s' && b[..PackedSize(items, c)] == b'[..PackedSize(items, c)]
  {
    CutUnique(items, capacity, c, c');
  }

  /** It differs from a packed document load exactly in how it marks absent items past the cut. */
  lemma PackedReadVersusLoad(items: Docs, capacity: nat, b: bytes, s: seq<nat>, s': seq<nat>, cut: nat)
    requires PackedRead(items, capacity, b, s, cut) && PackedLoad(items, capacity, b, s', cut)
    ensures s == s' <==> forall k | cut <= k < |items| :: items[k].Some?
  {
    if s == s' {
      forall k | cut <= k < |items| ensures items[k].Some? {
        assert s[k] == s'[k];
      }
    }
  }

  /** The first `i` items are dealt with; `full` says that one did not fit, the one at `cut`. */
  ghost predicate Packing(items: Docs, buffer: bytes, sizes: seq<nat>, i: nat, offset: nat, full: bool, cut: nat) {
    && cut <= i <= |items| == |sizes|
    && (if full then cut < i && IsCut(items, |buffer|, cut) else cut == i)
    && offset == PackedSize(items, cut) <= |buffer|
    && PackedBytes(items, cut) == buffer[..offset]
    && (forall k | 0 <= k < cut :: sizes[k] == SizeOf(items[k]))
    && (forall k | cut <= k < i :: sizes[k] == if items[k].Some? then SIZE_TOO_SMALL else KEY_NOT_FOUND)
  }

  lemma PackingStart(items: Docs, buffer: bytes, sizes: seq<nat>)
    requires |items| == |sizes|
    ensures Packing(items, buffer, sizes, 0, 0, false, 0)
  {
  }

  lemma PackingAbsent(items: Docs, buffer: bytes, sizes: seq<nat>, i: nat, offset: nat, full: bool, cut: nat)
    requires Packing(items, buffer, sizes, i, offset, full, cut) && i < |items| && items[i].None?
    ensures Packing(items, buffer, sizes[i := KEY_NOT_FOUND], i + 1, offset, full, if full then cut else i + 1)
  {
  }

  lemma PackingEnd(items: Docs, buffer: bytes, sizes: seq<nat>, offset: nat, full: bool, cut: nat)
    requires Packing(items, buffer, sizes, |items|, offset, full, cut)
    ensures PackedRead(items, |buffer|, buffer, sizes, cut) && offset == PackedSize(items, cut)
  {
    assert PackedBytes(items, cut) <= buffer;
  }

  /** Copy if it fits; otherwise return the sentinel. */
  method ValCopy(dst: array<byte>, offset: nat, room: nat, val: bytes) returns (size: nat)
    requires offset + room <= dst.Length
    modifies dst
    ensures size == if room < |val| then SIZE_TOO_SMALL else |val|
    ensures dst[..] == if room < |val| then old(dst[..]) else Splice(old(dst[..]), offset, val)
  {
    if room < |val| {
      return SIZE_TOO_SMALL;
    }
    CopyInto(dst, offset, val);
    size := |val|;
  }

  lemma PackingMarked(items: Docs, buffer: bytes, sizes: seq<nat>, i: nat, offset: nat, full: bool, cut: nat)
    requires Packing(items, buffer, sizes, i, offset, full, cut) && i < |items| && items[i].Some?
    requires full || |items[i].value| > |buffer| - offset
    ensures offset <= |buffer| && Packing(items, buffer, sizes[i := SIZE_TOO_SMALL], i + 1, offset, true, cut)
  {
  }

  lemma PackingCopied(items: Docs, buffer: bytes, sizes: seq<nat>, i: nat, offset: nat, cut: nat)
    requires Packing(items, buffer, sizes, i, offset, false, cut) && i < |items| && items[i].Some?
    requires |items[i].value| <= |buffer| - offset
    ensures var val := items[i].value;
            Packing(items, Splice(buffer, offset, val), sizes[i := |val|], i + 1, offset + |val|, false, i + 1)
  {
    var val := items[i].value;
    var after := Splice(buffer, offset, val);
    assert after[..offset + |val|] == buffer[..offset] + val;
  }

  lemma PackingRoom(items: Docs, buffer: bytes, sizes: seq<nat>, i: nat, offset: nat, full: bool, cut: nat)
    requires Packing(items, buffer, sizes, i, offset, full, cut)
    ensures offset <= |buffer|
  {
  }

  /** One slot of a packed output column: mark it when the column is full already, else copy or become full. */
  method PackNext(buffer: array<byte>, sizes: array<nat>, i: nat, offset: nat, full: bool, val: bytes,
                  ghost items: Docs, ghost cut: nat)
    returns (offset': nat, full': bool, ghost cut': nat)
    requires |val| <= LAST_VALID_SIZE && |items| <= sizes.Length && buffer as object != sizes
    requires Packing(items, buffer[..], sizes[..|items|], i, offset, full, cut) && i < |items| && items[i] == Some(val)
    modifies buffer, sizes
    ensures Packing(items, buffer[..], sizes[..|items|], i + 1, offset', full', cut')
    ensures forall k | |items| <= k < sizes.Length :: sizes[k] == old(sizes[k])
  {
    assert |val| < SIZE_TOO_SMALL;
    hide *;
    offset', full', cut' := offset, full, cut;
    ghost var b: bytes, s: seq<nat> := buffer[..], sizes[..|items|];
    PackingRoom(items, b, s, i, offset, full, cut);
    if full || |val| > |b| - offset {
      PackingMarked(items, b, s, i, offset, full, cut);
    } else {
      PackingCopied(items, b, s, i, offset, cut);
    }
    if full {
      sizes[i] := SIZE_TOO_SMALL;
      assert sizes[..|items|] == s[i := SIZE_TOO_SMALL];
    } else {
      var size := ValCopy(buffer, offset, buffer.Length - offset, val);
      sizes[i] := size;
      assert sizes[..|items|] == s[i := size];
      if size == SIZE_TOO_SMALL {
        full' := true;
      } else {
        offset' := offset + size;
        cut' := i + 1;
      }
    }
  }

  // ---- Storing ----

  datatype PutMode = PutMode(append: bool, newOnly: bool, existOnly: bool)

  const PLAIN := PutMode(false, false, false)

  /** What putting one entry does to the content. */
  function PutOne(m: KeyValues, mode: PutMode, key: bytes, val: bytes): KeyValues {
    if mode.newOnly then (if key in m then m else m[key := val])
    else if key in m then m[key := if mode.append then m[key] + val else val]
    else if mode.existOnly then m
    else m[key := val]
  }

  /** The entries from the i-th on, put one after the other. */
  function PutAll(m: KeyValues, mode: PutMode, keys: seq<bytes>, vals: seq<bytes>, i: nat): KeyValues
    requires i <= |keys| == |vals|
    decreases |keys| - i
  {
    if i == |keys| then m else PutAll(PutOne(m, mode, keys[i], vals[i]), mode, keys, vals, i + 1)
  }

  /** Only a put of a single key reports that its mode kept the entry out. */
  function PutStatus(m: KeyValues, mode: PutMode, keys: seq<bytes>): Status {
    if |keys| != 1 then OK
    else if mode.newOnly then (if keys[0] in m then KeyExists else OK)
    else if mode.existOnly && keys[0] !in m then NotFound
    else OK
  }

  lemma OneSlice(data: bytes, sizes: seq<nat>)
    requires |sizes| == 1
    ensures IsBatch(data, sizes) <==> sizes[0] <= |data|
    ensures sizes[0] <= |data| ==> Slices(data, sizes) == [data[..sizes[0]]]
  {
  }

  /** How many of the keys lie within a buffer of `size` bytes. */
  function KeysWithin(ksizes: seq<nat>, size: nat, i: nat): (n: nat)
    requires i <= |ksizes|
    ensures i <= n <= |ksizes|
    ensures Start(ksizes, i) <= size ==> Start(ksizes, n) <= size
    ensures n < |ksizes| ==> Start(ksizes, n) + ksizes[n] > size
    decreases |ksizes| - i
  {
    if i == |ksizes| || Start(ksizes, i) + ksizes[i] > size then i else KeysWithin(ksizes, size, i + 1)
  }

  lemma PutAllStep(m: KeyValues, mode: PutMode, keys: seq<bytes>, vals: seq<bytes>, i: nat)
    requires i <= |keys| == |vals|
    ensures i == |keys| ==> PutAll(m, mode, keys, vals, i) == m
    ensures i < |keys| ==>
              PutAll(m, mode, keys, vals, i) == PutAll(PutOne(m, mode, keys[i], vals[i]), mode, keys, vals, i + 1)
  {
  }

  lemma PutStatusOf(m: KeyValues, mode: PutMode, keys: seq<bytes>)
    ensures |keys| != 1 ==> PutStatus(m, mode, keys) == OK
    ensures |keys| == 1 ==> PutStatus(m, mode, keys) == PutStatus(m, mode, [keys[0]])
  {
  }

  /**
   A put of one key reports KeyExists in new-only mode exactly when the key is there, and NotFound in exist-only mode
   exactly when it is not. Then nothing changes; otherwise the key has its new value. No other key changes.
   */
  lemma PutOfOne(m: KeyValues, mode: PutMode, keys: seq<bytes>, vals: seq<bytes>)
    requires |keys| == |vals| == 1
    ensures var key, status, m' := keys[0], PutStatus(m, mode, keys), PutAll(m, mode, keys, vals, 0);
            && (status == KeyExists <==> mode.newOnly && key in m)
            && (status == NotFound <==> !mode.newOnly && mode.existOnly && key !in m)
            && (status == OK || status == KeyExists || status == NotFound)
            && (status != OK ==> m' == m)
            && (status == OK ==> Lookup(m', key) == Some(if mode.append && key in m then m[key] + vals[0] else vals[0]))
            && forall other | other != key :: Lookup(m', other) == Lookup(m, other)
  {
    PutAllStep(m, mode, keys, vals, 0);
    PutAllStep(PutOne(m, mode, keys[0], vals[0]), mode, keys, vals, 1);
  }

  /** In the plain mode the last entry for a key wins and other keys keep their values. */
  lemma {:induction false} PutAllMeans(m: KeyValues, keys: seq<bytes>, vals: seq<bytes>, i: nat, key: bytes)
    requires i <= |keys| == |vals|
    ensures key !in keys[i..] ==> Lookup(PutAll(m, PLAIN, keys, vals, i), key) == Lookup(m, key)
    ensures forall j | i <= j < |keys| && keys[j] == key && key !in keys[j + 1..] ::
              Lookup(PutAll(m, PLAIN, keys, vals, i), key) == Some(vals[j])
    decreases |keys| - i
  {
    if i < |keys| {
      PutAllMeans(PutOne(m, PLAIN, keys[i], vals[i]), keys, vals, i + 1, key);
      assert keys[i..] == [keys[i]] + keys[i + 1..];
    }
  }

  /** The batch's values for one key, in order, end to end. */
  function ValuesFor(keys: seq<bytes>, vals: seq<bytes>, i: nat, key: bytes): bytes
    requires i <= |keys| == |vals|
    decreases |keys| - i
  {
    if i == |keys| then [] else (if keys[i] == key then vals[i] else []) + ValuesFor(keys, vals, i + 1, key)
  }

  /** In append mode each key's value grows by all the batch's values for it, in order. */
  lemma {:induction false} PutAllAppends(m: KeyValues, keys: seq<bytes>, vals: seq<bytes>, i: nat, key: bytes)
    requires i <= |keys| == |vals|
    ensures Lookup(PutAll(m, PutMode(true, false, false), keys, vals, i), key) ==
            if key in m then Some(m[key] + ValuesFor(keys, vals, i, key))
            else if key in keys[i..] then Some(ValuesFor(keys, vals, i, key))
            else None
    decreases |keys| - i
  {
    if i < |keys| {
      var mode := PutMode(true, false, false);
      var rest, m' := ValuesFor(keys, vals, i + 1, key), PutOne(m, mode, keys[i], vals[i]);
      PutAllAppends(m', keys, vals, i + 1, key);
      assert PutAll(m, mode, keys, vals, i) == PutAll(m', mode, keys, vals, i + 1);
      assert keys[i..] == [keys[i]] + keys[i + 1..];
      if keys[i] != key {
        assert ValuesFor(keys, vals, i, key) == rest;
      } else if key in m {
        assert m'[key] + rest == m[key] + (vals[i] + rest);
      }
    } else if key in m {
      assert m[key] + [] == m[key];
    }
  }

  /** In new-only mode existing keys keep their values and a new key gets its first one. */
  lemma {:induction false} PutAllNewOnly(m: KeyValues, mode: PutMode, keys: seq<bytes>, vals: seq<bytes>, i: nat,
                                         key: bytes)
    requires i <= |keys| == |vals| && mode.newOnly
    ensures key in m || key !in keys[i..] ==> Lookup(PutAll(m, mode, keys, vals, i), key) == Lookup(m, key)
    ensures forall j | i <= j < |keys| && key !in m && keys[j] == key && key !in keys[i..j] ::
              Lookup(PutAll(m, mode, keys, vals, i), key) == Some(vals[j])
    decreases |keys| - i
  {
    if i < |keys| {
      PutAllNewOnly(PutOne(m, mode, keys[i], vals[i]), mode, keys, vals, i + 1, key);
      assert keys[i..] == [keys[i]] + keys[i + 1..];
      assert forall j | i < j < |keys| :: keys[i..j] == [keys[i]] + keys[i + 1..j];
    }
  }

  /** In exist-only mode a batch does to existing keys what it does without it, and adds none. */
  lemma {:induction false} PutAllExistOnly(m: KeyValues, m': KeyValues, append: bool, keys: seq<bytes>,
                                           vals: seq<bytes>, i: nat, key: bytes)
    requires i <= |keys| == |vals| && (key in m ==> Lookup(m, key) == Lookup(m', key))
    ensures Lookup(PutAll(m, PutMode(append, false, true), keys, vals, i), key) ==
            if key in m then Lookup(PutAll(m', PutMode(append, false, false), keys, vals, i), key) else None
    decreases |keys| - i
  {
    if i < |keys| {
      PutAllExistOnly(PutOne(m, PutMode(append, false, true), keys[i], vals[i]),
                      PutOne(m', PutMode(append, false, false), keys[i], vals[i]), append, keys, vals, i + 1, key);
    }
  }

  /** The first `n` keys lie within the buffer. */
  predicate KeysFit(keys: bytes, ksizes: seq<nat>, n: nat) {
    n <= |ksizes| && Start(ksizes, n) <= |keys|
  }

  function KeysUpTo(keys: bytes, ksizes: seq<nat>, n: nat): set<bytes>
    requires KeysFit(keys, ksizes, n)
  {
    if n == 0 then {}
    else
      StartMonotone(ksizes, n - 1, n);
      KeysUpTo(keys, ksizes, n - 1) + {keys[Start(ksizes, n - 1)..Start(ksizes, n)]}
  }

  lemma NoKeys(keys: bytes, ksizes: seq<nat>)
    ensures KeysFit(keys, ksizes, 0)
  {
  }

  lemma KeysUpToStep(keys: bytes, ksizes: seq<nat>, i: nat)
    requires KeysFit(keys, ksizes, i)
    ensures KeysUpTo(keys, ksizes, 0) == {}
    ensures KeysFit(keys, ksizes, 0)
    ensures i < |ksizes| ==> Start(ksizes, i + 1) == Start(ksizes, i) + ksizes[i]
    ensures i < |ksizes| && Start(ksizes, i) + ksizes[i] <= |keys| ==>
              && KeysFit(keys, ksizes, i + 1)
              && KeysUpTo(keys, ksizes, i + 1) ==
                 KeysUpTo(keys, ksizes, i) + {keys[Start(ksizes, i)..Start(ksizes, i + 1)]}
              && KeysWithin(ksizes, |keys|, i) == KeysWithin(ksizes, |keys|, i + 1)
    ensures i == |ksizes| || Start(ksizes, i) + ksizes[i] > |keys| ==> KeysWithin(ksizes, |keys|, i) == i
  {
  }

  /** The keys before the `n`-th are the windows that their sizes cut out of the buffer, one behind the other. */
  lemma {:induction false} KeysUpToMeans(keys: bytes, ksizes: seq<nat>, n: nat)
    requires KeysFit(keys, ksizes, n)
    ensures IsBatch(keys, ksizes[..n])
    ensures forall key :: key in KeysUpTo(keys, ksizes, n) <==> key in Slices(keys, ksizes[..n])
  {
    var before := ksizes[..n];
    StartPrefix(ksizes, n, n);
    if n > 0 {
      StartMonotone(ksizes, n - 1, n);
      KeysUpToMeans(keys, ksizes, n - 1);
      assert before[..n - 1] == ksizes[..n - 1];
      StartPrefix(ksizes, n, n - 1);
      SliceWindow(keys, before, n - 1);
      SlicesPrefix(keys, before, n - 1);
      assert Slices(keys, before) == Slices(keys, ksizes[..n - 1]) + [keys[Start(ksizes, n - 1)..Start(ksizes, n)]];
    }
  }

  lemma {:induction false} KeysWithinAll(keys: bytes, ksizes: seq<nat>, i: nat)
    requires IsBatch(keys, ksizes) && i <= |ksizes|
    ensures KeysWithin(ksizes, |keys|, i) == |ksizes|
    decreases |ksizes| - i
  {
    if i < |ksizes| {
      StartMonotone(ksizes, i + 1, |ksizes|);
      KeysWithinAll(keys, ksizes, i + 1);
    }
  }

  /** When the batch lies within the buffer, its keys are the slices. */
  lemma {:induction false} KeysUpToAll(keys: bytes, ksizes: seq<nat>, n: nat)
    requires IsBatch(keys, ksizes) && n <= |ksizes|
    ensures KeysFit(keys, ksizes, n)
    ensures forall key :: key in KeysUpTo(keys, ksizes, n) <==> key in Slices(keys, ksizes)[..n]
  {
    StartMonotone(ksizes, n, |ksizes|);
    if n > 0 {
      var ks := Slices(keys, ksizes);
      KeysUpToAll(keys, ksizes, n - 1);
      SliceWindow(keys, ksizes, n - 1);
      assert ks[..n] == ks[..n - 1] + [ks[n - 1]];
    }
  }

  /** What the content says about each of the keys. */
  function Values(m: KeyValues, keys: seq<bytes>): (r: Docs)
    ensures |r| == |keys|
  {
    seq(|keys|, i requires 0 <= i < |keys| => Lookup(m, keys[i]))
  }

  /** No value is as long as a sentinel. */
  predicate ValuesOrdinary(m: KeyValues) {
    forall key | key in m :: |m[key]| <= LAST_VALID_SIZE
  }

  lemma OrdinaryAt(m: KeyValues, key: bytes)
    requires ValuesOrdinary(m) && Lookup(m, key).Some?
    ensures |Lookup(m, key).value| <= LAST_VALID_SIZE
  {
  }

  // ---- Listing ----

  /** Nothing that a listing copies out is as long as a sentinel. */
  predicate OutsOrdinary(items: seq<Item>, f: KeyValueFilter) {
    forall i | 0 <= i < |items| ::
        |f.keyOut(items[i].key)| <= LAST_VALID_SIZE && |f.valOut(items[i].val)| <= LAST_VALID_SIZE
  }

  lemma OutsOrdinaryAt(items: seq<Item>, f: KeyValueFilter, i: nat)
    requires OutsOrdinary(items, f) && i < |items|
    ensures |f.keyOut(items[i].key)| <= LAST_VALID_SIZE && |f.valOut(items[i].val)| <= LAST_VALID_SIZE
  {
  }

  function KeyOuts(list: seq<Item>, f: KeyValueFilter): (r: Docs)
    ensures |r| == |list|
  {
    seq(|list|, i requires 0 <= i < |list| => Some(f.keyOut(list[i].key)))
  }

  function ValOuts(list: seq<Item>, f: KeyValueFilter): (r: Docs)
    ensures |r| == |list|
  {
    seq(|list|, i requires 0 <= i < |list| => Some(f.valOut(list[i].val)))
  }

  /** The items a listing with `max` slots reports. */
  function Listed(items: seq<Item>, f: KeyValueFilter, fromKey: bytes, inclusive: bool, max: nat): (r: seq<Item>)
    ensures |r| <= max
  {
    var all := Passing(items, f, First(items, fromKey, inclusive));
    all[..Min(max, |all|)]
  }

  /** One packed output column of a listing of `outs`; the slots past the list say that there are no more keys. */
  ghost predicate ListedColumn(outs: Docs, buffer: bytes, sizes: seq<nat>, cut: nat) {
    && |outs| <= |sizes|
    && PackedRead(outs, |buffer|, buffer, sizes[..|outs|], cut)
    && forall k | |outs| <= k < |sizes| :: sizes[k] == NO_MORE
  }

  /** Where a listing loop stands: `i` items listed, the others still ahead from position `it` on. */
  ghost predicate ListProgress(items: seq<Item>, f: KeyValueFilter, start: nat, max: nat, it: nat, i: nat) {
    && start <= it <= |items| && i <= max
    && var all := Passing(items, f, start);
       i <= |all| && all == all[..i] + Passing(items, f, it)
  }

  lemma ListProgressStart(items: seq<Item>, f: KeyValueFilter, start: nat, max: nat)
    requires start <= |items|
    ensures ListProgress(items, f, start, max, start, 0)
  {
  }

  lemma ListProgressSkip(items: seq<Item>, f: KeyValueFilter, start: nat, max: nat, it: nat, i: nat)
    requires ListProgress(items, f, start, max, it, i) && it < |items|
    requires !f.check(items[it].key, items[it].val) && !f.stop(items[it].key, items[it].val)
    ensures ListProgress(items, f, start, max, it + 1, i)
  {
  }

  lemma ListProgressTake(items: seq<Item>, f: KeyValueFilter, start: nat, max: nat, it: nat, i: nat)
    requires ListProgress(items, f, start, max, it, i) && it < |items| && i < max
    requires f.check(items[it].key, items[it].val)
    ensures ListProgress(items, f, start, max, it + 1, i + 1)
    ensures var all := Passing(items, f, start);
            i < |all| && all[i] == items[it] && all[..i + 1] == all[..i] + [items[it]]
  {
    var all := Passing(items, f, start);
    assert all == (all[..i] + [items[it]]) + Passing(items, f, it + 1);
    assert all[..i + 1] == all[..i] + [items[it]];
  }

  /** Nothing is left at the end, or where the filter stops. */
  lemma ListProgressEnd(items: seq<Item>, f: KeyValueFilter, start: nat, max: nat, it: nat, i: nat)
    requires ListProgress(items, f, start, max, it, i)
    requires it == |items| || (!f.check(items[it].key, items[it].val) && f.stop(items[it].key, items[it].val))
    ensures i == |Passing(items, f, start)|
  {
  }

  lemma ListSetup(items: seq<Item>, f: KeyValueFilter, fromKey: bytes, inclusive: bool,
                  keys: bytes, keySizes: seq<nat>, vals: bytes, valSizes: seq<nat>)
    requires |keySizes| == |valSizes|
    ensures var list := Listed(items, f, fromKey, inclusive, |keySizes|);
            var all := Passing(items, f, First(items, fromKey, inclusive));
            && list == all[..|list|] && |list| == (if |keySizes| < |all| then |keySizes| else |all|)
            && Packing(KeyOuts(list, f), keys, keySizes[..|list|], 0, 0, false, 0)
            && Packing(ValOuts(list, f), vals, valSizes[..|list|], 0, 0, false, 0)
            && |KeyOuts(list, f)| == |ValOuts(list, f)| == |list|
            && ListProgress(items, f, First(items, fromKey, inclusive), |keySizes|, First(items, fromKey, inclusive), 0)
  {
  }

  lemma OutsAt(list: seq<Item>, f: KeyValueFilter, i: nat)
    requires i < |list|
    ensures KeyOuts(list, f)[i] == Some(f.keyOut(list[i].key)) && ValOuts(list, f)[i] == Some(f.valOut(list[i].val))
  {
  }

  /** Copy one item's key and value to their columns. */
  method PackItem(key: bytes, val: bytes, i: nat,
                  keys: array<byte>, keySizes: array<nat>, keysUsed: nat, keyFull: bool,
                  vals: array<byte>, valSizes: array<nat>, valsUsed: nat, valFull: bool,
                  ghost ks: Docs, ghost keyCut: nat, ghost vs: Docs, ghost valCut: nat)
    returns (keysUsed': nat, keyFull': bool, ghost keyCut': nat, valsUsed': nat, valFull': bool, ghost valCut': nat)
    requires |key| <= LAST_VALID_SIZE && |val| <= LAST_VALID_SIZE
    requires keys != vals && keySizes != valSizes && {keys as object, vals} !! {keySizes as object, valSizes}
    requires |ks| == |vs| <= keySizes.Length == valSizes.Length && i < |ks|
    requires ks[i] == Some(key) && vs[i] == Some(val)
    requires Packing(ks, keys[..], keySizes[..|ks|], i, keysUsed, keyFull, keyCut)
    requires Packing(vs, vals[..], valSizes[..|vs|], i, valsUsed, valFull, valCut)
    modifies keys, keySizes, vals, valSizes
    ensures Packing(ks, keys[..], keySizes[..|ks|], i + 1, keysUsed', keyFull', keyCut')
    ensures Packing(vs, vals[..], valSizes[..|vs|], i + 1, valsUsed', valFull', valCut')
  {
    hide *;
    keysUsed', keyFull', keyCut' := PackNext(keys, keySizes, i, keysUsed, keyFull, key, ks, keyCut);
    valsUsed', valFull', valCut' := PackNext(vals, valSizes, i, valsUsed, valFull, val, vs, valCut);
  }

  /** Mark the slots past the list in one column. */
  method EndColumn(buffer: array<byte>, sizes: array<nat>, i: nat, used: nat, full: bool, ghost outs: Docs,
                   ghost cut: nat)
    requires i == |outs| <= sizes.Length && buffer as object != sizes
    requires Packing(outs, buffer[..], sizes[..i], i, used, full, cut)
    modifies sizes
    ensures ListedColumn(outs, buffer[..], sizes[..], cut) && used == PackedSize(outs, cut)
  {
    PackingEnd(outs, buffer[..], sizes[..i], used, full, cut);
    ghost var listed := sizes[..i];
    hide *;
    FillFrom(sizes, i, NO_MORE);
    assert sizes[..i] == listed;
  }

  lemma ListRoom(items: seq<Item>, f: KeyValueFilter, start: nat, max: nat, it: nat, i: nat)
    requires ListProgress(items, f, start, max, it, i) && it < |items| && f.check(items[it].key, items[it].val)
    ensures i < |Passing(items, f, start)|
  {
  }

  // ---- An iteration in progress ----

  /** A maximum of 0 means no maximum. */
  ghost function IterGoal(items: seq<Item>, f: KeyValueFilter, start: nat, max: nat, func: seq<Item> -> Status)
    : (seq<Item>, Status)
    requires start <= |items|
  {
    var list := Passing(items, f, start);
    Deliver(list, if max == 0 then |list| else max, func, 0)
  }

  /** The iteration is at item `it` and has made `i` calls, none of which failed. */
  ghost predicate IterStands(items: seq<Item>, f: KeyValueFilter, start: nat, max: nat, func: seq<Item> -> Status,
                             it: nat, i: nat, calls: seq<Item>)
  {
    && start <= |items|
    && var list := Passing(items, f, start);
       var limit := if max == 0 then |list| else max;
       && i <= |list| && i <= limit && calls == list[..i]
       && ListProgress(items, f, start, limit + |list| + 1, it, i)
       && Deliver(list, limit, func, i) == Deliver(list, limit, func, 0)
  }

  lemma IterStarts(items: seq<Item>, f: KeyValueFilter, start: nat, max: nat, func: seq<Item> -> Status)
    requires start <= |items|
    ensures IterStands(items, f, start, max, func, start, 0, [])
    ensures var list := Passing(items, f, start);
            IterGoal(items, f, start, max, func) == Deliver(list, if max == 0 then |list| else max, func, 0)
  {
    var list := Passing(items, f, start);
    ListProgressStart(items, f, start, (if max == 0 then |list| else max) + |list| + 1);
    hide Passing, Deliver, ListProgress;
  }

  lemma IterSkips(items: seq<Item>, f: KeyValueFilter, start: nat, max: nat, func: seq<Item> -> Status, it: nat, i: nat,
                  calls: seq<Item>)
    requires IterStands(items, f, start, max, func, it, i, calls) && it < |items|
    requires !f.check(items[it].key, items[it].val) && !f.stop(items[it].key, items[it].val)
    ensures IterStands(items, f, start, max, func, it + 1, i, calls)
  {
    hide Passing, Deliver, ListProgress;
    var list := Passing(items, f, start);
    ListProgressSkip(items, f, start, (if max == 0 then |list| else max) + |list| + 1, it, i);
  }

  lemma IterStops(items: seq<Item>, f: KeyValueFilter, start: nat, max: nat, func: seq<Item> -> Status, it: nat, i: nat,
                  calls: seq<Item>)
    requires IterStands(items, f, start, max, func, it, i, calls) && it < |items|
    requires !f.check(items[it].key, items[it].val) && f.stop(items[it].key, items[it].val)
    ensures start <= |items| && (calls, OK) == IterGoal(items, f, start, max, func)
  {
    hide Passing, Deliver, ListProgress;
    var list := Passing(items, f, start);
    var limit := if max == 0 then |list| else max;
    ListProgressEnd(items, f, start, limit + |list| + 1, it, i);
    DeliverStops(list, limit, func, i);
  }

  lemma IterCalls(items: seq<Item>, f: KeyValueFilter, start: nat, max: nat, func: seq<Item> -> Status, it: nat, i: nat,
                  calls: seq<Item>)
    requires IterStands(items, f, start, max, func, it, i, calls) && it < |items| && (max == 0 || i < max)
    requires f.check(items[it].key, items[it].val)
    ensures var calls' := calls + [Item(items[it].key, items[it].val)];
            && start <= |items|
            && (func(calls') == OK ==> IterStands(items, f, start, max, func, it + 1, i + 1, calls'))
            && (func(calls') != OK ==> (calls', func(calls')) == IterGoal(items, f, start, max, func))
  {
    hide Passing, Deliver, ListProgress;
    var list := Passing(items, f, start);
    var limit := if max == 0 then |list| else max;
    ListRoom(items, f, start, limit + |list| + 1, it, i);
    ListProgressTake(items, f, start, limit + |list| + 1, it, i);
    DeliverStep(list, limit, func, i);
    assert Item(items[it].key, items[it].val) == items[it];
  }

  lemma IterEnds(items: seq<Item>, f: KeyValueFilter, start: nat, max: nat, func: seq<Item> -> Status, it: nat, i: nat,
                 calls: seq<Item>)
    requires IterStands(items, f, start, max, func, it, i, calls) && it <= |items|
    requires !(it < |items| && (max == 0 || i < max))
    ensures start <= |items| && (calls, OK) == IterGoal(items, f, start, max, func)
  {
    hide Passing, Deliver, ListProgress;
    var list := Passing(items, f, start);
    var limit := if max == 0 then |list| else max;
    if it == |items| {
      ListProgressEnd(items, f, start, limit + |list| + 1, it, i);
    }
    DeliverStops(list, limit, func, i);
  }

  class Database {
    var items: seq<Item>

    predicate Valid() reads this { Sorted(items) }

    function Content(): KeyValues reads this { AsMap(items) }

    constructor ()
      ensures Valid() && Content() == map[]
    {
      items := [];
    }

    /** One entry of a put, by the branches of the mode. `single` says that it is the only one. */
    method PutEntry(mode: PutMode, key: bytes, val: bytes, single: bool) returns (status: Status)
      requires Valid()
      modifies this
      ensures Valid() && Content() == PutOne(old(Content()), mode, key, val)
      ensures status == if single then PutStatus(old(Content()), mode, [key]) else OK
    {
      status := OK;
      var at := LowerBound(items, key, 0);
      FindIsLookup(items, key);
      hide Sorted, AsMap;
      if mode.newOnly {
        if !HasKey(items, at, key) {
          InsertRefines(items, key, val);
          items := Insert(items, key, val);
        } else if single {
          status := KeyExists;
        }
      } else if mode.existOnly {
        if HasKey(items, at, key) {
          var changed := if mode.append then items[at].val + val else val;
          InsertRefines(items, key, changed);
          items := Insert(items, key, changed);
        } else if single {
          status := NotFound;
        }
      } else if mode.append && HasKey(items, at, key) {
        InsertRefines(items, key, items[at].val + val);
        items := Insert(items, key, items[at].val + val);
      } else {
        InsertRefines(items, key, val);
        items := Insert(items, key, val);
      }
    }

    /** The loop of put, once the sizes are known to be right. */
    method PutEntries(mode: PutMode, keys: bytes, ksizes: seq<nat>, vals: bytes, vsizes: seq<nat>)
      returns (status: Status)
      requires Valid() && |ksizes| == |vsizes| && IsBatch(keys, ksizes) && IsBatch(vals, vsizes)
      modifies this
      ensures Valid()
      ensures Content() == PutAll(old(Content()), mode, Slices(keys, ksizes), Slices(vals, vsizes), 0)
      ensures status == PutStatus(old(Content()), mode, Slices(keys, ksizes))
    {
      hide *;
      status := OK;
      ghost var m := Content();
      ghost var ks, vs := Slices(keys, ksizes), Slices(vals, vsizes);
      ghost var goal := PutAll(m, mode, ks, vs, 0);
      var i: nat, keyOffset: nat, valOffset: nat := 0, 0, 0;
      PutStatusOf(m, mode, ks);
      StartEnds(ksizes);
      StartEnds(vsizes);
      while i < |ksizes|
        invariant i <= |ksizes| && Valid() && keyOffset == Start(ksizes, i) && valOffset == Start(vsizes, i)
        invariant PutAll(Content(), mode, ks, vs, i) == goal && status == OK
        invariant i == 0 ==> Content() == m
        invariant i > 0 || |ks| != 1 ==> PutStatus(m, mode, ks) == OK
      {
        SliceWindow(keys, ksizes, i);
        SliceWindow(vals, vsizes, i);
        var key := keys[keyOffset..keyOffset + ksizes[i]];
        var val := vals[valOffset..valOffset + vsizes[i]];
        PutAllStep(Content(), mode, ks, vs, i);
        status := PutEntry(mode, key, val, |ksizes| == 1);
        keyOffset, valOffset, i := keyOffset + ksizes[i], valOffset + vsizes[i], i + 1;
        if status != OK {
          break;
        }
      }
      PutAllStep(Content(), mode, ks, vs, i);
    }

    /** Store a batch: all of it under the mode, or none of it when the sizes do not match the buffers. */
    method Put(mode: PutMode, keys: bytes, ksizes: seq<nat>, vals: bytes, vsizes: seq<nat>) returns (status: Status)
      requires Valid()
      modifies this
      ensures Valid()
      ensures |ksizes| == |vsizes| && IsBatch(keys, ksizes) && IsBatch(vals, vsizes) ==>
                && Content() == PutAll(old(Content()), mode, Slices(keys, ksizes), Slices(vals, vsizes), 0)
                && status == PutStatus(old(Content()), mode, Slices(keys, ksizes))
      ensures !(|ksizes| == |vsizes| && IsBatch(keys, ksizes) && IsBatch(vals, vsizes)) ==>
                items == old(items) && status == InvalidArg
      ensures |ksizes| == |vsizes| == 1 && ksizes[0] <= |keys| && vsizes[0] <= |vals| ==>
                var m, key, val := old(Content()), keys[..ksizes[0]], vals[..vsizes[0]];
                && status == (if mode.newOnly then (if key in m then KeyExists else OK)
                              else if mode.existOnly then (if key in m then OK else NotFound)
                              else OK)
                && (status != OK ==> Content() == m)
                && (status == OK ==>
                    Lookup(Content(), key) == Some(if mode.append && key in m then m[key] + val else val))
    {
      if |ksizes| == |vsizes| == 1 && ksizes[0] <= |keys| && vsizes[0] <= |vals| {
        OneSlice(keys, ksizes);
        OneSlice(vals, vsizes);
        PutOfOne(Content(), mode, Slices(keys, ksizes), Slices(vals, vsizes));
      }
      if |ksizes| != |vsizes| || Start(ksizes, |ksizes|) > |keys| || Start(vsizes, |vsizes|) > |vals| {
        return InvalidArg;
      }
      hide PutAll, PutStatus, AsMap, Sorted, Slices, Start;
      status := PutEntries(mode, keys, ksizes, vals, vsizes);
    }

    /**
     Remove keys one by one. A key that runs past the buffer is an error, reported after the keys before it
     were removed.
     */
    method Erase(keys: bytes, ksizes: seq<nat>) returns (status: Status)
      requires Valid()
      modifies this
      ensures Valid()
      ensures Content() == old(Content()) - KeysUpTo(keys, ksizes, KeysWithin(ksizes, |keys|, 0))
      ensures status == if KeysWithin(ksizes, |keys|, 0) == |ksizes| then OK else InvalidArg
    {
      hide *;
      ghost var m := Content();
      ghost var n := KeysWithin(ksizes, |keys|, 0);
      var i: nat, offset: nat := 0, 0;
      NoKeys(keys, ksizes);
      KeysUpToStep(keys, ksizes, 0);
      StartEnds(ksizes);
      while i < |ksizes|
        invariant i <= n <= |ksizes| && Valid() && offset == Start(ksizes, i)
        invariant n == KeysWithin(ksizes, |keys|, i)
        invariant KeysFit(keys, ksizes, i) && Content() == m - KeysUpTo(keys, ksizes, i)
      {
        KeysUpToStep(keys, ksizes, i);
        if offset + ksizes[i] > |keys| {
          return InvalidArg;
        }
        var key := keys[offset..offset + ksizes[i]];
        DeleteKey(key);
        offset, i := offset + ksizes[i], i + 1;
      }
      status := OK;
    }

    method DeleteKey(key: bytes)
      requires Valid()
      modifies this
      ensures Valid() && Content() == old(Content()) - {key}
    {
      DeleteRefines(items, key);
      items := Delete(items, key);
    }

    // ---- Reading ----

    /**
     Packed get. `used` is the part of the buffer that was filled; `cut` is the first value that did not fit.
     */
    method GetPacked(keys: bytes, ksizes: seq<nat>, vals: array<byte>, vsizes: array<nat>)
      returns (status: Status, used: nat, ghost cut: nat)
      requires Valid() && IsBatch(keys, ksizes)
      requires vals as object != vsizes && ValuesOrdinary(Content())
      modifies vals, vsizes
      ensures |ksizes| != vsizes.Length ==>
              status == InvalidArg && vals[..] == old(vals[..]) && vsizes[..] == old(vsizes[..])
      ensures |ksizes| == vsizes.Length ==>
                && status == OK
                && PackedRead(Values(Content(), Slices(keys, ksizes)), vals.Length, vals[..], vsizes[..], cut)
                && used == PackedSize(Values(Content(), Slices(keys, ksizes)), cut)
    {
      hide *;
      if |ksizes| != vsizes.Length {
        return InvalidArg, 0, 0;
      }
      ghost var ks := Slices(keys, ksizes);
      ghost var found := Values(Content(), ks);
      var i: nat, keyOffset: nat, valOffset: nat, full := 0, 0, 0, false;
      cut := 0;
      PackingStart(found, vals[..], vsizes[..]);
      StartEnds(ksizes);
      while i < |ksizes|
        invariant i <= |ksizes| && keyOffset == Start(ksizes, i)
        invariant Packing(found, vals[..], vsizes[..], i, valOffset, full, cut)
      {
        SliceWindow(keys, ksizes, i);
        var key := keys[keyOffset..keyOffset + ksizes[i]];
        ValueAt(i, ks);
        var item := Find(items, key);
        if item.None? {
          PackingAbsent(found, vals[..], vsizes[..], i, valOffset, full, cut);
          ghost var before: seq<nat> := vsizes[..];
          vsizes[i] := KEY_NOT_FOUND;
          assert vsizes[..] == before[i := KEY_NOT_FOUND];
          cut := if full then cut else i + 1;
        } else {
          ContentIs();
          FindIsLookup(items, key);
          OrdinaryAt(Content(), key);
          assert vsizes[..] == vsizes[..|found|];
          valOffset, full, cut := PackNext(vals, vsizes, i, valOffset, full, item.value, found, cut);
          assert vsizes[..] == vsizes[..|found|];
        }
        keyOffset, i := keyOffset + ksizes[i], i + 1;
      }
      PackingEnd(found, vals[..], vsizes[..], valOffset, full, cut);
      status, used := OK, valOffset;
    }

    lemma ContentIs()
      ensures Content() == AsMap(items) && Valid() == Sorted(items)
    {
    }

    lemma ValueAt(i: nat, keys: seq<bytes>)
      requires Valid() && i < |keys|
      ensures Values(Content(), keys)[i] == Find(items, keys[i])
    {
      FindIsLookup(items, keys[i]);
    }

    // ---- Listing and iteration ----

    /**
     Packed listing into caller-owned buffers: one column of keys and one of values, each cut where it no longer
     fits, and a mark in the slots for which there was no item.
     */
    method ListKeyValuesPacked(inclusive: bool, fromKey: bytes, f: KeyValueFilter,
                               keys: array<byte>, keySizes: array<nat>, vals: array<byte>, valSizes: array<nat>)
      returns (keysUsed: nat, valsUsed: nat, ghost keyCut: nat, ghost valCut: nat)
      requires Valid() && keySizes.Length == valSizes.Length
      requires OutsOrdinary(items, f)
      requires keys != vals && keySizes != valSizes
      requires {keys as object, vals} !! {keySizes as object, valSizes}
      modifies keys, keySizes, vals, valSizes
      ensures var list := Listed(items, f, fromKey, inclusive, keySizes.Length);
              && ListedColumn(KeyOuts(list, f), keys[..], keySizes[..], keyCut)
              && ListedColumn(ValOuts(list, f), vals[..], valSizes[..], valCut)
              && keysUsed == PackedSize(KeyOuts(list, f), keyCut)
              && valsUsed == PackedSize(ValOuts(list, f), valCut)
    {
      hide *;
      var max := keySizes.Length;
      var start := First(items, fromKey, inclusive);
      ghost var list := Listed(items, f, fromKey, inclusive, max);
      ghost var ks, vs := KeyOuts(list, f), ValOuts(list, f);
      ghost var n := |list|;
      var it: nat, i: nat, keyFull, valFull := start, 0, false, false;
      keysUsed, valsUsed, keyCut, valCut := 0, 0, 0, 0;
      ListSetup(items, f, fromKey, inclusive, keys[..], keySizes[..], vals[..], valSizes[..]);
      while it < |items| && i < max
        invariant it <= |items| && i <= n && ListProgress(items, f, start, max, it, i)
        invariant Packing(ks, keys[..], keySizes[..n], i, keysUsed, keyFull, keyCut)
        invariant Packing(vs, vals[..], valSizes[..n], i, valsUsed, valFull, valCut)
      {
        var key, val := items[it].key, items[it].val;
        if !f.check(key, val) {
          if f.stop(key, val) {
            ListProgressEnd(items, f, start, max, it, i);
            break;
          }
          ListProgressSkip(items, f, start, max, it, i);
          it := it + 1;
          continue;
        }
        ListProgressTake(items, f, start, max, it, i);
        OutsAt(list, f, i);
        OutsOrdinaryAt(items, f, it);
        keysUsed, keyFull, keyCut, valsUsed, valFull, valCut :=
          PackItem(f.keyOut(key), f.valOut(val), i, keys, keySizes, keysUsed, keyFull,
                   vals, valSizes, valsUsed, valFull, ks, keyCut, vs, valCut);
        it, i := it + 1, i + 1;
      }
      if it == |items| {
        ListProgressEnd(items, f, start, max, it, i);
      }
      assert i == n;
      EndColumn(keys, keySizes, i, keysUsed, keyFull, ks, keyCut);
      EndColumn(vals, valSizes, i, valsUsed, valFull, vs, valCut);
    }

    /** Hand items on to `func`, up to `max` of them unless `max` is 0, until one call fails. */
    method Iter(inclusive: bool, max: nat, fromKey: bytes, f: KeyValueFilter, func: seq<Item> -> Status)
      returns (calls: seq<Item>, status: Status)
      requires Valid()
      ensures var list := Passing(items, f, First(items, fromKey, inclusive));
              (calls, status) == Deliver(list, if max == 0 then |list| else max, func, 0)
    {
      hide *;
      var start := First(items, fromKey, inclusive);
      var it: nat, i: nat := start, 0;
      calls, status := [], OK;
      IterStarts(items, f, start, max, func);
      while it < |items| && (max == 0 || i < max)
        invariant it <= |items| && status == OK && IterStands(items, f, start, max, func, it, i, calls)
      {
        var key, val := items[it].key, items[it].val;
        if !f.check(key, val) {
          if f.stop(key, val) {
            IterStops(items, f, start, max, func, it, i, calls);
            return;
          }
          IterSkips(items, f, start, max, func, it, i, calls);
          it := it + 1;
          continue;
        }
        IterCalls(items, f, start, max, func, it, i, calls);
        calls := calls + [Item(key, val)];
        status := func(calls);
        if status != OK {
          return;
        }
        it, i := it + 1, i + 1;
      }
      IterEnds(items, f, start, max, func, it, i, calls);
    }
  }
}
