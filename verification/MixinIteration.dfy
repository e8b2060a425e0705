/** Document iteration in the mixin. */
module MixinIteration {
  // Over an ordered store the mixin walks keys, over an unordered one it probes id after id. Both are compared on
  // the same content.

  import opened Basics
  import opened Documents
  import opened Iteration
  import opened KeyCodec
  import opened KeyValueMap
  import opened MapDatabase
  import opened HashDatabase

  /** The documents of a collection in a key-value store, up to id `n`. */
  function DocsIn(m: KeyValues, host: Endianness, name: bytes, n: nat): (d: Docs)
    requires n <= TWO_TO_THE_64
    ensures |d| == n
  {
    seq(n, id requires 0 <= id < n => Lookup(m, KeyFromId(host, name, id)))
  }

  /** The id in a document key; keys too short to hold one are never asked. */
  function IdOf(host: Endianness, name: bytes, key: bytes): u64 {
    if |key| >= |name| + 9 then IdFromKey(host, |name|, key) else 0
  }

  /** The filter over keys and values that stands for a document filter on one collection. */
  function CollectionFilter(host: Endianness, name: bytes, f: Filter): KeyValueFilter {
    KeyValueFilter(
      (key, val) => IsDocumentKey(name, key) && f.accept(IdOf(host, name, key), val),
      (key, val) => Memcmp(key, name + [0], Min(|key|, |name| + 1)) > 0 || f.stop(val),
      key => if |key| > |name| then key[|name| + 1..] else [],
      f.rewrite)
  }

  /** Iteration hands out documents as they are stored. */
  function Raw(f: Filter): Filter {
    f.(rewrite := val => val)
  }

  /** What the ordered branch passes on for each item. */
  function ToCalls(host: Endianness, name: bytes, items: seq<Item>): (r: seq<Call>)
    ensures |r| == |items|
  {
    seq(|items|, i requires 0 <= i < |items| => (IdOf(host, name, items[i].key) as nat, items[i].val))
  }

  /** A key that shares the collection's prefix without being its document, and makes the document filter stop. */
  predicate IsStopper(m: KeyValues, name: bytes, f: Filter, key: bytes) {
    key in m && HasPrefix(key, name + [0]) && !IsDocumentKey(name, key) && f.stop(m[key])
  }

  /** Such a key lies between the first key of a walk and the key of a document. */
  ghost predicate CutOff(m: KeyValues, host: Endianness, name: bytes, f: Filter, from: u64, id: u64) {
    exists key :: IsStopper(m, name, f, key)
                  && !DefaultMemCmp(key, KeyFromId(host, name, from)) && DefaultMemCmp(key, KeyFromId(host, name, id))
  }

  // ---- Both lists are determined by their members ----

  ghost predicate Ascending(list: seq<Call>) {
    forall i, j | 0 <= i < j < |list| :: list[i].0 < list[j].0
  }

  lemma {:induction false} AscendingUnique(a: seq<Call>, b: seq<Call>)
    requires Ascending(a) && Ascending(b)
    requires forall c: Call :: c in a <==> c in b
    ensures a == b
    decreases |a| + |b|
  {
    assert (a != [] ==> a[0] in a) && (b != [] ==> b[0] in b);
    if a != [] && b != [] {
      var x, y := a[|a| - 1], b[|b| - 1];
      assert x in b && y in a;
      assert x == y;
      var a', b' := a[..|a| - 1], b[..|b| - 1];
      forall c: Call ensures c in a' <==> c in b' {
        MemberOfFront(a, c);
        MemberOfFront(b, c);
      }
      AscendingUnique(a', b');
      assert a == a' + [x] && b == b' + [y];
    }
  }

  lemma MemberOfFront(a: seq<Call>, c: Call)
    requires Ascending(a) && a != []
    ensures c in a[..|a| - 1] <==> c in a && c != a[|a| - 1]
  {
    if c in a && c != a[|a| - 1] {
      var i :| 0 <= i < |a| && a[i] == c;
      assert a[..|a| - 1][i] == c;
    }
  }

  // ---- The ordered branch ----

  /** Keys not below the first key are the collection's documents from that id on, or no documents of it. */
  lemma FromFirstKey(host: Endianness, name: bytes, from: u64, key: bytes)
    requires IsDocumentKey(name, key)
    ensures !DefaultMemCmp(key, KeyFromId(host, name, from)) <==> IdOf(host, name, key) >= from
  {
    hide *;
    KeyLengths(name, key);
    KeyOfId(host, name, key);
    IdOfLong(host, name, key);
    KeyOrderIsIdOrder(host, name, IdOf(host, name, key), from);
  }

  lemma IdOfLong(host: Endianness, name: bytes, key: bytes)
    requires |key| >= |name| + 9
    ensures IdOf(host, name, key) == IdFromKey(host, |name|, key)
  {
  }

  // memcmp against the collection's prefix

  lemma {:induction false} MemcmpZero(a: bytes, b: bytes, n: nat)
    requires n <= |a| && n <= |b|
    ensures Memcmp(a, b, n) == 0 <==> a[..n] == b[..n]
  {
    if n > 0 {
      MemcmpZero(a[1..], b[1..], n - 1);
      assert a[..n] == [a[0]] + a[1..][..n - 1] && b[..n] == [b[0]] + b[1..][..n - 1];
    }
  }

  lemma {:induction false} MemcmpSwap(a: bytes, b: bytes, n: nat)
    requires n <= |a| && n <= |b|
    ensures Memcmp(a, b, n) > 0 <==> Memcmp(b, a, n) < 0
  {
    if n > 0 {
      MemcmpSwap(a[1..], b[1..], n - 1);
    }
  }

  /** A key above the prefix at some byte is above every key that has the prefix. */
  lemma AboveThePrefix(prefix: bytes, key: bytes, other: bytes)
    requires Memcmp(key, prefix, Min(|key|, |prefix|)) > 0 && HasPrefix(other, prefix)
    ensures DefaultMemCmp(other, key)
  {
    var n := Min(|key|, |prefix|);
    MemcmpSwap(key, prefix, n);
    assert other == prefix + other[|prefix|..];
    MemcmpLonger(prefix, other[|prefix|..], key, n);
  }

  lemma {:induction false} MemcmpLonger(p: bytes, tail: bytes, key: bytes, n: nat)
    requires n <= |p| && n <= |key| && Memcmp(p, key, n) < 0
    ensures DefaultMemCmp(p + tail, key)
  {
    DefaultMemCmpHead(p + tail, key);
    if p[0] == key[0] {
      assert (p + tail)[1..] == p[1..] + tail;
      MemcmpLonger(p[1..], tail, key[1..], n - 1);
    }
  }

  /** A key without the prefix that is not above it at any byte is below every key that has it. */
  lemma BelowThePrefix(prefix: bytes, key: bytes, other: bytes)
    requires Memcmp(key, prefix, Min(|key|, |prefix|)) <= 0 && !HasPrefix(key, prefix) && HasPrefix(other, prefix)
    ensures DefaultMemCmp(key, other)
  {
    var n := Min(|key|, |prefix|);
    assert other == prefix + other[|prefix|..];
    MemcmpZero(key, prefix, n);
    if Memcmp(key, prefix, n) == 0 {
      assert key == prefix[..n] && n < |prefix|;
      ProperPrefixBelow(key, other);
    } else {
      MemcmpShorter(key, prefix, other[|prefix|..], n);
    }
  }

  lemma {:induction false} ProperPrefixBelow(key: bytes, other: bytes)
    requires |key| < |other| && other[..|key|] == key
    ensures DefaultMemCmp(key, other)
  {
    DefaultMemCmpHead(key, other);
    if key != [] {
      assert other[1..][..|key| - 1] == other[..|key|][1..];
      assert key[0] == other[..|key|][0];
      ProperPrefixBelow(key[1..], other[1..]);
    }
  }

  lemma {:induction false} MemcmpShorter(key: bytes, p: bytes, tail: bytes, n: nat)
    requires n <= |p| && n <= |key| && Memcmp(key, p, n) < 0
    ensures DefaultMemCmp(key, p + tail)
  {
    DefaultMemCmpHead(key, p + tail);
    if p[0] == key[0] {
      assert (p + tail)[1..] == p[1..] + tail;
      MemcmpShorter(key[1..], p[1..], tail, n - 1);
    }
  }

  /** The content at the ids, read off the items. */
  lemma DocumentItem(items: seq<Item>, host: Endianness, name: bytes, i: nat)
    requires Sorted(items) && i < |items| && IsDocumentKey(name, items[i].key)
    ensures var id := IdOf(host, name, items[i].key);
            && KeyFromId(host, name, id) == items[i].key
            && DocsIn(AsMap(items), host, name, TWO_TO_THE_64)[id] == Some(items[i].val)
  {
    hide Sorted, AsMap, IdFromKey, KeyFromId;
    KeyLengths(name, items[i].key);
    KeyOfId(host, name, items[i].key);
    AsMapAt(items, i);
  }

  lemma ItemOfDocument(items: seq<Item>, host: Endianness, name: bytes, id: u64) returns (i: nat)
    requires Sorted(items) && DocsIn(AsMap(items), host, name, TWO_TO_THE_64)[id].Some?
    ensures i < |items| && items[i].key == KeyFromId(host, name, id)
    ensures DocsIn(AsMap(items), host, name, TWO_TO_THE_64)[id] == Some(items[i].val)
    ensures IsDocumentKey(name, items[i].key) && IdOf(host, name, items[i].key) == id
  {
    hide Sorted, AsMap, IdFromKey, KeyFromId, IsDocumentKey;
    var key := KeyFromId(host, name, id);
    AsMapKeys(items);
    i :| HasKey(items, i, key);
    AsMapAt(items, i);
    KeyIsDocumentKey(host, name, id);
    IdOfKey(host, host, name, id);
  }

  lemma SortedAt(items: seq<Item>, i: nat, j: nat)
    requires Sorted(items) && i < j < |items|
    ensures DefaultMemCmp(items[i].key, items[j].key)
  {
  }

  lemma StopSoundAt(d: Docs, f: Filter, x: nat, y: nat, earlier: bytes, later: bytes)
    requires StopSound(d, f) && x < y < |d| && d[x] == Some(earlier) && d[y] == Some(later)
    requires !f.accept(x, earlier) && f.stop(earlier)
    ensures !f.accept(y, later)
  {
    assert d[x].Some? && d[y].Some?;
  }

  /** Two documents in a row, the first rejected with a stop verdict, under the filter's own promise. */
  lemma StopOnDocument(items: seq<Item>, host: Endianness, name: bytes, f: Filter, i: nat, j: nat)
    requires Sorted(items) && i < j < |items| && StopSound(DocsIn(AsMap(items), host, name, TWO_TO_THE_64), f)
    requires IsDocumentKey(name, items[i].key) && IsDocumentKey(name, items[j].key)
    requires !f.accept(IdOf(host, name, items[i].key), items[i].val) && f.stop(items[i].val)
    ensures !f.accept(IdOf(host, name, items[j].key), items[j].val)
  {
    SortedAt(items, i, j);
    hide *;
    var d := DocsIn(AsMap(items), host, name, TWO_TO_THE_64);
    var x, y := IdOf(host, name, items[i].key), IdOf(host, name, items[j].key);
    DocumentItem(items, host, name, i);
    DocumentItem(items, host, name, j);
    KeyOrderIsIdOrder(host, name, x, y);
    StopSoundAt(d, f, x, y, items[i].val, items[j].val);
  }

  /** An item with which the walk stops early, although a document that passes comes after it. */
  lemma StopOnItem(items: seq<Item>, host: Endianness, name: bytes, f: Filter, from: u64, i: nat, j: nat)
    requires Sorted(items) && StopSound(DocsIn(AsMap(items), host, name, TWO_TO_THE_64), f)
    requires LowerBound(items, KeyFromId(host, name, from), 0) <= i < j < |items|
    requires !(IsDocumentKey(name, items[i].key) && f.accept(IdOf(host, name, items[i].key), items[i].val))
    requires Memcmp(items[i].key, name + [0], Min(|items[i].key|, |name| + 1)) > 0 || f.stop(items[i].val)
    requires IsDocumentKey(name, items[j].key) && f.accept(IdOf(host, name, items[j].key), items[j].val)
    ensures IsStopper(AsMap(items), name, f, items[i].key)
    ensures !DefaultMemCmp(items[i].key, KeyFromId(host, name, from)) && DefaultMemCmp(items[i].key, items[j].key)
  {
    var key := items[i].key;
    var first := KeyFromId(host, name, from);
    assert DefaultMemCmp(key, items[j].key);
    assert HasPrefix(items[j].key, name + [0]);
    LowerBoundSplits(items, first, 0);
    OrderTotal(key, items[j].key);
    assert !DefaultMemCmp(key, first);
    AsMapAt(items, i);
    KeyIsDocumentKey(host, name, from);
    hide DefaultMemCmp, Sorted, KeyFromId, LowerBound, AsMap, StopSound, Memcmp, IdOf;
    if Memcmp(key, name + [0], Min(|key|, |name| + 1)) > 0 {
      AboveThePrefix(name + [0], key, items[j].key);
    } else if !HasPrefix(key, name + [0]) {
      BelowThePrefix(name + [0], key, first);
    } else if IsDocumentKey(name, key) {
      StopOnDocument(items, host, name, f, i, j);
    }
  }

  /** Where a stopper stands in the walk. */
  lemma StopperItem(items: seq<Item>, host: Endianness, name: bytes, f: Filter, from: u64, key: bytes, j: nat)
    returns (i: nat)
    requires Sorted(items) && IsStopper(AsMap(items), name, f, key) && j < |items|
    requires !DefaultMemCmp(key, KeyFromId(host, name, from)) && DefaultMemCmp(key, items[j].key)
    ensures LowerBound(items, KeyFromId(host, name, from), 0) <= i < j && items[i].key == key
    ensures var kf := CollectionFilter(host, name, f);
            !kf.check(items[i].key, items[i].val) && kf.stop(items[i].key, items[i].val)
  {
    var first := KeyFromId(host, name, from);
    AsMapKeys(items);
    i :| HasKey(items, i, key);
    AsMapAt(items, i);
    LowerBoundSplits(items, first, 0);
    if j <= i {
      OrderTotal(key, items[j].key);
      if j < i {
        SortedAt(items, j, i);
      }
    }
    hide DefaultMemCmp, Sorted, KeyFromId, LowerBound, AsMap, Memcmp, IdOf, HasPrefix;
  }

  /** An item that is rejected with a stop verdict. */
  predicate StopsWalk(items: seq<Item>, f: KeyValueFilter, i: nat) {
    i < |items| && !f.check(items[i].key, items[i].val) && f.stop(items[i].key, items[i].val)
  }

  lemma ReachedMeans(items: seq<Item>, f: KeyValueFilter, start: nat, j: nat)
    ensures Reached(items, f, start, j) <==>
            start <= j < |items| && forall i: nat | start <= i < j :: !StopsWalk(items, f, i)
  {
    assert forall i | start <= i < j < |items| ::
        !StopsWalk(items, f, i) <==> f.check(items[i].key, items[i].val) || !f.stop(items[i].key, items[i].val);
  }

  lemma CutOffMeans(m: KeyValues, host: Endianness, name: bytes, f: Filter, from: u64, id: u64)
    ensures CutOff(m, host, name, f, from, id) <==>
            exists key :: IsStopper(m, name, f, key)
                          && !DefaultMemCmp(key, KeyFromId(host, name, from))
                          && DefaultMemCmp(key, KeyFromId(host, name, id))
  {
  }

  lemma StopIsCutOff(items: seq<Item>, host: Endianness, name: bytes, f: Filter, from: u64, i: nat, j: nat)
    requires Sorted(items) && StopSound(DocsIn(AsMap(items), host, name, TWO_TO_THE_64), f)
    requires LowerBound(items, KeyFromId(host, name, from), 0) <= i < j < |items|
    requires StopsWalk(items, CollectionFilter(host, name, f), i)
    requires CollectionFilter(host, name, f).check(items[j].key, items[j].val)
    ensures CutOff(AsMap(items), host, name, f, from, IdOf(host, name, items[j].key))
  {
    assert IsDocumentKey(name, items[j].key);
    StopOnItem(items, host, name, f, from, i, j);
    DocumentItem(items, host, name, j);
    hide *;
    CutOffMeans(AsMap(items), host, name, f, from, IdOf(host, name, items[j].key));
  }

  lemma CutOffIsStop(items: seq<Item>, host: Endianness, name: bytes, f: Filter, from: u64, j: nat) returns (i: nat)
    requires Sorted(items) && j < |items| && CollectionFilter(host, name, f).check(items[j].key, items[j].val)
    requires CutOff(AsMap(items), host, name, f, from, IdOf(host, name, items[j].key))
    ensures LowerBound(items, KeyFromId(host, name, from), 0) <= i < j
            && StopsWalk(items, CollectionFilter(host, name, f), i)
  {
    assert IsDocumentKey(name, items[j].key);
    DocumentItem(items, host, name, j);
    hide *;
    CutOffMeans(AsMap(items), host, name, f, from, IdOf(host, name, items[j].key));
    var key :| IsStopper(AsMap(items), name, f, key)
               && !DefaultMemCmp(key, KeyFromId(host, name, from)) && DefaultMemCmp(key, items[j].key);
    i := StopperItem(items, host, name, f, from, key, j);
    StopsWalkIs(items, CollectionFilter(host, name, f), i);
  }

  lemma StopsWalkIs(items: seq<Item>, f: KeyValueFilter, i: nat)
    requires i < |items|
    ensures StopsWalk(items, f, i) <==> !f.check(items[i].key, items[i].val) && f.stop(items[i].key, items[i].val)
  {
  }

  /** A passing document is reached exactly when no stopper comes between the first key and it. */
  lemma ReachedExactly(items: seq<Item>, host: Endianness, name: bytes, f: Filter, from: u64, j: nat)
    requires Sorted(items) && StopSound(DocsIn(AsMap(items), host, name, TWO_TO_THE_64), f)
    requires LowerBound(items, KeyFromId(host, name, from), 0) <= j < |items|
    requires CollectionFilter(host, name, f).check(items[j].key, items[j].val)
    ensures Reached(items, CollectionFilter(host, name, f), LowerBound(items, KeyFromId(host, name, from), 0), j) <==>
            !CutOff(AsMap(items), host, name, f, from, IdOf(host, name, items[j].key))
  {
    hide *;
    var kf := CollectionFilter(host, name, f);
    var start := LowerBound(items, KeyFromId(host, name, from), 0);
    ReachedMeans(items, kf, start, j);
    if i: nat :| start <= i < j && StopsWalk(items, kf, i) {
      StopIsCutOff(items, host, name, f, from, i, j);
    }
    if CutOff(AsMap(items), host, name, f, from, IdOf(host, name, items[j].key)) {
      var i := CutOffIsStop(items, host, name, f, from, j);
    }
  }

  /** The calls that the ordered branch makes, if its callback lets it. */
  function OrderedList(items: seq<Item>, host: Endianness, name: bytes, f: Filter, from: u64): seq<Call> {
    ToCalls(host, name,
            Passing(items, CollectionFilter(host, name, f), First(items, KeyFromId(host, name, from), true)))
  }

  lemma FirstOfKey(items: seq<Item>, host: Endianness, name: bytes, from: u64)
    ensures First(items, KeyFromId(host, name, from), true) == LowerBound(items, KeyFromId(host, name, from), 0)
  {
    hide LowerBound;
    assert |KeyFromId(host, name, from)| == |name| + 9;
  }

  /** Where a document stands relative to the start of the walk. */
  lemma StartAndId(items: seq<Item>, host: Endianness, name: bytes, from: u64, i: nat)
    requires Sorted(items) && i < |items| && IsDocumentKey(name, items[i].key)
    ensures i >= LowerBound(items, KeyFromId(host, name, from), 0) <==> IdOf(host, name, items[i].key) >= from
  {
    var first := KeyFromId(host, name, from);
    LowerBoundSplits(items, first, 0);
    hide Sorted, KeyFromId, LowerBound, IdOf, DefaultMemCmp, IsDocumentKey;
    FromFirstKey(host, name, from, items[i].key);
    var start := LowerBound(items, first, 0);
    assert i < start ==> DefaultMemCmp(items[i].key, first);
  }

  predicate IsCall(m: KeyValues, host: Endianness, name: bytes, f: Filter, from: u64, c: Call) {
    && from <= c.0 < TWO_TO_THE_64
    && var d := DocsIn(m, host, name, TWO_TO_THE_64); d[c.0] == Some(c.1) && f.accept(c.0, c.1)
  }

  lemma MatchingIsCall(m: KeyValues, host: Endianness, name: bytes, f: Filter, from: u64, c: Call)
    ensures c in Matching(DocsIn(m, host, name, TWO_TO_THE_64), Raw(f), from, TWO_TO_THE_64) <==>
            IsCall(m, host, name, f, from, c)
  {
    hide DocsIn, Matching;
    var d := DocsIn(m, host, name, TWO_TO_THE_64);
    MatchingMembers(d, Raw(f), from, TWO_TO_THE_64);
    if IsCall(m, host, name, f, from, c) {
      assert c == (c.0, Raw(f).rewrite(d[c.0].value));
    }
  }

  lemma OrderedIsCall(items: seq<Item>, host: Endianness, name: bytes, f: Filter, from: u64, i: nat)
    requires Sorted(items) && LowerBound(items, KeyFromId(host, name, from), 0) <= i < |items|
    requires CollectionFilter(host, name, f).check(items[i].key, items[i].val)
    ensures IsCall(AsMap(items), host, name, f, from, (IdOf(host, name, items[i].key) as nat, items[i].val))
  {
    hide Sorted, KeyFromId, LowerBound, IdOf, IsDocumentKey, DocsIn, AsMap;
    DocumentItem(items, host, name, i);
    StartAndId(items, host, name, from, i);
  }

  lemma CallIsOrdered(items: seq<Item>, host: Endianness, name: bytes, f: Filter, from: u64, c: Call) returns (i: nat)
    requires Sorted(items) && IsCall(AsMap(items), host, name, f, from, c)
    ensures LowerBound(items, KeyFromId(host, name, from), 0) <= i < |items|
    ensures CollectionFilter(host, name, f).check(items[i].key, items[i].val)
    ensures c == (IdOf(host, name, items[i].key) as nat, items[i].val)
  {
    hide Sorted, KeyFromId, LowerBound, IdOf, IsDocumentKey, DocsIn, AsMap;
    i := ItemOfDocument(items, host, name, c.0);
    StartAndId(items, host, name, from, i);
  }

  function CallOf(host: Endianness, name: bytes, item: Item): Call {
    (IdOf(host, name, item.key) as nat, item.val)
  }

  lemma ToCallsMembers(host: Endianness, name: bytes, list: seq<Item>, c: Call)
    ensures c in ToCalls(host, name, list) <==> exists item :: item in list && CallOf(host, name, item) == c
  {
    hide IdOf;
    var calls := ToCalls(host, name, list);
    if c in calls {
      var k :| 0 <= k < |calls| && calls[k] == c;
      assert list[k] in list && CallOf(host, name, list[k]) == c;
    }
    if item :| item in list && CallOf(host, name, item) == c {
      var k :| 0 <= k < |list| && list[k] == item;
      assert calls[k] == c;
    }
  }

  /** A call for a document before which no stopper cuts the walk off. */
  ghost predicate IsShown(m: KeyValues, host: Endianness, name: bytes, f: Filter, from: u64, c: Call) {
    IsCall(m, host, name, f, from, c) && !CutOff(m, host, name, f, from, c.0)
  }

  /** The items that are walked are the collection's documents up to a stopper, and each of those is walked. */
  lemma WalkedIsCall(items: seq<Item>, host: Endianness, name: bytes, f: Filter, from: u64, list: seq<Item>, item: Item)
    requires Sorted(items) && StopSound(DocsIn(AsMap(items), host, name, TWO_TO_THE_64), f)
    requires list == Passing(items, CollectionFilter(host, name, f), First(items, KeyFromId(host, name, from), true))
    requires item in list
    ensures IsShown(AsMap(items), host, name, f, from, CallOf(host, name, item))
  {
    hide *;
    var start := First(items, KeyFromId(host, name, from), true);
    FirstOfKey(items, host, name, from);
    PassingReached(items, CollectionFilter(host, name, f), start);
    PassedMeans(items, CollectionFilter(host, name, f), start, item);
    var i: nat :| i < |items| && Reached(items, CollectionFilter(host, name, f), start, i) && items[i] == item
                  && CollectionFilter(host, name, f).check(item.key, item.val);
    ReachedRange(items, CollectionFilter(host, name, f), start, i);
    ReachedExactly(items, host, name, f, from, i);
    OrderedIsCall(items, host, name, f, from, i);
    CallOfItem(host, name, item);
    ShownIs(AsMap(items), host, name, f, from, CallOf(host, name, item));
  }

  lemma PassedMeans(items: seq<Item>, f: KeyValueFilter, start: nat, item: Item)
    ensures IsPassed(items, f, start, item) <==>
            exists i: nat | i < |items| ::
              Reached(items, f, start, i) && items[i] == item && f.check(item.key, item.val)
  {
  }

  lemma ReachedRange(items: seq<Item>, f: KeyValueFilter, start: nat, i: nat)
    ensures Reached(items, f, start, i) ==> start <= i < |items|
  {
  }

  lemma ShownIs(m: KeyValues, host: Endianness, name: bytes, f: Filter, from: u64, c: Call)
    ensures IsCall(m, host, name, f, from, c) ==> from <= c.0 < TWO_TO_THE_64
    ensures IsShown(m, host, name, f, from, c) <==>
            IsCall(m, host, name, f, from, c) && !CutOff(m, host, name, f, from, c.0)
  {
  }

  lemma CallOfItem(host: Endianness, name: bytes, item: Item)
    ensures CallOf(host, name, item) == (IdOf(host, name, item.key) as nat, item.val)
  {
  }

  lemma CallIsWalked(items: seq<Item>, host: Endianness, name: bytes, f: Filter, from: u64, list: seq<Item>, c: Call)
    requires Sorted(items) && StopSound(DocsIn(AsMap(items), host, name, TWO_TO_THE_64), f)
    requires list == Passing(items, CollectionFilter(host, name, f), First(items, KeyFromId(host, name, from), true))
    requires IsShown(AsMap(items), host, name, f, from, c)
    ensures exists item :: item in list && CallOf(host, name, item) == c
  {
    hide *;
    FirstOfKey(items, host, name, from);
    PassingReached(items, CollectionFilter(host, name, f), First(items, KeyFromId(host, name, from), true));
    ShownIs(AsMap(items), host, name, f, from, c);
    var i := CallIsOrdered(items, host, name, f, from, c);
    ReachedExactly(items, host, name, f, from, i);
    CallOfItem(host, name, items[i]);
    PassedMeans(items, CollectionFilter(host, name, f), First(items, KeyFromId(host, name, from), true), items[i]);
    assert items[i] in list;
  }

  lemma OrderedListIs(items: seq<Item>, host: Endianness, name: bytes, f: Filter, from: u64, list: seq<Item>)
    requires list == Passing(items, CollectionFilter(host, name, f), First(items, KeyFromId(host, name, from), true))
    ensures OrderedList(items, host, name, f, from) == ToCalls(host, name, list)
  {
  }

  /** The ordered list has the wanted documents up to a stopper and nothing else. */
  lemma OrderedMembers(items: seq<Item>, host: Endianness, name: bytes, f: Filter, from: u64, c: Call)
    requires Sorted(items) && StopSound(DocsIn(AsMap(items), host, name, TWO_TO_THE_64), f)
    ensures c in OrderedList(items, host, name, f, from) <==> IsShown(AsMap(items), host, name, f, from, c)
  {
    hide *;
    var list := Passing(items, CollectionFilter(host, name, f), First(items, KeyFromId(host, name, from), true));
    OrderedListIs(items, host, name, f, from, list);
    ToCallsMembers(host, name, list, c);
    if item :| item in list && CallOf(host, name, item) == c {
      WalkedIsCall(items, host, name, f, from, list, item);
    }
    if IsShown(AsMap(items), host, name, f, from, c) {
      CallIsWalked(items, host, name, f, from, list, c);
    }
  }

  /** Key order is id order, so the ordered list ascends. */
  lemma OrderedAscends(items: seq<Item>, host: Endianness, name: bytes, f: Filter, from: u64)
    requires Sorted(items)
    ensures Ascending(OrderedList(items, host, name, f, from))
  {
    var kf := CollectionFilter(host, name, f);
    var start := First(items, KeyFromId(host, name, from), true);
    var list := Passing(items, kf, start);
    PassingSorted(items, kf, start);
    PassingChecked(items, kf, start);
    hide Sorted, KeyFromId, IdOf, DefaultMemCmp, Passing, First, IsDocumentKey;
    forall x, y | 0 <= x < y < |list| ensures IdOf(host, name, list[x].key) < IdOf(host, name, list[y].key) {
      SortedAt(list, x, y);
      assert kf.check(list[x].key, list[x].val) && kf.check(list[y].key, list[y].val);
      KeyOrderAndIds(host, name, list[x].key, list[y].key);
    }
  }

  lemma KeyOrderAndIds(host: Endianness, name: bytes, key: bytes, key': bytes)
    requires IsDocumentKey(name, key) && IsDocumentKey(name, key')
    ensures DefaultMemCmp(key, key') <==> IdOf(host, name, key) < IdOf(host, name, key')
  {
    hide *;
    KeyLengths(name, key);
    KeyLengths(name, key');
    KeyOfId(host, name, key);
    KeyOfId(host, name, key');
    IdOfLong(host, name, key);
    IdOfLong(host, name, key');
    KeyOrderIsIdOrder(host, name, IdOf(host, name, key), IdOf(host, name, key'));
  }

  lemma {:induction false} PassingChecked(items: seq<Item>, f: KeyValueFilter, start: nat)
    requires start <= |items|
    ensures forall k | 0 <= k < |Passing(items, f, start)| ::
              f.check(Passing(items, f, start)[k].key, Passing(items, f, start)[k].val)
    decreases |items| - start
  {
    if start < |items| {
      PassingChecked(items, f, start + 1);
    }
  }

  /** No passing document from `from` on is cut off. */
  ghost predicate NoneCutOff(m: KeyValues, host: Endianness, name: bytes, f: Filter, from: u64) {
    forall c: Call | IsCall(m, host, name, f, from, c) :: !CutOff(m, host, name, f, from, c.0)
  }

  lemma StopSoundMeans(items: seq<Item>, f: KeyValueFilter, start: nat)
    ensures StopIsSound(items, f, start) <==>
            forall j: nat | start <= j < |items| && f.check(items[j].key, items[j].val) :: Reached(items, f, start, j)
  {
  }

  lemma NoneCutOffMeans(m: KeyValues, host: Endianness, name: bytes, f: Filter, from: u64)
    ensures NoneCutOff(m, host, name, f, from) <==>
            forall c: Call | IsCall(m, host, name, f, from, c) :: IsShown(m, host, name, f, from, c)
  {
    hide IsCall, CutOff;
    CallsFit(m, host, name, f, from);
  }

  lemma CallsFit(m: KeyValues, host: Endianness, name: bytes, f: Filter, from: u64)
    ensures forall c: Call | IsCall(m, host, name, f, from, c) :: c.0 < TWO_TO_THE_64
  {
  }

  /** If the verdict is sound, a call is shown. */
  lemma SoundIsShown(items: seq<Item>, host: Endianness, name: bytes, f: Filter, from: u64, c: Call)
    requires Sorted(items) && StopSound(DocsIn(AsMap(items), host, name, TWO_TO_THE_64), f)
    requires StopIsSound(items, CollectionFilter(host, name, f), LowerBound(items, KeyFromId(host, name, from), 0))
    requires IsCall(AsMap(items), host, name, f, from, c)
    ensures IsShown(AsMap(items), host, name, f, from, c)
  {
    hide *;
    ShownIs(AsMap(items), host, name, f, from, c);
    StopSoundMeans(items, CollectionFilter(host, name, f), LowerBound(items, KeyFromId(host, name, from), 0));
    var j := CallIsOrdered(items, host, name, f, from, c);
    ReachedExactly(items, host, name, f, from, j);
  }

  /** If every call is shown, an item that is checked is reached. */
  lemma ShownIsReached(items: seq<Item>, host: Endianness, name: bytes, f: Filter, from: u64, j: nat)
    requires Sorted(items) && StopSound(DocsIn(AsMap(items), host, name, TWO_TO_THE_64), f)
    requires forall c: Call | IsCall(AsMap(items), host, name, f, from, c) ::
             IsShown(AsMap(items), host, name, f, from, c)
    requires LowerBound(items, KeyFromId(host, name, from), 0) <= j < |items|
    requires CollectionFilter(host, name, f).check(items[j].key, items[j].val)
    ensures Reached(items, CollectionFilter(host, name, f), LowerBound(items, KeyFromId(host, name, from), 0), j)
  {
    hide *;
    var c := (IdOf(host, name, items[j].key) as nat, items[j].val);
    OrderedIsCall(items, host, name, f, from, j);
    ReachedExactly(items, host, name, f, from, j);
    ShownIs(AsMap(items), host, name, f, from, c);
  }

  /** On one collection's keys the filter's stop verdict is sound exactly when no passing document is cut off. */
  lemma CollectionStopSound(items: seq<Item>, host: Endianness, name: bytes, f: Filter, from: u64)
    requires Sorted(items) && StopSound(DocsIn(AsMap(items), host, name, TWO_TO_THE_64), f)
    ensures StopIsSound(items, CollectionFilter(host, name, f), LowerBound(items, KeyFromId(host, name, from), 0)) <==>
            NoneCutOff(AsMap(items), host, name, f, from)
  {
    hide *;
    var start := LowerBound(items, KeyFromId(host, name, from), 0);
    var kf := CollectionFilter(host, name, f);
    StopSoundMeans(items, kf, start);
    NoneCutOffMeans(AsMap(items), host, name, f, from);
    if StopIsSound(items, kf, start) {
      forall c: Call | IsCall(AsMap(items), host, name, f, from, c)
        ensures IsShown(AsMap(items), host, name, f, from, c)
      {
        SoundIsShown(items, host, name, f, from, c);
      }
    }
    if NoneCutOff(AsMap(items), host, name, f, from) {
      forall j: nat | start <= j < |items| && kf.check(items[j].key, items[j].val)
        ensures Reached(items, kf, start, j)
      {
        ShownIsReached(items, host, name, f, from, j);
      }
    }
  }

  /** Members decide ascending lists. */
  lemma SameMembers(a: seq<Call>, b: seq<Call>)
    requires Ascending(a) && Ascending(b)
    ensures a == b <==> forall c: Call :: c in a <==> c in b
  {
    if forall c: Call :: c in a <==> c in b {
      AscendingUnique(a, b);
    }
  }

  /** Walking the keys visits exactly the matching documents, in id order, if and only if none is cut off. */
  lemma OrderedIsMatching(items: seq<Item>, host: Endianness, name: bytes, f: Filter, from: u64)
    requires Sorted(items) && StopSound(DocsIn(AsMap(items), host, name, TWO_TO_THE_64), f)
    ensures OrderedList(items, host, name, f, from) ==
            Matching(DocsIn(AsMap(items), host, name, TWO_TO_THE_64), Raw(f), from, TWO_TO_THE_64) <==>
            NoneCutOff(AsMap(items), host, name, f, from)
  {
    hide OrderedList, Matching, DocsIn, Sorted, StopSound, AsMap, IsCall, CutOff, Ascending;
    var d := DocsIn(AsMap(items), host, name, TWO_TO_THE_64);
    OrderedAscends(items, host, name, f, from);
    MatchingAscends(d, Raw(f), from, TWO_TO_THE_64);
    forall c: Call
      ensures c in OrderedList(items, host, name, f, from) <==> IsShown(AsMap(items), host, name, f, from, c)
      ensures c in Matching(d, Raw(f), from, TWO_TO_THE_64) <==> IsCall(AsMap(items), host, name, f, from, c)
    {
      OrderedMembers(items, host, name, f, from, c);
      MatchingIsCall(AsMap(items), host, name, f, from, c);
    }
    SameMembers(OrderedList(items, host, name, f, from), Matching(d, Raw(f), from, TWO_TO_THE_64));
  }

  lemma MatchingAscends(d: Docs, f: Filter, from: nat, upto: nat)
    ensures Ascending(Matching(d, f, from, upto))
  {
    MatchingAscending(d, f, from, upto);
  }

  /** What either branch does with its list; a maximum of 0 means no maximum. */
  lemma DeliverUpTo(list: seq<Call>, max: nat, cb: Callback)
    ensures var (calls, status) := Deliver(list, if max == 0 then |list| else max, cb, 0);
            && (max >= 1 ==> |calls| <= max)
            && (status == OK ==> calls == if max == 0 then list else list[..Min(max, |list|)])
            && (status != OK ==> calls != [] && calls <= list && cb(calls) == status)
            && (status == OK && calls != [] ==> cb(calls) == OK)
            && forall n | 1 <= n < |calls| :: cb(calls[..n]) == OK
  {
    var limit := if max == 0 then |list| else max;
    DeliverExact(list, limit, cb, 0);
    var calls := Deliver(list, limit, cb, 0).0;
    assert calls == list[..|calls|];
    assert forall n | 0 <= n < |calls| :: calls[..n] == list[..n];
  }

  lemma ToCallsPrefix(host: Endianness, name: bytes, list: seq<Item>, i: nat)
    requires i <= |list|
    ensures ToCalls(host, name, list[..i]) == ToCalls(host, name, list)[..i]
  {
  }

  /** Converting each call or converting the whole list comes to the same. */
  lemma {:induction false} DeliverConverted(host: Endianness, name: bytes, list: seq<Item>, limit: nat, cb: Callback,
                                            i: nat)
    requires i <= |list|
    ensures var r := Deliver(list, limit, (l: seq<Item>) => cb(ToCalls(host, name, l)), i);
            (ToCalls(host, name, r.0), r.1) == Deliver(ToCalls(host, name, list), limit, cb, i)
    decreases |list| - i
  {
    hide ToCalls;
    ToCallsPrefix(host, name, list, i);
    if i < |list| && i < limit {
      ToCallsPrefix(host, name, list, i + 1);
      DeliverConverted(host, name, list, limit, cb, i + 1);
    }
  }

  /** docIter over an ordered store. `nextId` is absent when the collection has no metadata. */
  method DocIterOrdered(db: Database, host: Endianness, name: bytes, nextId: Option<u64>,
                        max: nat, from: u64, f: Filter, cb: Callback)
    returns (calls: seq<Call>, status: Status)
    requires db.Valid()
    ensures name == [] ==> calls == [] && status == InvalidArg
    ensures name != [] && nextId.None? ==> calls == [] && status == NotFound
    ensures name != [] && nextId.Some? ==>
              var list := OrderedList(db.items, host, name, f, from);
              && (max >= 1 ==> |calls| <= max)
              && (status == OK ==> calls == if max == 0 then list else list[..Min(max, |list|)])
              && (status != OK ==> calls != [] && calls <= list && cb(calls) == status)
              && (status == OK && calls != [] ==> cb(calls) == OK)
              && forall n | 1 <= n < |calls| :: cb(calls[..n]) == OK
  {
    if name == [] {
      return [], InvalidArg;
    }
    if nextId.None? {
      return [], NotFound;
    }
    var kf := CollectionFilter(host, name, f);
    var firstKey := KeyFromId(host, name, from);
    ghost var list := Passing(db.items, kf, First(db.items, firstKey, true));
    OrderedListIs(db.items, host, name, f, from, list);
    DeliverConverted(host, name, list, if max == 0 then |list| else max, cb, 0);
    DeliverUpTo(OrderedList(db.items, host, name, f, from), max, cb);
    hide Passing, First, KeyFromId, CollectionFilter, OrderedList, Deliver, Sorted;
    var items;
    items, status := db.Iter(true, max, firstKey, kf, (l: seq<Item>) => cb(ToCalls(host, name, l)));
    calls := ToCalls(host, name, items);
  }

  // ---- The probing branch ----

  function ProbedList(m: KeyValues, host: Endianness, name: bytes, f: Filter, from: u64, nextId: u64): seq<Call> {
    Matching(DocsIn(m, host, name, nextId), Raw(f), from, nextId)
  }

  /** `i` calls are made, the ids from `id` on still to be probed. */
  ghost predicate Probing(d: Docs, f: Filter, from: nat, id: nat, i: nat) {
    var list := Matching(d, f, from, |d|);
    i <= |list| && list == list[..i] + Matching(d, f, id, |d|)
  }

  lemma ProbeSkip(d: Docs, f: Filter, from: nat, id: nat, i: nat)
    requires Probing(d, f, from, id, i) && id < |d| && (d[id].None? || !f.accept(id, d[id].value))
    ensures Probing(d, f, from, id + 1, i)
  {
  }

  lemma ProbeCall(d: Docs, f: Filter, from: nat, id: nat, i: nat)
    requires Probing(d, f, from, id, i) && id < |d| && d[id].Some? && f.accept(id, d[id].value)
    ensures Probing(d, f, from, id + 1, i + 1)
    ensures var list := Matching(d, f, from, |d|);
            i < |list| && list[..i + 1] == list[..i] + [(id, f.rewrite(d[id].value))]
  {
    var list := Matching(d, f, from, |d|);
    var call := (id, f.rewrite(d[id].value));
    assert list == (list[..i] + [call]) + Matching(d, f, id + 1, |d|);
    assert list[..i + 1] == list[..i] + [call];
  }

  lemma ProbeStart(d: Docs, f: Filter, from: nat)
    ensures Probing(d, f, from, from, 0)
  {
  }

  lemma ProbeEnd(d: Docs, f: Filter, from: nat, id: nat, i: nat)
    requires Probing(d, f, from, id, i) && id >= |d|
    ensures i == |Matching(d, f, from, |d|)|
  {
  }

  lemma DocsInAt(m: KeyValues, host: Endianness, name: bytes, n: nat, id: nat)
    requires id < n <= TWO_TO_THE_64
    ensures DocsIn(m, host, name, n)[id] == Lookup(m, KeyFromId(host, name, id))
  {
  }

  lemma RawKeeps(f: Filter, id: nat, val: bytes)
    ensures Raw(f).accept(id, val) == f.accept(id, val) && Raw(f).rewrite(val) == val
  {
  }

  lemma ProbedListIs(m: KeyValues, host: Endianness, name: bytes, f: Filter, from: u64, nextId: u64)
    ensures var d := DocsIn(m, host, name, nextId);
            |d| == nextId && ProbedList(m, host, name, f, from, nextId) == Matching(d, Raw(f), from, |d|)
  {
  }

  /** docIter over an unordered store: fetch id by id below the next id. */
  method DocIterProbing(db: HashStore, host: Endianness, name: bytes, nextId: Option<u64>,
                        max: nat, from: u64, f: Filter, cb: Callback)
    returns (calls: seq<Call>, status: Status)
    ensures name == [] ==> calls == [] && status == InvalidArg
    ensures name != [] && nextId.None? ==> calls == [] && status == NotFound
    ensures name != [] && nextId.Some? ==>
              var list := ProbedList(db.content, host, name, f, from, nextId.value);
              && (max >= 1 ==> |calls| <= max)
              && (status == OK ==> calls == if max == 0 then list else list[..Min(max, |list|)])
              && (status != OK ==> calls != [] && calls <= list && cb(calls) == status)
              && (status == OK && calls != [] ==> cb(calls) == OK)
              && forall n | 1 <= n < |calls| :: cb(calls[..n]) == OK
  {
    calls, status := [], OK;
    if name == [] {
      return [], InvalidArg;
    }
    if nextId.None? {
      return [], NotFound;
    }
    var next := nextId.value;
    DeliverUpTo(ProbedList(db.content, host, name, f, from, next), max, cb);
    hide ProbedList, Deliver;
    calls, status := ProbeAll(db, host, name, next, max, from, f, cb);
  }

  method ProbeAll(db: HashStore, host: Endianness, name: bytes, nextId: u64,
                  max: nat, from: u64, f: Filter, cb: Callback)
    returns (calls: seq<Call>, status: Status)
    ensures var list := ProbedList(db.content, host, name, f, from, nextId);
            (calls, status) == Deliver(list, if max == 0 then |list| else max, cb, 0)
  {
    hide *;
    ghost var d := DocsIn(db.content, host, name, nextId);
    ghost var list := Matching(d, Raw(f), from, |d|);
    ProbedListIs(db.content, host, name, f, from, nextId);
    ghost var limit := if max == 0 then |list| else max;
    ghost var goal := Deliver(list, limit, cb, 0);
    ProbeStart(d, Raw(f), from);
    calls, status := [], OK;
    var id: nat, i: nat := from, 0;
    while (max == 0 || i < max) && id < nextId
      invariant i <= |list| && i <= limit && calls == list[..i] && status == OK
      invariant Probing(d, Raw(f), from, id, i) && Deliver(list, limit, cb, i) == goal
      decreases nextId - id
    {
      DocsInAt(db.content, host, name, nextId, id);
      var key := KeyFromId(host, name, id);
      var val;
      val, status := db.FetchOne(key, (v: bytes) => if f.accept(id, v) then cb(calls + [(id, v)]) else OK);
      if val.Some? {
        RawKeeps(f, id, val.value);
      }
      if val.Some? && f.accept(id, val.value) {
        ProbeCall(d, Raw(f), from, id, i);
        DeliverStep(list, limit, cb, i);
        i := i + 1;
        calls := calls + [(id, val.value)];
      } else {
        ProbeSkip(d, Raw(f), from, id, i);
      }
      if status != OK {
        return;
      }
      id := id + 1;
    }
    if id >= nextId {
      ProbeEnd(d, Raw(f), from, id, i);
    }
    DeliverStops(list, limit, cb, i);
  }

  // ---- The branches compared ----

  lemma {:induction false} MatchingOfPrefix(d: Docs, e: Docs, f: Filter, from: nat)
    requires |d| <= |e| && forall id | 0 <= id < |d| :: d[id] == e[id]
    ensures Matching(d, f, from, |d|) == Matching(e, f, from, |d|)
    decreases |d| - from
  {
    if from < |d| {
      MatchingOfPrefix(d, e, f, from + 1);
    }
  }

  /** The documents that only the ordered branch visits: those at or past the next id. */
  function Beyond(m: KeyValues, host: Endianness, name: bytes, f: Filter, from: u64, nextId: u64): seq<Call> {
    Matching(DocsIn(m, host, name, TWO_TO_THE_64), Raw(f), Max(from, nextId), TWO_TO_THE_64)
  }

  /**
   On the same content and with no document cut off, the ordered branch makes the calls of the probing branch followed
   by those for matching documents at or past the next id.
   */
  lemma BranchesCompared(items: seq<Item>, m: KeyValues, host: Endianness, name: bytes, f: Filter, from: u64,
                         nextId: u64)
    requires Sorted(items) && AsMap(items) == m && NoneCutOff(m, host, name, f, from)
    requires StopSound(DocsIn(m, host, name, TWO_TO_THE_64), f)
    ensures OrderedList(items, host, name, f, from) ==
            ProbedList(m, host, name, f, from, nextId) + Beyond(m, host, name, f, from, nextId)
  {
    OrderedIsMatching(items, host, name, f, from);
    var d, e := DocsIn(m, host, name, nextId), DocsIn(m, host, name, TWO_TO_THE_64);
    forall id | 0 <= id < |d| ensures d[id] == e[id] {
      DocsInAt(m, host, name, nextId, id);
      DocsInAt(m, host, name, TWO_TO_THE_64, id);
    }
    hide DocsIn, OrderedList, Sorted, AsMap, NoneCutOff, StopSound, Matching;
    MatchingOfPrefix(d, e, Raw(f), from);
    if from <= nextId {
      MatchingSplit(e, Raw(f), from, nextId, TWO_TO_THE_64);
    } else {
    }
  }

  lemma ProbedMembers(m: KeyValues, host: Endianness, name: bytes, f: Filter, from: u64, nextId: u64, c: Call)
    ensures c in ProbedList(m, host, name, f, from, nextId) <==> IsCall(m, host, name, f, from, c) && c.0 < nextId
  {
    var d := DocsIn(m, host, name, nextId);
    MatchingMembers(d, Raw(f), from, nextId);
    hide DocsIn, Matching, KeyFromId;
    if c.0 < nextId {
      DocsInAt(m, host, name, nextId, c.0);
      DocsInAt(m, host, name, TWO_TO_THE_64, c.0);
      if IsCall(m, host, name, f, from, c) {
        assert c == (c.0, Raw(f).rewrite(d[c.0].value));
      }
    }
  }

  /**
   So the two agree, for every limit and callback, exactly when the matching documents below the next id are those that
   no stopper cuts off; without stoppers, when no matching document lies at or past the next id.
   */
  lemma BranchesAgree(items: seq<Item>, m: KeyValues, host: Endianness, name: bytes, f: Filter, from: u64, nextId: u64)
    requires Sorted(items) && AsMap(items) == m && StopSound(DocsIn(m, host, name, TWO_TO_THE_64), f)
    ensures OrderedList(items, host, name, f, from) == ProbedList(m, host, name, f, from, nextId) <==>
            forall id: u64 | id >= from && Lookup(m, KeyFromId(host, name, id)).Some?
                             && f.accept(id, Lookup(m, KeyFromId(host, name, id)).value) ::
              id < nextId <==> !CutOff(m, host, name, f, from, id)
  {
    var a, b := OrderedList(items, host, name, f, from), ProbedList(m, host, name, f, from, nextId);
    OrderedAscends(items, host, name, f, from);
    MatchingAscends(DocsIn(m, host, name, nextId), Raw(f), from, nextId);
    forall c: Call
      ensures c in a <==> IsShown(m, host, name, f, from, c)
      ensures c in b <==> IsCall(m, host, name, f, from, c) && c.0 < nextId
    {
      OrderedMembers(items, host, name, f, from, c);
      ProbedMembers(m, host, name, f, from, nextId, c);
    }
    hide OrderedList, ProbedList, Sorted, AsMap, StopSound, CutOff, IsCall, Ascending, DocsIn;
    SameMembers(a, b);
    AgreeOnIds(m, host, name, f, from, nextId);
  }

  /** Calls compared are ids compared. */
  lemma AgreeOnIds(m: KeyValues, host: Endianness, name: bytes, f: Filter, from: u64, nextId: u64)
    ensures (forall c: Call ::
               IsShown(m, host, name, f, from, c) <==> IsCall(m, host, name, f, from, c) && c.0 < nextId) <==>
            (forall id: u64 | id >= from && Lookup(m, KeyFromId(host, name, id)).Some?
                              && f.accept(id, Lookup(m, KeyFromId(host, name, id)).value) ::
               id < nextId <==> !CutOff(m, host, name, f, from, id))
  {
    hide KeyFromId, Lookup, CutOff;
    forall id: u64 ensures DocsIn(m, host, name, TWO_TO_THE_64)[id] == Lookup(m, KeyFromId(host, name, id)) {
      DocsInAt(m, host, name, TWO_TO_THE_64, id);
    }
    hide DocsIn;
    if forall c: Call :: IsShown(m, host, name, f, from, c) <==> IsCall(m, host, name, f, from, c) && c.0 < nextId {
      forall id: u64 | id >= from && Lookup(m, KeyFromId(host, name, id)).Some?
                       && f.accept(id, Lookup(m, KeyFromId(host, name, id)).value)
        ensures id < nextId <==> !CutOff(m, host, name, f, from, id)
      {
        var c := (id, Lookup(m, KeyFromId(host, name, id)).value);
        assert IsCall(m, host, name, f, from, c);
        assert IsShown(m, host, name, f, from, c) <==> c.0 < nextId;
      }
    }
  }

  lemma KeyLess(host: Endianness, name: bytes, id: u64, id': u64)
    requires id < id'
    ensures var k, k' := KeyFromId(host, name, id), KeyFromId(host, name, id');
            |k| == |k'| == |name| + 9 && Memcmp(k, k', |k|) < 0
  {
    hide KeyFromId, Memcmp;
    KeyIsDocumentKey(host, name, id);
    KeyIsDocumentKey(host, name, id');
    KeyLengths(name, KeyFromId(host, name, id));
    KeyLengths(name, KeyFromId(host, name, id'));
    KeyOrderIsIdOrder(host, name, id, id');
  }

  lemma LongerKey(name: bytes, key: bytes)
    requires IsDocumentKey(name, key)
    ensures HasPrefix(key + [0], name + [0]) && !IsDocumentKey(name, key + [0]) && key + [0] != key
  {
    assert (key + [0])[..|name| + 1] == key[..|name| + 1];
  }

  /** A key between those of two documents: one of them and a byte more. */
  lemma KeyBetween(host: Endianness, name: bytes, id: u64, id': u64)
    requires id < id'
    ensures var key := KeyFromId(host, name, id) + [0];
            && HasPrefix(key, name + [0]) && !IsDocumentKey(name, key)
            && !DefaultMemCmp(key, KeyFromId(host, name, id)) && DefaultMemCmp(key, KeyFromId(host, name, id'))
  {
    hide *;
    var k, k' := KeyFromId(host, name, id), KeyFromId(host, name, id');
    KeyIsDocumentKey(host, name, id);
    LongerKey(name, k);
    KeyLess(host, name, id, id');
    MemcmpLonger(k, [0], k', |k|);
    assert (k + [0])[..|k|] == k;
    ProperPrefixBelow(k, k + [0]);
    OrderTotal(k, k + [0]);
  }

  /**
   An example: such a key with a value that makes the filter stop hides the document behind it from the ordered
   branch.
   */
  lemma CutOffExample(host: Endianness, name: bytes, f: Filter, val: bytes, doc: bytes)
    requires f.stop(val) && f.accept(1, doc)
    ensures var m := map[KeyFromId(host, name, 0) + [0] := val, KeyFromId(host, name, 1) := doc];
            CutOff(m, host, name, f, 0, 1) && !NoneCutOff(m, host, name, f, 0)
  {
    var key := KeyFromId(host, name, 0) + [0];
    KeyBetween(host, name, 0, 1);
    KeyIsDocumentKey(host, name, 1);
    KeyLengths(name, KeyFromId(host, name, 1));
    assert key != KeyFromId(host, name, 1);
    hide KeyFromId, DefaultMemCmp, IsDocumentKey, HasPrefix, CutOff, NoneCutOff;
    StopperHides(host, name, f, key, val, doc);
  }

  /** The key with the value that stops, and the document behind it. */
  function TwoItems(key: bytes, val: bytes, key': bytes, doc: bytes): KeyValues {
    map[key := val, key' := doc]
  }

  lemma TwoItemsHold(key: bytes, val: bytes, key': bytes, doc: bytes)
    requires key != key'
    ensures var m := TwoItems(key, val, key', doc); key in m && m[key] == val && Lookup(m, key') == Some(doc)
  {
  }

  lemma StopperIs(m: KeyValues, name: bytes, f: Filter, key: bytes)
    requires key in m && HasPrefix(key, name + [0]) && !IsDocumentKey(name, key) && f.stop(m[key])
    ensures IsStopper(m, name, f, key)
  {
  }

  lemma StopperHides(host: Endianness, name: bytes, f: Filter, key: bytes, val: bytes, doc: bytes)
    requires f.stop(val) && f.accept(1, doc) && key != KeyFromId(host, name, 1)
    requires HasPrefix(key, name + [0]) && !IsDocumentKey(name, key)
    requires !DefaultMemCmp(key, KeyFromId(host, name, 0)) && DefaultMemCmp(key, KeyFromId(host, name, 1))
    ensures var m := TwoItems(key, val, KeyFromId(host, name, 1), doc);
            CutOff(m, host, name, f, 0, 1) && !NoneCutOff(m, host, name, f, 0)
  {
    var from: u64, id: u64 := 0, 1;
    var m := TwoItems(key, val, KeyFromId(host, name, id), doc);
    hide *;
    TwoItemsHold(key, val, KeyFromId(host, name, id), doc);
    StopperIs(m, name, f, key);
    IsCallIn(m, host, name, f, from, id, doc);
    CutOffMeans(m, host, name, f, from, id);
    NoneCutOffMeans(m, host, name, f, from);
    ShownIs(m, host, name, f, from, (id as nat, doc));
  }

  lemma IsCallIn(m: KeyValues, host: Endianness, name: bytes, f: Filter, from: u64, id: u64, doc: bytes)
    requires from <= id && Lookup(m, KeyFromId(host, name, id)) == Some(doc) && f.accept(id, doc)
    ensures IsCall(m, host, name, f, from, (id, doc))
  {
    hide KeyFromId, Lookup;
    DocsInAt(m, host, name, TWO_TO_THE_64, id);
  }
}
