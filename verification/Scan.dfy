/** The benchmark client's scan. */
module Scan {
  // Pages of a packed listing with estimated buffers, retried with doubled estimates, against a scan of the store
  // in one go.

  import opened Basics
  import opened Documents
  import KeyCodec
  import opened KeyValueMap
  import opened MapDatabase
  import opened RecordCodec

  /** No filter: every item is listed as it is. */
  const ALL := KeyValueFilter((key, val) => true, (key, val) => false, key => key, val => val)

  function Decode(val: bytes, fields: Fields): Record {
    Collect(map[], Parse(val), fields)
  }

  function DecodeAll(items: seq<Item>, fields: Fields): seq<Record> {
    if items == [] then []
    else DecodeAll(items[..|items| - 1], fields) + [Decode(items[|items| - 1].val, fields)]
  }

  /** The one-shot scan: the first `count` records with keys from `startKey` on, in key order. */
  function Expected(items: seq<Item>, startKey: bytes, count: nat): seq<Item> {
    var first := First(items, startKey, true);
    items[first..Min(first + count, |items|)]
  }

  // ---- What a listing without a filter is ----

  lemma {:induction false} PassingAll(items: seq<Item>, i: nat)
    requires i <= |items|
    ensures Passing(items, ALL, i) == items[i..]
    decreases |items| - i
  {
    if i < |items| {
      PassingAll(items, i + 1);
      assert items[i..] == [items[i]] + items[i + 1..];
    }
  }

  lemma ListedAll(items: seq<Item>, fromKey: bytes, inclusive: bool, max: nat)
    ensures var first := First(items, fromKey, inclusive);
            Listed(items, ALL, fromKey, inclusive, max) == items[first..Min(first + max, |items|)]
  {
    var first := First(items, fromKey, inclusive);
    PassingAll(items, first);
    hide First, Passing;
    assert items[first..][..Min(max, |items| - first)] == items[first..Min(first + max, |items|)];
  }

  /** The expected records are those with keys not below the start key. */
  lemma ExpectedMembers(items: seq<Item>, startKey: bytes, count: nat, i: nat)
    requires Sorted(items) && i < |items|
    ensures !KeyCodec.DefaultMemCmp(items[i].key, startKey) <==> i >= First(items, startKey, true)
  {
    if startKey == [] {
      KeyCodec.DefaultMemCmpHead(items[i].key, []);
    } else {
      LowerBoundSplits(items, startKey, 0);
      hide KeyCodec.DefaultMemCmp, LowerBound, Sorted;
      assert i < First(items, startKey, true) ==> KeyCodec.DefaultMemCmp(items[i].key, startKey);
    }
  }

  lemma {:induction false} DecodeAt(items: seq<Item>, fields: Fields, i: nat)
    requires i < |items|
    ensures |DecodeAll(items, fields)| == |items| && DecodeAll(items, fields)[i] == Decode(items[i].val, fields)
  {
    hide Decode;
    var n := |items| - 1;
    if n > 0 {
      DecodeAt(items[..n], fields, if i < n then i else 0);
    } else {
      assert DecodeAll(items[..0], fields) == [];
    }
  }

  lemma FirstIs(items: seq<Item>, startKey: bytes, first: nat)
    requires Sorted(items) && first <= |items|
    requires forall i | 0 <= i < |items| :: i < first <==> KeyCodec.DefaultMemCmp(items[i].key, startKey)
    ensures First(items, startKey, true) == first
  {
    var start := First(items, startKey, true);
    hide KeyCodec.DefaultMemCmp, First, Sorted;
    if start < first {
      ExpectedMembers(items, startKey, 0, start);
    } else if first < start {
      ExpectedMembers(items, startKey, 0, first);
    }
  }

  /**
   With the keys from position `first` on not below the start key, and those before it below, the scan gives the
   records at the first `count` positions from there on, in order.
   */
  lemma ExpectedRecords(items: seq<Item>, startKey: bytes, count: nat, fields: Fields, first: nat)
    requires Sorted(items) && first <= |items|
    requires forall i | 0 <= i < |items| :: i < first <==> KeyCodec.DefaultMemCmp(items[i].key, startKey)
    ensures var records := DecodeAll(Expected(items, startKey, count), fields);
            && |records| == Min(count, |items| - first)
            && forall i | 0 <= i < |records| :: records[i] == Decode(items[first + i].val, fields)
  {
    FirstIs(items, startKey, first);
    hide KeyCodec.DefaultMemCmp, First, Decode, DecodeAll, Sorted;
    var list := Expected(items, startKey, count);
    DecodeNone(fields);
    forall i | 0 <= i < |list|
      ensures |DecodeAll(list, fields)| == |list| && DecodeAll(list, fields)[i] == Decode(items[first + i].val, fields)
    {
      DecodeAt(list, fields, i);
    }
    if list != [] {
      DecodeAt(list, fields, 0);
    }
  }

  lemma DecodeNone(fields: Fields)
    ensures DecodeAll([], fields) == []
  {
  }

  /** A stored record is scanned as it was written, restricted to the fields asked for. */
  lemma ScannedRecord(entries: seq<Entry>, record: Record, fields: Fields)
    requires RecordCodec.Storable(entries) && Lists(entries, record)
    ensures Decode(Encode(entries), fields) == Restrict(record, fields)
  {
    hide Encode, Parse, Collect, Restrict;
    RoundTrip(entries, record, fields);
  }

  /** The page after one that ended at position `p` starts right behind it exactly when that key is not empty. */
  lemma NextPage(items: seq<Item>, p: nat)
    requires Sorted(items) && p < |items|
    ensures First(items, items[p].key, false) == p + 1 <==> items[p].key != []
  {
    var key := items[p].key;
    if key != [] {
      UpperBoundSplits(items, key, 0);
      KeyCodec.OrderTotal(key, key);
      var r := UpperBound(items, key, 0);
      hide UpperBound, KeyCodec.DefaultMemCmp;
      if p + 1 < |items| {
        assert KeyCodec.DefaultMemCmp(items[p].key, items[p + 1].key);
      }
    }
  }

  // ---- Reading a page ----

  function LeastCut(n: nat, keyCut: nat, valCut: nat): nat {
    Min(n, Min(keyCut, valCut))
  }

  /** A packed column: value `i` lies where the sizes before it say. */
  lemma {:induction false} PackedWindow(items: Docs, buffer: bytes, cut: nat, i: nat)
    requires i < cut <= |items| && items[i].Some? && PackedBytes(items, cut) <= buffer
    ensures PackedSize(items, i) + |items[i].value| <= |buffer|
    ensures buffer[PackedSize(items, i)..PackedSize(items, i) + |items[i].value|] == items[i].value
    ensures PackedSize(items, i + 1) == PackedSize(items, i) + |items[i].value|
    decreases cut
  {
    var before := PackedBytes(items, cut - 1);
    assert before <= PackedBytes(items, cut);
    if i < cut - 1 {
      assert before <= buffer;
      PackedWindow(items, buffer, cut - 1, i);
    } else {
      assert buffer[..PackedSize(items, cut)] == before + items[i].value;
    }
  }

  /** One slot of a listed column. */
  lemma ColumnSlot(outs: Docs, buffer: bytes, sizes: seq<nat>, cut: nat, i: nat, val: bytes)
    requires ListedColumn(outs, buffer, sizes, cut) && i < |sizes|
    requires i < |outs| ==> outs[i] == Some(val) && |val| <= LAST_VALID_SIZE
    ensures sizes[i] == NO_MORE <==> i >= |outs|
    ensures sizes[i] == SIZE_TOO_SMALL <==> cut <= i < |outs|
    ensures i < |outs| && i < cut ==>
              && sizes[i] == |val|
              && PackedSize(outs, i) + |val| == PackedSize(outs, i + 1) <= |buffer|
              && buffer[PackedSize(outs, i)..PackedSize(outs, i) + |val|] == val
  {
    if i < |outs| {
      assert sizes[..|outs|][i] == sizes[i];
      if i < cut {
        PackedWindow(outs, buffer, cut, i);
      }
    }
  }

  lemma DecodeNext(items: seq<Item>, i: nat, fields: Fields)
    requires i < |items|
    ensures DecodeAll(items[..i + 1], fields) == DecodeAll(items[..i], fields) + [Decode(items[i].val, fields)]
    ensures DecodeAll(items[..0], fields) == []
  {
    assert items[..i + 1][..i] == items[..i];
  }

  predicate ItemsOrdinary(items: seq<Item>) {
    forall i | 0 <= i < |items| :: |items[i].key| <= LAST_VALID_SIZE && |items[i].val| <= LAST_VALID_SIZE
  }

  /**
   The records of a page, up to the first slot that is cut in either column or empty. `ended` says that there are
   no more keys; otherwise `lastKey` is where the next page continues.
   */
  method ReadPage(keys: bytes, keySizes: seq<nat>, vals: bytes, valSizes: seq<nat>, fields: Fields,
                  ghost list: seq<Item>, ghost keyCut: nat, ghost valCut: nat)
    returns (records: seq<Record>, lastKey: bytes, ended: bool)
    requires |keySizes| == |valSizes| > 0 && ItemsOrdinary(list)
    requires ListedColumn(KeyOuts(list, ALL), keys, keySizes, keyCut)
    requires ListedColumn(ValOuts(list, ALL), vals, valSizes, valCut)
    ensures var n := LeastCut(|list|, keyCut, valCut);
            && n <= |list| <= |keySizes|
            && records == DecodeAll(list[..n], fields) && |records| == n
            && (ended <==> n == |list| < |keySizes|)
            && (0 < n ==> lastKey == list[n - 1].key)
  {
    hide *;
    records, lastKey, ended := [], [], false;
    var i: nat, keyOffset: nat, valOffset: nat := 0, 0, 0;
    ghost var n := LeastCut(|list|, keyCut, valCut);
    ghost var ks, vs := KeyOuts(list, ALL), ValOuts(list, ALL);
    PageStart(keys, keySizes, list, keyCut, valCut, fields);
    while i < |keySizes|
      invariant i <= n && |records| == i && records == DecodeAll(list[..i], fields) && !ended
      invariant keyOffset == PackedSize(ks, i) && valOffset == PackedSize(vs, i)
      invariant i > 0 ==> lastKey == list[i - 1].key
      decreases |keySizes| - i
    {
      PageSlot(keys, keySizes, vals, valSizes, list, keyCut, valCut, i);
      if keySizes[i] == NO_MORE {
        ended := true;
        break;
      }
      if valSizes[i] == SIZE_TOO_SMALL || keySizes[i] == SIZE_TOO_SMALL {
        break;
      }
      lastKey := keys[keyOffset..keyOffset + keySizes[i]];
      var lastVal := vals[valOffset..valOffset + valSizes[i]];
      DecodeNext(list, i, fields);
      DecodeIs(lastVal, fields);
      keyOffset := keyOffset + keySizes[i];
      valOffset := valOffset + valSizes[i];
      var record := DeserializeRecord(lastVal, fields);
      records := records + [record];
      i := i + 1;
    }
  }

  lemma PageStart(keys: bytes, keySizes: seq<nat>, list: seq<Item>, keyCut: nat, valCut: nat, fields: Fields)
    requires ListedColumn(KeyOuts(list, ALL), keys, keySizes, keyCut)
    ensures |KeyOuts(list, ALL)| == |ValOuts(list, ALL)| == |list| <= |keySizes|
    ensures 0 <= LeastCut(|list|, keyCut, valCut) <= |list|
    ensures PackedSize(KeyOuts(list, ALL), 0) == 0 == PackedSize(ValOuts(list, ALL), 0)
    ensures DecodeAll(list[..0], fields) == []
  {
  }

  lemma DecodeIs(val: bytes, fields: Fields)
    ensures Decode(val, fields) == Collect(map[], Parse(val), fields)
  {
  }

  /** What the tests on slot `i` of a page say. */
  lemma PageSlot(keys: bytes, keySizes: seq<nat>, vals: bytes, valSizes: seq<nat>,
                 list: seq<Item>, keyCut: nat, valCut: nat, i: nat)
    requires |keySizes| == |valSizes| && ItemsOrdinary(list) && i < |keySizes|
    requires ListedColumn(KeyOuts(list, ALL), keys, keySizes, keyCut)
    requires ListedColumn(ValOuts(list, ALL), vals, valSizes, valCut)
    requires i <= LeastCut(|list|, keyCut, valCut)
    ensures var n := LeastCut(|list|, keyCut, valCut);
            var ks, vs := KeyOuts(list, ALL), ValOuts(list, ALL);
            && n <= |list| <= |keySizes| && |ks| == |vs| == |list|
            && (keySizes[i] == NO_MORE <==> i == |list|)
            && (i < |list| && (valSizes[i] == SIZE_TOO_SMALL || keySizes[i] == SIZE_TOO_SMALL) <==> i == n < |list|)
            && (i == |list| ==> n == i && valSizes[i] != SIZE_TOO_SMALL)
            && (i < n ==>
                && PackedSize(ks, i) + keySizes[i] == PackedSize(ks, i + 1) <= |keys|
                && PackedSize(vs, i) + valSizes[i] == PackedSize(vs, i + 1) <= |vals|
                && keys[PackedSize(ks, i)..PackedSize(ks, i) + keySizes[i]] == list[i].key
                && vals[PackedSize(vs, i)..PackedSize(vs, i) + valSizes[i]] == list[i].val)
  {
    var ks, vs := KeyOuts(list, ALL), ValOuts(list, ALL);
    assert |ks| == |vs| == |list|;
    if i < |list| {
      assert ks[i] == Some(list[i].key) && vs[i] == Some(list[i].val);
    }
    hide ListedColumn, KeyOuts, ValOuts, PackedSize;
    ColumnSlot(ks, keys, keySizes, keyCut, i, if i < |list| then list[i].key else []);
    ColumnSlot(vs, vals, valSizes, valCut, i, if i < |list| then list[i].val else []);
  }

  // ---- The paging loop ----

  lemma {:induction false} DecodeAppend(a: seq<Item>, b: seq<Item>, fields: Fields)
    ensures DecodeAll(a + b, fields) == DecodeAll(a, fields) + DecodeAll(b, fields)
  {
    if b == [] {
      assert a + b == a;
    } else {
      hide Decode;
      assert (a + b)[..|a + b| - 1] == a + b[..|b| - 1];
      DecodeAppend(a, b[..|b| - 1], fields);
    }
  }

  /** The size of the longest key or value. */
  function Longest(items: seq<Item>): (n: nat)
    ensures forall i | 0 <= i < |items| :: |items[i].key| <= n && |items[i].val| <= n
  {
    if items == [] then 0
    else Max(Longest(items[..|items| - 1]), Max(|items[|items| - 1].key|, |items[|items| - 1].val|))
  }

  predicate NoEmptyKey(items: seq<Item>) {
    forall i | 0 <= i < |items| :: items[i].key != []
  }

  /** Where the scan stands: records [first, pos) are read, `count` are still wanted. */
  ghost predicate Scanned(items: seq<Item>, startKey: bytes, total: nat, fields: Fields,
                          pos: nat, count: nat, start: bytes, inclusive: bool, result: seq<Record>) {
    var first := First(items, startKey, true);
    && first <= pos <= |items| && pos + count == first + total
    && result == DecodeAll(items[first..pos], fields)
    && (count > 0 ==> First(items, start, inclusive) == pos)
  }

  lemma ScanStart(items: seq<Item>, startKey: bytes, total: nat, fields: Fields)
    ensures Scanned(items, startKey, total, fields, First(items, startKey, true), total, startKey, true, [])
  {
    hide First;
    var first := First(items, startKey, true);
    assert items[first..first] == [];
  }

  lemma ScanDone(items: seq<Item>, startKey: bytes, total: nat, fields: Fields,
                 pos: nat, count: nat, start: bytes, inclusive: bool, result: seq<Record>)
    requires Scanned(items, startKey, total, fields, pos, count, start, inclusive, result)
    requires count == 0 || pos == |items|
    ensures result == DecodeAll(Expected(items, startKey, total), fields)
  {
    hide First, DecodeAll;
  }

  /** What one page adds. */
  lemma ScanPage(items: seq<Item>, startKey: bytes, total: nat, fields: Fields,
                 pos: nat, count: nat, start: bytes, inclusive: bool, result: seq<Record>,
                 list: seq<Item>, n: nat, records: seq<Record>, lastKey: bytes)
    requires Scanned(items, startKey, total, fields, pos, count, start, inclusive, result) && count > 0
    requires Sorted(items) && NoEmptyKey(items)
    requires list == Listed(items, ALL, start, inclusive, count) && n <= |list|
    requires records == DecodeAll(list[..n], fields)
    requires n > 0 ==> lastKey == list[n - 1].key
    ensures pos + n <= |items| && n <= count
    ensures n > 0 ==> Scanned(items, startKey, total, fields, pos + n, count - n, lastKey, false, result + records)
    ensures n == 0 ==> result + records == result
    ensures n == |list| < count ==> pos + n == |items|
  {
    hide *;
    ScannedIs(items, startKey, total, fields, pos, count, start, inclusive, result);
    ListedAll(items, start, inclusive, count);
    var first := First(items, startKey, true);
    PageOf(items, list, pos, count, n);
    SlicesJoin(items, first, pos, pos + n);
    DecodeAppend(items[first..pos], items[pos..pos + n], fields);
    if n > 0 {
      NotEmpty(items, pos + n - 1);
      NextPage(items, pos + n - 1);
      ScannedMake(items, startKey, total, fields, pos + n, count - n, lastKey, result + records);
    } else {
    }
  }

  lemma ScannedIs(items: seq<Item>, startKey: bytes, total: nat, fields: Fields,
                  pos: nat, count: nat, start: bytes, inclusive: bool, result: seq<Record>)
    requires Scanned(items, startKey, total, fields, pos, count, start, inclusive, result)
    ensures var first := First(items, startKey, true);
            && first <= pos <= |items| && pos + count == first + total
            && result == DecodeAll(items[first..pos], fields)
            && (count > 0 ==> First(items, start, inclusive) == pos)
  {
  }

  lemma ScannedMake(items: seq<Item>, startKey: bytes, total: nat, fields: Fields,
                    pos: nat, count: nat, start: bytes, result: seq<Record>)
    requires First(items, startKey, true) <= pos <= |items| && pos + count == First(items, startKey, true) + total
    requires result == DecodeAll(items[First(items, startKey, true)..pos], fields)
    requires First(items, start, false) == pos
    ensures Scanned(items, startKey, total, fields, pos, count, start, false, result)
  {
  }

  lemma PageOf(items: seq<Item>, list: seq<Item>, pos: nat, count: nat, n: nat)
    requires pos <= |items| && list == items[pos..Min(pos + count, |items|)] && n <= |list|
    ensures pos + n <= |items| && n <= count && list[..n] == items[pos..pos + n]
    ensures n > 0 ==> list[n - 1] == items[pos + n - 1]
    ensures n == |list| < count ==> pos + n == |items|
  {
  }

  lemma SlicesJoin(items: seq<Item>, a: nat, b: nat, c: nat)
    requires a <= b <= c <= |items|
    ensures items[a..b] + items[b..c] == items[a..c]
  {
  }

  lemma NotEmpty(items: seq<Item>, i: nat)
    requires NoEmptyKey(items) && i < |items|
    ensures items[i].key != []
  {
  }

  lemma ScanEnough(items: seq<Item>, startKey: bytes, total: nat, fields: Fields,
                   pos: nat, count: nat, start: bytes, other: bytes, result: seq<Record>)
    requires Scanned(items, startKey, total, fields, pos, count, start, false, result)
    ensures count == 0 ==> Scanned(items, startKey, total, fields, pos, count, other, false, result)
  {
  }

  /** A first value or key that does not fit shows that the estimate is below the longest one. */
  lemma FirstTooSmall(outs: Docs, buffer: bytes, sizes: seq<nat>, cut: nat, estimate: nat, count: nat)
    requires ListedColumn(outs, buffer, sizes, cut) && |sizes| == count > 0 && |buffer| == estimate * count
    requires sizes[0] == SIZE_TOO_SMALL
    requires forall i | 0 <= i < |outs| :: outs[i].Some? && |outs[i].value| <= LAST_VALID_SIZE
    ensures |outs| > 0 && estimate < |outs[0].value|
  {
    assert |outs| > 0;
    assert sizes[..|outs|][0] == sizes[0];
    assert cut == 0 && PackedSize(outs, 1) > |buffer|;
  }

  lemma LongestAt(items: seq<Item>, list: seq<Item>, start: bytes, inclusive: bool, count: nat)
    requires list == Listed(items, ALL, start, inclusive, count) && ItemsOrdinary(items)
    ensures ItemsOrdinary(list) && OutsOrdinary(items, ALL)
    ensures forall i | 0 <= i < |list| :: |list[i].key| <= Longest(items) && |list[i].val| <= Longest(items)
  {
    ListedAll(items, start, inclusive, count);
    hide Longest, Listed, First;
    var first := First(items, start, inclusive);
    assert forall i | 0 <= i < |list| :: list[i] == items[first + i];
  }

  /** What the first slots say about the estimates and the page. */
  lemma FirstSlots(items: seq<Item>, list: seq<Item>, start: bytes, inclusive: bool, count: nat,
                   keys: bytes, keySizes: seq<nat>, keyCut: nat, keyEstimate: nat,
                   vals: bytes, valSizes: seq<nat>, valCut: nat, valEstimate: nat)
    requires list == Listed(items, ALL, start, inclusive, count) && ItemsOrdinary(items)
    requires |keySizes| == |valSizes| == count > 0
    requires |keys| == keyEstimate * count && |vals| == valEstimate * count
    requires ListedColumn(KeyOuts(list, ALL), keys, keySizes, keyCut)
    requires ListedColumn(ValOuts(list, ALL), vals, valSizes, valCut)
    ensures valSizes[0] == SIZE_TOO_SMALL ==> valEstimate < Longest(items)
    ensures keySizes[0] == SIZE_TOO_SMALL ==> keyEstimate < Longest(items)
    ensures valSizes[0] != SIZE_TOO_SMALL && keySizes[0] != SIZE_TOO_SMALL ==>
              list == [] || LeastCut(|list|, keyCut, valCut) > 0
    ensures ItemsOrdinary(list)
  {
    LongestAt(items, list, start, inclusive, count);
    var ks, vs := KeyOuts(list, ALL), ValOuts(list, ALL);
    assert forall i | 0 <= i < |list| :: ks[i] == Some(list[i].key) && vs[i] == Some(list[i].val);
    hide Longest, Listed, ListedColumn, KeyOuts, ValOuts;
    if valSizes[0] == SIZE_TOO_SMALL {
      FirstTooSmall(vs, vals, valSizes, valCut, valEstimate, count);
    } else {
    }
    if keySizes[0] == SIZE_TOO_SMALL {
      FirstTooSmall(ks, keys, keySizes, keyCut, keyEstimate, count);
    } else {
    }
  }

  lemma AllOrdinary(items: seq<Item>)
    requires ItemsOrdinary(items)
    ensures OutsOrdinary(items, ALL)
  {
  }

  /** Double an estimate until the first item fits, read pages until enough records are read or none are left. */
  method ScanRecords(db: Database, startKey: bytes, recordCount: nat, fields: Fields) returns (result: seq<Record>)
    requires db.Valid() && ItemsOrdinary(db.items) && NoEmptyKey(db.items)
    ensures result == DecodeAll(Expected(db.items, startKey, recordCount), fields)
  {
    hide *;
    ghost var items := db.items;
    ghost var longest := Longest(items);
    ghost var pos := First(items, startKey, true);
    db.ContentIs();
    AllOrdinary(items);
    ScanStart(items, startKey, recordCount, fields);
    var valEstimate: nat, keyEstimate: nat := 2048, 2048;
    var start, inclusive, count: nat := startKey, true, recordCount;
    result := [];
    while count != 0
      invariant valEstimate > 0 && keyEstimate > 0
      invariant Scanned(items, startKey, recordCount, fields, pos, count, start, inclusive, result)
      decreases count, longest - valEstimate, longest - keyEstimate
    {
      var keys, keySizes := new byte[keyEstimate * count], new nat[count];
      var vals, valSizes := new byte[valEstimate * count], new nat[count];
      ghost var list := Listed(items, ALL, start, inclusive, count);
      var keysUsed, valsUsed;
      ghost var keyCut, valCut;
      keysUsed, valsUsed, keyCut, valCut :=
        db.ListKeyValuesPacked(inclusive, start, ALL, keys, keySizes, vals, valSizes);
      FirstSlots(items, list, start, inclusive, count, keys[..], keySizes[..], keyCut, keyEstimate,
                 vals[..], valSizes[..], valCut, valEstimate);
      if valSizes[0] == SIZE_TOO_SMALL {
        valEstimate := 2 * valEstimate;
        continue;
      }
      if keySizes[0] == SIZE_TOO_SMALL {
        keyEstimate := 2 * keyEstimate;
        continue;
      }
      var records, lastKey, ended :=
        ReadPage(keys[..], keySizes[..], vals[..], valSizes[..], fields, list, keyCut, valCut);
      ghost var n := LeastCut(|list|, keyCut, valCut);
      ScanPage(items, startKey, recordCount, fields, pos, count, start, inclusive, result, list, n, records, lastKey);
      result := result + records;
      if ended {
        ScanDone(items, startKey, recordCount, fields, pos + n, count - n,
                 if n > 0 then lastKey else start, n == 0 && inclusive, result);
        return;
      }
      count := count - |records|;
      pos := pos + n;
      ScanEnough(items, startKey, recordCount, fields, pos, count, lastKey, start, result);
      if count != 0 {
        start := lastKey;
      }
      inclusive := false;
    }
    ScanDone(items, startKey, recordCount, fields, pos, count, start, inclusive, result);
  }
}
