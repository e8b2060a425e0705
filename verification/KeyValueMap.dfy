/**
 A key-value store as a value: the unordered content, and its items in the key order of the map backend. Searching,
 storing and removing on the sorted items are proved to be looking up, updating and removing on the content.
 */
module KeyValueMap {
  import opened Basics
  import opened KeyCodec

  type KeyValues = map<bytes, bytes>

  datatype Item = Item(key: bytes, val: bytes)

  predicate Sorted(items: seq<Item>) {
    forall i, j | 0 <= i < j < |items| :: DefaultMemCmp(items[i].key, items[j].key)
  }

  /** What the items say about each key. */
  function AsMap(items: seq<Item>): KeyValues {
    if items == [] then map[]
    else AsMap(items[..|items| - 1])[items[|items| - 1].key := items[|items| - 1].val]
  }

  function Lookup(m: KeyValues, key: bytes): Option<bytes> {
    if key in m then Some(m[key]) else None
  }

  // ---- Searching ----

  /** std::map::lower_bound: the first item from position `i` on whose key is not below `key`. */
  function LowerBound(items: seq<Item>, key: bytes, i: nat): (r: nat)
    requires i <= |items|
    ensures i <= r <= |items|
    decreases |items| - i
  {
    if i == |items| || !DefaultMemCmp(items[i].key, key) then i else LowerBound(items, key, i + 1)
  }

  /** std::map::upper_bound: the first item from position `i` on whose key is above `key`. */
  function UpperBound(items: seq<Item>, key: bytes, i: nat): (r: nat)
    requires i <= |items|
    ensures i <= r <= |items|
    decreases |items| - i
  {
    if i == |items| || DefaultMemCmp(key, items[i].key) then i else UpperBound(items, key, i + 1)
  }

  predicate HasKey(items: seq<Item>, i: nat, key: bytes) {
    i < |items| && items[i].key == key
  }

  function Find(items: seq<Item>, key: bytes): Option<bytes> {
    var i := LowerBound(items, key, 0);
    if HasKey(items, i, key) then Some(items[i].val) else None
  }

  function Insert(items: seq<Item>, key: bytes, val: bytes): seq<Item> {
    var i := LowerBound(items, key, 0);
    if HasKey(items, i, key) then items[i := Item(key, val)] else items[..i] + [Item(key, val)] + items[i..]
  }

  function Delete(items: seq<Item>, key: bytes): seq<Item> {
    var i := LowerBound(items, key, 0);
    if HasKey(items, i, key) then items[..i] + items[i + 1..] else items
  }

  // ---- The order ----

  /** Items before the lower bound are below the key, the others are not. */
  lemma {:induction false} LowerBoundSplits(items: seq<Item>, key: bytes, i: nat)
    requires Sorted(items) && i <= |items|
    requires forall k | 0 <= k < i :: DefaultMemCmp(items[k].key, key)
    ensures var r := LowerBound(items, key, i);
            && (forall k | 0 <= k < r :: DefaultMemCmp(items[k].key, key))
            && (forall k | r <= k < |items| :: !DefaultMemCmp(items[k].key, key))
    decreases |items| - i
  {
    hide DefaultMemCmp;
    if i < |items| && DefaultMemCmp(items[i].key, key) {
      LowerBoundSplits(items, key, i + 1);
    } else {
      forall k | i <= k < |items| ensures !DefaultMemCmp(items[k].key, key) {
        if k != i && DefaultMemCmp(items[k].key, key) {
          OrderTransitive(items[i].key, items[k].key, key);
        }
      }
    }
  }

  /** Items from the upper bound on are above the key, the others are not. */
  lemma {:induction false} UpperBoundSplits(items: seq<Item>, key: bytes, i: nat)
    requires Sorted(items) && i <= |items|
    requires forall k | 0 <= k < i :: !DefaultMemCmp(key, items[k].key)
    ensures var r := UpperBound(items, key, i);
            && (forall k | 0 <= k < r :: !DefaultMemCmp(key, items[k].key))
            && (forall k | r <= k < |items| :: DefaultMemCmp(key, items[k].key))
    decreases |items| - i
  {
    hide DefaultMemCmp;
    if i < |items| && !DefaultMemCmp(key, items[i].key) {
      UpperBoundSplits(items, key, i + 1);
    } else {
      forall k | i <= k < |items| ensures DefaultMemCmp(key, items[k].key) {
        if k != i {
          OrderTransitive(key, items[i].key, items[k].key);
        }
      }
    }
  }

  lemma KeysDiffer(items: seq<Item>, i: nat, j: nat)
    requires Sorted(items) && i < |items| && j < |items| && items[i].key == items[j].key
    ensures i == j
  {
    hide DefaultMemCmp;
    OrderTotal(items[i].key, items[i].key);
  }

  /** A key, if present, sits at its lower bound. */
  lemma KeyAtLowerBound(items: seq<Item>, key: bytes, i: nat)
    requires Sorted(items) && HasKey(items, i, key)
    ensures LowerBound(items, key, 0) == i
  {
    hide DefaultMemCmp;
    var r := LowerBound(items, key, 0);
    LowerBoundSplits(items, key, 0);
    OrderTotal(key, key);
    if HasKey(items, r, key) {
      KeysDiffer(items, i, r);
    }
  }

  // ---- Items and content ----

  lemma {:induction false} AsMapKeys(items: seq<Item>)
    ensures forall key :: key in AsMap(items) <==> exists i: nat :: HasKey(items, i, key)
  {
    if items != [] {
      var front := items[..|items| - 1];
      AsMapKeys(front);
      forall key ensures key in AsMap(items) <==> exists i: nat :: HasKey(items, i, key) {
        if i: nat :| HasKey(items, i, key) {
          assert i < |front| ==> HasKey(front, i, key);
        }
        if i: nat :| HasKey(front, i, key) {
          assert HasKey(items, i, key);
        }
        if key == items[|items| - 1].key {
          assert HasKey(items, |items| - 1, key);
        }
      }
    } else {
      assert forall key, i: nat :: !HasKey(items, i, key);
    }
  }

  lemma {:induction false} AsMapAt(items: seq<Item>, i: nat)
    requires Sorted(items) && i < |items|
    ensures items[i].key in AsMap(items) && AsMap(items)[items[i].key] == items[i].val
  {
    var n := |items| - 1;
    if i < n {
      AsMapAt(items[..n], i);
      if items[i].key == items[n].key {
        KeysDiffer(items, i, n);
      }
    }
  }

  lemma FindIsLookup(items: seq<Item>, key: bytes)
    requires Sorted(items)
    ensures Find(items, key) == Lookup(AsMap(items), key)
  {
    hide DefaultMemCmp, LowerBound, AsMap;
    var r := LowerBound(items, key, 0);
    AsMapKeys(items);
    if HasKey(items, r, key) {
      AsMapAt(items, r);
    } else if key in AsMap(items) {
      var i: nat :| HasKey(items, i, key);
      KeyAtLowerBound(items, key, i);
    }
  }

  lemma InsertSorted(items: seq<Item>, key: bytes, val: bytes)
    requires Sorted(items)
    ensures Sorted(Insert(items, key, val))
  {
    hide DefaultMemCmp, LowerBound;
    var r := LowerBound(items, key, 0);
    LowerBoundSplits(items, key, 0);
    if !HasKey(items, r, key) {
      forall k | r <= k < |items| ensures DefaultMemCmp(key, items[k].key) {
        OrderTotal(items[k].key, key);
        if items[k].key == key {
          assert HasKey(items, k, key);
          KeyAtLowerBound(items, key, k);
        }
      }
    }
  }

  lemma DeleteSorted(items: seq<Item>, key: bytes)
    requires Sorted(items)
    ensures Sorted(Delete(items, key))
  {
  }

  /** The content of sorted items, entry by entry. */
  lemma SameContent(items: seq<Item>, m: KeyValues)
    requires Sorted(items)
    requires forall key :: Find(items, key) == Lookup(m, key)
    ensures AsMap(items) == m
  {
    hide Sorted, Find, AsMap;
    forall key ensures Lookup(AsMap(items), key) == Lookup(m, key) {
      FindIsLookup(items, key);
    }
    forall key | key in AsMap(items) ensures key in m && m[key] == AsMap(items)[key] {
      assert Lookup(AsMap(items), key) == Lookup(m, key);
    }
    forall key | key in m ensures key in AsMap(items) {
      assert Lookup(AsMap(items), key) == Lookup(m, key);
    }
  }

  lemma FindAt(items: seq<Item>, i: nat)
    requires Sorted(items) && i < |items|
    ensures Find(items, items[i].key) == Some(items[i].val)
  {
    KeyAtLowerBound(items, items[i].key, i);
  }

  lemma FindSome(items: seq<Item>, key: bytes) returns (i: nat)
    requires Find(items, key).Some?
    ensures i < |items| && items[i] == Item(key, Find(items, key).value)
  {
    i := LowerBound(items, key, 0);
  }

  /** Two sorted lists that hold the same items agree on every key. */
  lemma FindSame(items: seq<Item>, items': seq<Item>, key: bytes)
    requires Sorted(items) && Sorted(items')
    requires forall i: nat | i < |items| && items[i].key == key :: items[i] in items'
    requires forall i: nat | i < |items'| && items'[i].key == key :: items'[i] in items
    ensures Find(items, key) == Find(items', key)
  {
    hide Sorted, Find;
    if Find(items, key).Some? {
      var i := FindSome(items, key);
      var j :| 0 <= j < |items'| && items'[j] == items[i];
      FindAt(items', j);
    } else if Find(items', key).Some? {
      var i := FindSome(items', key);
      var j :| 0 <= j < |items| && items[j] == items'[i];
      FindAt(items, j);
    }
  }

  lemma FindInsert(items: seq<Item>, key: bytes, val: bytes, k: bytes)
    requires Sorted(items)
    ensures Find(Insert(items, key, val), k) == if k == key then Some(val) else Find(items, k)
  {
    InsertSorted(items, key, val);
    var r := LowerBound(items, key, 0);
    var t := Insert(items, key, val);
    assert t[r] == Item(key, val);
    hide Sorted, LowerBound;
    if k == key {
      FindAt(t, r);
    } else {
      forall i: nat | i < |items| && items[i].key == k ensures items[i] in t {
        assert items[i] == t[if i < r || HasKey(items, r, key) then i else i + 1];
      }
      forall i: nat | i < |t| && t[i].key == k ensures t[i] in items {
        assert t[i] == items[if i < r || HasKey(items, r, key) then i else i - 1];
      }
      FindSame(items, t, k);
    }
  }

  lemma FindDelete(items: seq<Item>, key: bytes, k: bytes)
    requires Sorted(items)
    ensures Find(Delete(items, key), k) == if k == key then None else Find(items, k)
  {
    DeleteSorted(items, key);
    var r := LowerBound(items, key, 0);
    var t := Delete(items, key);
    forall i: nat | i < |t| ensures t[i] in items && t[i].key != key {
      if HasKey(items, r, key) {
        var j := if i < r then i else i + 1;
        assert t[i] == items[j];
        if items[j].key == key {
          KeysDiffer(items, j, r);
        }
      } else if items[i].key == key {
        KeyAtLowerBound(items, key, i);
      }
    }
    if k == key {
    } else {
      forall i: nat | i < |items| && items[i].key == k ensures items[i] in t {
        if HasKey(items, r, key) {
          assert items[i] == t[if i < r then i else i - 1];
        }
      }
      hide Sorted, LowerBound;
      FindSame(items, t, k);
    }
  }

  /** The ordered map refines the plain one: storing and removing a key do what they do on the content. */
  lemma InsertRefines(items: seq<Item>, key: bytes, val: bytes)
    requires Sorted(items)
    ensures Sorted(Insert(items, key, val)) && AsMap(Insert(items, key, val)) == AsMap(items)[key := val]
  {
    InsertSorted(items, key, val);
    hide Sorted, Insert, AsMap, Find;
    forall k ensures Find(Insert(items, key, val), k) == Lookup(AsMap(items)[key := val], k) {
      FindInsert(items, key, val, k);
      FindIsLookup(items, k);
    }
    SameContent(Insert(items, key, val), AsMap(items)[key := val]);
  }

  lemma DeleteRefines(items: seq<Item>, key: bytes)
    requires Sorted(items)
    ensures Sorted(Delete(items, key)) && AsMap(Delete(items, key)) == AsMap(items) - {key}
  {
    DeleteSorted(items, key);
    hide Sorted, Delete, AsMap, Find;
    forall k ensures Find(Delete(items, key), k) == Lookup(AsMap(items) - {key}, k) {
      FindDelete(items, key, k);
      FindIsLookup(items, k);
    }
    SameContent(Delete(items, key), AsMap(items) - {key});
  }
}
