/** Snapshots of the array backend. */
module Snapshot {
  // The writer serialises every collection and the reader rebuilds them. Reading back what was written gives the
  // same documents in a compacted buffer.

  import opened Basics
  import opened Words
  import opened Documents
  import opened ArrayModel
  import ArrayCollection

  type Database = map<bytes, Coll>

  /** A collection whose numbers are machine words. */
  ghost predicate Storable(c: Coll) {
    WF(c) && |c.data| < KEY_NOT_FOUND && |c.sizes| < TWO_TO_THE_64
  }

  ghost predicate StorableDb(db: Database) {
    && |db| < TWO_TO_THE_64
    && forall name | name in db :: |name| < TWO_TO_THE_64 && Storable(db[name])
  }

  /** An enumeration of the collections, in the order the hash map yields them. */
  ghost predicate Enumerates(order: seq<bytes>, db: Database) {
    && Distinct(order) && |order| == |db|
    && (forall i | 0 <= i < |order| :: order[i] in db)
    && (forall name | name in db :: name in order)
  }

  // ---- Format ----

  function RowBytes(c: Coll, j: nat): bytes
    requires j < |c.sizes| == |c.offsets| && c.sizes[j] < TWO_TO_THE_64
    requires Holds(c, j) ==> c.offsets[j] + c.sizes[j] <= |c.data|
  {
    EncodeU64(c.sizes[j]) + (if Holds(c, j) then c.data[c.offsets[j]..c.offsets[j] + c.sizes[j]] else [])
  }

  ghost function RowsFrom(c: Coll, j: nat): bytes
    requires Storable(c) && j <= |c.sizes|
    decreases |c.sizes| - j
  {
    if j == |c.sizes| then [] else RowBytes(c, j) + RowsFrom(c, j + 1)
  }

  ghost function CollBytes(name: bytes, c: Coll): bytes
    requires Storable(c) && |name| < TWO_TO_THE_64
  {
    EncodeU64(|name|) + (name + (EncodeU64(|c.sizes|) + RowsFrom(c, 0)))
  }

  ghost function CollsFrom(db: Database, order: seq<bytes>, i: nat): bytes
    requires StorableDb(db) && Enumerates(order, db) && i <= |order|
    decreases |order| - i
  {
    if i == |order| then [] else CollBytes(order[i], db[order[i]]) + CollsFrom(db, order, i + 1)
  }

  ghost function SnapshotOf(db: Database, order: seq<bytes>): bytes
    requires StorableDb(db) && Enumerates(order, db)
  {
    EncodeU64(|db|) + CollsFrom(db, order, 0)
  }

  // ---- Compaction ----

  /** The bytes of row `j`. */
  ghost function RowDoc(c: Coll, j: nat): bytes
    requires Storable(c) && j < |c.sizes|
  {
    if Holds(c, j) then c.data[c.offsets[j]..c.offsets[j] + c.sizes[j]] else []
  }

  /** The collection as rebuilt from its first `j` rows. */
  ghost function CompactFirst(c: Coll, j: nat): (r: Coll)
    requires Storable(c) && j <= |c.sizes|
  {
    if j == 0 then Coll([], [], [])
    else
      var r := CompactFirst(c, j - 1);
      Coll(r.data + RowDoc(c, j - 1), r.offsets + [|r.data|], r.sizes + [c.sizes[j - 1]])
  }

  ghost function Compact(c: Coll): Coll
    requires Storable(c)
  {
    CompactFirst(c, |c.sizes|)
  }

  lemma CompactNext(c: Coll, j: nat)
    requires Storable(c) && j < |c.sizes|
    ensures var r := CompactFirst(c, j);
            CompactFirst(c, j + 1) == Coll(r.data + RowDoc(c, j), r.offsets + [|r.data|], r.sizes + [c.sizes[j]])
  {
  }

  /** Total size of the documents among the first `n`. */
  function LiveBytes(d: Docs, n: nat): nat
    requires n <= |d|
  {
    PackedSize(d, n)
  }

  /** The rebuilt collection holds the same documents and holes. */
  lemma {:induction false} CompactFirstKeeps(c: Coll, j: nat)
    requires Storable(c) && j <= |c.sizes|
    ensures var r := CompactFirst(c, j); WF(r) && DocsOf(r) == DocsOf(c)[..j] && r.sizes == c.sizes[..j]
  {
    hide *;
    if j == 0 {
      CompactNone(c);
    } else {
      CompactFirstKeeps(c, j - 1);
      CompactStep(c, j - 1, CompactFirst(c, j - 1));
    }
  }

  lemma CompactNone(c: Coll)
    requires Storable(c)
    ensures var r := CompactFirst(c, 0); WF(r) && DocsOf(r) == DocsOf(c)[..0] && r.sizes == c.sizes[..0]
  {
    hide Storable, WF;
    assert CompactFirst(c, 0) == Coll([], [], []);
    NoRows();
  }

  lemma NoRows()
    ensures WF(Coll([], [], [])) && DocsOf(Coll([], [], [])) == []
  {
  }

  lemma RowIsDocument(c: Coll, j: nat)
    requires Storable(c) && j < |c.sizes|
    ensures RowDoc(c, j) == if DocsOf(c)[j].Some? then DocsOf(c)[j].value else []
  {
  }

  /** Its buffer is the documents end to end and nothing else. */
  lemma {:induction false} CompactData(c: Coll, j: nat)
    requires Storable(c) && j <= |c.sizes|
    ensures CompactFirst(c, j).data == PackedBytes(DocsOf(c), j)
  {
    hide Storable, DocsOf, RowDoc;
    if j > 0 {
      CompactData(c, j - 1);
      RowIsDocument(c, j - 1);
    }
  }

  lemma RowLive(c: Coll, j: nat)
    requires Storable(c) && j < |c.sizes| && Holds(c, j)
    ensures WF(c) && |RowDoc(c, j)| == c.sizes[j] < KEY_NOT_FOUND && DocsOf(c)[j] == Some(RowDoc(c, j))
  {
    assert c.offsets[j] + c.sizes[j] <= |c.data|;
  }

  lemma CompactLive(c: Coll, j: nat, before: Coll)
    requires Storable(c) && j < |c.sizes| && Holds(c, j)
    requires WF(before) && DocsOf(before) == DocsOf(c)[..j]
    ensures var doc := RowDoc(c, j);
            var r := Coll(before.data + doc, before.offsets + [|before.data|], before.sizes + [c.sizes[j]]);
            WF(r) && DocsOf(r) == DocsOf(c)[..j + 1]
  {
    var doc := RowDoc(c, j);
    RowLive(c, j);
    hide Storable, DocsOf, WF, RowDoc, Holds;
    GrowData(before, doc);
    var grown := before.(data := before.data + doc);
    assert grown.data[|before.data|..|before.data| + |doc|] == doc;
    PushRow(grown, |before.data|, |doc|);
    assert DocsOf(c)[..j] + [Some(doc)] == DocsOf(c)[..j + 1];
  }

  lemma CompactHole(c: Coll, j: nat, before: Coll)
    requires Storable(c) && j < |c.sizes| && !Holds(c, j)
    requires WF(before) && DocsOf(before) == DocsOf(c)[..j]
    ensures var r := Coll(before.data + RowDoc(c, j), before.offsets + [|before.data|], before.sizes + [c.sizes[j]]);
            WF(r) && DocsOf(r) == DocsOf(c)[..j + 1]
  {
    assert before.data + [] == before.data;
    assert DocsOf(c)[..j] + [None] == DocsOf(c)[..j + 1];
  }

  lemma CompactStep(c: Coll, j: nat, before: Coll)
    requires Storable(c) && j < |c.sizes| && before == CompactFirst(c, j)
    requires WF(before) && DocsOf(before) == DocsOf(c)[..j] && before.sizes == c.sizes[..j]
    ensures var r := CompactFirst(c, j + 1); WF(r) && DocsOf(r) == DocsOf(c)[..j + 1] && r.sizes == c.sizes[..j + 1]
  {
    hide CompactFirst, DocsOf, RowDoc;
    CompactNext(c, j);
    if Holds(c, j) {
      CompactLive(c, j, before);
    } else {
      CompactHole(c, j, before);
    }
    assert c.sizes[..j] + [c.sizes[j]] == c.sizes[..j + 1];
  }

  /** Snapshot and recovery of one collection: same ids, same holes, same bytes, no wasted space. */
  lemma CompactKeeps(c: Coll)
    requires Storable(c)
    ensures var r := Compact(c);
            && WF(r) && DocsOf(r) == DocsOf(c) && r.sizes == c.sizes
            && |r.data| == LiveBytes(DocsOf(c), |c.sizes|)
  {
    CompactFirstKeeps(c, |c.sizes|);
    CompactData(c, |c.sizes|);
    assert DocsOf(c)[..|c.sizes|] == DocsOf(c);
    assert c.sizes[..|c.sizes|] == c.sizes;
  }

  // ---- Writing ----

  lemma RowsNext(c: Coll, j: nat)
    requires Storable(c) && j < |c.sizes|
    ensures j < |c.offsets| && c.sizes[j] < TWO_TO_THE_64
    ensures c.sizes[j] != KEY_NOT_FOUND ==> c.offsets[j] + c.sizes[j] <= |c.data|
    ensures var doc := if c.sizes[j] == KEY_NOT_FOUND then [] else c.data[c.offsets[j]..c.offsets[j] + c.sizes[j]];
            doc == RowDoc(c, j) && RowsFrom(c, j) == (EncodeU64(c.sizes[j]) + doc) + RowsFrom(c, j + 1)
  {
    assert Holds(c, j) <==> c.sizes[j] != KEY_NOT_FOUND;
    if c.sizes[j] != KEY_NOT_FOUND {
      assert c.offsets[j] + c.sizes[j] <= |c.data| < KEY_NOT_FOUND;
    }
  }

  lemma RowSize(c: Coll, j: nat)
    requires Storable(c) && j < |c.sizes|
    ensures |DocsOf(c)| == |c.sizes|
    ensures |RowDoc(c, j)| == PackedSize(DocsOf(c), j + 1) - PackedSize(DocsOf(c), j)
  {
    RowIsDocument(c, j);
  }

  lemma {:induction false} RowsSize(c: Coll, j: nat)
    requires Storable(c) && j <= |c.sizes| == |DocsOf(c)|
    ensures |RowsFrom(c, j)| == 8 * (|c.sizes| - j) + PackedSize(DocsOf(c), |c.sizes|) - PackedSize(DocsOf(c), j)
    decreases |c.sizes| - j
  {
    if j == |c.sizes| {
      RowsEnd(c);
    } else {
      RowsNext(c, j);
      RowSize(c, j);
      hide *;
      RowsSize(c, j + 1);
    }
  }

  /** A collection takes two words and its name, a word for each id, and the bytes of its documents: no hole's bytes. */
  lemma CollSize(name: bytes, c: Coll)
    requires Storable(c) && |name| < TWO_TO_THE_64
    ensures |DocsOf(c)| == |c.sizes|
    ensures |CollBytes(name, c)| == 16 + |name| + 8 * |c.sizes| + LiveBytes(DocsOf(c), |c.sizes|)
  {
    RowsSize(c, 0);
    assert PackedSize(DocsOf(c), 0) == 0;
    hide RowsFrom, EncodeU64, DocsOf, PackedSize;
  }

  lemma Regroup(a: bytes, b: bytes, c: bytes, rest: bytes)
    ensures a + ((b + c) + rest) == ((a + b) + c) + rest
    ensures (b + c) + rest == b + (c + rest) && a + [] == a
  {
  }

  method WriteRows(c: Coll) returns (out: bytes)
    requires Storable(c)
    ensures out == RowsFrom(c, 0)
  {
    hide *;
    RowsEnd(c);
    out := [];
    var i: nat := 0;
    while i < |c.sizes|
      invariant i <= |c.sizes| && out + RowsFrom(c, i) == RowsFrom(c, 0)
    {
      RowsNext(c, i);
      var docSize, docOffset := c.sizes[i], c.offsets[i];
      var row := EncodeU64(docSize);
      if docSize != KEY_NOT_FOUND {
        row := row + c.data[docOffset..docOffset + docSize];
      } else {
        Regroup(row, [], [], []);
      }
      Regroup([], out, row, RowsFrom(c, i + 1));
      out := out + row;
      i := i + 1;
    }
    Regroup(out, [], [], []);
  }

  method WriteCollection(out: bytes, name: bytes, c: Coll) returns (out': bytes)
    requires Storable(c) && |name| < TWO_TO_THE_64
    ensures out' == out + CollBytes(name, c)
  {
    assert |c.sizes| < TWO_TO_THE_64;
    hide RowsFrom, Storable;
    out' := out + EncodeU64(|name|);
    out' := out' + name;
    out' := out' + EncodeU64(|c.sizes|);
    var rows := WriteRows(c);
    out' := out' + rows;
  }

  lemma CollsNext(db: Database, order: seq<bytes>, i: nat)
    requires StorableDb(db) && Enumerates(order, db) && i < |order|
    ensures order[i] in db && Storable(db[order[i]]) && |order[i]| < TWO_TO_THE_64
    ensures CollsFrom(db, order, i) == CollBytes(order[i], db[order[i]]) + CollsFrom(db, order, i + 1)
  {
  }

  lemma CollsEnd(db: Database, order: seq<bytes>)
    requires StorableDb(db) && Enumerates(order, db)
    ensures |db| == |order| < TWO_TO_THE_64
    ensures CollsFrom(db, order, |order|) == []
    ensures SnapshotOf(db, order) == EncodeU64(|db|) + CollsFrom(db, order, 0)
  {
  }

  method WriteSnapshot(db: Database, order: seq<bytes>) returns (out: bytes)
    requires StorableDb(db) && Enumerates(order, db)
    ensures out == SnapshotOf(db, order)
  {
    hide *;
    CollsEnd(db, order);
    out := EncodeU64(|db|);
    var i := 0;
    while i < |order|
      invariant i <= |order| && out + CollsFrom(db, order, i) == SnapshotOf(db, order)
    {
      CollsNext(db, order, i);
      out := WriteCollection(out, order[i], db[order[i]]);
      i := i + 1;
    }
  }

  // ---- Reading ----

  lemma ReadWord(input: bytes, pos: nat, n: u64, rest: bytes)
    requires pos <= |input| && input[pos..] == EncodeU64(n) + rest
    ensures pos + 8 <= |input| && WordAt(input, pos) == n && input[pos + 8..] == rest
  {
    assert input[pos..][..8] == EncodeU64(n);
    assert input[pos..pos + 8] == input[pos..][..8];
    assert input[pos + 8..] == input[pos..][8..];
  }

  lemma RowsEnd(c: Coll)
    requires Storable(c)
    ensures RowsFrom(c, |c.sizes|) == [] && CompactFirst(c, 0) == Coll([], [], [])
            && CompactFirst(c, |c.sizes|) == Compact(c)
  {
  }

  /** Rebuild one collection from its rows; `c` is the collection they were written from. */
  method ReadRows(input: bytes, start: nat, count: nat, ghost c: Coll, ghost rest: bytes) returns (r: Coll, pos: nat)
    requires Storable(c) && count == |c.sizes| && start <= |input| && input[start..] == RowsFrom(c, 0) + rest
    ensures r == Compact(c) && pos <= |input| && input[pos..] == rest
  {
    hide *;
    RowsEnd(c);
    var data: bytes, offsets: seq<nat>, sizes: seq<nat> := [], [], [];
    var docOffset: nat := 0;
    pos := start;
    var j := 0;
    while j < count
      invariant j <= count && pos <= |input| && input[pos..] == RowsFrom(c, j) + rest
      invariant Coll(data, offsets, sizes) == CompactFirst(c, j) && docOffset == |data|
    {
      NextRow(input, pos, c, j, rest);
      CompactNext(c, j);
      var docSize := WordAt(input, pos);
      pos := pos + 8;
      sizes := sizes + [docSize];
      offsets := offsets + [docOffset];
      j := j + 1;
      if docSize == KEY_NOT_FOUND {
        continue;
      }
      data := data + input[pos..pos + docSize];
      pos := pos + docSize;
      docOffset := docOffset + docSize;
    }
    r := Coll(data, offsets, sizes);
  }

  lemma NextRow(input: bytes, pos: nat, c: Coll, j: nat, rest: bytes)
    requires Storable(c) && j < |c.sizes| && pos <= |input| && input[pos..] == RowsFrom(c, j) + rest
    ensures var doc := RowDoc(c, j);
            && pos + 8 + |doc| <= |input| && WordAt(input, pos) == c.sizes[j]
            && input[pos + 8..pos + 8 + |doc|] == doc && input[pos + 8 + |doc|..] == RowsFrom(c, j + 1) + rest
            && (if c.sizes[j] == KEY_NOT_FOUND then doc == [] else |doc| == c.sizes[j])
  {
    RowsNext(c, j);
    hide *;
    var doc := RowDoc(c, j);
    var tail := RowsFrom(c, j + 1) + rest;
    Regroup([], EncodeU64(c.sizes[j]), doc, RowsFrom(c, j + 1));
    Regroup([], EncodeU64(c.sizes[j]), doc + RowsFrom(c, j + 1), rest);
    Regroup([], doc, RowsFrom(c, j + 1), rest);
    ReadWord(input, pos, c.sizes[j], doc + tail);
    ReadDocument(input, pos + 8, doc, tail);
  }

  lemma ReadDocument(input: bytes, pos: nat, doc: bytes, rest: bytes)
    requires pos <= |input| && input[pos..] == doc + rest
    ensures pos + |doc| <= |input| && input[pos..pos + |doc|] == doc && input[pos + |doc|..] == rest
  {
    assert input[pos..][..|doc|] == doc;
    assert input[pos..pos + |doc|] == input[pos..][..|doc|];
    assert input[pos + |doc|..] == input[pos..][|doc|..];
  }

  /** The database rebuilt from the first `i` collections of a snapshot. */
  ghost function RebuiltFirst(db: Database, order: seq<bytes>, i: nat): (r: Database)
    requires StorableDb(db) && Enumerates(order, db) && i <= |order|
  {
    if i == 0 then map[] else RebuiltFirst(db, order, i - 1)[order[i - 1] := Compact(db[order[i - 1]])]
  }

  lemma {:induction false} RebuiltHas(db: Database, order: seq<bytes>, i: nat)
    requires StorableDb(db) && Enumerates(order, db) && i <= |order|
    ensures var r := RebuiltFirst(db, order, i);
            && (forall name :: name in r <==> name in order[..i])
            && (forall name | name in r :: name in db && Storable(db[name]) && r[name] == Compact(db[name]))
  {
    hide *;
    RebuiltStep(db, order, i);
    if i > 0 {
      OrderNext(db, order, i - 1);
      RebuiltHas(db, order, i - 1);
    }
  }

  lemma RebuiltStep(db: Database, order: seq<bytes>, i: nat)
    requires StorableDb(db) && Enumerates(order, db) && i <= |order|
    ensures i == 0 ==> RebuiltFirst(db, order, i) == map[]
    ensures i > 0 ==>
              && order[i - 1] in db && Storable(db[order[i - 1]])
              && RebuiltFirst(db, order, i) == RebuiltFirst(db, order, i - 1)[order[i - 1] := Compact(db[order[i - 1]])]
  {
    hide Storable, Compact;
  }

  /** Recovery of a snapshot: exactly the collections that were written, each one compacted. */
  method Recover(input: bytes, ghost db: Database, ghost order: seq<bytes>) returns (r: Database)
    requires StorableDb(db) && Enumerates(order, db) && input == SnapshotOf(db, order)
    ensures r.Keys == db.Keys && forall name | name in db :: Storable(db[name]) && r[name] == Compact(db[name])
  {
    hide *;
    assert input[0..] == input;
    CollsEnd(db, order);
    RebuiltEnds(db, order);
    ReadWord(input, 0, |db|, CollsFrom(db, order, 0));
    var numCollections := WordAt(input, 0);
    var pos: nat := 8;
    r := map[];
    var i := 0;
    while i < numCollections
      invariant i <= numCollections == |order| && pos <= |input| && input[pos..] == CollsFrom(db, order, i)
      invariant r == RebuiltFirst(db, order, i)
    {
      CollsNext(db, order, i);
      RebuiltNext(db, order, i);
      var name, c;
      name, c, pos := ReadCollection(input, pos, order[i], db[order[i]], CollsFrom(db, order, i + 1));
      if name !in r {
        r := r[name := c];
      }
      i := i + 1;
    }
  }

  /** One collection of a snapshot; `name0` and `c0` are what was written. */
  method ReadCollection(input: bytes, start: nat, ghost name0: bytes, ghost c0: Coll, ghost rest: bytes)
    returns (name: bytes, c: Coll, pos: nat)
    requires Storable(c0) && |name0| < TWO_TO_THE_64 && start <= |input|
             && input[start..] == CollBytes(name0, c0) + rest
    ensures name == name0 && c == Compact(c0) && pos <= |input| && input[pos..] == rest
  {
    hide *;
    NextCollection(input, start, name0, c0, rest);
    var nameSize := WordAt(input, start);
    pos := start + 8;
    name := input[pos..pos + nameSize];
    pos := pos + nameSize;
    var collSize := WordAt(input, pos);
    pos := pos + 8;
    c, pos := ReadRows(input, pos, collSize, c0, rest);
  }

  lemma RebuiltNext(db: Database, order: seq<bytes>, i: nat)
    requires StorableDb(db) && Enumerates(order, db) && i < |order|
    ensures order[i] in db && Storable(db[order[i]]) && order[i] !in RebuiltFirst(db, order, i)
    ensures RebuiltFirst(db, order, i + 1) == RebuiltFirst(db, order, i)[order[i] := Compact(db[order[i]])]
  {
    RebuiltHas(db, order, i);
  }

  lemma RebuiltEnds(db: Database, order: seq<bytes>)
    requires StorableDb(db) && Enumerates(order, db)
    ensures RebuiltFirst(db, order, 0) == map[]
    ensures var r := RebuiltFirst(db, order, |order|);
            r.Keys == db.Keys
            && forall name | name in db :: name in r && Storable(db[name]) && r[name] == Compact(db[name])
  {
    RebuiltHas(db, order, |order|);
    var r := RebuiltFirst(db, order, |order|);
    OrderCovers(db, order, r.Keys);
    assert r.Keys == db.Keys;
    assert forall name | name in db :: name in r.Keys;
  }

  lemma NextCollection(input: bytes, pos: nat, name: bytes, c: Coll, rest: bytes)
    requires Storable(c) && |name| < TWO_TO_THE_64 && pos <= |input| && input[pos..] == CollBytes(name, c) + rest
    ensures pos + 16 + |name| <= |input| && WordAt(input, pos) == |name|
    ensures input[pos + 8..pos + 8 + |name|] == name && WordAt(input, pos + 8 + |name|) == |c.sizes|
    ensures input[pos + 16 + |name|..] == RowsFrom(c, 0) + rest
  {
    assert |c.sizes| < TWO_TO_THE_64;
    var body := RowsFrom(c, 0);
    assert CollBytes(name, c) == EncodeU64(|name|) + (name + (EncodeU64(|c.sizes|) + body));
    hide *;
    Regroup([], EncodeU64(|name|), name + (EncodeU64(|c.sizes|) + body), rest);
    Regroup([], name, EncodeU64(|c.sizes|) + body, rest);
    Regroup([], EncodeU64(|c.sizes|), body, rest);
    ReadWord(input, pos, |name|, name + (EncodeU64(|c.sizes|) + (body + rest)));
    ReadDocument(input, pos + 8, name, EncodeU64(|c.sizes|) + (body + rest));
    ReadWord(input, pos + 8 + |name|, |c.sizes|, body + rest);
  }

  /** Round trip: same collections, ids, holes and bytes; the buffer shrinks to the live documents. */
  method RoundTrip(db: Database, order: seq<bytes>) returns (r: Database)
    requires StorableDb(db) && Enumerates(order, db)
    ensures r.Keys == db.Keys
    ensures forall name | name in db ::
              && WF(r[name]) && DocsOf(r[name]) == DocsOf(db[name])
              && |r[name].data| == LiveBytes(DocsOf(db[name]), |db[name].sizes|)
  {
    var file := WriteSnapshot(db, order);
    r := Recover(file, db, order);
    forall name | name in db
      ensures && WF(r[name]) && DocsOf(r[name]) == DocsOf(db[name])
              && |r[name].data| == LiveBytes(DocsOf(db[name]), |db[name].sizes|)
    {
      CompactKeeps(db[name]);
    }
  }

  /** What recovery makes of a collection: the documents of before, and a count that starts at 0. */
  ghost predicate IsRecovered(c: ArrayCollection.Collection, was: Coll)
    reads c
  {
    WF(was) && c.Valid() && c.Contents() == DocsOf(was) && c.drift == 0 - LiveCount(DocsOf(was))
  }

  method RecoverOne(compacted: Coll, ghost was: Coll) returns (c: ArrayCollection.Collection)
    requires Storable(was) && compacted == Compact(was)
    ensures fresh(c) && IsRecovered(c, was)
  {
    CompactKeeps(was);
    hide WF, Compact;
    c := new ArrayCollection.Collection.Recovered(compacted);
  }

  lemma OrderCovers(db: Database, order: seq<bytes>, keys: set<bytes>)
    requires Enumerates(order, db) && forall name :: name in keys <==> name in order[..|order|]
    ensures keys == db.Keys
  {
    assert order[..|order|] == order;
  }

  lemma OrderNext(db: Database, order: seq<bytes>, i: nat)
    requires StorableDb(db) && Enumerates(order, db) && i < |order|
    ensures order[i] in db && Storable(db[order[i]])
    ensures forall name :: name in order[..i + 1] <==> name in order[..i] || name == order[i]
  {
    assert order[..i + 1] == order[..i] + [order[i]];
  }

  /** The collections that recovery builds. */
  method RecoverCollections(input: bytes, ghost db: Database, order: seq<bytes>)
    returns (r: map<bytes, ArrayCollection.Collection>)
    requires StorableDb(db) && Enumerates(order, db) && input == SnapshotOf(db, order)
    ensures r.Keys == db.Keys
    ensures forall name | name in db :: fresh(r[name]) && IsRecovered(r[name], db[name])
  {
    hide *;
    var colls := Recover(input, db, order);
    r := map[];
    var i := 0;
    while i < |order|
      invariant 0 <= i <= |order| && forall name :: name in r <==> name in order[..i]
      invariant forall name | name in r :: name in db && fresh(r[name]) && IsRecovered(r[name], db[name])
    {
      OrderNext(db, order, i);
      var c := RecoverOne(colls[order[i]], db[order[i]]);
      r := r[order[i] := c];
      i := i + 1;
    }
    OrderCovers(db, order, r.Keys);
  }

  /** A recovered collection reports the number of its documents exactly when it has none. */
  method RecoveredCount(input: bytes, ghost db: Database, order: seq<bytes>, name: bytes) returns (size: nat)
    requires StorableDb(db) && Enumerates(order, db) && input == SnapshotOf(db, order) && name in db
    ensures WF(db[name])
    ensures size == LiveCount(DocsOf(db[name])) <==> AllHoles(DocsOf(db[name]))
  {
    hide *;
    var colls := RecoverCollections(input, db, order);
    SizeOfRecovered(colls[name], db[name]);
    size := colls[name].CollSize();
  }

  lemma SizeOfRecovered(c: ArrayCollection.Collection, was: Coll)
    requires IsRecovered(c, was)
    ensures WF(was) && c.Valid() && Wrap(c.drift + LiveCount(c.Contents())) == 0
    ensures 0 == LiveCount(DocsOf(was)) <==> AllHoles(DocsOf(was))
  {
    LiveCountZero(DocsOf(was));
  }

  predicate AllHoles(d: Docs) {
    forall id | 0 <= id < |d| :: d[id].None?
  }

  lemma {:induction false} LiveCountZero(d: Docs)
    ensures LiveCount(d) == 0 <==> AllHoles(d)
  {
    if d != [] {
      LiveCountZero(d[..|d| - 1]);
      assert forall id | 0 <= id < |d| - 1 :: d[..|d| - 1][id] == d[id];
    }
  }
}
