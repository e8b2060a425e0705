/** Records of the benchmark client: field and value strings, each behind its length, end to end in one value. */
module RecordCodec {
  import opened Basics
  import opened Buffers
  import opened Words

  type Record = map<bytes, bytes>

  /** A field and its value. A record to write is a list of them, in the order its hash map lists them. */
  datatype Entry = Entry(field: bytes, value: bytes)

  /** The fields a reader asks for, or all of them. */
  type Fields = Option<set<bytes>>

  predicate Fits(e: Entry) {
    |e.field| < TWO_TO_THE_64 && |e.value| < TWO_TO_THE_64
  }

  predicate Storable(entries: seq<Entry>) {
    forall i | 0 <= i < |entries| :: Fits(entries[i])
  }

  // ---- Layout ----

  function EncodeString(s: bytes): bytes
    requires |s| < TWO_TO_THE_64
  {
    EncodeU64(|s|) + s
  }

  function EncodeEntry(e: Entry): (r: bytes)
    requires Fits(e)
    ensures |r| == 16 + |e.field| + |e.value|
  {
    EncodeString(e.field) + EncodeString(e.value)
  }

  function Encode(entries: seq<Entry>): bytes
    requires Storable(entries)
  {
    if entries == [] then [] else EncodeEntry(entries[0]) + Encode(entries[1..])
  }

  /** The string at the beginning of `data`, when all of it is there. */
  function FirstString(data: bytes): (r: Option<bytes>)
    ensures r.Some? ==> 8 + |r.value| <= |data|
  {
    if |data| < 8 then None
    else
      var size := DecodeU64(data[..8]);
      if |data| - 8 < size then None else Some(data[8..8 + size])
  }

  /** The complete entries at the beginning of arbitrary bytes. */
  function Parse(data: bytes): seq<Entry>
    decreases |data|
  {
    var field := FirstString(data);
    if field.None? then []
    else
      var rest := data[8 + |field.value|..];
      var value := FirstString(rest);
      if value.None? then [] else [Entry(field.value, value.value)] + Parse(rest[8 + |value.value|..])
  }

  lemma FirstOfEncoded(s: bytes, rest: bytes)
    requires |s| < TWO_TO_THE_64
    ensures FirstString(EncodeString(s) + rest) == Some(s)
    ensures (EncodeString(s) + rest)[8 + |s|..] == rest
  {
    var data := EncodeString(s) + rest;
    assert data[..8] == EncodeU64(|s|);
    assert data[8..8 + |s|] == s;
  }

  lemma ParseOne(e: Entry, rest: bytes)
    requires Fits(e)
    ensures Parse(EncodeEntry(e) + rest) == [e] + Parse(rest)
  {
    var tail := EncodeString(e.value) + rest;
    assert EncodeEntry(e) + rest == EncodeString(e.field) + tail;
    hide EncodeString, FirstString;
    FirstOfEncoded(e.field, tail);
    FirstOfEncoded(e.value, rest);
  }

  lemma EncodeCons(e: Entry, rest: seq<Entry>)
    requires Fits(e) && Storable(rest)
    ensures Storable([e] + rest) && Encode([e] + rest) == EncodeEntry(e) + Encode(rest)
  {
    hide EncodeEntry, Fits;
    assert ([e] + rest)[1..] == rest;
  }

  lemma StorableTail(entries: seq<Entry>)
    requires Storable(entries) && entries != []
    ensures Fits(entries[0]) && Storable(entries[1..]) && entries == [entries[0]] + entries[1..]
  {
  }

  lemma EncodeFirst(entries: seq<Entry>, rest: bytes)
    requires Storable(entries) && entries != []
    ensures Fits(entries[0]) && Storable(entries[1..])
    ensures Encode(entries) == EncodeEntry(entries[0]) + Encode(entries[1..])
    ensures Encode(entries) + rest == EncodeEntry(entries[0]) + (Encode(entries[1..]) + rest)
    ensures entries == [entries[0]] + entries[1..]
  {
    hide *;
    StorableTail(entries);
    EncodeCons(entries[0], entries[1..]);
  }

  lemma EncodeNone(rest: bytes)
    ensures Encode([]) + rest == rest
  {
  }

  /** Whatever follows an encoded record, its entries come back first. */
  lemma {:induction false} ParseEncoded(entries: seq<Entry>, rest: bytes)
    requires Storable(entries)
    ensures Parse(Encode(entries) + rest) == entries + Parse(rest)
  {
    hide *;
    if entries == [] {
      EncodeNone(rest);
    } else {
      var e, tail, more := entries[0], entries[1..], Parse(rest);
      EncodeFirst(entries, rest);
      ParseOne(e, Encode(tail) + rest);
      ParseEncoded(tail, rest);
      assert [e] + (tail + more) == ([e] + tail) + more;
    }
  }

  lemma ParseNothing(data: bytes)
    requires |data| < 8
    ensures Parse(data) == []
  {
  }

  /** A string cut short is not there. */
  lemma FirstOfTruncated(s: bytes, n: nat)
    requires |s| < TWO_TO_THE_64 && n < 8 + |s|
    ensures FirstString(EncodeString(s)[..n]) == None
  {
    if n >= 8 {
      assert EncodeString(s)[..n][..8] == EncodeU64(|s|);
    }
  }

  lemma ParseTruncatedOne(e: Entry, n: nat)
    requires Fits(e) && n < 16 + |e.field| + |e.value|
    ensures Parse(EncodeEntry(e)[..n]) == []
  {
    var f, v := EncodeString(e.field), EncodeString(e.value);
    var data := (f + v)[..n];
    hide FirstString;
    if n < |f| {
      assert data == f[..n];
      FirstOfTruncated(e.field, n);
    } else {
      assert data == f + v[..n - |f|];
      FirstOfEncoded(e.field, v[..n - |f|]);
      FirstOfTruncated(e.value, n - |f|);
    }
  }

  /** How many entries lie completely in the first `n` bytes of a record. */
  function CompleteWithin(entries: seq<Entry>, n: nat): (k: nat)
    requires Storable(entries)
    ensures k <= |entries|
  {
    if entries == [] || n < |EncodeEntry(entries[0])| then 0
    else 1 + CompleteWithin(entries[1..], n - |EncodeEntry(entries[0])|)
  }

  /** A record cut anywhere gives the entries that are complete before the cut, and never a wrong one. */
  lemma {:induction false} ParseTruncated(entries: seq<Entry>, n: nat)
    requires Storable(entries) && n <= |Encode(entries)|
    ensures Parse(Encode(entries)[..n]) == entries[..CompleteWithin(entries, n)]
  {
    hide *;
    CompleteStep(entries, n);
    if entries == [] {
      ParseNothing([]);
    } else {
      var e, rest := entries[0], entries[1..];
      EncodeFirst(entries, []);
      if n < |EncodeEntry(e)| {
        assert Encode(entries)[..n] == EncodeEntry(e)[..n];
        ParseTruncatedOne(e, n);
      } else {
        ParseTruncated(rest, n - |EncodeEntry(e)|);
        ParsePastFirst(entries, n);
      }
    }
  }

  lemma CompleteStep(entries: seq<Entry>, n: nat)
    requires Storable(entries)
    ensures entries == [] ==> CompleteWithin(entries, n) == 0 && Encode(entries) == []
    ensures entries != [] && n < |EncodeEntry(entries[0])| ==> CompleteWithin(entries, n) == 0
    ensures entries != [] && n >= |EncodeEntry(entries[0])| ==>
              var k := CompleteWithin(entries[1..], n - |EncodeEntry(entries[0])|);
              CompleteWithin(entries, n) == 1 + k && entries[..1 + k] == [entries[0]] + entries[1..][..k]
  {
    hide EncodeEntry;
  }

  lemma ParsePastFirst(entries: seq<Entry>, n: nat)
    requires Storable(entries) && entries != [] && |EncodeEntry(entries[0])| <= n <= |Encode(entries)|
    requires n - |EncodeEntry(entries[0])| <= |Encode(entries[1..])|
    ensures Parse(Encode(entries)[..n]) ==
            [entries[0]] + Parse(Encode(entries[1..])[..n - |EncodeEntry(entries[0])|])
  {
    hide Encode, EncodeEntry, Parse, Fits;
    var head, m := EncodeEntry(entries[0]), n - |EncodeEntry(entries[0])|;
    EncodeFirst(entries, []);
    assert Encode(entries)[..n] == head + Encode(entries[1..])[..m];
    ParseOne(entries[0], Encode(entries[1..])[..m]);
  }

  // ---- Records ----

  predicate Asked(fields: Fields, field: bytes) {
    fields.None? || field in fields.value
  }

  /** emplace: the first value for a field stays. */
  function Emplace(record: Record, e: Entry, fields: Fields): Record {
    if !Asked(fields, e.field) || e.field in record then record else record[e.field := e.value]
  }

  function Collect(record: Record, entries: seq<Entry>, fields: Fields): Record
    decreases |entries|
  {
    if entries == [] then record else Collect(Emplace(record, entries[0], fields), entries[1..], fields)
  }

  /** The record that the entries stand for: each field with its first value. */
  predicate IsRecordOf(record: Record, entries: seq<Entry>, fields: Fields) {
    && (forall field | field in record :: Asked(fields, field))
    && (forall i | 0 <= i < |entries| && Asked(fields, entries[i].field) :: entries[i].field in record)
    && (forall field | field in record :: exists i :: 0 <= i < |entries| && FirstAt(entries, i, field)
                                                      && entries[i].value == record[field])
  }

  /** Entry `i` is the first one for the field. */
  predicate FirstAt(entries: seq<Entry>, i: int, field: bytes) {
    0 <= i < |entries| && entries[i].field == field && forall j | 0 <= j < i :: entries[j].field != field
  }

  lemma {:induction false} CollectKeeps(record: Record, entries: seq<Entry>, fields: Fields, field: bytes)
    ensures field in record ==>
            field in Collect(record, entries, fields) && Collect(record, entries, fields)[field] == record[field]
    ensures field in Collect(record, entries, fields) && field !in record ==>
              Asked(fields, field)
              && exists i :: FirstAt(entries, i, field) && entries[i].value == Collect(record, entries, fields)[field]
    ensures field !in Collect(record, entries, fields) && Asked(fields, field) ==>
              forall i | 0 <= i < |entries| :: entries[i].field != field
    decreases |entries|
  {
    if entries != [] {
      var e, rest := entries[0], entries[1..];
      var next := Emplace(record, e, fields);
      CollectKeeps(next, rest, fields, field);
      var final := Collect(record, entries, fields);
      if field in final && field !in record {
        if e.field == field {
          assert FirstAt(entries, 0, field);
        } else {
          var i :| FirstAt(rest, i, field) && rest[i].value == final[field];
          assert entries[i + 1] == rest[i];
          assert FirstAt(entries, i + 1, field) by {
            assert forall j | 0 < j < i + 1 :: entries[j] == rest[j - 1];
          }
        }
      }
      assert forall i | 0 < i < |entries| :: entries[i] == rest[i - 1];
    }
  }

  lemma CollectIsRecord(entries: seq<Entry>, fields: Fields)
    ensures IsRecordOf(Collect(map[], entries, fields), entries, fields)
  {
    var record := Collect(map[], entries, fields);
    hide Collect;
    forall field | field in record
      ensures Asked(fields, field)
      ensures exists i :: 0 <= i < |entries| && FirstAt(entries, i, field) && entries[i].value == record[field]
    {
      CollectKeeps(map[], entries, fields, field);
    }
    forall i | 0 <= i < |entries| && Asked(fields, entries[i].field) ensures entries[i].field in record {
      CollectKeeps(map[], entries, fields, entries[i].field);
    }
  }

  /** Its entries in any order: a record is written out in the order its hash map happens to have. */
  predicate Lists(entries: seq<Entry>, record: Record) {
    && (forall i, j | 0 <= i < j < |entries| :: entries[i].field != entries[j].field)
    && (forall i | 0 <= i < |entries| :: entries[i].field in record && record[entries[i].field] == entries[i].value)
    && (forall field | field in record :: exists i :: 0 <= i < |entries| && entries[i].field == field)
  }

  function Restrict(record: Record, fields: Fields): Record {
    map field | field in record && Asked(fields, field) :: record[field]
  }

  lemma ListedRecord(entries: seq<Entry>, record: Record, read: Record, fields: Fields)
    requires Lists(entries, record) && IsRecordOf(read, entries, fields)
    ensures read == Restrict(record, fields)
  {
    forall field | field in read ensures field in record && read[field] == record[field] {
      var i :| 0 <= i < |entries| && FirstAt(entries, i, field) && entries[i].value == read[field];
    }
    forall field | field in record && Asked(fields, field) ensures field in read {
      var i :| 0 <= i < |entries| && entries[i].field == field;
    }
  }

  /** Reading back a written record gives it again, restricted to the fields asked for. */
  lemma RoundTrip(entries: seq<Entry>, record: Record, fields: Fields)
    requires Storable(entries) && Lists(entries, record)
    ensures Collect(map[], Parse(Encode(entries)), fields) == Restrict(record, fields)
  {
    hide *;
    ParseEncoded(entries, []);
    ParseNothing([]);
    assert Encode(entries) + [] == Encode(entries);
    assert entries + [] == entries;
    CollectIsRecord(entries, fields);
    ListedRecord(entries, record, Collect(map[], entries, fields), fields);
  }

  // ---- The client's loops ----

  function RequiredSize(entries: seq<Entry>): nat {
    if entries == [] then 0 else 16 + |entries[0].field| + |entries[0].value| + RequiredSize(entries[1..])
  }

  lemma {:induction false} RequiredIsSize(entries: seq<Entry>)
    requires Storable(entries)
    ensures |Encode(entries)| == RequiredSize(entries)
  {
    if entries != [] {
      RequiredIsSize(entries[1..]);
    }
  }

  /** One string at `ptr`: its length, then its bytes. */
  method WriteString(result: array<byte>, ptr: nat, s: bytes) returns (next: nat)
    requires |s| < TWO_TO_THE_64 && ptr + 8 + |s| <= result.Length
    modifies result
    ensures next == ptr + 8 + |s| && result[..] == Splice(old(result[..]), ptr, EncodeString(s))
  {
    hide EncodeU64;
    CopyInto(result, ptr, EncodeU64(|s|));
    CopyInto(result, ptr + 8, s);
    next := ptr + 8 + |s|;
  }

  lemma Written(before: bytes, mid: bytes, after: bytes, ptr: nat, e: Entry)
    requires Fits(e) && ptr + |EncodeEntry(e)| <= |before|
    requires mid == Splice(before, ptr, EncodeString(e.field))
    requires after == Splice(mid, ptr + 8 + |e.field|, EncodeString(e.value))
    ensures |after| == |before| && after[..ptr + |EncodeEntry(e)|] == before[..ptr] + EncodeEntry(e)
  {
    hide EncodeU64;
  }

  lemma {:induction false} EncodeAppend(a: seq<Entry>, b: seq<Entry>)
    requires Storable(a) && Storable(b)
    ensures Storable(a + b) && Encode(a + b) == Encode(a) + Encode(b)
  {
    hide *;
    if a == [] {
      EncodeNone(Encode(b));
      assert a + b == b;
    } else {
      EncodeFirst(a, Encode(b));
      StorableTail(a);
      EncodeAppend(a[1..], b);
      EncodeCons(a[0], a[1..] + b);
      assert [a[0]] + (a[1..] + b) == a + b;
    }
  }

  lemma StorableSplit(entries: seq<Entry>, i: nat)
    requires Storable(entries) && i < |entries|
    ensures Storable(entries[..i]) && Storable(entries[..i + 1]) && Storable(entries[i + 1..])
    ensures Fits(entries[i]) && Storable([entries[i]]) && Encode([entries[i]]) == EncodeEntry(entries[i])
  {
    hide EncodeEntry, Fits;
    assert [entries[i]][1..] == [] && Encode([]) == [];
  }

  lemma EncodeSnoc(entries: seq<Entry>, i: nat)
    requires Storable(entries) && i < |entries|
    ensures Storable(entries[..i]) && Storable(entries[..i + 1]) && Storable(entries[i + 1..]) && Fits(entries[i])
    ensures Encode(entries[..i + 1]) == Encode(entries[..i]) + EncodeEntry(entries[i])
    ensures Encode(entries) == Encode(entries[..i + 1]) + Encode(entries[i + 1..])
  {
    hide *;
    StorableSplit(entries, i);
    EncodeAppend(entries[..i], [entries[i]]);
    assert entries[..i] + [entries[i]] == entries[..i + 1];
    EncodeAppend(entries[..i + 1], entries[i + 1..]);
    assert entries[..i + 1] + entries[i + 1..] == entries;
  }

  method SerializeRecord(entries: seq<Entry>) returns (result: array<byte>)
    requires Storable(entries)
    ensures fresh(result) && result[..] == Encode(entries)
  {
    hide Encode, EncodeEntry, EncodeString, RequiredSize, Splice, Fits;
    result := new byte[RequiredSize(entries)];
    RequiredIsSize(entries);
    var ptr: nat, i: nat := 0, 0;
    EncodeStart(entries);
    while i < |entries|
      invariant i <= |entries| && ptr <= result.Length == |Encode(entries)|
      invariant result[..ptr] == Encode(entries[..i])
    {
      var e := entries[i];
      EntryFits(entries, i);
      EncodeSnoc(entries, i);
      ghost var before := result[..];
      ptr := WriteString(result, ptr, e.field);
      ghost var mid := result[..];
      ptr := WriteString(result, ptr, e.value);
      Written(before, mid, result[..], ptr - |EncodeEntry(e)|, e);
      i := i + 1;
    }
    assert entries[..i] == entries && result[..ptr] == result[..];
  }

  lemma EncodeStart(entries: seq<Entry>)
    requires Storable(entries)
    ensures Encode(entries[..0]) == []
  {
  }

  lemma EntryFits(entries: seq<Entry>, i: nat)
    requires Storable(entries) && i < |entries|
    ensures Fits(entries[i]) && |entries[i].field| < TWO_TO_THE_64 && |entries[i].value| < TWO_TO_THE_64
    ensures |EncodeEntry(entries[i])| == 16 + |entries[i].field| + |entries[i].value|
  {
  }

  /** What the checks of the reading loop mean for the bytes from `start` on. */
  lemma ParseStep(data: bytes, start: nat)
    requires start <= |data|
    ensures var rest := data[start..];
            match FirstString(rest)
            case None => Parse(rest) == []
            case Some(field) =>
              && start + 8 + |field| <= |data| && field == data[start + 8..start + 8 + |field|]
              && var more := data[start + 8 + |field|..];
                 match FirstString(more)
                 case None => Parse(rest) == []
                 case Some(value) =>
                   && start + 16 + |field| + |value| <= |data|
                   && value == data[start + 16 + |field|..start + 16 + |field| + |value|]
                   && Parse(rest) == [Entry(field, value)] + Parse(data[start + 16 + |field| + |value|..])
  {
    var rest := data[start..];
    var first := FirstString(rest);
    if first.Some? {
      var more := data[start + 8 + |first.value|..];
      assert rest[8 + |first.value|..] == more;
      var second := FirstString(more);
      if second.Some? {
        assert more[8 + |second.value|..] == data[start + 16 + |first.value| + |second.value|..];
      }
    }
  }

  /** The two checks of the reading loop before a string. */
  lemma StringCheck(data: bytes, ptr: nat)
    requires ptr <= |data|
    ensures |data| - ptr < 8 ==> FirstString(data[ptr..]) == None
    ensures |data| - ptr >= 8 ==>
              var size := DecodeU64(data[ptr..ptr + 8]);
              FirstString(data[ptr..]) ==
              if |data| - ptr - 8 < size then None else Some(data[ptr + 8..ptr + 8 + size])
  {
    if |data| - ptr >= 8 {
      assert data[ptr..][..8] == data[ptr..ptr + 8];
      var size := DecodeU64(data[ptr..ptr + 8]);
      if |data| - ptr - 8 >= size {
        assert data[ptr..][8..8 + size] == data[ptr + 8..ptr + 8 + size];
      }
    }
  }

  lemma CollectStep(record: Record, entries: seq<Entry>, fields: Fields)
    ensures Collect(record, [], fields) == record
    ensures entries != [] ==>
              Collect(record, entries, fields) == Collect(Emplace(record, entries[0], fields), entries[1..], fields)
  {
  }

  lemma EmplaceIs(record: Record, e: Entry, fields: Fields)
    ensures Emplace(record, e, fields) ==
            if (fields.Some? && e.field !in fields.value) || e.field in record then record
                else record[e.field := e.value]
  {
  }

  /** Read arbitrary bytes: complete entries until the first incomplete one, never past the end. */
  method DeserializeRecord(serialized: bytes, fields: Fields) returns (record: Record)
    ensures record == Collect(map[], Parse(serialized), fields)
  {
    hide *;
    var remaining: nat, ptr: nat := |serialized|, 0;
    record := map[];
    ghost var goal := Collect(map[], Parse(serialized), fields);
    assert serialized[0..] == serialized;
    ParseNothing([]);
    while remaining > 0
      invariant ptr + remaining == |serialized|
      invariant Collect(record, Parse(serialized[ptr..]), fields) == goal
    {
      ghost var start := ptr;
      ParseStep(serialized, start);
      CollectStep(record, Parse(serialized[start..]), fields);
      StringCheck(serialized, ptr);
      if remaining < 8 { return; }
      var fieldSize := DecodeU64(serialized[ptr..ptr + 8]);
      ptr, remaining := ptr + 8, remaining - 8;
      if remaining < fieldSize { return; }
      var field := serialized[ptr..ptr + fieldSize];
      ptr, remaining := ptr + fieldSize, remaining - fieldSize;
      StringCheck(serialized, ptr);
      if remaining < 8 { return; }
      var valueSize := DecodeU64(serialized[ptr..ptr + 8]);
      ptr, remaining := ptr + 8, remaining - 8;
      if remaining < valueSize { return; }
      var value := serialized[ptr..ptr + valueSize];
      ptr, remaining := ptr + valueSize, remaining - valueSize;
      EmplaceIs(record, Entry(field, value), fields);
      if fields.Some? && field !in fields.value {
        continue;
      }
      if field !in record {
        record := record[field := value];
      }
    }
    assert serialized[ptr..] == [];
    CollectStep(record, [], fields);
  }
}
