/**
 The in-memory unordered backend, behind the probing branch of document iteration. Its hash map is a finite map; the
 loops over it are those of the ordered backend, so packed reads of the two leave the same in a caller's memory when
 they hold the same content.
 */
module HashDatabase {
  import opened Basics
  import opened Documents
  import opened KeyValueMap
  import opened MapDatabase

  class HashStore {
    var content: KeyValues

    constructor (m: KeyValues)
      ensures content == m
    {
      content := m;
    }

    /** fetch with a single key, and a callback that ignores missing keys. */
    method FetchOne(key: bytes, func: bytes -> Status) returns (val: Option<bytes>, status: Status)
      ensures val == Lookup(content, key)
      ensures status == if val.Some? then func(val.value) else OK
    {
      val := Lookup(content, key);
      status := if val.None? then OK else func(val.value);
    }

    /** Packed get: the same loop as over the ordered map. */
    method GetPacked(keys: bytes, ksizes: seq<nat>, vals: array<byte>, vsizes: array<nat>)
      returns (status: Status, used: nat, ghost cut: nat)
      requires IsBatch(keys, ksizes) && vals as object != vsizes && ValuesOrdinary(content)
      modifies vals, vsizes
      ensures |ksizes| != vsizes.Length ==>
              status == InvalidArg && vals[..] == old(vals[..]) && vsizes[..] == old(vsizes[..])
      ensures |ksizes| == vsizes.Length ==>
                && status == OK
                && PackedRead(Values(content, Slices(keys, ksizes)), vals.Length, vals[..], vsizes[..], cut)
                && used == PackedSize(Values(content, Slices(keys, ksizes)), cut)
    {
      hide *;
      if |ksizes| != vsizes.Length {
        return InvalidArg, 0, 0;
      }
      ghost var ks := Slices(keys, ksizes);
      ghost var found := Values(content, ks);
      var i: nat, keyOffset: nat, valOffset: nat, full := 0, 0, 0, false;
      cut := 0;
      PackingStart(found, vals[..], vsizes[..]);
      StartEnds(ksizes);
      while i < |ksizes|
        invariant i <= |ksizes| && keyOffset == Start(ksizes, i)
        invariant Packing(found, vals[..], vsizes[..], i, valOffset, full, cut)
      {
        SliceWindow(keys, ksizes, i);
        var key := keys[keyOffset..keyOffset + ksizes[i]];
        ValuesAt(content, ks, i);
        var item := Lookup(content, key);
        if item.None? {
          PackingAbsent(found, vals[..], vsizes[..], i, valOffset, full, cut);
          ghost var before: seq<nat> := vsizes[..];
          vsizes[i] := KEY_NOT_FOUND;
          assert vsizes[..] == before[i := KEY_NOT_FOUND];
          cut := if full then cut else i + 1;
        } else {
          OrdinaryAt(content, key);
          assert vsizes[..] == vsizes[..|found|];
          valOffset, full, cut := PackNext(vals, vsizes, i, valOffset, full, item.value, found, cut);
          assert vsizes[..] == vsizes[..|found|];
        }
        keyOffset, i := keyOffset + ksizes[i], i + 1;
      }
      PackingEnd(found, vals[..], vsizes[..], valOffset, full, cut);
      status, used := OK, valOffset;
    }
  }

  lemma ValuesAt(m: KeyValues, keys: seq<bytes>, i: nat)
    requires i < |keys|
    ensures Values(m, keys)[i] == Lookup(m, keys[i])
  {
  }
}
