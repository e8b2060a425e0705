/** Caller-owned memory: what memcpy into a buffer and writes to a size table do. */
module Buffers {
  import opened Basics

  method CopyInto(buffer: array<byte>, offset: nat, doc: bytes)
    requires offset + |doc| <= buffer.Length
    modifies buffer
    ensures buffer[..] == Splice(old(buffer[..]), offset, doc)
  {
    var i := 0;
    while i < |doc|
      invariant i <= |doc|
      invariant forall k | 0 <= k < buffer.Length ::
                  buffer[k] == if offset <= k < offset + i then doc[k - offset] else old(buffer[k])
    {
      buffer[offset + i] := doc[i];
      i := i + 1;
    }
  }

  method FillFrom(sizes: array<nat>, from: nat, mark: nat)
    requires from <= sizes.Length
    modifies sizes
    ensures forall k | 0 <= k < sizes.Length :: sizes[k] == if k < from then old(sizes[k]) else mark
  {
    var j := from;
    while j < sizes.Length
      invariant from <= j <= sizes.Length
      invariant forall k | 0 <= k < sizes.Length :: sizes[k] == if from <= k < j then mark else old(sizes[k])
    {
      sizes[j] := mark;
      j := j + 1;
    }
  }
}
