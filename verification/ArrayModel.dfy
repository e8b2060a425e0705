/**
 The state of an array collection as a value: one append-only byte buffer with a table of offsets and a table of sizes,
 in which the sentinel marks a hole. Small lemmas say what pushing, overwriting and clearing a row, and writing above
 all rows, do to the documents.
 */
module ArrayModel {
  import opened Basics
  import opened Documents

  datatype Coll = Coll(data: bytes, offsets: seq<nat>, sizes: seq<nat>)

  predicate Holds(c: Coll, id: nat)
    requires id < |c.sizes|
  {
    c.sizes[id] != KEY_NOT_FOUND
  }

  /** Every live document lies below `limit` in the buffer. */
  ghost predicate Below(c: Coll, limit: nat) {
    && |c.offsets| == |c.sizes|
    && forall i | 0 <= i < |c.sizes| && Holds(c, i) :: c.offsets[i] + c.sizes[i] <= limit
  }

  ghost predicate WF(c: Coll) {
    Below(c, |c.data|)
  }

  function DocAt(c: Coll, id: nat): Option<bytes>
    requires id < |c.sizes| == |c.offsets|
    requires Holds(c, id) ==> c.offsets[id] + c.sizes[id] <= |c.data|
  {
    if Holds(c, id) then Some(c.data[c.offsets[id]..c.offsets[id] + c.sizes[id]]) else None
  }

  /** The abstract collection. */
  ghost function DocsOf(c: Coll): (d: Docs)
    requires WF(c)
    ensures |d| == |c.sizes|
  {
    seq(|c.sizes|, i requires 0 <= i < |c.sizes| => DocAt(c, i))
  }

  /** Room at the end of the buffer changes nothing. */
  lemma GrowData(c: Coll, extra: bytes)
    requires WF(c)
    ensures var c' := c.(data := c.data + extra); WF(c') && Below(c', |c.data|) && DocsOf(c') == DocsOf(c)
  {
    var c' := c.(data := c.data + extra);
    forall i | 0 <= i < |c.sizes| ensures DocAt(c', i) == DocAt(c, i) {
      if Holds(c, i) {
        assert c'.data[c.offsets[i]..c.offsets[i] + c.sizes[i]] == c.data[c.offsets[i]..c.offsets[i] + c.sizes[i]];
      }
    }
  }

  /** Bytes written above every live document change none of them. */
  lemma WriteAbove(c: Coll, offset: nat, doc: bytes)
    requires WF(c) && Below(c, offset) && offset + |doc| <= |c.data|
    ensures var c' := c.(data := Splice(c.data, offset, doc)); WF(c') && Below(c', offset) && DocsOf(c') == DocsOf(c)
  {
    var c' := c.(data := Splice(c.data, offset, doc));
    forall i | 0 <= i < |c.sizes| ensures DocAt(c', i) == DocAt(c, i) {
      if Holds(c, i) {
        SpliceMiss(c.data, offset, doc, c.offsets[i], c.offsets[i] + c.sizes[i]);
      }
    }
  }

  /** A new row for the document at `offset`. */
  lemma PushRow(c: Coll, offset: nat, size: nat)
    requires WF(c) && Below(c, offset) && offset + size <= |c.data| && size < KEY_NOT_FOUND
    ensures var c' := c.(offsets := c.offsets + [offset], sizes := c.sizes + [size]);
            && WF(c') && Below(c', offset + size)
            && DocsOf(c') == DocsOf(c) + [Some(c.data[offset..offset + size])]
  {
    var c' := c.(offsets := c.offsets + [offset], sizes := c.sizes + [size]);
    forall i | 0 <= i < |c.sizes| ensures DocAt(c', i) == DocAt(c, i) {
    }
    assert DocsOf(c') == DocsOf(c) + [Some(c.data[offset..offset + size])];
  }

  /** A row that holds nothing. */
  lemma PushHole(c: Coll, limit: nat)
    requires WF(c) && Below(c, limit)
    ensures var c' := c.(offsets := c.offsets + [KEY_NOT_FOUND], sizes := c.sizes + [KEY_NOT_FOUND]);
            WF(c') && Below(c', limit) && DocsOf(c') == DocsOf(c) + [None]
  {
    var c' := c.(offsets := c.offsets + [KEY_NOT_FOUND], sizes := c.sizes + [KEY_NOT_FOUND]);
    forall i | 0 <= i < |c.sizes| ensures DocAt(c', i) == DocAt(c, i) {
    }
    assert DocsOf(c') == DocsOf(c) + [None];
  }

  /** A row redirected to the document at `offset`. */
  lemma SetRow(c: Coll, id: nat, offset: nat, size: nat)
    requires WF(c) && Below(c, offset) && offset + size <= |c.data| && size < KEY_NOT_FOUND && id < |c.sizes|
    ensures var c' := c.(offsets := c.offsets[id := offset], sizes := c.sizes[id := size]);
            && WF(c') && Below(c', offset + size)
            && DocsOf(c') == DocsOf(c)[id := Some(c.data[offset..offset + size])]
  {
    var c' := c.(offsets := c.offsets[id := offset], sizes := c.sizes[id := size]);
    forall i | 0 <= i < |c.sizes| && i != id ensures DocAt(c', i) == DocAt(c, i) {
    }
    assert DocsOf(c') == DocsOf(c)[id := Some(c.data[offset..offset + size])];
  }

  lemma ClearRow(c: Coll, id: nat)
    requires WF(c) && id < |c.sizes|
    ensures var c' := c.(offsets := c.offsets[id := KEY_NOT_FOUND], sizes := c.sizes[id := KEY_NOT_FOUND]);
            WF(c') && DocsOf(c') == DocsOf(c)[id := None]
  {
    var c' := c.(offsets := c.offsets[id := KEY_NOT_FOUND], sizes := c.sizes[id := KEY_NOT_FOUND]);
    forall i | 0 <= i < |c.sizes| && i != id ensures DocAt(c', i) == DocAt(c, i) {
    }
    assert DocsOf(c') == DocsOf(c)[id := None];
  }
}
