/**
 Transfer buffers, the index ordered by size and address that both buffer caches look them up in, and the books of
 who owns a buffer: a caller, the cache, or nobody any more.
 */
module BulkBuffers {
  import opened Basics

  datatype Mode = ReadOnly | WriteOnly | ReadWrite

  /** A buffer: `serial` tells allocations apart, `data` is its address, which may be reused after a free. */
  datatype Buffer = Buffer(serial: nat, data: nat, size: nat, mode: Mode)

  /** A request that a caller made. */
  datatype Request = Request(size: nat, mode: Mode)

  predicate Serves(b: Buffer, r: Request) {
    b.mode == r.mode && b.size >= r.size
  }

  /** By size, then by address. */
  predicate Less(a: Buffer, b: Buffer) {
    if a.size != b.size then a.size < b.size else a.data < b.data
  }

  predicate Ordered(index: seq<Buffer>) {
    forall i, j | 0 <= i < j < |index| :: Less(index[i], index[j])
  }

  function Members(s: seq<Buffer>): set<Buffer> {
    set b | b in s
  }

  /** lower_bound for a buffer of this size at address 0: the first one large enough. */
  function FirstFit(index: seq<Buffer>, size: nat): (i: nat)
    ensures i <= |index|
    ensures forall k | 0 <= k < i :: index[k].size < size
    ensures i < |index| ==> index[i].size >= size
  {
    if index == [] || index[0].size >= size then 0 else 1 + FirstFit(index[1..], size)
  }

  function InsertOrdered(index: seq<Buffer>, b: Buffer): seq<Buffer> {
    if index == [] || Less(b, index[0]) then [b] + index else [index[0]] + InsertOrdered(index[1..], b)
  }

  function RemoveAt(s: seq<Buffer>, i: nat): (r: seq<Buffer>)
    requires i < |s|
    ensures |r| == |s| - 1
  {
    s[..i] + s[i + 1..]
  }

  function Position(s: seq<Buffer>, b: Buffer): (i: nat)
    requires b in s
    ensures i < |s| && s[i] == b
  {
    if s[0] == b then 0 else 1 + Position(s[1..], b)
  }

  /** What the allocator gives for a request: at least what was asked for. */
  function AllocatedSize(size: nat, margin: real): (r: nat)
    requires margin >= 0.0
    ensures r >= size
    ensures r as real <= size as real * (1.0 + margin) < r as real + 1.0
  {
    assert size as real * margin >= 0.0;
    assert size as real * (1.0 + margin) == size as real + size as real * margin;
    (size as real * (1.0 + margin)).Floor
  }

  // ---- Lemmas ----

  lemma InsertMembers(index: seq<Buffer>, b: Buffer)
    ensures Members(InsertOrdered(index, b)) == Members(index) + {b}
    ensures |InsertOrdered(index, b)| == |index| + 1
  {
    if !(index == [] || Less(b, index[0])) {
      InsertMembers(index[1..], b);
      assert index == [index[0]] + index[1..];
      assert Members(index) == {index[0]} + Members(index[1..]);
      assert Members([index[0]] + InsertOrdered(index[1..], b)) == {index[0]} + Members(InsertOrdered(index[1..], b));
    }
  }

  /** A buffer at a new address finds its place. */
  lemma {:induction false} InsertKeepsOrder(index: seq<Buffer>, b: Buffer)
    requires Ordered(index) && forall c | c in index :: c.data != b.data
    ensures Ordered(InsertOrdered(index, b))
  {
    if index == [] {
    } else if Less(b, index[0]) {
      forall j | 0 <= j < |index| ensures Less(b, index[j]) {
        assert j == 0 || Less(index[0], index[j]);
      }
    } else {
      var rest := InsertOrdered(index[1..], b);
      InsertKeepsOrder(index[1..], b);
      InsertMembers(index[1..], b);
      assert index[0] in index;
      forall j | 0 <= j < |rest| ensures Less(index[0], rest[j]) {
        assert rest[j] in Members(rest);
        if rest[j] != b {
          var k :| 0 <= k < |index[1..]| && index[1..][k] == rest[j];
          assert Less(index[0], index[k + 1]);
        }
      }
    }
  }

  lemma OrderedDistinct(index: seq<Buffer>)
    requires Ordered(index)
    ensures Distinct(index)
  {
  }

  /** Removing one position of a list without repetition removes one member and keeps the order of the others. */
  lemma RemoveMembers(s: seq<Buffer>, i: nat)
    requires Distinct(s) && i < |s|
    ensures Members(RemoveAt(s, i)) == Members(s) - {s[i]}
    ensures Distinct(RemoveAt(s, i))
    ensures Ordered(s) ==> Ordered(RemoveAt(s, i))
  {
    var r := RemoveAt(s, i);
    forall b ensures b in r <==> b in s && b != s[i] {
      if b in s && b != s[i] {
        var k :| 0 <= k < |s| && s[k] == b;
        assert r[if k < i then k else k - 1] == b;
      }
    }
  }

  /** The first fit is the best fit: nothing large enough is smaller. */
  lemma FirstIsBest(index: seq<Buffer>, size: nat, b: Buffer)
    requires Ordered(index) && b in index && b.size >= size
    ensures FirstFit(index, size) < |index|
    ensures var c := index[FirstFit(index, size)]; c == b || Less(c, b)
  {
    var k :| 0 <= k < |index| && index[k] == b;
  }

  // ---- Who owns a buffer ----

  /** Every buffer ever allocated is held by a caller, kept in the cache, or freed. */
  datatype Ownership = Ownership(inUse: set<Buffer>, cached: set<Buffer>, freed: set<Buffer>, serials: nat)

  function All(o: Ownership): set<Buffer> {
    o.inUse + o.cached + o.freed
  }

  predicate Apart(o: Ownership) {
    o.inUse !! o.cached && o.inUse !! o.freed && o.cached !! o.freed
  }

  /** As many buffers as this, one of each number below it. */
  predicate NumberedSet(all: set<Buffer>, n: nat) {
    && |all| == n
    && (forall b | b in all :: b.serial < n)
    && (forall b, c | b in all && c in all && b.serial == c.serial :: b == c)
  }

  /** As many buffers as were ever allocated, one of each number. */
  predicate Numbered(o: Ownership) {
    NumberedSet(All(o), o.serials)
  }

  predicate Addressed(o: Ownership) {
    forall b, c | b in o.inUse + o.cached && c in o.inUse + o.cached && b.data == c.data :: b == c
  }

  /** Each allocated buffer is in exactly one place. */
  predicate Partition(o: Ownership) {
    Apart(o) && Numbered(o) && Addressed(o)
  }

  /** What the allocator gives: the number of the allocation and an address. */
  datatype Memory = Memory(serial: nat, data: nat)

  predicate FreshMemory(o: Ownership, memory: Memory) {
    memory.serial == o.serials && NewAddress(o, memory.data)
  }

  /** The allocator never hands out an address that is still in use. */
  predicate NewAddress(o: Ownership, data: nat) {
    forall b | b in o.inUse + o.cached :: b.data != data
  }

  function OfMode(buffers: set<Buffer>, mode: Mode): set<Buffer> {
    set b | b in buffers && b.mode == mode
  }

  /** Some cached buffer of the mode is large enough. */
  predicate Fitting(o: Ownership, size: nat, mode: Mode) {
    exists b :: b in o.cached && b.mode == mode && b.size >= size
  }

  /** From the cache to a caller. */
  function HandOut(o: Ownership, b: Buffer): Ownership {
    o.(inUse := o.inUse + {b}, cached := o.cached - {b})
  }

  /** A new buffer for a caller. */
  function Allocate(o: Ownership, b: Buffer): Ownership {
    o.(inUse := o.inUse + {b}, serials := o.serials + 1)
  }

  /** From a caller to the cache. */
  function TakeBack(o: Ownership, b: Buffer): Ownership {
    o.(inUse := o.inUse - {b}, cached := o.cached + {b})
  }

  /** Out of the cache for good. */
  function Free(o: Ownership, b: Buffer): Ownership {
    o.(cached := o.cached - {b}, freed := o.freed + {b})
  }

  lemma SameAll(o: Ownership, p: Ownership)
    requires Numbered(o) && All(p) == All(o) && p.serials == o.serials
    ensures Numbered(p)
  {
  }

  lemma SameAddresses(o: Ownership, p: Ownership)
    requires Addressed(o) && p.inUse + p.cached <= o.inUse + o.cached
    ensures Addressed(p)
  {
  }

  /** Buffers change places, with none allocated. */
  lemma MoveKeeps(o: Ownership, p: Ownership)
    requires Partition(o) && Apart(p) && All(p) == All(o) && p.serials == o.serials
    requires p.inUse + p.cached <= o.inUse + o.cached
    ensures Partition(p)
  {
    hide Numbered, Addressed, Apart, All;
    SameAll(o, p);
    SameAddresses(o, p);
  }

  lemma HandOutMoves(o: Ownership, b: Buffer)
    requires Apart(o) && b in o.cached
    ensures var p := HandOut(o, b);
            && Apart(p) && All(p) == All(o) && p.serials == o.serials && p.inUse + p.cached == o.inUse + o.cached
            && |p.inUse| == |o.inUse| + 1 && b !in o.inUse
  {
  }

  lemma HandOutKeeps(o: Ownership, b: Buffer)
    requires Partition(o) && b in o.cached
    ensures Partition(HandOut(o, b)) && |HandOut(o, b).inUse| == |o.inUse| + 1 && b !in o.inUse
  {
    HandOutMoves(o, b);
    hide Numbered, Addressed, Apart, All, HandOut;
    MoveKeeps(o, HandOut(o, b));
  }

  lemma NextNumber(all: set<Buffer>, n: nat, b: Buffer)
    requires NumberedSet(all, n) && b.serial == n
    ensures b !in all && NumberedSet(all + {b}, n + 1)
  {
    assert b !in all;
  }

  lemma NewNumber(o: Ownership, b: Buffer)
    requires Numbered(o) && b.serial == o.serials
    ensures b !in All(o) && Numbered(Allocate(o, b))
  {
    hide NumberedSet;
    assert All(Allocate(o, b)) == All(o) + {b};
    NextNumber(All(o), o.serials, b);
  }

  lemma NewAddressKeeps(o: Ownership, b: Buffer)
    requires Addressed(o) && NewAddress(o, b.data)
    ensures Addressed(Allocate(o, b))
  {
    var p := Allocate(o, b);
    assert p.inUse + p.cached == o.inUse + o.cached + {b};
  }

  lemma AllocateKeeps(o: Ownership, b: Buffer)
    requires Partition(o) && NewAddress(o, b.data) && b.serial == o.serials
    ensures Partition(Allocate(o, b)) && |Allocate(o, b).inUse| == |o.inUse| + 1 && b !in All(o)
  {
    hide Numbered, Addressed, NewAddress;
    NewNumber(o, b);
    NewAddressKeeps(o, b);
  }

  lemma InUseAddress(o: Ownership, b: Buffer)
    requires Apart(o) && Addressed(o) && b in o.inUse
    ensures forall c | c in o.cached :: c.data != b.data
  {
    forall c | c in o.cached ensures c.data != b.data {
      assert c in o.inUse + o.cached && b in o.inUse + o.cached;
    }
  }

  lemma TakeBackMoves(o: Ownership, b: Buffer)
    requires Apart(o) && b in o.inUse
    ensures var p := TakeBack(o, b);
            && Apart(p) && All(p) == All(o) && p.serials == o.serials && p.inUse + p.cached == o.inUse + o.cached
            && |p.inUse| == |o.inUse| - 1
  {
  }

  lemma TakeBackKeeps(o: Ownership, b: Buffer)
    requires Partition(o) && b in o.inUse
    ensures Partition(TakeBack(o, b)) && |TakeBack(o, b).inUse| == |o.inUse| - 1
    ensures forall c | c in o.cached :: c.data != b.data
  {
    InUseAddress(o, b);
    TakeBackMoves(o, b);
    hide Numbered, Addressed, Apart, All, TakeBack;
    MoveKeeps(o, TakeBack(o, b));
  }

  lemma FreeMoves(o: Ownership, b: Buffer)
    requires Apart(o) && b in o.cached
    ensures var p := Free(o, b);
            && Apart(p) && All(p) == All(o) && p.serials == o.serials && p.inUse + p.cached <= o.inUse + o.cached
            && p.inUse == o.inUse
  {
  }

  lemma FreeKeeps(o: Ownership, b: Buffer)
    requires Partition(o) && b in o.cached
    ensures Partition(Free(o, b)) && Free(o, b).inUse == o.inUse
  {
    FreeMoves(o, b);
    hide Numbered, Addressed, Apart, All, Free;
    MoveKeeps(o, Free(o, b));
  }

  lemma OfModeMinus(buffers: set<Buffer>, b: Buffer, mode: Mode)
    ensures OfMode(buffers - {b}, mode) == if b.mode == mode then OfMode(buffers, mode) - {b} else OfMode(buffers, mode)
  {
  }

  lemma OfModePlus(buffers: set<Buffer>, b: Buffer, mode: Mode)
    ensures OfMode(buffers + {b}, mode) == if b.mode == mode then OfMode(buffers, mode) + {b} else OfMode(buffers, mode)
  {
  }

  lemma ModesCover(buffers: set<Buffer>)
    ensures OfMode(buffers, ReadOnly) + OfMode(buffers, WriteOnly) + OfMode(buffers, ReadWrite) == buffers
  {
    forall b | b in buffers
      ensures b in OfMode(buffers, ReadOnly) + OfMode(buffers, WriteOnly) + OfMode(buffers, ReadWrite)
    {
      match b.mode
      case ReadOnly =>
      case WriteOnly =>
      case ReadWrite =>
    }
  }

  /** Looking up the index of a mode finds the best fit among the cached buffers of the mode, if there is one. */
  lemma BestFit(index: seq<Buffer>, cached: set<Buffer>, mode: Mode, size: nat)
    requires Ordered(index) && Members(index) == OfMode(cached, mode)
    ensures FirstFit(index, size) < |index| <==> exists b :: b in cached && b.mode == mode && b.size >= size
    ensures FirstFit(index, size) < |index| ==>
              var c := index[FirstFit(index, size)];
              && c in cached && c.mode == mode && c.size >= size
              && forall b | b in cached && b.mode == mode && b.size >= size :: c.size <= b.size
  {
    var i := FirstFit(index, size);
    if i < |index| {
      assert index[i] in Members(index);
    }
    forall b | b in cached && b.mode == mode && b.size >= size
      ensures i < |index| && index[i].size <= b.size
    {
      assert b in Members(index);
      FirstIsBest(index, size, b);
    }
  }
}
