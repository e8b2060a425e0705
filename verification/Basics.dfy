/**
 Vocabulary shared by every part of the model: bytes, 64-bit words and their wrap-around, status codes, the sentinels
 that stand in place of sizes, splicing bytes into a file or buffer, and the concatenation of byte strings that packed
 buffers are made of.
 */
module Basics {

  type byte = x: int | 0 <= x < 256
  type bytes = seq<byte>

  const TWO_TO_THE_64 := 0x1_0000_0000_0000_0000

  type u64 = x: int | 0 <= x < TWO_TO_THE_64

  // Sentinels returned in place of a size.
  const KEY_NOT_FOUND: u64 := TWO_TO_THE_64 - 1
  const SIZE_TOO_SMALL: u64 := TWO_TO_THE_64 - 2
  const NO_MORE: u64 := TWO_TO_THE_64 - 3
  const LAST_VALID_SIZE: u64 := TWO_TO_THE_64 - 4

  datatype Option<+T> = None | Some(value: T)

  datatype Status = OK | InvalidID | NotFound | SizeError | InvalidArg | KeyExists | StopIteration

  /** Unsigned 64-bit wrap-around. */
  function Wrap(n: int): u64
    decreases if n < 0 then 2 * TWO_TO_THE_64 - n else n
  {
    if n < 0 then Wrap(n + TWO_TO_THE_64)
    else if n >= TWO_TO_THE_64 then Wrap(n - TWO_TO_THE_64)
    else n
  }

  /** Counting up or down by one in a machine word follows counting in the integers. */
  lemma {:induction false} WrapStep(n: int, delta: int)
    requires -1 <= delta <= 1
    ensures Wrap(Wrap(n) + delta) == Wrap(n + delta)
    decreases if n < 0 then 2 * TWO_TO_THE_64 - n else n
  {
    if n < 0 {
      WrapStep(n + TWO_TO_THE_64, delta);
    } else if n >= TWO_TO_THE_64 {
      WrapStep(n - TWO_TO_THE_64, delta);
    }
  }

  /** Reducing a summand changes nothing. */
  lemma {:induction false} WrapAdd(a: int, n: int)
    ensures Wrap(Wrap(a) + n) == Wrap(a + n)
    decreases if a < 0 then 2 * TWO_TO_THE_64 - a else a
  {
    if a < 0 {
      WrapAdd(a + TWO_TO_THE_64, n);
      WrapPeriod(a + n);
    } else if a >= TWO_TO_THE_64 {
      WrapAdd(a - TWO_TO_THE_64, n);
      WrapPeriod(a + n - TWO_TO_THE_64);
    }
  }

  lemma WrapPeriod(n: int)
    ensures Wrap(n + TWO_TO_THE_64) == Wrap(n)
  {
  }

  function Zeros(n: nat): (r: bytes)
    ensures |r| == n
  {
    seq(n, _ => 0)
  }

  /** `data` with the bytes from `offset` on replaced by `buffer`: what memcpy into a mapping does. */
  function Splice(data: bytes, offset: nat, buffer: bytes): (r: bytes)
    requires offset + |buffer| <= |data|
    ensures |r| == |data|
    ensures forall k | 0 <= k < |data| ::
              r[k] == if offset <= k < offset + |buffer| then buffer[k - offset] else data[k]
  {
    data[..offset] + buffer + data[offset + |buffer|..]
  }

  /** A window that the splice does not touch reads the same before and after. */
  lemma SpliceMiss(data: bytes, offset: nat, buffer: bytes, lo: nat, hi: nat)
    requires offset + |buffer| <= |data|
    requires lo <= hi <= |data|
    requires hi <= offset || offset + |buffer| <= lo || buffer == []
    ensures Splice(data, offset, buffer)[lo..hi] == data[lo..hi]
  {
  }

  function Max(a: int, b: int): int {
    if a < b then b else a
  }

  function Min(a: int, b: int): int {
    if a < b then a else b
  }

  predicate Distinct<T(==)>(s: seq<T>) {
    forall i, j | 0 <= i < j < |s| :: s[i] != s[j]
  }

  /** The concatenation of a list of byte strings, as packed buffers lay them out. */
  function Concat(items: seq<bytes>): bytes {
    if items == [] then [] else Concat(items[..|items| - 1]) + items[|items| - 1]
  }

  lemma {:induction false} ConcatAppend(a: seq<bytes>, b: seq<bytes>)
    ensures Concat(a + b) == Concat(a) + Concat(b)
  {
    if b == [] {
      assert a + b == a;
    } else {
      var front, last := b[..|b| - 1], b[|b| - 1];
      assert (a + b)[..|a + b| - 1] == a + front;
      ConcatAppend(a, front);
    }
  }

  lemma {:induction false} ConcatPrefix(items: seq<bytes>, i: nat)
    requires i <= |items|
    ensures Concat(items[..i]) <= Concat(items)
  {
    assert items == items[..i] + items[i..];
    ConcatAppend(items[..i], items[i..]);
  }

  /** `count` consecutive ids. */
  function Range(first: nat, count: nat): (r: seq<nat>)
    ensures |r| == count
  {
    seq(count, i requires 0 <= i < count => first + i)
  }

  lemma RangeNext(first: nat, count: nat)
    ensures Range(first, count) + [first + count] == Range(first, count + 1) && Range(first, 0) == []
  {
  }
}
