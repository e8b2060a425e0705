/**
 Little-endian storage of 64-bit words, as memcpy of a size_t writes and reads it: digits and values, words at an
 offset of a byte string, and what writing one word does to the others. Entries, headers, snapshots, records and
 the metadata of collections all lie in memory this way.
 */
module Words {
  import opened Basics

  function Pow256(k: nat): (r: nat)
    ensures r > 0
  {
    if k == 0 then 1 else 256 * Pow256(k - 1)
  }

  /** The `k` low base-256 digits of `n`, least significant first. */
  function Digits(n: nat, k: nat): (r: bytes)
    ensures |r| == k
  {
    if k == 0 then [] else [n % 256] + Digits(n / 256, k - 1)
  }

  function Value(digits: bytes): nat {
    if digits == [] then 0 else digits[0] + 256 * Value(digits[1..])
  }

  lemma {:induction false} ValueBound(digits: bytes)
    ensures Value(digits) < Pow256(|digits|)
  {
    if digits != [] {
      ValueBound(digits[1..]);
    }
  }

  lemma {:induction false} DigitsThenValue(n: nat, k: nat)
    requires n < Pow256(k)
    ensures Value(Digits(n, k)) == n
  {
    if k > 0 {
      DigitsThenValue(n / 256, k - 1);
      assert Digits(n, k)[1..] == Digits(n / 256, k - 1);
    }
  }

  lemma {:induction false} ValueThenDigits(digits: bytes)
    ensures Digits(Value(digits), |digits|) == digits
  {
    if digits != [] {
      var rest := Value(digits[1..]);
      ValueThenDigits(digits[1..]);
      LowDigit(digits[0], rest);
      assert digits == [digits[0]] + digits[1..];
    }
  }

  lemma LowDigit(digit: byte, rest: nat)
    ensures (digit + 256 * rest) % 256 == digit && (digit + 256 * rest) / 256 == rest
  {
  }

  function EncodeU64(n: u64): (r: bytes)
    ensures |r| == 8
    ensures DecodeU64(r) == n
  {
    DigitsThenValue(n, 8);
    Digits(n, 8)
  }

  function DecodeU64(b: bytes): u64
    requires |b| == 8
  {
    ValueBound(b);
    Value(b)
  }

  /** Little-endian: the byte at position `i` counts the multiples of 256 to the `i`. */
  lemma LittleEndian(b: bytes)
    requires |b| == 8
    ensures DecodeU64(b) ==
            (b[0] as int) + 0x100 * (b[1] as int) + 0x1_0000 * (b[2] as int) + 0x100_0000 * (b[3] as int)
            + 0x1_0000_0000 * (b[4] as int) + 0x100_0000_0000 * (b[5] as int)
            + 0x1_0000_0000_0000 * (b[6] as int) + 0x100_0000_0000_0000 * (b[7] as int)
  {
    assert b[0..] == b && Value(b[8..]) == 0 && DecodeU64(b) == Value(b);
    hide *;
    ValueAfter(b, 0);
    ValueAfter(b, 1);
    ValueAfter(b, 2);
    ValueAfter(b, 3);
    ValueAfter(b, 4);
    ValueAfter(b, 5);
    ValueAfter(b, 6);
    ValueAfter(b, 7);
  }

  lemma ValueAfter(b: bytes, i: nat)
    requires i < |b|
    ensures Value(b[i..]) == b[i] + 256 * Value(b[i + 1..])
  {
    assert b[i..][1..] == b[i + 1..];
  }

  lemma DecodeThenEncode(b: bytes)
    requires |b| == 8
    ensures EncodeU64(DecodeU64(b)) == b
  {
    ValueThenDigits(b);
  }

  /** The word stored at `offset`. */
  function WordAt(data: bytes, offset: nat): u64
    requires offset + 8 <= |data|
  {
    DecodeU64(data[offset..offset + 8])
  }

  lemma ZeroWord(data: bytes, offset: nat)
    requires offset + 8 <= |data|
    requires forall k | offset <= k < offset + 8 :: data[k] == 0
    ensures WordAt(data, offset) == 0
  {
    var b := data[offset..offset + 8];
    assert Digits(0, 8) == b by {
      ZeroDigits(8);
    }
    DigitsThenValue(0, 8);
  }

  lemma {:induction false} ZeroDigits(k: nat)
    ensures Digits(0, k) == Zeros(k)
  {
    if k > 0 {
      ZeroDigits(k - 1);
    }
  }

  /** Writing a word and reading it back; words elsewhere are untouched. */
  lemma SpliceWord(data: bytes, offset: nat, n: u64, other: nat)
    requires offset + 8 <= |data| && other + 8 <= |data|
    ensures WordAt(Splice(data, offset, EncodeU64(n)), offset) == n
    ensures other + 8 <= offset || offset + 8 <= other ==>
              WordAt(Splice(data, offset, EncodeU64(n)), other) == WordAt(data, other)
  {
    if other + 8 <= offset || offset + 8 <= other {
      SpliceMiss(data, offset, EncodeU64(n), other, other + 8);
    }
  }
}
