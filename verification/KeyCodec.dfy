/** Key order of the map backend and the document-key codec of the document mixin. */
module KeyCodec {
  import opened Basics
  import opened Words

  // ---- Byte-string order ----

  /** memcmp over the first `n` bytes: negative, zero or positive. */
  function Memcmp(a: bytes, b: bytes, n: nat): int
    requires n <= |a| && n <= |b|
  {
    if n == 0 then 0
    else if a[0] != b[0] then a[0] - b[0]
    else Memcmp(a[1..], b[1..], n - 1)
  }

  /** The comparator of the map backend. */
  predicate DefaultMemCmp(lhs: bytes, rhs: bytes) {
    var r := Memcmp(lhs, rhs, Min(|lhs|, |rhs|));
    if r < 0 then true
    else if r > 0 then false
    else |lhs| < |rhs|
  }

  /** Dictionary order: `a` is a proper prefix of `b`, or smaller at the first difference. */
  ghost predicate LexLess(a: bytes, b: bytes) {
    exists k: nat {:trigger a[..k]} ::
      && k <= |a| && k <= |b| && a[..k] == b[..k]
      && k < |b|
      && (k == |a| || (k < |a| && a[k] < b[k]))
  }

  lemma {:induction false} DefaultMemCmpHead(a: bytes, b: bytes)
    ensures DefaultMemCmp(a, b) ==
            (b != [] && (a == [] || a[0] < b[0] || (a[0] == b[0] && DefaultMemCmp(a[1..], b[1..]))))
  {
  }

  lemma {:induction false} DefaultMemCmpIsLex(a: bytes, b: bytes)
    ensures DefaultMemCmp(a, b) <==> LexLess(a, b)
    decreases |a|
  {
    DefaultMemCmpHead(a, b);
    if a == [] {
      assert a[..0] == b[..0];
    } else if b != [] {
      if a[0] != b[0] {
        assert a[..0] == b[..0];
      } else {
        DefaultMemCmpIsLex(a[1..], b[1..]);
        if LexLess(a[1..], b[1..]) {
          var k: nat :| k <= |a[1..]| && k <= |b[1..]| && a[1..][..k] == b[1..][..k] && k < |b[1..]|
                        && (k == |a[1..]| || (k < |a[1..]| && a[1..][k] < b[1..][k]));
          assert a[..k + 1] == [a[0]] + a[1..][..k] == [b[0]] + b[1..][..k] == b[..k + 1];
        }
        if LexLess(a, b) {
          var k: nat :| k <= |a| && k <= |b| && a[..k] == b[..k] && k < |b|
                        && (k == |a| || (k < |a| && a[k] < b[k]));
          assert k > 0;
          assert a[1..][..k - 1] == a[..k][1..] == b[..k][1..] == b[1..][..k - 1];
        }
      }
    }
  }

  lemma {:induction false} OrderTotal(a: bytes, b: bytes)
    ensures !(DefaultMemCmp(a, b) && DefaultMemCmp(b, a))
    ensures a == b || DefaultMemCmp(a, b) || DefaultMemCmp(b, a)
    ensures !DefaultMemCmp(a, a)
  {
    DefaultMemCmpHead(a, b);
    DefaultMemCmpHead(b, a);
    DefaultMemCmpHead(a, a);
    if a != [] {
      OrderTotal(a[1..], a[1..]);
    }
    if a != [] && b != [] && a[0] == b[0] {
      OrderTotal(a[1..], b[1..]);
      assert a == [a[0]] + a[1..] && b == [b[0]] + b[1..];
    }
  }

  lemma {:induction false} OrderTransitive(a: bytes, b: bytes, c: bytes)
    requires DefaultMemCmp(a, b) && DefaultMemCmp(b, c)
    ensures DefaultMemCmp(a, c)
  {
    DefaultMemCmpHead(a, b);
    DefaultMemCmpHead(b, c);
    DefaultMemCmpHead(a, c);
    if a != [] && a[0] == b[0] == c[0] {
      OrderTransitive(a[1..], b[1..], c[1..]);
    }
  }

  lemma {:induction false} OrderCommonPrefix(p: bytes, a: bytes, b: bytes)
    ensures DefaultMemCmp(p + a, p + b) == DefaultMemCmp(a, b)
  {
    if p == [] {
      assert p + a == a && p + b == b;
    } else {
      DefaultMemCmpHead(p + a, p + b);
      assert (p + a)[1..] == p[1..] + a && (p + b)[1..] == p[1..] + b;
      OrderCommonPrefix(p[1..], a, b);
    }
  }

  // ---- 64-bit words in memory ----

  datatype Endianness = LittleEndian | BigEndian

  function BitSum(b7: bool, b6: bool, b5: bool, b4: bool, b3: bool, b2: bool, b1: bool, b0: bool): byte {
    (if b7 then 128 else 0) + (if b6 then 64 else 0) + (if b5 then 32 else 0) + (if b4 then 16 else 0)
    + (if b3 then 8 else 0) + (if b2 then 4 else 0) + (if b1 then 2 else 0) + (if b0 then 1 else 0)
  }

  /** The number whose binary digits are the low eight bits of a word. */
  function Lane(w: bv64): byte {
    BitSum(w & 0x80 != 0, w & 0x40 != 0, w & 0x20 != 0, w & 0x10 != 0,
           w & 0x08 != 0, w & 0x04 != 0, w & 0x02 != 0, w & 0x01 != 0)
  }

  /** The byte of significance 256^k. */
  function ByteOf(w: bv64, k: nat): byte
    requires k < 8
  {
    if k == 0 then Lane(w & 0xFF)
    else if k == 1 then Lane((w >> 8) & 0xFF)
    else if k == 2 then Lane((w >> 16) & 0xFF)
    else if k == 3 then Lane((w >> 24) & 0xFF)
    else if k == 4 then Lane((w >> 32) & 0xFF)
    else if k == 5 then Lane((w >> 40) & 0xFF)
    else if k == 6 then Lane((w >> 48) & 0xFF)
    else Lane((w >> 56) & 0xFF)
  }

  /** A word with the given low eight bits and no others. */
  function FromBits(b7: bool, b6: bool, b5: bool, b4: bool, b3: bool, b2: bool, b1: bool, b0: bool): (w: bv64)
    ensures w <= 0xFF
    ensures (w & 0x80 != 0) == b7 && (w & 0x40 != 0) == b6 && (w & 0x20 != 0) == b5 && (w & 0x10 != 0) == b4
    ensures (w & 0x08 != 0) == b3 && (w & 0x04 != 0) == b2 && (w & 0x02 != 0) == b1 && (w & 0x01 != 0) == b0
  {
    (if b7 then 0x80 else 0) | (if b6 then 0x40 else 0) | (if b5 then 0x20 else 0) | (if b4 then 0x10 else 0)
    | (if b3 then 0x08 else 0) | (if b2 then 0x04 else 0) | (if b1 then 0x02 else 0) | (if b0 then 0x01 else 0)
  }

  /** `n` without its binary digit of weight `bit`, when that is its top digit. */
  function Below(n: nat, bit: nat): nat {
    if n >= bit then n - bit else n
  }

  /** A byte held in a word. */
  function Widen(b: byte): (w: bv64)
    ensures w <= 0xFF
  {
    var r6 := Below(b, 128);
    var r5 := Below(r6, 64);
    var r4 := Below(r5, 32);
    var r3 := Below(r4, 16);
    var r2 := Below(r3, 8);
    var r1 := Below(r2, 4);
    var r0 := Below(r1, 2);
    FromBits(b >= 128, r6 >= 64, r5 >= 32, r4 >= 16, r3 >= 8, r2 >= 4, r1 >= 2, r0 >= 1)
  }

  function Assemble(b: bytes): bv64
    requires |b| == 8
  {
    Widen(b[0]) | (Widen(b[1]) << 8) | (Widen(b[2]) << 16) | (Widen(b[3]) << 24)
    | (Widen(b[4]) << 32) | (Widen(b[5]) << 40) | (Widen(b[6]) << 48) | (Widen(b[7]) << 56)
  }

  function Reverse(b: bytes): (r: bytes)
    ensures |r| == |b|
    ensures forall k | 0 <= k < |b| :: r[k] == b[|b| - 1 - k]
  {
    seq(|b|, k requires 0 <= k < |b| => b[|b| - 1 - k])
  }

  /** The eight bytes of a word, as memcpy reads them on a host. */
  function Store(host: Endianness, w: bv64): (r: bytes)
    ensures |r| == 8
  {
    var little := seq(8, k requires 0 <= k < 8 => ByteOf(w, k));
    if host.LittleEndian? then little else Reverse(little)
  }

  function Load(host: Endianness, b: bytes): bv64
    requires |b| == 8
  {
    Assemble(if host.LittleEndian? then b else Reverse(b))
  }

  lemma WidenLane(b: byte)
    ensures Lane(Widen(b)) == b
  {
    hide FromBits;
  }

  lemma AssembleBytes(b: bytes)
    requires |b| == 8
    ensures var w := Assemble(b);
            && Lane(w & 0xFF) == b[0] && Lane((w >> 8) & 0xFF) == b[1] && Lane((w >> 16) & 0xFF) == b[2]
            && Lane((w >> 24) & 0xFF) == b[3] && Lane((w >> 32) & 0xFF) == b[4] && Lane((w >> 40) & 0xFF) == b[5]
            && Lane((w >> 48) & 0xFF) == b[6] && Lane((w >> 56) & 0xFF) == b[7]
  {
    WidenLane(b[0]); WidenLane(b[1]); WidenLane(b[2]); WidenLane(b[3]);
    WidenLane(b[4]); WidenLane(b[5]); WidenLane(b[6]); WidenLane(b[7]);
  }

  /** Memory faithfully holds a word: what is loaded is what was stored, byte for byte. */
  lemma StoreLoad(host: Endianness, b: bytes)
    requires |b| == 8
    ensures Store(host, Load(host, b)) == b
  {
    var little := if host.LittleEndian? then b else Reverse(b);
    AssembleBytes(little);
    forall k | 0 <= k < 8 ensures ByteOf(Assemble(little), k) == little[k] {
    }
  }

  // ---- Endianness swap ----

  function Swap(id: bv64): bv64 {
    var x := ((id & 0x00000000FFFFFFFF) << 32) | ((id & 0xFFFFFFFF00000000) >> 32);
    var y := ((x & 0x0000FFFF0000FFFF) << 16) | ((x & 0xFFFF0000FFFF0000) >> 16);
    ((y & 0x00FF00FF00FF00FF) << 8) | ((y & 0xFF00FF00FF00FF00) >> 8)
  }

  function EnsureBigEndian(host: Endianness, id: bv64): bv64 {
    if host.BigEndian? then id else Swap(id)
  }

  lemma SwapInvolution(x: bv64)
    ensures Swap(Swap(x)) == x
  {
  }

  lemma SwapLanes(x: bv64)
    ensures Swap(x) & 0xFF == (x >> 56) & 0xFF
    ensures (Swap(x) >> 8) & 0xFF == (x >> 48) & 0xFF
    ensures (Swap(x) >> 16) & 0xFF == (x >> 40) & 0xFF
    ensures (Swap(x) >> 24) & 0xFF == (x >> 32) & 0xFF
    ensures (Swap(x) >> 32) & 0xFF == (x >> 24) & 0xFF
    ensures (Swap(x) >> 40) & 0xFF == (x >> 16) & 0xFF
    ensures (Swap(x) >> 48) & 0xFF == (x >> 8) & 0xFF
    ensures (Swap(x) >> 56) & 0xFF == x & 0xFF
  {
  }

  /** The shift-and-mask swap reverses the bytes of a word, whatever the host. */
  lemma SwapReversesBytes(host: Endianness, x: bv64)
    ensures Store(host, Swap(x)) == Reverse(Store(host, x))
  {
    SwapLanes(x);
    forall k | 0 <= k < 8 ensures ByteOf(Swap(x), k) == ByteOf(x, 7 - k) {
    }
  }

  // ---- Document keys ----

  /** The machine word that holds `id`. */
  function Word(id: u64): bv64 {
    Assemble(Digits(id, 8))
  }

  function Number(w: bv64): u64 {
    DecodeU64(Store(LittleEndian, w))
  }

  function KeyFromId(host: Endianness, name: bytes, id: u64): (key: bytes)
    ensures |key| == |name| + 9
  {
    name + [0] + Store(host, EnsureBigEndian(host, Word(id)))
  }

  function IdFromKey(host: Endianness, nameLen: nat, key: bytes): u64
    requires |key| >= nameLen + 9
  {
    Number(EnsureBigEndian(host, Load(host, key[nameLen + 1..nameLen + 9])))
  }

  /** The eight bytes of `id`, most significant first. */
  function BigEndianBytes(id: u64): (r: bytes)
    ensures |r| == 8
  {
    Reverse(Digits(id, 8))
  }

  lemma ReverseTwice(b: bytes)
    ensures Reverse(Reverse(b)) == b
  {
  }

  /** On every host the key is the name, a NUL and the id in big-endian order. */
  lemma KeyLayout(host: Endianness, name: bytes, id: u64)
    ensures KeyFromId(host, name, id) == name + [0] + BigEndianBytes(id)
  {
    var digits := Digits(id, 8);
    StoreLoad(LittleEndian, digits);
    SwapReversesBytes(LittleEndian, Word(id));
  }

  lemma IdLayout(host: Endianness, nameLen: nat, key: bytes)
    requires |key| >= nameLen + 9
    ensures IdFromKey(host, nameLen, key) == DecodeU64(Reverse(key[nameLen + 1..nameLen + 9]))
  {
    var b := key[nameLen + 1..nameLen + 9];
    if host.LittleEndian? {
      StoreLoad(LittleEndian, b);
      SwapReversesBytes(LittleEndian, Load(host, b));
    } else {
      StoreLoad(LittleEndian, Reverse(b));
    }
  }

  lemma DecodeOfBigEndian(id: u64)
    ensures DecodeU64(Reverse(BigEndianBytes(id))) == id
  {
    ReverseTwice(Digits(id, 8));
    assert Digits(id, 8) == EncodeU64(id);
  }

  lemma KeyTail(name: bytes, b: bytes)
    requires |b| == 8
    ensures (name + [0] + b)[|name| + 1..|name| + 9] == b
  {
  }

  /** `_idFromKey` undoes `_keyFromId`, even when the two run on hosts of different endianness. */
  lemma IdOfKey(writer: Endianness, reader: Endianness, name: bytes, id: u64)
    ensures IdFromKey(reader, |name|, KeyFromId(writer, name, id)) == id
  {
    hide *;
    var key := KeyFromId(writer, name, id);
    KeyLayout(writer, name, id);
    IdLayout(reader, |name|, key);
    KeyTail(name, BigEndianBytes(id));
    DecodeOfBigEndian(id);
  }

  predicate HasPrefix(key: bytes, prefix: bytes) {
    |prefix| <= |key| && key[..|prefix|] == prefix
  }

  /** The keys a collection's filter recognises by shape: its prefix and the length of an id. */
  predicate IsDocumentKey(name: bytes, key: bytes) {
    HasPrefix(key, name + [0]) && |key| == |name| + 9
  }

  lemma BigEndianOfDecode(b: bytes)
    requires |b| == 8
    ensures BigEndianBytes(DecodeU64(Reverse(b))) == b
  {
    DecodeThenEncode(Reverse(b));
    ReverseTwice(b);
  }

  lemma KeyLengths(name: bytes, key: bytes)
    requires IsDocumentKey(name, key)
    ensures |key| == |name| + 9
  {
  }

  lemma DocumentKeyParts(name: bytes, key: bytes)
    requires IsDocumentKey(name, key)
    ensures key == name + [0] + key[|name| + 1..|name| + 9]
  {
    assert key == key[..|name| + 1] + key[|name| + 1..];
  }

  /** Those keys are exactly the encodings of ids, so encoding and decoding are a bijection. */
  lemma KeyOfId(host: Endianness, name: bytes, key: bytes)
    requires IsDocumentKey(name, key)
    ensures KeyFromId(host, name, IdFromKey(host, |name|, key)) == key
  {
    hide *;
    KeyLengths(name, key);
    IdLayout(host, |name|, key);
    BigEndianOfDecode(key[|name| + 1..|name| + 9]);
    KeyLayout(host, name, IdFromKey(host, |name|, key));
    DocumentKeyParts(name, key);
  }

  lemma KeyIsDocumentKey(host: Endianness, name: bytes, id: u64)
    ensures IsDocumentKey(name, KeyFromId(host, name, id))
  {
    assert KeyFromId(host, name, id)[..|name| + 1] == name + [0];
  }

  /** Keys identify both the collection and the document, and are never a collection's metadata key. */
  lemma KeysInjective(host: Endianness, name: bytes, id: u64, name': bytes, id': u64)
    ensures KeyFromId(host, name, id) == KeyFromId(host, name', id') <==> name == name' && id == id'
    ensures 0 !in name' ==> KeyFromId(host, name, id) != name'
  {
    var key, key' := KeyFromId(host, name, id), KeyFromId(host, name', id');
    if key == key' {
      assert key[..|name|] == name && key'[..|name'|] == name';
      IdOfKey(host, host, name, id);
      IdOfKey(host, host, name', id');
    }
    assert key[|name|] == 0;
  }

  lemma {:induction false} OrderLastByte(x: bytes, y: bytes, c: byte, d: byte)
    requires |x| == |y|
    ensures DefaultMemCmp(x + [c], y + [d]) <==> DefaultMemCmp(x, y) || (x == y && c < d)
  {
    DefaultMemCmpHead(x + [c], y + [d]);
    DefaultMemCmpHead(x, y);
    if x != [] {
      assert (x + [c])[1..] == x[1..] + [c] && (y + [d])[1..] == y[1..] + [d];
      assert x == [x[0]] + x[1..] && y == [y[0]] + y[1..];
      OrderLastByte(x[1..], y[1..], c, d);
    } else {
      DefaultMemCmpHead([], []);
      DefaultMemCmpHead([c][1..], [d][1..]);
    }
  }

  lemma ReverseDigitsStep(a: nat, k: nat)
    requires k > 0
    ensures Reverse(Digits(a, k)) == Reverse(Digits(a / 256, k - 1)) + [a % 256]
  {
  }

  lemma ReverseDigitsInjective(a: nat, b: nat, k: nat)
    requires a < Pow256(k) && b < Pow256(k)
    requires Reverse(Digits(a, k)) == Reverse(Digits(b, k))
    ensures a == b
  {
    ReverseTwice(Digits(a, k));
    ReverseTwice(Digits(b, k));
    DigitsThenValue(a, k);
    DigitsThenValue(b, k);
  }

  lemma {:induction false} BigEndianOrder(a: nat, b: nat, k: nat)
    requires a < Pow256(k) && b < Pow256(k)
    ensures DefaultMemCmp(Reverse(Digits(a, k)), Reverse(Digits(b, k))) <==> a < b
  {
    if k > 0 {
      var x, y := Reverse(Digits(a / 256, k - 1)), Reverse(Digits(b / 256, k - 1));
      ReverseDigitsStep(a, k);
      ReverseDigitsStep(b, k);
      BigEndianOrder(a / 256, b / 256, k - 1);
      OrderLastByte(x, y, a % 256, b % 256);
      if x == y {
        ReverseDigitsInjective(a / 256, b / 256, k - 1);
      }
    }
  }

  /** The map's order on one collection's keys is the numeric order of the ids. */
  lemma KeyOrderIsIdOrder(host: Endianness, name: bytes, id: u64, id': u64)
    ensures DefaultMemCmp(KeyFromId(host, name, id), KeyFromId(host, name, id')) <==> id < id'
  {
    KeyLayout(host, name, id);
    KeyLayout(host, name, id');
    OrderCommonPrefix(name + [0], BigEndianBytes(id), BigEndianBytes(id'));
    BigEndianOrder(id, id', 8);
  }
}
