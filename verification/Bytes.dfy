/** Machine integers as bounded integers, byte strings, and the little- and big-endian
    encodings that the container formats use.  Shifts and masks of the C++ code are
    written as division, remainder and multiplication by powers of two. */
module Bytes {

  const POW16: int := 0x1_0000
  const POW32: int := 0x1_0000_0000
  const POW64: int := 0x1_0000_0000_0000_0000

  type byte = x: int | 0 <= x < 0x100
  type u16 = x: int | 0 <= x < 0x1_0000
  type u32 = x: int | 0 <= x < 0x1_0000_0000
  type u64 = x: int | 0 <= x < 0x1_0000_0000_0000_0000
  type bytes = seq<byte>

  function Zeros(n: nat): (z: bytes)
    ensures |z| == n
  {
    seq(n, _ => 0)
  }

  /** Conversion to an unsigned word keeps the low bits. */
  function Wrap32(n: nat): u32 {
    n % POW32
  }

  function Wrap64(n: nat): u64 {
    n % POW64
  }

  /** Addition of 64-bit words. */
  function Add64(a: u64, b: u64): (sum: u64)
    ensures sum == Wrap64(a + b)
  {
    if a + b < POW64 then a + b else a + b - POW64
  }

  // The four bytes of a 32-bit word, least significant first.
  function Byte0(v: u32): byte { v % 0x100 }
  function Byte1(v: u32): byte { v / 0x100 % 0x100 }
  function Byte2(v: u32): byte { v / 0x1_0000 % 0x100 }
  function Byte3(v: u32): byte { v / 0x100_0000 }

  function Word(b0: byte, b1: byte, b2: byte, b3: byte): u32 {
    b0 as int + 0x100 * b1 as int + 0x1_0000 * b2 as int + 0x100_0000 * b3 as int
  }

  function LE16(v: u16): (b: bytes)
    ensures |b| == 2
  {
    [v % 0x100, v / 0x100]
  }

  /** `n` little-endian bytes of `v`, one shift by eight at a time. */
  function ShiftedBytes(v: nat, n: nat): (b: bytes)
    ensures |b| == n
  {
    if n == 0 then [] else [v % 0x100] + ShiftedBytes(v / 0x100, n - 1)
  }

  function LE32(v: u32): (b: bytes)
    ensures |b| == 4
  {
    ShiftedBytes(v, 4)
  }

  function LE64(v: u64): (b: bytes)
    ensures |b| == 8
  {
    ShiftedBytes(v, 8)
  }

  function BE16(v: u16): (b: bytes)
    ensures |b| == 2
  {
    [v / 0x100, v % 0x100]
  }

  function BE32(v: u32): (b: bytes)
    ensures |b| == 4
  {
    [Byte3(v), Byte2(v), Byte1(v), Byte0(v)]
  }

  function ReadLE16(s: bytes, pos: nat): u16
    requires pos + 2 <= |s|
  {
    s[pos] as int + 0x100 * s[pos + 1] as int
  }

  function ReadLE32(s: bytes, pos: nat): u32
    requires pos + 4 <= |s|
  {
    Word(s[pos], s[pos + 1], s[pos + 2], s[pos + 3])
  }

  function ReadLE64(s: bytes, pos: nat): u64
    requires pos + 8 <= |s|
  {
    ReadLE32(s, pos) + POW32 * ReadLE32(s, pos + 4)
  }

  function ReadBE16(s: bytes, pos: nat): u16
    requires pos + 2 <= |s|
  {
    0x100 * s[pos] as int + s[pos + 1] as int
  }

  function ReadBE32(s: bytes, pos: nat): u32
    requires pos + 4 <= |s|
  {
    Word(s[pos + 3], s[pos + 2], s[pos + 1], s[pos])
  }

  /** The byte swap of a 32-bit word: every byte moves to the mirrored place. */
  function Swap32(v: u32): u32 {
    Byte3(v) as int + 0x100 * Byte2(v) as int + 0x1_0000 * Byte1(v) as int + 0x100_0000 * Byte0(v) as int
  }

  // ----- arithmetic -----

  lemma DivBy256(q: nat, r: nat)
    requires r < 0x100
    ensures (r + 0x100 * q) / 0x100 == q && (r + 0x100 * q) % 0x100 == r
  {
  }

  lemma DivTwice(v: nat)
    ensures v / 0x1_0000 == v / 0x100 / 0x100 && v / 0x100_0000 == v / 0x100 / 0x100 / 0x100
  {
  }

  lemma BytesOfWord(b0: byte, b1: byte, b2: byte, b3: byte)
    ensures var v := Word(b0, b1, b2, b3);
      Byte0(v) == b0 && Byte1(v) == b1 && Byte2(v) == b2 && Byte3(v) == b3
  {
    var q2 := b2 as int + 0x100 * b3 as int;
    var q1 := b1 as int + 0x100 * q2;
    DivBy256(q1, b0);
    DivBy256(q2, b1);
    DivBy256(b3, b2);
    DivTwice(b0 as int + 0x100 * q1);
  }

  lemma WordOfBytes(v: u32)
    ensures Word(Byte0(v), Byte1(v), Byte2(v), Byte3(v)) == v
  {
    DivTwice(v);
  }

  // ----- the bytes of an encoding -----

  lemma Unshift(r: byte, q: nat, n: nat)
    ensures ShiftedBytes(r as int + 0x100 * q, n + 1) == [r] + ShiftedBytes(q, n)
  {
    DivBy256(q, r);
  }

  /** The first four of a number's shifted bytes are the bytes of its low word. */
  lemma FourShifts(v: nat, n: nat)
    ensures var w: u32 := v % POW32;
      ShiftedBytes(v, n + 4) == [Byte0(w), Byte1(w), Byte2(w), Byte3(w)] + ShiftedBytes(v / POW32, n)
  {
    hide Byte0, Byte1, Byte2, Byte3, ShiftedBytes;
    var w: u32, q := v % POW32, v / POW32;
    var b0, b1, b2, b3 := Byte0(w), Byte1(w), Byte2(w), Byte3(w);
    WordOfBytes(w);
    var v3 := b3 as int + 0x100 * q;
    var v2 := b2 as int + 0x100 * v3;
    var v1 := b1 as int + 0x100 * v2;
    assert v == b0 as int + 0x100 * v1;
    Unshift(b0, v1, n + 3);
    Unshift(b1, v2, n + 2);
    Unshift(b2, v3, n + 1);
    Unshift(b3, q, n);
    assert [b0, b1, b2, b3] == [b0] + ([b1] + ([b2] + [b3]));
  }

  lemma LE32Bytes(v: u32)
    ensures LE32(v) == [Byte0(v), Byte1(v), Byte2(v), Byte3(v)]
  {
    hide Byte0, Byte1, Byte2, Byte3, ShiftedBytes;
    FourShifts(v, 0);
    assert v % POW32 == v;
    assert ShiftedBytes(v / POW32, 0) == [];
  }

  /** The writer's eight shifts are the two 32-bit halves that the footer reader reassembles. */
  lemma ShiftedBytesAreLE64(v: u64)
    ensures ShiftedBytes(v, 8) == LE32(v % POW32) + LE32(v / POW32)
  {
    hide ShiftedBytes, Byte0, Byte1, Byte2, Byte3;
    FourShifts(v, 4);
    LE32Bytes(v % POW32);
  }

  // ----- reading back -----

  lemma Assoc(a: bytes, b: bytes, c: bytes)
    ensures a + b + c == a + (b + c)
  {
  }

  /** Brings a part of a middle string to the front level. */
  lemma Regroup(a: bytes, x: bytes, mid: bytes, y: bytes, b: bytes)
    ensures a + (x + mid + y) + b == (a + x) + mid + (y + b)
  {
  }

  lemma MiddleOf(a: bytes, b: bytes, c: bytes)
    ensures (a + b + c)[|a|..|a| + |b|] == b
  {
  }

  lemma ReadLE16At(pre: bytes, v: u16, post: bytes)
    ensures ReadLE16(pre + LE16(v) + post, |pre|) == v
  {
  }

  lemma ReadLE32At(pre: bytes, v: u32, post: bytes)
    ensures ReadLE32(pre + LE32(v) + post, |pre|) == v
  {
    hide Byte0, Byte1, Byte2, Byte3, Word, LE32;
    WordOfBytes(v);
    LE32Bytes(v);
  }

  lemma ReadBE32At(pre: bytes, v: u32, post: bytes)
    ensures ReadBE32(pre + BE32(v) + post, |pre|) == v
  {
    hide Byte0, Byte1, Byte2, Byte3, Word;
    WordOfBytes(v);
  }

  lemma LE64Halves(v: u64)
    ensures LE64(v) == LE32(v % POW32) + LE32(v / POW32)
  {
    ShiftedBytesAreLE64(v);
  }

  lemma ReadLE64At(pre: bytes, v: u64, post: bytes)
    ensures ReadLE64(pre + LE64(v) + post, |pre|) == v
  {
    hide LE32, LE64, ReadLE32, ShiftedBytes;
    LE64Halves(v);
    var lo, hi := LE32(v % POW32), LE32(v / POW32);
    Regroup(pre, [], lo, hi, post);
    assert [] + lo + hi == lo + hi && pre + [] == pre;
    Assoc(pre + lo, hi, post);
    ReadLE32At(pre, v % POW32, hi + post);
    ReadLE32At(pre + lo, v / POW32, post);
  }

  lemma LE16OfRead(s: bytes, pos: nat)
    requires pos + 2 <= |s|
    ensures s[pos..pos + 2] == LE16(ReadLE16(s, pos))
  {
  }

  /** Every four bytes are the encoding of the word they read as. */
  lemma LE32OfRead(s: bytes, pos: nat)
    requires pos + 4 <= |s|
    ensures s[pos..pos + 4] == LE32(ReadLE32(s, pos))
  {
    hide Byte0, Byte1, Byte2, Byte3, Word, LE32;
    BytesOfWord(s[pos], s[pos + 1], s[pos + 2], s[pos + 3]);
    LE32Bytes(ReadLE32(s, pos));
  }

  lemma LE64OfRead(s: bytes, pos: nat)
    requires pos + 8 <= |s|
    ensures s[pos..pos + 8] == LE64(ReadLE64(s, pos))
  {
    hide LE32, LE64, ReadLE32, ShiftedBytes;
    LE64Halves(ReadLE64(s, pos));
    LE32OfRead(s, pos);
    LE32OfRead(s, pos + 4);
    assert s[pos..pos + 8] == s[pos..pos + 4] + s[pos + 4..pos + 8];
    assert ReadLE64(s, pos) % POW32 == ReadLE32(s, pos) && ReadLE64(s, pos) / POW32 == ReadLE32(s, pos + 4);
  }

  /** A swapped little-endian read is a big-endian read. */
  lemma SwappedRead(s: bytes, pos: nat)
    requires pos + 4 <= |s|
    ensures Swap32(ReadLE32(s, pos)) == ReadBE32(s, pos)
  {
    hide Byte0, Byte1, Byte2, Byte3;
    BytesOfWord(s[pos], s[pos + 1], s[pos + 2], s[pos + 3]);
  }

  method ToArray(s: bytes) returns (a: array<byte>)
    ensures fresh(a) && a[..] == s
  {
    a := new byte[|s|](i requires 0 <= i < |s| => s[i]);
  }

  /** `std::vector<uint8_t>`, as the embedding code fills it. */
  class ByteVector {
    var data: bytes

    constructor (initial: bytes)
      ensures data == initial
    {
      data := initial;
    }

    method PushBack(b: byte)
      modifies this
      ensures data == old(data) + [b]
    {
      data := data + [b];
    }

    method InsertAtEnd(b: bytes)
      modifies this
      ensures data == old(data) + b
    {
      data := data + b;
    }

    method WriteLE16(v: u16)
      modifies this
      ensures data == old(data) + LE16(v)
    {
      PushBack(v % 0x100);
      PushBack(v / 0x100 % 0x100);
    }

    method WriteLE32(v: u32)
      modifies this
      ensures data == old(data) + LE32(v)
    {
      LE32Bytes(v);
      hide LE32, ShiftedBytes;
      PushBack(v % 0x100);
      PushBack(v / 0x100 % 0x100);
      PushBack(v / 0x1_0000 % 0x100);
      PushBack(v / 0x100_0000 % 0x100);
    }

    method WriteLE64(v: u64)
      modifies this
      ensures data == old(data) + LE64(v)
    {
      hide LE64, ShiftedBytes;
      var rest: nat := v;
      ghost var done: bytes := [];
      for i := 0 to 8
        invariant data == old(data) + done && |done| == i
        invariant ShiftedBytes(v, 8) == done + ShiftedBytes(rest, 8 - i)
      {
        ShiftOne(done, rest, 8 - i);
        PushBack(rest % 0x100);
        done := done + [rest % 0x100];
        rest := rest / 0x100;
      }
      assert done + ShiftedBytes(rest, 0) == done;
      EightShifts(v);
    }
  }

  lemma EightShifts(v: u64)
    ensures LE64(v) == ShiftedBytes(v, 8)
  {
  }

  lemma ShiftOne(done: bytes, rest: nat, n: nat)
    requires n > 0
    ensures done + ShiftedBytes(rest, n) == done + [rest % 0x100] + ShiftedBytes(rest / 0x100, n - 1)
  {
  }
}
