/** How long metadata may be before its block's 32-bit length field wraps and misleads the block walk. */
module MetadataLimit {
  import opened Bytes
  import opened Blocks
  import opened Footer
  import opened Embed

  /** Embedding does no harm: the walk finds the packets that it found before and again consumes the whole file. */
  predicate Harmless(capture: bytes, parquet: bytes) {
    && |parquet| < POW64
    && Scan(Embedded(capture, parquet), 0) == Scan(capture, 0)
    && Complete(Embedded(capture, parquet))
  }

  // ----- what the walk meets in the metadata block of an empty-looking Parquet string -----

  // "PAR1", with which every Parquet file starts and ends
  const PARQUET_MAGIC: bytes := [0x50, 0x41, 0x52, 0x31]

  /** A string of the given length between the Parquet magics. */
  function HollowParquet(n: nat): (p: bytes)
    ensures |p| == n
  {
    if n < 8 then Zeros(n) else PARQUET_MAGIC + Zeros(n - 8) + PARQUET_MAGIC
  }

  /** The bytes behind a capture after embedding such a string, as far as the walk looks at them. */
  predicate HollowTail(s: bytes, n: u64) {
    && 33 + n <= |s|
    && ReadLE32(s, 4) == Wrap32(MetadataBlockSize(n))
    && s[8..33] == CustomHeader(n)
    && s[33..33 + n] == HollowParquet(n)
  }

  lemma EmbeddedHollowTail(n: u64, rest: bytes)
    ensures HollowTail(CustomBlock(HollowParquet(n)) + rest, n)
  {
    hide LE32, CustomHeader, Zeros, ReadLE32, Wrap32, HollowParquet;
    var p := HollowParquet(n);
    var body := CustomBody(p);
    var len: u32 := Wrap32(12 + |body|);
    var t, l, h, pad := LE32(CUSTOM_BLOCK_TYPE), LE32(len), CustomHeader(n), Zeros(Padding(25 + n));
    var s := CustomBlock(p) + rest;
    Regroup([], t + l, body, l, rest);
    assert [] + ((t + l) + body + l) == (t + l) + body + l && [] + (t + l) == t + l;
    TailParts(s, t, l, h, p, pad, l + rest);
    ReadLE32At(t, len, h + p + pad + (l + rest));
  }

  lemma TailParts(s: bytes, t: bytes, l: bytes, h: bytes, z: bytes, pad: bytes, rest: bytes)
    requires s == (t + l) + (h + z + pad) + rest && |t| == |l| == 4 && |h| == 25
    ensures s == t + l + (h + z + pad + rest) && 33 + |z| <= |s|
    ensures s[8..33] == h && s[33..33 + |z|] == z
  {
    Assoc(t + l, h + z + pad, rest);
    Regroup(t + l, h, z, pad, rest);
    assert s == (t + l) + h + (z + (pad + rest));
    hide *;
    MiddleOf(t + l, h, z + (pad + rest));
    MiddleOf((t + l) + h, z, pad + rest);
  }

  predicate LandsOnZeros(n: u64, pos: nat) {
    33 <= pos && pos + 8 <= 29 + n
  }

  lemma ZerosStopWalk(s: bytes, n: u64, pos: nat)
    requires 33 + n <= |s| && s[33..33 + n] == HollowParquet(n) && LandsOnZeros(n, pos)
    ensures WalkEnd(s, pos) == pos
  {
    hide HollowParquet;
    ZeroAt(s, n, pos + 4);
    ZeroAt(s, n, pos + 5);
    ZeroAt(s, n, pos + 6);
    ZeroAt(s, n, pos + 7);
  }

  lemma ZeroAt(s: bytes, n: u64, i: nat)
    requires 33 + n <= |s| && s[33..33 + n] == HollowParquet(n) && 37 <= i < 29 + n
    ensures s[i] == 0
  {
    assert s[i] == s[33..33 + n][i - 33];
  }

  lemma MagicAt(s: bytes, n: u64)
    requires 33 + n <= |s| && s[33..33 + n] == HollowParquet(n) && n >= 8
    ensures s[33] == 0x50 && s[34] == 0x41 && s[35] == 0x52 && s[36] == 0x31
  {
    var p := s[33..33 + n];
    assert s[33] == p[0] && s[34] == p[1] && s[35] == p[2] && s[36] == p[3];
  }

  /** The bytes of the metadata header that a wrapped length can make the walk read as a length. */
  lemma HeaderBytes(n: u64)
    ensures var h := CustomHeader(n); h[11] == 0x54 && h[12] == 0x41 && h[15] == h[16] == 0 && h[17..25] == LE64(n)
  {
    hide LE64, LE32;
    assert LE16(1) == [1, 0] && LE16(0) == [0, 0];
  }

  /** The word that the walk reads as a length when the first length has wrapped to `len`. */
  lemma SecondLength(s: bytes, n: u64, len: nat)
    requires HollowTail(s, n) && len in {12, 16, 20, 24}
    ensures ReadLE32(s, len + 4) == ReadLE32(CustomHeader(n), len - 4)
  {
    hide CustomHeader, HollowParquet, Wrap32, MetadataBlockSize, Word;
    var h := CustomHeader(n);
    assert forall k | 0 <= k < 25 :: h[k] == s[8 + k];
  }

  lemma WordBounds(b0: byte, b1: byte, b2: byte, b3: byte)
    ensures Word(b0, b1, b2, b3) >= b0
    ensures 0x100_0000 * b3 <= Word(b0, b1, b2, b3) < 0x100_0000 * (b3 as int + 1)
    ensures b0 == 0 ==> Word(b0, b1, b2, b3) <= 0xFFFF_FF00
    ensures b1 == b2 == b3 == 0 ==> Word(b0, b1, b2, b3) == b0
  {
  }

  lemma LowerBytes(a: byte, hi: u32)
    ensures Word(a, Byte0(hi), Byte1(hi), Byte2(hi)) <= 0xFF + 0x100 * hi
  {
    WordOfBytes(hi);
    hide Byte0, Byte1, Byte2, Byte3;
  }

  lemma HighPart(n: u64)
    requires n >= 0x1000
    ensures 0xFF + 0x100 * (n / POW32) + 12 <= n
  {
  }

  /** A length that straddles the upper bytes of the Parquet length. */
  lemma StraddlingLength(n: u64)
    requires n >= 0x1000
    ensures Word(LE64(n)[3], LE64(n)[4], LE64(n)[5], LE64(n)[6]) + 12 <= n
  {
    hide Word, Byte0, Byte1, Byte2, Byte3, LE32, LE64;
    LE64Halves(n);
    LE32Bytes(n % POW32);
    LE32Bytes(n / POW32);
    LowerBytes(Byte3(n % POW32), n / POW32);
    HighPart(n);
  }

  /** Wherever the wrapped length sends the walk inside the metadata header, the next step stops it or sends it
      into the zeros. */
  lemma SecondHop(s: bytes, n: u64, len: nat)
    requires HollowTail(s, n) && n >= POW32 - 40 && len in {12, 16, 20, 24, 28, 32}
    ensures ReadLE32(s, len + 4) < 12 || LandsOnZeros(n, len + ReadLE32(s, len + 4))
  {
    HeaderBytes(n);
    var h := CustomHeader(n);
    if len >= 28 {
      LastHops(s, n);
    } else {
      SecondLength(s, n, len);
      hide CustomHeader, HollowTail, Word;
      WordBounds(h[len - 4], h[len - 3], h[len - 2], h[len - 1]);
      if len == 24 {
        assert forall k | 0 <= k < 8 :: h[17 + k] == h[17..25][k] == LE64(n)[k];
        StraddlingLength(n);
      }
    }
  }

  /** Lengths read from the leading Parquet magic. */
  lemma LastHops(s: bytes, n: u64)
    requires HollowTail(s, n) && n >= 11
    ensures 0x5200_0000 <= ReadLE32(s, 32) < 0x5300_0000 && ReadLE32(s, 36) == 0x31
  {
    hide CustomHeader, HollowParquet, Wrap32, MetadataBlockSize, Word;
    MagicAt(s, n);
    ZeroAt(s, n, 37);
    ZeroAt(s, n, 38);
    ZeroAt(s, n, 39);
    WordBounds(s[32], 0x50, 0x41, 0x52);
    WordBounds(0x31, 0, 0, 0);
  }

  lemma WrappedSize(n: u64)
    requires !FitsLengthField(n)
    ensures n >= POW32 - 40 && Wrap32(MetadataBlockSize(n)) % 4 == 0
    ensures Wrap32(MetadataBlockSize(n)) + POW32 <= MetadataBlockSize(n) <= n + 40
  {
  }

  lemma StopsShort(s: bytes, len: nat, pos: nat)
    requires len <= |s| && BlockFits(s, 0) && len == ReadLE32(s, 4)
    requires WalkEnd(s, len) == pos || (BlockFits(s, len) && WalkEnd(s, len + ReadLE32(s, len + 4)) == pos)
    requires pos < |s|
    ensures !Complete(s)
  {
    hide ReadLE32;
  }

  lemma OversizedTailStops(s: bytes, n: u64)
    requires HollowTail(s, n) && !FitsLengthField(n)
    ensures !Complete(s)
  {
    WrappedSize(n);
    hide CustomHeader, HollowParquet, Wrap32, MetadataBlockSize, ReadLE32, FitsLengthField, WalkEnd;
    var len := ReadLE32(s, 4);
    if len < 12 {
      StopsAt(s, 0);
    } else if len >= 33 {
      ZerosStopWalk(s, n, len);
      StopsShort(s, len, len);
    } else {
      SecondHop(s, n, len);
      if BlockFits(s, len) {
        var next := len + ReadLE32(s, len + 4);
        ZerosStopWalk(s, n, next);
        StopsShort(s, len, next);
      } else {
        StopsAt(s, len);
        StopsShort(s, len, len);
      }
    }
  }

  lemma StopsAt(s: bytes, pos: nat)
    requires pos <= |s| && !BlockFits(s, pos)
    ensures WalkEnd(s, pos) == pos
  {
    hide BlockFits;
  }

  /** Hollow metadata of an oversized length breaks any capture whatsoever. */
  lemma OversizedHollowHarms(capture: bytes, n: u64)
    requires Complete(capture) && !FitsLengthField(n)
    ensures !Complete(Embedded(capture, HollowParquet(n)))
  {
    hide Complete, FitsLengthField, CustomBlock, FooterBlock, HollowParquet, HollowTail;
    var footer := FooterBlock(1, 0, ParquetOffset(capture), n);
    EmbeddedHollowTail(n, footer);
    OversizedTailStops(CustomBlock(HollowParquet(n)) + footer, n);
    Assoc(capture, CustomBlock(HollowParquet(n)), footer);
    ScanComposes(capture, CustomBlock(HollowParquet(n)) + footer);
  }

  /** Exactly when embedding is safe: metadata of length `n` does no harm to any completely walked capture if and only
      if its block's size fits the 32-bit length field.  For every longer length there is a string of that
      length, between the Parquet magics, that leaves no capture completely walked. */
  lemma HarmlessIffFits(n: u64)
    ensures (forall capture: bytes, parquet: bytes | Complete(capture) && |parquet| == n :: Harmless(capture, parquet))
       <==> FitsLengthField(n)
    ensures !FitsLengthField(n) ==>
      forall capture: bytes | Complete(capture) :: !Complete(Embedded(capture, HollowParquet(n)))
  {
    hide Complete, FitsLengthField, Embedded, Scan, HollowParquet;
    if FitsLengthField(n) {
      forall capture: bytes, parquet: bytes | Complete(capture) && |parquet| == n
        ensures Harmless(capture, parquet)
      {
        EmbeddingKeepsScan(capture, parquet);
      }
    } else {
      forall capture: bytes | Complete(capture)
        ensures !Complete(Embedded(capture, HollowParquet(n)))
      {
        OversizedHollowHarms(capture, n);
      }
      EmptyIsComplete();
      assert !Harmless([], HollowParquet(n));
    }
  }

  lemma EmptyIsComplete()
    ensures Complete([])
  {
  }

  // ----- an oversized length that even invents a packet -----

  /** Parquet bytes of length 2^32 - 1 with an empty EPB at offset 3. */
  function OversizedParquet(): (p: bytes)
    ensures |p| == POW32 - 1
  {
    Zeros(3) + Encode(Epb(0, 0, 0, 0, [], [])) + Zeros(POW32 - 36)
  }

  lemma PartOfPart(file: bytes, base: nat, part: bytes, lo: nat, hi: nat)
    requires lo <= hi <= |part| && base + |part| <= |file| && file[base..base + |part|] == part
    ensures file[base + lo..base + hi] == part[lo..hi]
  {
    assert forall k | 0 <= k < |part| :: part[k] == file[base + k];
  }

  lemma OversizedPrefix()
    ensures OversizedParquet()[3..35] == Encode(Epb(0, 0, 0, 0, [], []))
  {
    hide Encode, Zeros;
    MiddleOf(Zeros(3), Encode(Epb(0, 0, 0, 0, [], [])), Zeros(POW32 - 36));
  }

  lemma OversizedLayout(file: bytes, e: bytes)
    requires e == Encode(Epb(0, 0, 0, 0, [], [])) && file == Embedded([], OversizedParquet())
    ensures |e| == 32 && 68 <= |file| && file == file[..36] + e + file[68..]
  {
    hide Embedded, Encode, OversizedParquet, FooterBlock;
    EmbeddedLayout([], OversizedParquet());
    OversizedPrefix();
    PartOfPart(file, 33, OversizedParquet(), 3, 35);
  }

  lemma SizeOfOversized()
    ensures Wrap32(12 + (25 + (POW32 - 1) + Padding(25 + (POW32 - 1)))) == 36
  {
    assert Padding(25 + (POW32 - 1)) == 0;
  }

  /** The first two words of the file when the metadata is one byte short of 4 GiB. */
  lemma WrappedHeader(file: bytes, p: bytes)
    requires |p| == POW32 - 1 && file == Embedded([], p)
    ensures 8 <= |file| && ReadLE32(file, 0) == CUSTOM_BLOCK_TYPE && ReadLE32(file, 4) == 36
  {
    hide Embedded, CustomBody, ReadLE32, Wrap32, Padding;
    EmbeddedHeader([], p);
    SizeOfOversized();
  }

  lemma OversizedHeader(file: bytes)
    requires file == Embedded([], OversizedParquet()) && |file| >= 68
    ensures BlockFits(file, 0) && ReadLE32(file, 4) == 36 && Found(file, 0) == []
  {
    hide Embedded, OversizedParquet, ReadLE32, BlockFits, Found;
    WrappedHeader(file, OversizedParquet());
    HeaderSkipped(file, CUSTOM_BLOCK_TYPE, 36);
  }

  lemma HeaderSkipped(file: bytes, kind: u32, len: u32)
    requires 12 <= len <= |file| && ReadLE32(file, 0) == kind && ReadLE32(file, 4) == len
    requires kind != EPB_TYPE && kind != SPB_TYPE
    ensures BlockFits(file, 0) && Found(file, 0) == []
  {
    hide ReadLE32;
  }

  /** The 4 GiB limit is needed: the length field of this metadata wraps to 36, so the walk lands inside
      the Parquet bytes and reports a packet that the (empty, hence complete) capture does not have. */
  lemma OversizedMetadataBreaksScan()
    ensures Complete([]) && Scan([], 0) == []
    ensures !FitsLengthField(|OversizedParquet()|)
    ensures Scan(Embedded([], OversizedParquet()), 0) != []
  {
    var epb := Epb(0, 0, 0, 0, [], []);
    var file := Embedded([], OversizedParquet());
    OversizedLayout(file, Encode(epb));
    OversizedHeader(file);
    assert LocationIn(epb, 36) == [Location(64, 0)];
    hide Embedded, OversizedParquet, Encode, ReadLE32, Scan, Found;
    ChainStep(file, file[..36], epb, file[68..], 68);
    ScanStep(file, 0, 36);
  }
}
