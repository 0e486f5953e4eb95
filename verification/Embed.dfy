/** The metadata block that is appended to a capture, the footer that locates it, and what both leave unchanged. */
module Embed {
  import opened Bytes
  import opened Blocks
  import opened Footer
  import opened Wrappers

  const CUSTOM_BLOCK_TYPE: u32 := 0x0000_0BAD

  // "PQCAPMETA"
  const METADATA_MAGIC: bytes := [0x50, 0x51, 0x43, 0x41, 0x50, 0x4D, 0x45, 0x54, 0x41]

  // ----- what is appended -----

  /** Enterprise id, magic, version, flags and length: the 25 bytes before the Parquet bytes. */
  function CustomHeader(length: u64): (b: bytes)
    ensures |b| == 25
  {
    LE32(ENTERPRISE_ID) + METADATA_MAGIC + LE16(1) + LE16(0) + LE64(length)
  }

  /** How many zero bytes bring a length to a multiple of four. */
  function Padding(n: nat): (p: nat)
    ensures p < 4 && (n + p) % 4 == 0
  {
    (4 - n % 4) % 4
  }

  /** The size of the metadata block for Parquet bytes of the given length. */
  function MetadataBlockSize(parquetSize: nat): nat {
    12 + 25 + parquetSize + Padding(25 + parquetSize)
  }

  function CustomBody(parquet: bytes): (b: bytes)
    requires |parquet| < POW64
    ensures |b| == 25 + |parquet| + Padding(25 + |parquet|)
  {
    CustomHeader(|parquet|) + parquet + Zeros(Padding(25 + |parquet|))
  }

  /** The length fields hold the low 32 bits of the length. */
  function CustomBlock(parquet: bytes): (b: bytes)
    requires |parquet| < POW64
    ensures |b| == MetadataBlockSize(|parquet|)
  {
    var body := CustomBody(parquet);
    var len: u32 := Wrap32(12 + |body|);
    (LE32(CUSTOM_BLOCK_TYPE) + LE32(len)) + body + LE32(len)
  }

  /** Where the Parquet bytes will start: past the block header and the 25-byte metadata header. */
  function ParquetOffset(capture: bytes): u64 {
    Wrap64(|capture| + 8 + 25)
  }

  /** The size of the file after embedding. */
  function EmbeddedSize(captureSize: nat, parquetSize: nat): nat {
    captureSize + MetadataBlockSize(parquetSize) + FOOTER_BLOCK_SIZE
  }

  /** The file that the embedding writes back. */
  function Embedded(capture: bytes, parquet: bytes): (file: bytes)
    requires |parquet| < POW64
    ensures |file| == EmbeddedSize(|capture|, |parquet|)
  {
    capture + CustomBlock(parquet) + FooterBlock(1, 0, ParquetOffset(capture), |parquet|)
  }

  method EmbedParquet(capture: ByteVector, parquet: bytes)
    requires |parquet| < POW64
    modifies capture
    ensures capture.data == Embedded(old(capture.data), parquet)
  {
    hide CustomBlock, FooterBlock;
    var customBlock := BuildCustomBlock(parquet);
    var parquetAbsOffset: u64 := Wrap64(|capture.data| + 8 + 25);
    var footerBlock := BuildFooter(parquetAbsOffset, |parquet|);
    capture.InsertAtEnd(customBlock.data);
    capture.InsertAtEnd(footerBlock.data);
  }

  method BuildCustomBlock(parquet: bytes) returns (customBlock: ByteVector)
    requires |parquet| < POW64
    ensures fresh(customBlock) && customBlock.data == CustomBlock(parquet)
  {
    hide LE16, LE32, LE64;
    var body := new ByteVector([]);
    body.WriteLE32(ENTERPRISE_ID);
    for i := 0 to 9
      invariant body.data == [] + LE32(ENTERPRISE_ID) + METADATA_MAGIC[..i]
    {
      body.PushBack(METADATA_MAGIC[i]);
      assert METADATA_MAGIC[..i + 1] == METADATA_MAGIC[..i] + [METADATA_MAGIC[i]];
    }
    assert METADATA_MAGIC[..9] == METADATA_MAGIC;
    body.WriteLE16(1);
    body.WriteLE16(0);
    body.WriteLE64(|parquet|);
    assert body.data == CustomHeader(|parquet|);
    body.InsertAtEnd(parquet);
    PadToFour(body);

    var customLen: u32 := Wrap32(12 + |body.data|);
    customBlock := new ByteVector([]);
    customBlock.WriteLE32(CUSTOM_BLOCK_TYPE);
    customBlock.WriteLE32(customLen);
    customBlock.InsertAtEnd(body.data);
    customBlock.WriteLE32(customLen);
  }

  method PadToFour(body: ByteVector)
    modifies body
    ensures body.data == old(body.data) + Zeros(Padding(|old(body.data)|))
  {
    ghost var n := 0;
    while |body.data| % 4 != 0
      invariant n <= Padding(|old(body.data)|)
      invariant body.data == old(body.data) + Zeros(n)
      decreases Padding(|old(body.data)|) - n
    {
      body.PushBack(0);
      n := n + 1;
      assert Zeros(n) == Zeros(n - 1) + [0];
    }
  }

  method BuildFooter(offset: u64, length: u64) returns (footerBlock: ByteVector)
    ensures fresh(footerBlock) && footerBlock.data == FooterBlock(1, 0, offset, length)
  {
    hide LE16, LE32, LE64;
    var footerBody := new ByteVector([]);
    footerBody.WriteLE32(ENTERPRISE_ID);
    for i := 0 to 8
      invariant footerBody.data == [] + LE32(ENTERPRISE_ID) + FOOTER_MAGIC[..i]
    {
      footerBody.PushBack(FOOTER_MAGIC[i]);
      assert FOOTER_MAGIC[..i + 1] == FOOTER_MAGIC[..i] + [FOOTER_MAGIC[i]];
    }
    assert FOOTER_MAGIC[..8] == FOOTER_MAGIC;
    footerBody.WriteLE16(1);
    footerBody.WriteLE16(0);
    footerBody.WriteLE64(offset);
    footerBody.WriteLE64(length);
    assert footerBody.data == FooterBody(1, 0, offset, length);
    var footerLen: u32 := 12 + |footerBody.data|;
    footerBlock := new ByteVector([]);
    footerBlock.WriteLE32(FOOTER_BLOCK_TYPE);
    footerBlock.WriteLE32(footerLen);
    footerBlock.InsertAtEnd(footerBody.data);
    footerBlock.WriteLE32(footerLen);
  }

  // ----- what a reader finds -----

  /** The capture stays a prefix, the footer comes last, and the Parquet bytes lie where the footer says. */
  lemma EmbeddedLayout(capture: bytes, parquet: bytes)
    requires |parquet| < POW64
    ensures var file := Embedded(capture, parquet);
      && |capture| + 33 + |parquet| + FOOTER_BLOCK_SIZE <= |file|
      && file[..|capture|] == capture
      && file[|file| - FOOTER_BLOCK_SIZE..] == FooterBlock(1, 0, ParquetOffset(capture), |parquet|)
      && file[|capture| + 33..|capture| + 33 + |parquet|] == parquet
  {
    hide LE32, CustomHeader, Zeros, FooterBlock;
    var body := CustomBody(parquet);
    var len := LE32(Wrap32(12 + |body|));
    var header, zeros := CustomHeader(|parquet|), Zeros(Padding(25 + |parquet|));
    var footer := FooterBlock(1, 0, ParquetOffset(capture), |parquet|);
    var file := Embedded(capture, parquet);
    var before, after := capture + (LE32(CUSTOM_BLOCK_TYPE) + len) + header, zeros + len + footer;
    Regroup(capture, LE32(CUSTOM_BLOCK_TYPE) + len, body, len, footer);
    Regroup(capture + (LE32(CUSTOM_BLOCK_TYPE) + len), header, parquet, zeros, len + footer);
    Assoc(zeros, len, footer);
    assert file == before + parquet + after;
    hide *;
    MiddleOf(before, parquet, after);
  }

  /** The last 44 bytes parse as the footer that locates the Parquet bytes. */
  lemma EmbeddedTailParses(capture: bytes, parquet: bytes)
    requires |parquet| < POW64
    ensures var file := Embedded(capture, parquet);
      && |capture| + 33 + |parquet| + FOOTER_BLOCK_SIZE <= |file| && capture <= file
      && ParseFooterLocator(file[|file| - FOOTER_BLOCK_SIZE..])
         == Some(FooterLocator(ParquetOffset(capture), |parquet|))
  {
    EmbeddedLayout(capture, parquet);
    FooterRoundTrip(1, 0, ParquetOffset(capture), |parquet|);
    hide *;
  }

  /** The size of the metadata block fits its 32-bit length field. */
  predicate FitsLengthField(parquetSize: nat) {
    MetadataBlockSize(parquetSize) < POW32
  }

  function MetadataBlocks(parquet: bytes, offset: u64): (bs: seq<Block>)
    requires |parquet| < POW64 && FitsLengthField(|parquet|)
    ensures AllWellFormed(bs)
  {
    [Other(CUSTOM_BLOCK_TYPE, CustomBody(parquet)), Other(FOOTER_BLOCK_TYPE, FooterBody(1, 0, offset, |parquet|))]
  }

  /** Below 4 GiB, embedding appends exactly two well-formed blocks of non-packet types. */
  lemma EmbeddedBlocks(capture: bytes, parquet: bytes)
    requires |parquet| < POW64 && FitsLengthField(|parquet|)
    ensures Embedded(capture, parquet) == capture + EncodeAll(MetadataBlocks(parquet, ParquetOffset(capture)))
  {
    hide CustomBody, FooterBody, LE32;
    var bs := MetadataBlocks(parquet, ParquetOffset(capture));
    assert Encode(bs[0]) == CustomBlock(parquet);
    assert Encode(bs[1]) == FooterBlock(1, 0, ParquetOffset(capture), |parquet|);
    assert EncodeAll(bs[2..]) == [];
    assert EncodeAll(bs[1..]) == Encode(bs[1]) + [] == Encode(bs[1]);
    hide CustomBlock, FooterBlock, Encode;
    Assoc(capture, CustomBlock(parquet), Encode(bs[1]));
  }

  /** A capture that is a chain of well-formed blocks stays one, two blocks longer. */
  lemma EmbeddedChain(bs: seq<Block>, parquet: bytes)
    requires AllWellFormed(bs) && |parquet| < POW64 && FitsLengthField(|parquet|)
    ensures var metadata := MetadataBlocks(parquet, ParquetOffset(EncodeAll(bs)));
      AllWellFormed(bs + metadata) && Embedded(EncodeAll(bs), parquet) == EncodeAll(bs + metadata)
  {
    EmbeddedBlocks(EncodeAll(bs), parquet);
    hide *;
    EncodeAllAppend(bs, MetadataBlocks(parquet, ParquetOffset(EncodeAll(bs))));
  }

  /** Embedding an index into a capture that the walk consumes completely keeps every packet location
      and yields a file that the walk again consumes completely. */
  lemma EmbeddingKeepsScan(capture: bytes, parquet: bytes)
    requires |parquet| < POW64 && FitsLengthField(|parquet|)
    requires Complete(capture)
    ensures Scan(Embedded(capture, parquet), 0) == Scan(capture, 0)
    ensures Complete(Embedded(capture, parquet))
  {
    hide CustomBody, FooterBody;
    var bs := MetadataBlocks(parquet, ParquetOffset(capture));
    EmbeddedBlocks(capture, parquet);
    ScanComposes(capture, EncodeAll(bs));
    ScanIsExact(bs);
    assert Packets(bs) == PacketIn(bs[0]) + (PacketIn(bs[1]) + Packets(bs[2..])) == [];
  }

  lemma EmbeddedHeader(capture: bytes, parquet: bytes)
    requires |parquet| < POW64
    ensures var file := Embedded(capture, parquet);
      && |capture| + 8 <= |file|
      && ReadLE32(file, |capture|) == CUSTOM_BLOCK_TYPE
      && ReadLE32(file, |capture| + 4) == Wrap32(12 + |CustomBody(parquet)|)
  {
    hide LE32, CustomBody, FooterBlock, ReadLE32;
    var len: u32 := Wrap32(12 + |CustomBody(parquet)|);
    var t, n := LE32(CUSTOM_BLOCK_TYPE), LE32(len);
    var rest := CustomBody(parquet) + n + FooterBlock(1, 0, ParquetOffset(capture), |parquet|);
    var file := Embedded(capture, parquet);
    assert file == capture + t + (n + rest);
    assert file == (capture + t) + n + rest;
    hide *;
    ReadLE32At(capture, CUSTOM_BLOCK_TYPE, n + rest);
    ReadLE32At(capture + t, len, rest);
  }

  /** The metadata block byte for byte: type, length, enterprise id, "PQCAPMETA", version 1, no flags, the Parquet
      length, the Parquet bytes, zeros up to a multiple of four, and the length again. */
  lemma MetadataBytes(parquet: bytes)
    requires |parquet| < POW64
    ensures var b := CustomBlock(parquet);
      var size := MetadataBlockSize(|parquet|);
      && 37 + |parquet| <= |b| == size < 41 + |parquet| && size % 4 == 0
      && b[..4] == [0xAD, 0x0B, 0, 0] && b[4..8] == ShiftedBytes(size % POW32, 4)
      && b[8..25] == [0x50, 0x49, 0x58, 0x51] + [0x50, 0x51, 0x43, 0x41, 0x50, 0x4D, 0x45, 0x54, 0x41] + [1, 0, 0, 0]
      && b[25..33] == ShiftedBytes(|parquet|, 8) && b[33..33 + |parquet|] == parquet
      && (forall i | 33 + |parquet| <= i < size - 4 :: b[i] == 0)
      && b[size - 4..] == ShiftedBytes(size % POW32, 4)
  {
    hide LE32, LE16, LE64, ShiftedBytes, CustomBlock, Zeros, MetadataFront;
    var len: u32 := Wrap32(MetadataBlockSize(|parquet|));
    MetadataSize(|parquet|);
    MetadataShape(parquet);
    FrontBytes(|parquet|, len);
    FourShiftsOf(len);
    BlockParts(CustomBlock(parquet), MetadataFront(|parquet|, len), parquet, Padding(25 + |parquet|), LE32(len));
    hide Padding, MetadataBlockSize;
  }

  lemma MetadataSize(n: nat)
    ensures 37 + n <= MetadataBlockSize(n) == 37 + n + Padding(25 + n) < 41 + n && MetadataBlockSize(n) % 4 == 0
  {
  }

  function MetadataFront(parquetSize: u64, len: u32): bytes {
    LE32(CUSTOM_BLOCK_TYPE) + LE32(len) + LE32(ENTERPRISE_ID) + METADATA_MAGIC + (LE16(1) + LE16(0)) + LE64(parquetSize)
  }

  lemma MetadataShape(parquet: bytes)
    requires |parquet| < POW64
    ensures var len: u32 := Wrap32(MetadataBlockSize(|parquet|));
      CustomBlock(parquet)
      == MetadataFront(|parquet|, len) + parquet + Zeros(Padding(25 + |parquet|)) + LE32(len)
  {
    hide LE32, LE16, LE64, Zeros, Wrap32, Padding;
    var len: u32 := Wrap32(MetadataBlockSize(|parquet|));
    assert 12 + |CustomBody(parquet)| == MetadataBlockSize(|parquet|);
    var t, h, pad := LE32(CUSTOM_BLOCK_TYPE) + LE32(len), CustomHeader(|parquet|), Zeros(Padding(25 + |parquet|));
    assert MetadataFront(|parquet|, len) == t + h;
    hide MetadataFront, CustomHeader;
    assert CustomBlock(parquet) == t + (h + parquet + pad) + LE32(len);
    assert t + (h + parquet + pad) + LE32(len) == (t + h) + parquet + pad + LE32(len);
  }

  lemma FrontBytes(parquetSize: u64, len: u32)
    ensures var front := MetadataFront(parquetSize, len);
      && |front| == 33 && front[..4] == [0xAD, 0x0B, 0, 0] && front[4..8] == LE32(len)
      && front[8..25]
         == [0x50, 0x49, 0x58, 0x51] + [0x50, 0x51, 0x43, 0x41, 0x50, 0x4D, 0x45, 0x54, 0x41] + [1, 0, 0, 0]
      && front[25..33] == ShiftedBytes(parquetSize, 8)
  {
    MetadataWords();
    EightShifts(parquetSize);
    hide LE32, LE16, LE64, ShiftedBytes;
  }

  lemma BlockParts(b: bytes, front: bytes, parquet: bytes, padding: nat, last: bytes)
    requires b == front + parquet + Zeros(padding) + last && |front| == 33 && |last| == 4
    ensures |b| == 37 + |parquet| + padding
    ensures b[..4] == front[..4] && b[4..8] == front[4..8] && b[8..25] == front[8..25] && b[25..33] == front[25..33]
    ensures b[33..33 + |parquet|] == parquet && b[|b| - 4..] == last
    ensures forall i | 33 + |parquet| <= i < |b| - 4 :: b[i] == 0
  {
    assert b[..33] == front;
    assert b[..4] == b[..33][..4] && b[4..8] == b[..33][4..8];
    assert b[8..25] == b[..33][8..25] && b[25..33] == b[..33][25..33];
    forall i | 33 + |parquet| <= i < |b| - 4
      ensures b[i] == 0
    {
      assert b[i] == Zeros(padding)[i - 33 - |parquet|];
    }
  }

  lemma FourShiftsOf(v: u32)
    ensures LE32(v) == ShiftedBytes(v, 4)
  {
  }

  lemma MetadataWords()
    ensures LE32(CUSTOM_BLOCK_TYPE) == [0xAD, 0x0B, 0, 0] && LE32(ENTERPRISE_ID) == [0x50, 0x49, 0x58, 0x51]
    ensures LE16(1) + LE16(0) == [1, 0, 0, 0]
  {
    LE32Bytes(CUSTOM_BLOCK_TYPE);
    LE32Bytes(ENTERPRISE_ID);
    hide LE32;
  }
}
