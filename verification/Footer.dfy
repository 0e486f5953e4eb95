/** The 44-byte footer block that closes a PQCAP file, and its parser. */
module Footer {
  import opened Bytes
  import opened Wrappers

  const FOOTER_BLOCK_TYPE: u32 := 0x0000_0BEE
  const ENTERPRISE_ID: u32 := 0x5158_4950
  const FOOTER_BLOCK_SIZE: nat := 44

  // "PQCAPFTR"
  const FOOTER_MAGIC: bytes := [0x50, 0x51, 0x43, 0x41, 0x50, 0x46, 0x54, 0x52]

  datatype FooterLocator = FooterLocator(offset: u64, length: u64)

  function FooterBody(version: u16, flags: u16, offset: u64, length: u64): (b: bytes)
    ensures |b| == 32
  {
    (LE32(ENTERPRISE_ID) + FOOTER_MAGIC) + (LE16(version) + LE16(flags)) + (LE64(offset) + LE64(length))
  }

  function FooterBlock(version: u16, flags: u16, offset: u64, length: u64): (b: bytes)
    ensures |b| == FOOTER_BLOCK_SIZE
  {
    (LE32(FOOTER_BLOCK_TYPE) + LE32(44)) + FooterBody(version, flags, offset, length) + LE32(44)
  }

  function ParseFooterLocator(b: bytes): Option<FooterLocator> {
    if |b| != FOOTER_BLOCK_SIZE then None
    else if ReadLE32(b, 0) != FOOTER_BLOCK_TYPE || ReadLE32(b, 4) != 44 || ReadLE32(b, 40) != 44 then None
    else if ReadLE32(b, 8) != ENTERPRISE_ID then None
    else if b[12..20] != FOOTER_MAGIC then None
    else if ReadLE16(b, 20) > 1 then None
    else Some(FooterLocator(ReadLE64(b, 24), ReadLE64(b, 32)))
  }

  lemma FooterFields(version: u16, flags: u16, offset: u64, length: u64)
    ensures var b := FooterBlock(version, flags, offset, length);
      && ReadLE32(b, 0) == FOOTER_BLOCK_TYPE && ReadLE32(b, 4) == 44 && ReadLE32(b, 40) == 44
      && b[8..40] == FooterBody(version, flags, offset, length)
  {
    hide LE32, FooterBody, ReadLE32;
    var t, n, body := LE32(FOOTER_BLOCK_TYPE), LE32(44), FooterBody(version, flags, offset, length);
    var b := (t + n) + body + n;
    MiddleOf(t + n, body, n);
    assert b == [] + t + (n + body + n);
    ReadLE32At([], FOOTER_BLOCK_TYPE, n + body + n);
    assert b == t + n + (body + n);
    ReadLE32At(t, 44, body + n);
    assert b == (t + n + body) + n + [];
    ReadLE32At(t + n + body, 44, []);
  }

  lemma FooterBodyFields(version: u16, flags: u16, offset: u64, length: u64)
    ensures var b := FooterBody(version, flags, offset, length);
      && ReadLE32(b, 0) == ENTERPRISE_ID && b[4..12] == FOOTER_MAGIC
      && ReadLE16(b, 12) == version && ReadLE64(b, 16) == offset && ReadLE64(b, 24) == length
  {
    hide LE32, LE16, LE64, ReadLE32, ReadLE16, ReadLE64;
    var e, m, v, f, o, l := LE32(ENTERPRISE_ID), FOOTER_MAGIC, LE16(version), LE16(flags), LE64(offset), LE64(length);
    var b := (e + m) + (v + f) + (o + l);
    assert b == [] + e + (m + (v + f) + (o + l));
    ReadLE32At([], ENTERPRISE_ID, m + (v + f) + (o + l));
    assert b == e + m + ((v + f) + (o + l));
    assert b == (e + m) + v + (f + (o + l));
    ReadLE16At(e + m, version, f + (o + l));
    assert b == (e + m + (v + f)) + o + l;
    ReadLE64At(e + m + (v + f), offset, l);
    assert b == (e + m + (v + f) + o) + l + [];
    ReadLE64At(e + m + (v + f) + o, length, []);
  }

  /** What the parser answers for a footer encoding: the offset and length, unless the version is above 1. */
  lemma FooterRoundTrip(version: u16, flags: u16, offset: u64, length: u64)
    ensures ParseFooterLocator(FooterBlock(version, flags, offset, length))
         == if version <= 1 then Some(FooterLocator(offset, length)) else None
  {
    FooterFields(version, flags, offset, length);
    FooterBodyFields(version, flags, offset, length);
    var b, body := FooterBlock(version, flags, offset, length), FooterBody(version, flags, offset, length);
    hide FooterBlock, FooterBody, Word;
    ReadShifted(b, 8, body, 0);
    ReadShifted(b, 8, body, 16);
    ReadShifted(b, 8, body, 20);
    ReadShifted(b, 8, body, 24);
    ReadShifted(b, 8, body, 28);
    assert forall k | 0 <= k < 32 :: body[k] == b[8 + k];
    assert b[12..20] == body[4..12];
    assert b[20] == body[12] && b[21] == body[13];
  }

  lemma ReadShifted(b: bytes, d: nat, body: bytes, pos: nat)
    requires d + |body| <= |b| && b[d..d + |body|] == body && pos + 4 <= |body|
    ensures ReadLE32(b, d + pos) == ReadLE32(body, pos)
  {
    hide Word;
    assert forall k | 0 <= k < |body| :: body[k] == b[d + k];
  }

  lemma CutAt(b: bytes, i: nat, j: nat, k: nat)
    requires i <= j <= k <= |b|
    ensures b[i..k] == b[i..j] + b[j..k]
  {
  }

  lemma FooterBodyRebuilt(b: bytes)
    requires |b| == FOOTER_BLOCK_SIZE && ReadLE32(b, 8) == ENTERPRISE_ID && b[12..20] == FOOTER_MAGIC
    ensures b[8..40] == FooterBody(ReadLE16(b, 20), ReadLE16(b, 22), ReadLE64(b, 24), ReadLE64(b, 32))
  {
    LE32OfRead(b, 8);
    LE16OfRead(b, 20);
    LE16OfRead(b, 22);
    LE64OfRead(b, 24);
    LE64OfRead(b, 32);
    hide LE16, LE32, LE64, ReadLE16, ReadLE32, ReadLE64;
    CutAt(b, 8, 12, 20);
    CutAt(b, 20, 22, 24);
    CutAt(b, 24, 32, 40);
    CutAt(b, 8, 20, 24);
    CutAt(b, 8, 24, 40);
  }

  /** Bytes that the parser accepts are, field by field, a footer encoding. */
  lemma FooterRebuilt(b: bytes)
    requires ParseFooterLocator(b).Some?
    ensures var loc := ParseFooterLocator(b).value;
      ReadLE16(b, 20) <= 1 && b == FooterBlock(ReadLE16(b, 20), ReadLE16(b, 22), loc.offset, loc.length)
  {
    hide FooterBody, LE32, ReadLE16, ReadLE32, ReadLE64;
    LE32OfRead(b, 0);
    LE32OfRead(b, 4);
    LE32OfRead(b, 40);
    FooterBodyRebuilt(b);
    CutAt(b, 0, 4, 8);
    CutAt(b, 0, 8, 40);
    CutAt(b, 0, 40, 44);
    assert b[0..44] == b;
  }

  /** The parser accepts a byte string with a locator exactly when the string is the footer encoding
      of that locator under some version of at most 1 and some flags. */
  lemma FooterParserIsExact(b: bytes, loc: FooterLocator)
    ensures ParseFooterLocator(b) == Some(loc) <==>
      exists version: u16, flags: u16 :: version <= 1 && b == FooterBlock(version, flags, loc.offset, loc.length)
  {
    if ParseFooterLocator(b) == Some(loc) {
      FooterRebuilt(b);
    }
    if version: u16, flags: u16 :| version <= 1 && b == FooterBlock(version, flags, loc.offset, loc.length) {
      FooterRoundTrip(version, flags, loc.offset, loc.length);
    }
  }

  /** The footer byte for byte: type, length, enterprise id, "PQCAPFTR", version 1, no flags, the two numbers and the
      length again. */
  lemma FooterBytes(offset: u64, length: u64)
    ensures var b := FooterBlock(1, 0, offset, length);
      && b[..24] == [0xEE, 0x0B, 0, 0, 44, 0, 0, 0, 0x50, 0x49, 0x58, 0x51]
                    + [0x50, 0x51, 0x43, 0x41, 0x50, 0x46, 0x54, 0x52] + [1, 0, 0, 0]
      && b[24..32] == ShiftedBytes(offset, 8) && b[32..40] == ShiftedBytes(length, 8)
      && b[40..] == [44, 0, 0, 0]
  {
    FooterWords();
    hide LE32, LE16, LE64, ShiftedBytes;
    EightShifts(offset);
    EightShifts(length);
    var b := FooterBlock(1, 0, offset, length);
    assert b == (LE32(FOOTER_BLOCK_TYPE) + LE32(44) + LE32(ENTERPRISE_ID) + FOOTER_MAGIC + (LE16(1) + LE16(0)))
      + LE64(offset) + LE64(length) + LE32(44);
  }

  lemma FooterWords()
    ensures LE32(FOOTER_BLOCK_TYPE) == [0xEE, 0x0B, 0, 0] && LE32(44) == [44, 0, 0, 0]
    ensures LE32(ENTERPRISE_ID) == [0x50, 0x49, 0x58, 0x51]
    ensures LE16(1) + LE16(0) == [1, 0, 0, 0]
  {
    LE32Bytes(FOOTER_BLOCK_TYPE);
    LE32Bytes(44);
    LE32Bytes(ENTERPRISE_ID);
    hide LE32;
  }
}
