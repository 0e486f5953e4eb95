/** `pqcap_embed_index` on classic captures: when such a call succeeds, and what the classic reader makes of the file
    afterwards. */
module ClassicIndexing {
  import opened Bytes
  import opened Wrappers
  import opened Blocks
  import opened Footer
  import opened Embed
  import opened IndexCalls
  import opened ClassicPcap

  /** The packet reader's answer for a file that opens as a classic capture: the number of packets, or a failure when
      the data is cut. */
  function ClassicFeatures(file: bytes): Option<nat>
    requires Open(file).Ok?
  {
    var (packets, ending) := ReadAll(Open(file).value);
    if ending.CleanEnd? then Some(|packets|) else None
  }

  /** A call on a classic capture succeeds exactly when the capture reads to a clean end, the block walk (which takes
      its bytes for pcapng blocks) finds as many packets as the classic reader, the file does not end in a footer, and
      metadata and file can be written. */
  lemma ClassicCallSucceedsExactly(file: bytes, env: Env)
    requires Open(file).Ok? && env.features == ClassicFeatures(file)
    ensures IndexCall(file, env).1.Ok? <==>
      && ReadAll(Open(file).value).1.CleanEnd?
      && |ReadAll(Open(file).value).0| == |Scan(file, 0)|
      && !EndsInFooter(file) && env.metadata.Written? && env.writable
  {
    hide IndexCall, Open, ReadAll, Scan, EndsInFooter;
    CallSucceedsExactly(file, env);
  }

  // ----- reading past whole records -----

  lemma WholeRecordsStep(r: Reader, rs: seq<Record>)
    requires ValidRecords(rs) && rs != [] && !r.finished && r.pos + RecordsSize(rs) <= |r.file|
    requires r.file[r.pos..r.pos + RecordsSize(rs)] == RecordsBytes(r.swap, rs)
    ensures ValidRecord(rs[0]) && r.pos + RecordSize(rs[0]) <= |r.file|
    ensures r.file[r.pos..r.pos + RecordSize(rs[0])] == RecordBytes(r.swap, rs[0])
    ensures r.file[r.pos + RecordSize(rs[0])..r.pos + RecordsSize(rs)] == RecordsBytes(r.swap, rs[1..])
  {
    hide RecordBytes;
    var b, tail := RecordBytes(r.swap, rs[0]), RecordsBytes(r.swap, rs[1..]);
    SplitSlice(r.file, r.pos, b, tail);
  }

  lemma SplitSlice(s: bytes, pos: nat, b: bytes, tail: bytes)
    requires pos + |b| + |tail| <= |s| && s[pos..pos + |b| + |tail|] == b + tail
    ensures s[pos..pos + |b|] == b && s[pos + |b|..pos + |b| + |tail|] == tail
  {
    var t := s[pos..pos + |b| + |tail|];
    assert s[pos..pos + |b|] == t[..|b|] && s[pos + |b|..pos + |b| + |tail|] == t[|b|..];
  }

  lemma PacketsThenMore(r: Reader, r1: Reader, rs: seq<Record>, more: seq<Packet>, ending: Ending)
    requires ValidRecords(rs) && rs != [] && r.pos <= |r.file| && r1.pos <= |r1.file|
    requires Next(r) == (r1, Got(PacketOf(rs[0], r.nanos, r.linktype)))
    requires ReadAll(r1) == (PacketsOf(rs[1..], r.nanos, r.linktype) + more, ending)
    ensures ReadAll(r) == (PacketsOf(rs, r.nanos, r.linktype) + more, ending)
  {
    hide Next, ReadAll, PacketsOf, PacketOf;
    var p := PacketOf(rs[0], r.nanos, r.linktype);
    ReadAllStep(r, r1, p);
    PacketsOfCons(rs[0], rs[1..], r.nanos, r.linktype);
    assert [rs[0]] + rs[1..] == rs;
    assert [p] + (PacketsOf(rs[1..], r.nanos, r.linktype) + more)
        == [p] + PacketsOf(rs[1..], r.nanos, r.linktype) + more;
  }

  /** Whole records are delivered, and reading goes on behind them. */
  lemma {:induction false} ReadsThenGoesOn(r: Reader, rs: seq<Record>)
    requires ValidRecords(rs) && !r.finished && r.pos + RecordsSize(rs) <= |r.file|
    requires r.file[r.pos..r.pos + RecordsSize(rs)] == RecordsBytes(r.swap, rs)
    ensures var (more, ending) := ReadAll(r.(pos := r.pos + RecordsSize(rs)));
      ReadAll(r) == (PacketsOf(rs, r.nanos, r.linktype) + more, ending)
    decreases |rs|
  {
    hide ReadAll, Next, PacketOf, RecordBytes, RecordsBytes;
    if rs == [] {
      assert r.(pos := r.pos + RecordsSize(rs)) == r;
      var more := ReadAll(r).0;
      assert PacketsOf(rs, r.nanos, r.linktype) + more == more;
    } else {
      WholeRecordsStep(r, rs);
      NextWhole(r, rs[0]);
      var r1 := r.(pos := r.pos + RecordSize(rs[0]));
      ReadsThenGoesOn(r1, rs[1..]);
      hide PacketsOf, RecordSize;
      var (more, ending) := ReadAll(r.(pos := r.pos + RecordsSize(rs)));
      assert r1.(pos := r1.pos + RecordsSize(rs[1..])) == r.(pos := r.pos + RecordsSize(rs));
      PacketsThenMore(r, r1, rs, more, ending);
    }
  }

  // ----- what is left of a classic capture -----

  lemma OpensAlike(file: bytes, longer: bytes)
    requires Open(file).Ok? && file <= longer
    ensures Open(longer) == Ok(Open(file).value.(file := longer))
  {
    hide Word, Swap32;
    assert longer[..|file|] == file;
  }

  /** What an indexed classic capture delivers: the packets as before, and then whatever the classic reader takes the
      metadata for, from the end of the last whole record on. */
  lemma IndexedClassicReads(file: bytes, p: parquet, rs: seq<Record>, tail: bytes)
    requires Open(file).Ok? && SplitsFrom(file, 24, Open(file).value.swap, rs, tail)
    ensures var r := Open(file).value;
      var file1 := Embedded(file, p);
      && 24 + RecordsSize(rs) == |file| - |tail| && file <= file1 && Open(file1) == Ok(r.(file := file1))
      && var (more, ending) := ReadAll(r.(file := file1, pos := 24 + RecordsSize(rs)));
         ReadAll(Open(file1).value) == (PacketsOf(rs, r.nanos, r.linktype) + more, ending)
  {
    hide Embedded, ReadAll, PacketsOf;
    EmbeddedIsNotPlain(file, p);
    OpensAlike(file, Embedded(file, p));
    hide Open;
    var r := Open(file).value.(file := Embedded(file, p));
    PrefixSlice(file, r.file, RecordsBytes(r.swap, rs), tail);
    ReadsThenGoesOn(r, rs);
  }

  lemma PrefixSlice(file: bytes, longer: bytes, b: bytes, tail: bytes)
    requires file <= longer && 24 <= |file| && file[24..] == b + tail
    ensures |file| == 24 + |b| + |tail| && longer[24..24 + |b|] == b
  {
    assert longer[..|file|] == file;
    assert longer[24..24 + |b|] == file[24..][..|b|];
  }

  /** With a whole record header left, reading does not end: it delivers a packet or reports cut data. */
  lemma DoesNotEnd(r: Reader)
    requires !r.finished && r.pos + 16 <= |r.file|
    ensures ReadAll(r).0 != [] || ReadAll(r).1 == DataTruncated
    ensures ReadAll(r) == ([], DataTruncated) <==> r.pos + 16 + HostWord(r.file, r.pos + 8, r.swap) > |r.file|
  {
    hide HostWord, PacketAt;
    if r.pos + 16 + HostWord(r.file, r.pos + 8, r.swap) > |r.file| {
      NotGot(r);
    } else {
      hide ReadAll;
      ReadAllStep(r, Next(r).0, Next(r).1.packet);
    }
  }

  /** Embedding an index spoils every classic capture that reads to a clean end, whatever the metadata: the packets are
      still delivered first, but then comes a packet that was never captured, or the error of cut data. */
  lemma IndexSpoilsClassic(file: bytes, p: parquet)
    requires Open(file).Ok? && ReadAll(Open(file).value).1.CleanEnd?
    ensures Open(Embedded(file, p)).Ok?
    ensures var before := ReadAll(Open(file).value).0;
      var (after, ending) := ReadAll(Open(Embedded(file, p)).value);
      && before <= after
      && (|after| > |before| || ending == DataTruncated)
  {
    hide Open, ReadAll, Embedded, PacketsOf, SplitsFrom;
    var r := Open(file).value;
    ReadsFrom(r);
    var rs: seq<Record>, tail: bytes :| ReadsSplit(r, rs, tail);
    SplitIsValid(file, 24, r.swap, rs, tail);
    IndexedClassicReads(file, p, rs, tail);
    DoesNotEnd(r.(file := Embedded(file, p), pos := 24 + RecordsSize(rs)));
  }

  // ----- exactly what follows a capture without a partial record -----

  /** The metadata block's third word, which the classic reader takes for a captured length. */
  function BogusLength(swap: bool): u32 {
    if swap then 0x5049_5851 else 0x5158_4950
  }

  lemma EnterpriseWord(s: bytes, pos: nat, swap: bool)
    requires pos + 4 <= |s| && ReadLE32(s, pos) == ENTERPRISE_ID
    ensures HostWord(s, pos, swap) == BogusLength(swap)
  {
    hide ReadLE32;
    SwappedEnterprise();
  }

  lemma SwappedEnterprise()
    ensures Swap32(ENTERPRISE_ID) == 0x5049_5851
  {
    BytesOfWord(0x50, 0x49, 0x58, 0x51);
    assert ENTERPRISE_ID == Word(0x50, 0x49, 0x58, 0x51);
    hide Byte0, Byte1, Byte2, Byte3;
  }

  /** The enterprise id is the third word behind the capture. */
  lemma ThirdWord(file: bytes, p: parquet)
    ensures var file1 := Embedded(file, p);
      |file| + 16 <= |file1| && ReadLE32(file1, |file| + 8) == ENTERPRISE_ID
  {
    hide LE32, LE16, LE64, FooterBlock, ReadLE32, Zeros;
    var body := CustomBody(p);
    var head, len := LE32(CUSTOM_BLOCK_TYPE), LE32(Wrap32(12 + |body|));
    var footer := FooterBlock(1, 0, ParquetOffset(file), |p|);
    var id := LE32(ENTERPRISE_ID);
    var rest := METADATA_MAGIC + LE16(1) + LE16(0) + LE64(|p|);
    assert CustomHeader(|p|) == id + rest;
    var zeros := Zeros(Padding(25 + |p|));
    assert body == id + (rest + p + zeros);
    hide CustomBody, CustomHeader;
    Regroup(file, head + len, body, len, footer);
    assert Embedded(file, p) == (file + (head + len)) + id + (rest + p + zeros + (len + footer));
    ReadLE32At(file + (head + len), ENTERPRISE_ID, rest + p + zeros + (len + footer));
  }

  /** For a capture that ends with a whole record: the index leaves its packets followed by the error of cut data
      exactly when the metadata is too short to pass for the data of one more record. */
  lemma WholeClassicAfterIndexing(file: bytes, p: parquet, rs: seq<Record>)
    requires Open(file).Ok? && SplitsFrom(file, 24, Open(file).value.swap, rs, [])
    ensures Open(Embedded(file, p)).Ok?
    ensures var r := Open(file).value;
      ReadAll(Open(Embedded(file, p)).value) == (PacketsOf(rs, r.nanos, r.linktype), DataTruncated)
      <==> MetadataBlockSize(|p|) + FOOTER_BLOCK_SIZE < 16 + BogusLength(r.swap)
  {
    hide Open, ReadAll, Embedded, PacketsOf, SplitsFrom, MetadataBlockSize, BogusLength;
    var r := Open(file).value;
    SplitIsValid(file, 24, r.swap, rs, []);
    IndexedClassicReads(file, p, rs, []);
    ThirdWord(file, p);
    var file1 := Embedded(file, p);
    EnterpriseWord(file1, |file| + 8, r.swap);
    DoesNotEnd(r.(file := file1, pos := |file|));
    var (more, ending) := ReadAll(r.(file := file1, pos := |file|));
    NothingMore(PacketsOf(rs, r.nanos, r.linktype), more);
  }

  lemma NothingMore(ps: seq<Packet>, more: seq<Packet>)
    ensures ps + more == ps <==> more == []
  {
    if ps + more == ps {
      assert |ps + more| == |ps|;
    } else {
      assert more == [] ==> ps + more == ps;
    }
  }

  // ----- an empty classic capture -----

  lemma EmptyCaptureScan(file: bytes)
    requires |file| == 24 && ReadLE32(file, 4) > 24
    ensures Scan(file, 0) == []
  {
    hide ReadLE32;
  }

  /** The version numbers 2 and 4, taken for a block length, lie past the end of the global header. */
  lemma VersionWord(file: bytes, f: Format, g: GlobalFields)
    requires file == GlobalHeader(f, g) && g.versionMajor == 2 && g.versionMinor == 4
    ensures ReadLE32(file, 4) > 24
  {
    hide Enc32;
    assert BE16(2) == [0, 2] && BE16(4) == [0, 4] && LE16(2) == [2, 0] && LE16(4) == [4, 0];
    assert file[4..8] == Enc16(f.big, 2) + Enc16(f.big, 4);
    assert file[4] == file[4..8][0] && file[5] == file[4..8][1] && file[6] == file[4..8][2] && file[7] == file[4..8][3];
  }

  /** A call on an empty classic capture of version 2.4 succeeds, reports no packets, and leaves a file that the classic
      reader answers with the error of cut data. */
  lemma EmptyClassicIsSpoiled(f: Format, g: GlobalFields, p: parquet)
    requires g.versionMajor == 2 && g.versionMinor == 4 && |p| < 0x4000_0000
    ensures var file := GlobalHeader(f, g);
      && Open(file).Ok? && ReadAll(Open(file).value) == ([], CleanEnd)
      && IndexCall(file, Env(ClassicFeatures(file), Written(p), true)) == (Embedded(file, p), Ok(0))
      && Open(Embedded(file, p)).Ok? && ReadAll(Open(Embedded(file, p)).value) == ([], DataTruncated)
  {
    hide GlobalHeader, Open, ReadAll, Embedded, Scan, ReadLE32, PacketsOf;
    var file := GlobalHeader(f, g);
    assert CaptureBytes(f, g, []) == file + [] == file;
    CaptureRoundTrip(f, g, []);
    NoPacketsOf(f.nanos, g.linktype);
    VersionWord(file, f, g);
    EmptyCaptureScan(file);
    assert |file| < FOOTER_BLOCK_SIZE;
    var r := Open(file).value;
    EmptySplit(file, r.swap);
    WholeClassicAfterIndexing(file, p, []);
    NoPacketsOf(r.nanos, r.linktype);
  }

  lemma NoPacketsOf(nanos: bool, linktype: u32)
    ensures PacketsOf([], nanos, linktype) == []
  {
  }

  lemma EmptySplit(file: bytes, swap: bool)
    requires |file| == 24
    ensures SplitsFrom(file, 24, swap, [], [])
  {
    assert file[24..] == [];
  }
}
