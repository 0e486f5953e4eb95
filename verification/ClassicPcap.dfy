/** The classic pcap format (sections 4 and 5 of draft-ietf-opsawg-pcap) and the stream reader for it on a
    little-endian host. */
module ClassicPcap {
  import opened Bytes
  import opened Wrappers

  // What a little-endian host reads for the four magic numbers.
  const PCAP_MAGIC_LE: u32 := 0xA1B2_C3D4
  const PCAP_MAGIC_BE: u32 := 0xD4C3_B2A1
  const PCAP_NSEC_MAGIC_LE: u32 := 0xA1B2_3C4D
  const PCAP_NSEC_MAGIC_BE: u32 := 0x4D3C_B2A1

  // ----- the format -----

  /** Byte order and time resolution. */
  datatype Format = Format(big: bool, nanos: bool)

  datatype GlobalFields = GlobalFields(
    versionMajor: u16, versionMinor: u16, thiszone: u32, sigfigs: u32, snaplen: u32, linktype: u32)

  datatype Record = Record(seconds: u32, fraction: u32, origLen: u32, data: bytes)

  predicate ValidRecord(r: Record) {
    |r.data| < POW32
  }

  predicate ValidRecords(rs: seq<Record>) {
    forall i | 0 <= i < |rs| :: ValidRecord(rs[i])
  }

  function Enc16(big: bool, v: u16): (b: bytes)
    ensures |b| == 2
  {
    if big then BE16(v) else LE16(v)
  }

  function Enc32(big: bool, v: u32): (b: bytes)
    ensures |b| == 4
  {
    if big then BE32(v) else LE32(v)
  }

  function MagicNumber(nanos: bool): u32 {
    if nanos then 0xA1B2_3C4D else 0xA1B2_C3D4
  }

  function GlobalHeader(f: Format, g: GlobalFields): (b: bytes)
    ensures |b| == 24
  {
    Enc32(f.big, MagicNumber(f.nanos))
    + (Enc16(f.big, g.versionMajor) + Enc16(f.big, g.versionMinor) + Enc32(f.big, g.thiszone)
       + Enc32(f.big, g.sigfigs) + Enc32(f.big, g.snaplen))
    + Enc32(f.big, g.linktype)
  }

  function RecordHeader(big: bool, r: Record): (b: bytes)
    requires ValidRecord(r)
    ensures |b| == 16
  {
    (Enc32(big, r.seconds) + Enc32(big, r.fraction)) + (Enc32(big, |r.data|) + Enc32(big, r.origLen))
  }

  function RecordBytes(big: bool, r: Record): (b: bytes)
    requires ValidRecord(r)
    ensures |b| == RecordSize(r)
  {
    RecordHeader(big, r) + r.data
  }

  function RecordSize(r: Record): nat {
    16 + |r.data|
  }

  function RecordsBytes(big: bool, rs: seq<Record>): (b: bytes)
    requires ValidRecords(rs)
    ensures |b| == RecordsSize(rs)
  {
    if rs == [] then [] else RecordBytes(big, rs[0]) + RecordsBytes(big, rs[1..])
  }

  function RecordsSize(rs: seq<Record>): nat {
    if rs == [] then 0 else RecordSize(rs[0]) + RecordsSize(rs[1..])
  }

  function CaptureBytes(f: Format, g: GlobalFields, rs: seq<Record>): bytes
    requires ValidRecords(rs)
  {
    GlobalHeader(f, g) + RecordsBytes(f.big, rs)
  }

  // ----- the reader -----

  datatype PacketHeader = PacketHeader(
    interfaceId: u32, capturedLength: u32, originalLength: u32, dataLink: u16, seconds: u32, nanoseconds: nat)

  datatype Packet = Packet(header: PacketHeader, data: bytes)

  function TimestampMicros(h: PacketHeader): nat {
    h.seconds * 1_000_000 + h.nanoseconds / 1000
  }

  datatype OpenError = TruncatedHeader | UnsupportedMagic

  datatype Reader = Reader(file: bytes, pos: nat, swap: bool, nanos: bool, linktype: u32, finished: bool)

  datatype Outcome = Got(packet: Packet) | End | TruncatedData

  predicate SwapMagic(magic: u32) {
    magic == PCAP_MAGIC_BE || magic == PCAP_NSEC_MAGIC_BE
  }

  predicate NanosMagic(magic: u32) {
    magic == PCAP_NSEC_MAGIC_LE || magic == PCAP_NSEC_MAGIC_BE
  }

  predicate KnownMagic(magic: u32) {
    SwapMagic(magic) || NanosMagic(magic) || magic == PCAP_MAGIC_LE
  }

  function HostWord(s: bytes, pos: nat, swap: bool): u32
    requires pos + 4 <= |s|
  {
    if swap then Swap32(ReadLE32(s, pos)) else ReadLE32(s, pos)
  }

  /** The outcome of opening a file. */
  function Open(file: bytes): (r: Result<Reader, OpenError>)
    ensures r.Ok? ==> r.value.file == file && r.value.pos == 24 <= |file| && !r.value.finished
  {
    if |file| < 4 then Err(TruncatedHeader)
    else
      var magic := ReadLE32(file, 0);
      if !KnownMagic(magic) then Err(UnsupportedMagic)
      else if |file| < 24 then Err(TruncatedHeader)
      else Ok(Reader(file, 24, SwapMagic(magic), NanosMagic(magic), HostWord(file, 20, SwapMagic(magic)), false))
  }

  function PacketAt(r: Reader): Packet
    requires r.pos + 16 <= |r.file| && r.pos + 16 + HostWord(r.file, r.pos + 8, r.swap) <= |r.file|
  {
    var fraction := HostWord(r.file, r.pos + 4, r.swap);
    var captured := HostWord(r.file, r.pos + 8, r.swap);
    Packet(
      PacketHeader(0, captured, HostWord(r.file, r.pos + 12, r.swap), r.linktype % POW16,
                   HostWord(r.file, r.pos, r.swap), if r.nanos then fraction else fraction * 1000),
      r.file[r.pos + 16..r.pos + 16 + captured])
  }

  /** What one call of `Next` does. */
  function Next(r: Reader): (res: (Reader, Outcome))
    requires r.pos <= |r.file|
    ensures res.0.file == r.file && r.pos <= res.0.pos <= |r.file|
    ensures res.1.Got? ==> r.pos < res.0.pos
  {
    if r.finished then (r, End)
    else if r.pos + 16 > |r.file| then (r.(pos := |r.file|, finished := true), End)
    else
      var captured := HostWord(r.file, r.pos + 8, r.swap);
      if r.pos + 16 + captured > |r.file| then (r.(pos := |r.file|), TruncatedData)
      else (r.(pos := r.pos + 16 + captured), Got(PacketAt(r)))
  }

  class ClassicPcapReader {
    const file: bytes
    var pos: nat
    var swapEndian: bool
    var nanosecondTs: bool
    var linktype: u32
    var finished: bool

    ghost predicate Valid()
      reads this
    {
      pos <= |file|
    }

    function State(): Reader
      reads this
    {
      Reader(file, pos, swapEndian, nanosecondTs, linktype, finished)
    }

    constructor (file: bytes)
      ensures Valid() && State() == Reader(file, 0, false, false, 1, false)
    {
      this.file := file;
      pos, swapEndian, nanosecondTs, linktype, finished := 0, false, false, 1, false;
    }

    /** `fread` of one item of `n` bytes: a short item moves to the end of the file. */
    method Fetch(n: nat) returns (ok: bool, at: nat)
      requires Valid()
      modifies `pos
      ensures Valid() && at == old(pos) && ok == (at + n <= |file|)
      ensures pos == if ok then at + n else |file|
    {
      at := pos;
      ok := pos + n <= |file|;
      pos := if ok then pos + n else |file|;
    }

    method ReadWord() returns (ok: bool, word: u32)
      requires Valid()
      modifies `pos
      ensures Valid() && ok == (old(pos) + 4 <= |file|)
      ensures pos == if ok then old(pos) + 4 else |file|
      ensures ok ==> word == HostWord(file, old(pos), swapEndian)
    {
      var at;
      ok, at := Fetch(4);
      word := 0;
      if ok {
        word := ReadLE32(file, at);
        if swapEndian {
          word := Swap32(word);
        }
      }
    }

    /** The global header, read field by field as the reader is constructed. */
    method ReadGlobalHeader() returns (error: Option<OpenError>)
      requires Valid() && State() == Reader(file, 0, false, false, 1, false)
      modifies this
      ensures Valid()
      ensures error.None? ==> Open(file) == Ok(State())
      ensures error.Some? ==> Open(file) == Err(error.value)
    {
      hide ReadLE32, Swap32;
      var ok, magic := ReadWord();
      if !ok {
        return Some(TruncatedHeader);
      }
      if magic == PCAP_MAGIC_LE {
        swapEndian, nanosecondTs := false, false;
      } else if magic == PCAP_MAGIC_BE {
        swapEndian, nanosecondTs := true, false;
      } else if magic == PCAP_NSEC_MAGIC_LE {
        swapEndian, nanosecondTs := false, true;
      } else if magic == PCAP_NSEC_MAGIC_BE {
        swapEndian, nanosecondTs := true, true;
      } else {
        return Some(UnsupportedMagic);
      }
      var at, ignored;
      ok, at := Fetch(2);
      if !ok { return Some(TruncatedHeader); }
      ok, at := Fetch(2);
      if !ok { return Some(TruncatedHeader); }
      ok, ignored := ReadWord();
      if !ok { return Some(TruncatedHeader); }
      ok, ignored := ReadWord();
      if !ok { return Some(TruncatedHeader); }
      ok, ignored := ReadWord();
      if !ok { return Some(TruncatedHeader); }
      ok, ignored := ReadWord();
      if !ok { return Some(TruncatedHeader); }
      linktype := ignored;
      error := None;
    }

    method ReadNext() returns (outcome: Outcome)
      requires Valid()
      modifies this
      ensures Valid() && (State(), outcome) == Next(old(State()))
    {
      hide ReadLE32, Swap32, HostWord;
      if finished {
        return End;
      }
      var ok, tsSec, tsSub, inclLen, origLen, at;
      ok, tsSec := ReadWord();
      if !ok { finished := true; return End; }
      ok, tsSub := ReadWord();
      if !ok { finished := true; return End; }
      ok, inclLen := ReadWord();
      if !ok { finished := true; return End; }
      ok, origLen := ReadWord();
      if !ok { finished := true; return End; }
      ok, at := Fetch(inclLen);
      if !ok {
        return TruncatedData;
      }
      var nanoseconds: nat := if nanosecondTs then tsSub else tsSub as int * 1000;
      var header := PacketHeader(0, inclLen, origLen, linktype % POW16, tsSec, nanoseconds);
      outcome := Got(Packet(header, file[at..at + inclLen]));
    }
  }

  // ----- reading to the end -----

  datatype Ending = CleanEnd | DataTruncated

  /** Every packet that successive calls of `Next` deliver, and how they end. */
  function ReadAll(r: Reader): (seq<Packet>, Ending)
    requires r.pos <= |r.file|
    decreases |r.file| - r.pos
  {
    var (r1, outcome) := Next(r);
    match outcome
    case End => ([], CleanEnd)
    case TruncatedData => ([], DataTruncated)
    case Got(p) =>
      var (ps, ending) := ReadAll(r1);
      ([p] + ps, ending)
  }

  /** The packet that a record stands for. */
  function PacketOf(rec: Record, nanos: bool, linktype: u32): Packet
    requires ValidRecord(rec)
  {
    Packet(PacketHeader(0, |rec.data|, rec.origLen, linktype % POW16, rec.seconds,
                        if nanos then rec.fraction else rec.fraction * 1000),
           rec.data)
  }

  function PacketsOf(rs: seq<Record>, nanos: bool, linktype: u32): (ps: seq<Packet>)
    requires ValidRecords(rs)
    ensures |ps| == |rs|
  {
    seq(|rs|, i requires 0 <= i < |rs| => PacketOf(rs[i], nanos, linktype))
  }

  // ----- proofs -----

  lemma WordAt(s: bytes, pos: nat, big: bool, v: u32)
    requires pos + 4 <= |s| && s[pos..pos + 4] == Enc32(big, v)
    ensures HostWord(s, pos, big) == v
  {
    hide Byte0, Byte1, Byte2, Byte3, Word, Swap32;
    SwappedRead(s, pos);
    var e := Enc32(big, v);
    assert e == [] + e + [];
    ReadLE32At([], v, []);
    ReadBE32At([], v, []);
    assert s[pos] == e[0] && s[pos + 1] == e[1] && s[pos + 2] == e[2] && s[pos + 3] == e[3];
  }

  /** The four words of a record header. */
  lemma HeaderWords(s: bytes, pos: nat, big: bool, rec: Record)
    requires ValidRecord(rec) && pos + 16 <= |s| && s[pos..pos + 16] == RecordHeader(big, rec)
    ensures HostWord(s, pos, big) == rec.seconds && HostWord(s, pos + 4, big) == rec.fraction
    ensures HostWord(s, pos + 8, big) == |rec.data| && HostWord(s, pos + 12, big) == rec.origLen
  {
    hide Enc32, HostWord;
    var h := RecordHeader(big, rec);
    assert forall k | 0 <= k < 16 :: h[k] == s[pos + k];
    assert s[pos..pos + 4] == h[0..4] == Enc32(big, rec.seconds);
    assert s[pos + 4..pos + 8] == h[4..8] == Enc32(big, rec.fraction);
    assert s[pos + 8..pos + 12] == h[8..12] == Enc32(big, |rec.data|);
    assert s[pos + 12..pos + 16] == h[12..16] == Enc32(big, rec.origLen);
    WordAt(s, pos, big, rec.seconds);
    WordAt(s, pos + 4, big, rec.fraction);
    WordAt(s, pos + 8, big, |rec.data|);
    WordAt(s, pos + 12, big, rec.origLen);
  }

  lemma RecordParts(s: bytes, pos: nat, big: bool, rec: Record)
    requires ValidRecord(rec) && pos + RecordSize(rec) <= |s| && s[pos..pos + RecordSize(rec)] == RecordBytes(big, rec)
    ensures s[pos..pos + 16] == RecordHeader(big, rec)
    ensures s[pos + 16..pos + 16 + |rec.data|] == rec.data
  {
    hide RecordHeader;
    var b := RecordBytes(big, rec);
    assert s[pos..pos + 16] == b[..16];
    assert s[pos + 16..pos + 16 + |rec.data|] == b[16..];
  }

  /** A whole record at the position is delivered. */
  lemma NextWhole(r: Reader, rec: Record)
    requires ValidRecord(rec) && !r.finished && r.pos + RecordSize(rec) <= |r.file|
    requires r.file[r.pos..r.pos + RecordSize(rec)] == RecordBytes(r.swap, rec)
    ensures Next(r) == (r.(pos := r.pos + RecordSize(rec)), Got(PacketOf(rec, r.nanos, r.linktype)))
  {
    hide HostWord, RecordHeader, RecordBytes;
    RecordParts(r.file, r.pos, r.swap, rec);
    HeaderWords(r.file, r.pos, r.swap, rec);
  }

  lemma NotGot(r: Reader)
    requires r.pos <= |r.file| && !Next(r).1.Got?
    ensures ReadAll(r) == ([], if Next(r).1.End? then CleanEnd else DataTruncated)
  {
    hide Next;
  }

  /** A record cut inside its data is an error, one cut inside its header is a clean end. */
  lemma NextCut(r: Reader, rec: Record)
    requires ValidRecord(rec) && !r.finished && r.pos <= |r.file| < r.pos + RecordSize(rec)
    requires r.file[r.pos..] == RecordBytes(r.swap, rec)[..|r.file| - r.pos]
    ensures ReadAll(r) == ([], if |r.file| - r.pos < 16 then CleanEnd else DataTruncated)
  {
    hide HostWord, RecordHeader, RecordBytes, ReadAll, PacketAt;
    if |r.file| - r.pos >= 16 {
      HeaderOfCut(r.file, r.pos, r.swap, rec);
      HeaderWords(r.file, r.pos, r.swap, rec);
    }
    NotGot(r);
  }

  lemma HeaderOfCut(s: bytes, pos: nat, big: bool, rec: Record)
    requires ValidRecord(rec) && pos + 16 <= |s| <= pos + RecordSize(rec)
    requires s[pos..] == RecordBytes(big, rec)[..|s| - pos]
    ensures s[pos..pos + 16] == RecordHeader(big, rec)
  {
    hide RecordHeader;
    assert s[pos..pos + 16] == s[pos..][..16];
  }

  lemma SizeStep(rs: seq<Record>, n: nat)
    requires 0 < n <= |rs|
    ensures RecordsSize(rs[..n]) == RecordSize(rs[0]) + RecordsSize(rs[1..][..n - 1])
  {
    assert rs[..n][1..] == rs[1..][..n - 1];
  }

  lemma PacketsOfStep(rs: seq<Record>, n: nat, nanos: bool, linktype: u32)
    requires ValidRecords(rs) && 0 < n <= |rs|
    ensures PacketsOf(rs[..n], nanos, linktype)
         == [PacketOf(rs[0], nanos, linktype)] + PacketsOf(rs[1..][..n - 1], nanos, linktype)
  {
    hide PacketOf;
    assert forall i | 0 < i < n :: rs[..n][i] == rs[1..][..n - 1][i - 1];
  }

  /** The remaining bytes of a reader are a prefix of the encoding of some records. */
  predicate Remaining(r: Reader, rs: seq<Record>)
    requires ValidRecords(rs)
  {
    && !r.finished && r.pos <= |r.file| && |r.file| - r.pos <= RecordsSize(rs)
    && r.file[r.pos..] == RecordsBytes(r.swap, rs)[..|r.file| - r.pos]
  }

  lemma PrefixOfJoin(b: bytes, tail: bytes, k: nat)
    requires |b| <= k <= |b + tail|
    ensures (b + tail)[..k][..|b|] == b && (b + tail)[..k][|b|..] == tail[..k - |b|]
  {
    assert (b + tail)[..k] == b + tail[..k - |b|];
  }

  lemma RemainingStep(r: Reader, rs: seq<Record>)
    requires ValidRecords(rs) && rs != [] && Remaining(r, rs) && RecordSize(rs[0]) <= |r.file| - r.pos
    ensures r.file[r.pos..r.pos + RecordSize(rs[0])] == RecordBytes(r.swap, rs[0])
    ensures !r.finished && Remaining(r.(pos := r.pos + RecordSize(rs[0])), rs[1..])
  {
    hide RecordBytes;
    var m, k := RecordSize(rs[0]), |r.file| - r.pos;
    var b, tail := RecordBytes(r.swap, rs[0]), RecordsBytes(r.swap, rs[1..]);
    var t := r.file[r.pos..];
    assert t == (b + tail)[..k];
    PrefixOfJoin(b, tail, k);
    assert t[..m] == r.file[r.pos..r.pos + m];
    assert t[m..] == r.file[r.pos + m..];
  }

  lemma RemainingCut(r: Reader, rs: seq<Record>)
    requires ValidRecords(rs) && rs != [] && Remaining(r, rs) && |r.file| - r.pos < RecordSize(rs[0])
    ensures r.file[r.pos..] == RecordBytes(r.swap, rs[0])[..|r.file| - r.pos]
  {
    hide RecordBytes;
  }

  /** The number of records lying wholly before byte `k` of their encoding. */
  predicate WhollyBefore(rs: seq<Record>, k: nat, n: nat) {
    n <= |rs| && RecordsSize(rs[..n]) <= k && (n < |rs| ==> k < RecordsSize(rs[..n + 1]))
  }

  function WholeRecords(rs: seq<Record>, k: nat): (n: nat)
    ensures WhollyBefore(rs, k, n)
  {
    if rs == [] || k < RecordSize(rs[0]) then
      assert rs != [] ==> rs[..1][1..] == [];
      0
    else
      var m := WholeRecords(rs[1..], k - RecordSize(rs[0]));
      SizeStep(rs, m + 1);
      assert m + 1 < |rs| ==> RecordsSize(rs[..m + 2]) == RecordSize(rs[0]) + RecordsSize(rs[1..][..m + 1])
        by { if m + 1 < |rs| { SizeStep(rs, m + 2); } }
      m + 1
  }

  lemma WhollyBeforeStep(rs: seq<Record>, k: nat, n: nat)
    requires WhollyBefore(rs, k, n) && n > 0
    ensures RecordSize(rs[0]) <= k && WhollyBefore(rs[1..], k - RecordSize(rs[0]), n - 1)
  {
    SizeStep(rs, n);
    if n < |rs| {
      SizeStep(rs, n + 1);
    }
  }

  lemma ReadAllStep(r: Reader, r1: Reader, p: Packet)
    requires r.pos <= |r.file| && r1.pos <= |r1.file| && Next(r) == (r1, Got(p))
    ensures ReadAll(r) == ([p] + ReadAll(r1).0, ReadAll(r1).1)
  {
    hide Next;
  }

  /** What reading must deliver when `k` bytes of the records' encoding are left, `n` whole records among them. */
  function CutReads(rs: seq<Record>, k: nat, n: nat, nanos: bool, linktype: u32): (seq<Packet>, Ending)
    requires ValidRecords(rs) && WhollyBefore(rs, k, n)
  {
    (PacketsOf(rs[..n], nanos, linktype),
     if n == |rs| || k - RecordsSize(rs[..n]) < 16 then CleanEnd else DataTruncated)
  }

  lemma CutReadsStep(rs: seq<Record>, k: nat, n: nat, nanos: bool, linktype: u32)
    requires ValidRecords(rs) && WhollyBefore(rs, k, n) && n > 0
    ensures RecordSize(rs[0]) <= k && WhollyBefore(rs[1..], k - RecordSize(rs[0]), n - 1)
    ensures var rest := CutReads(rs[1..], k - RecordSize(rs[0]), n - 1, nanos, linktype);
      CutReads(rs, k, n, nanos, linktype) == ([PacketOf(rs[0], nanos, linktype)] + rest.0, rest.1)
  {
    WhollyBeforeStep(rs, k, n);
    hide PacketsOf, PacketOf, RecordsSize, WhollyBefore;
    SizeStep(rs, n);
    PacketsOfStep(rs, n, nanos, linktype);
  }

  lemma ReadsNoRecord(r: Reader, rs: seq<Record>)
    requires ValidRecords(rs) && Remaining(r, rs) && WhollyBefore(rs, |r.file| - r.pos, 0)
    ensures ReadAll(r) == CutReads(rs, |r.file| - r.pos, 0, r.nanos, r.linktype)
  {
    if rs != [] {
      assert rs[..1][1..] == [];
      RemainingCut(r, rs);
      hide RecordBytes, RecordsBytes, PacketOf, ReadAll, Next;
      NextCut(r, rs[0]);
    }
  }

  lemma ReadsStep(r: Reader, r1: Reader, rs: seq<Record>, n: nat)
    requires rs != [] && ValidRecords(rs) && Remaining(r, rs) && WhollyBefore(rs, |r.file| - r.pos, n) && n > 0
    requires RecordSize(rs[0]) <= |r.file| - r.pos && r1 == r.(pos := r.pos + RecordSize(rs[0]))
    requires Remaining(r1, rs[1..]) && WhollyBefore(rs[1..], |r1.file| - r1.pos, n - 1)
    requires ReadAll(r1) == CutReads(rs[1..], |r1.file| - r1.pos, n - 1, r1.nanos, r1.linktype)
    ensures ReadAll(r) == CutReads(rs, |r.file| - r.pos, n, r.nanos, r.linktype)
  {
    hide *;
    ValidHead(rs);
    CutReadsStep(rs, |r.file| - r.pos, n, r.nanos, r.linktype);
    RemainingStep(r, rs);
    NextWhole(r, rs[0]);
    ReadAllStep(r, r1, PacketOf(rs[0], r.nanos, r.linktype));
  }

  lemma ValidHead(rs: seq<Record>)
    requires ValidRecords(rs) && rs != []
    ensures ValidRecord(rs[0]) && ValidRecords(rs[1..])
  {
  }

  lemma {:induction false} ReadsRemaining(r: Reader, rs: seq<Record>, n: nat)
    requires ValidRecords(rs) && Remaining(r, rs) && WhollyBefore(rs, |r.file| - r.pos, n)
    ensures ReadAll(r) == CutReads(rs, |r.file| - r.pos, n, r.nanos, r.linktype)
    decreases n
  {
    if n == 0 {
      ReadsNoRecord(r, rs);
    } else {
      WhollyBeforeStep(rs, |r.file| - r.pos, n);
      RemainingStep(r, rs);
      var r1 := r.(pos := r.pos + RecordSize(rs[0]));
      ReadsRemaining(r1, rs[1..], n - 1);
      hide *;
      ReadsStep(r, r1, rs, n);
    }
  }

  lemma GlobalParts(f: Format, g: GlobalFields, body: bytes)
    ensures var file := GlobalHeader(f, g) + body;
      file[0..4] == Enc32(f.big, MagicNumber(f.nanos)) && file[20..24] == Enc32(f.big, g.linktype)
  {
    hide Enc16, Enc32;
    var file, h := GlobalHeader(f, g) + body, GlobalHeader(f, g);
    assert file[0..4] == h[0..4];
    assert file[20..24] == h[20..24];
  }

  lemma OpensCapture(f: Format, g: GlobalFields, body: bytes)
    ensures Open(GlobalHeader(f, g) + body)
         == Ok(Reader(GlobalHeader(f, g) + body, 24, f.big, f.nanos, g.linktype, false))
  {
    hide GlobalHeader, Enc32, ReadLE32, HostWord;
    var file := GlobalHeader(f, g) + body;
    GlobalParts(f, g, body);
    WordAt(file, 20, f.big, g.linktype);
    MagicOf(file, f);
  }

  /** What a little-endian host reads for a magic number in the format's byte order. */
  function HostMagic(f: Format): u32 {
    if f.nanos then (if f.big then PCAP_NSEC_MAGIC_BE else PCAP_NSEC_MAGIC_LE)
    else (if f.big then PCAP_MAGIC_BE else PCAP_MAGIC_LE)
  }

  lemma WordIs(b0: byte, b1: byte, b2: byte, b3: byte, v: u32)
    requires v == b0 as int + 0x100 * b1 as int + 0x1_0000 * b2 as int + 0x100_0000 * b3 as int
    ensures LE32(v) == [b0, b1, b2, b3] && BE32(v) == [b3, b2, b1, b0]
  {
    BytesOfWord(b0, b1, b2, b3);
    LE32Bytes(v);
    hide Byte0, Byte1, Byte2, Byte3, LE32;
  }

  lemma MagicBytes(f: Format)
    ensures Enc32(f.big, MagicNumber(f.nanos)) == LE32(HostMagic(f))
  {
    hide LE32, BE32;
    if f.nanos {
      WordIs(0x4D, 0x3C, 0xB2, 0xA1, PCAP_NSEC_MAGIC_LE);
      WordIs(0xA1, 0xB2, 0x3C, 0x4D, PCAP_NSEC_MAGIC_BE);
    } else {
      WordIs(0xD4, 0xC3, 0xB2, 0xA1, PCAP_MAGIC_LE);
      WordIs(0xA1, 0xB2, 0xC3, 0xD4, PCAP_MAGIC_BE);
    }
  }

  lemma MagicOf(file: bytes, f: Format)
    requires |file| >= 24 && file[0..4] == Enc32(f.big, MagicNumber(f.nanos))
    ensures ReadLE32(file, 0) == HostMagic(f)
  {
    hide LE32, ReadLE32, Enc32;
    MagicBytes(f);
    assert file == [] + LE32(HostMagic(f)) + file[4..];
    ReadLE32At([], HostMagic(f), file[4..]);
  }

  lemma CutCaptureReads(f: Format, g: GlobalFields, rs: seq<Record>, cut: nat, n: nat)
    requires ValidRecords(rs) && 24 <= cut <= |CaptureBytes(f, g, rs)|
    requires WhollyBefore(rs, cut - 24, n)
    ensures var file := CaptureBytes(f, g, rs)[..cut];
      && Open(file).Ok?
      && ReadAll(Open(file).value) ==
           (PacketsOf(rs[..n], f.nanos, g.linktype),
            if n == |rs| || cut - 24 - RecordsSize(rs[..n]) < 16 then CleanEnd else DataTruncated)
  {
    hide GlobalHeader;
    var file := CaptureBytes(f, g, rs)[..cut];
    var body := RecordsBytes(f.big, rs)[..cut - 24];
    assert file == GlobalHeader(f, g) + body;
    OpensCapture(f, g, body);
    hide Open, RecordsBytes;
    var r := Reader(file, 24, f.big, f.nanos, g.linktype, false);
    assert file[24..] == body;
    ReadsRemaining(r, rs, n);
  }

  /** Cutting a capture anywhere at or after the end of its global header leaves exactly the records lying wholly
      before the cut; the stream then ends cleanly if the cut is at a record boundary or inside a record header,
      and with an error if it is inside packet data. */
  lemma TruncatedCaptureReads(f: Format, g: GlobalFields, rs: seq<Record>, cut: nat)
    requires ValidRecords(rs) && 24 <= cut <= |CaptureBytes(f, g, rs)|
    ensures var file := CaptureBytes(f, g, rs)[..cut];
      var n := WholeRecords(rs, cut - 24);
      && WhollyBefore(rs, cut - 24, n)
      && Open(file).Ok?
      && ReadAll(Open(file).value) ==
           (PacketsOf(rs[..n], f.nanos, g.linktype),
            if n == |rs| || cut - 24 - RecordsSize(rs[..n]) < 16 then CleanEnd else DataTruncated)
  {
    hide CaptureBytes, Open, ReadAll, PacketsOf, RecordsSize, WhollyBefore;
    CutCaptureReads(f, g, rs, cut, WholeRecords(rs, cut - 24));
  }

  /** For each of the four magic numbers, writing records and reading the file back yields the same records. */
  lemma CaptureRoundTrip(f: Format, g: GlobalFields, rs: seq<Record>)
    requires ValidRecords(rs)
    ensures Open(CaptureBytes(f, g, rs)).Ok?
    ensures ReadAll(Open(CaptureBytes(f, g, rs)).value) == (PacketsOf(rs, f.nanos, g.linktype), CleanEnd)
  {
    hide GlobalHeader, RecordsBytes, Open, ReadAll;
    assert rs[..|rs|] == rs;
    var file := CaptureBytes(f, g, rs);
    assert file[..|file|] == file;
    CutCaptureReads(f, g, rs, |file|, |rs|);
  }

  /** The byte order of a capture does not show in what is read from it. */
  lemma ByteOrderIsInvisible(nanos: bool, g: GlobalFields, rs: seq<Record>)
    requires ValidRecords(rs)
    ensures var little := Open(CaptureBytes(Format(false, nanos), g, rs));
      var big := Open(CaptureBytes(Format(true, nanos), g, rs));
      little.Ok? && big.Ok? && ReadAll(little.value) == ReadAll(big.value)
  {
    hide *;
    CaptureRoundTrip(Format(false, nanos), g, rs);
    CaptureRoundTrip(Format(true, nanos), g, rs);
  }

  // ----- any file at all -----

  lemma EncOfRead(s: bytes, pos: nat, big: bool)
    requires pos + 4 <= |s|
    ensures s[pos..pos + 4] == Enc32(big, HostWord(s, pos, big))
  {
    hide Byte0, Byte1, Byte2, Byte3, Word, Swap32;
    SwappedRead(s, pos);
    BytesOfWord(s[pos], s[pos + 1], s[pos + 2], s[pos + 3]);
    BytesOfWord(s[pos + 3], s[pos + 2], s[pos + 1], s[pos]);
    LE32Bytes(ReadLE32(s, pos));
    hide LE32;
  }

  /** No whole record starts the bytes: they end in its header, or inside the data that it announces. */
  predicate NoWholeRecord(tail: bytes, big: bool) {
    |tail| < 16 || |tail| < 16 + HostWord(tail, 8, big)
  }

  /** The record at a position that holds a whole one. */
  function RecordAt(s: bytes, pos: nat, big: bool): (rec: Record)
    requires pos + 16 <= |s| && pos + 16 + HostWord(s, pos + 8, big) <= |s|
    ensures ValidRecord(rec) && RecordSize(rec) == 16 + HostWord(s, pos + 8, big)
  {
    Record(HostWord(s, pos, big), HostWord(s, pos + 4, big), HostWord(s, pos + 12, big),
           s[pos + 16..pos + 16 + HostWord(s, pos + 8, big)])
  }

  lemma HeaderAt(s: bytes, pos: nat, big: bool)
    requires pos + 16 <= |s| && pos + 16 + HostWord(s, pos + 8, big) <= |s|
    ensures s[pos..pos + 16] == RecordHeader(big, RecordAt(s, pos, big))
  {
    hide Enc32, HostWord;
    EncOfRead(s, pos, big);
    EncOfRead(s, pos + 4, big);
    EncOfRead(s, pos + 8, big);
    EncOfRead(s, pos + 12, big);
    assert s[pos..pos + 16]
        == (s[pos..pos + 4] + s[pos + 4..pos + 8]) + (s[pos + 8..pos + 12] + s[pos + 12..pos + 16]);
  }

  lemma BytesAt(s: bytes, pos: nat, big: bool)
    requires pos + 16 <= |s| && pos + 16 + HostWord(s, pos + 8, big) <= |s|
    ensures var rec := RecordAt(s, pos, big); s[pos..pos + RecordSize(rec)] == RecordBytes(big, rec)
  {
    hide RecordHeader, HostWord;
    HeaderAt(s, pos, big);
    JoinAt(s, pos, pos + 16, pos + 16 + HostWord(s, pos + 8, big));
  }

  lemma JoinAt(s: bytes, i: nat, j: nat, k: nat)
    requires i <= j <= k <= |s|
    ensures s[i..k] == s[i..j] + s[j..k]
  {
  }

  /** The bytes from a position on are whole records and then a tail without one. */
  predicate SplitsFrom(s: bytes, pos: nat, big: bool, rs: seq<Record>, tail: bytes) {
    && pos <= |s| && ValidRecords(rs)
    && s[pos..] == RecordsBytes(big, rs) + tail
    && NoWholeRecord(tail, big)
  }

  /** What reading must deliver for such a split. */
  predicate ReadsSplit(r: Reader, rs: seq<Record>, tail: bytes) {
    && SplitsFrom(r.file, r.pos, r.swap, rs, tail)
    && ReadAll(r) == (PacketsOf(rs, r.nanos, r.linktype), if |tail| < 16 then CleanEnd else DataTruncated)
  }

  lemma TailWord(s: bytes, pos: nat, big: bool)
    requires pos + 16 <= |s|
    ensures HostWord(s[pos..], 8, big) == HostWord(s, pos + 8, big)
  {
    hide Word, Swap32;
  }

  lemma ReadsTail(r: Reader)
    requires !r.finished && r.pos <= |r.file|
    requires r.pos + 16 > |r.file| || r.pos + 16 + HostWord(r.file, r.pos + 8, r.swap) > |r.file|
    ensures ReadsSplit(r, [], r.file[r.pos..])
  {
    hide HostWord, PacketAt, ReadAll;
    if r.pos + 16 <= |r.file| {
      TailWord(r.file, r.pos, r.swap);
    }
    NotGot(r);
    assert [] + r.file[r.pos..] == r.file[r.pos..];
    assert PacketsOf([], r.nanos, r.linktype) == [];
  }

  lemma SplitCons(s: bytes, pos: nat, big: bool, rec: Record, rs: seq<Record>, tail: bytes)
    requires ValidRecord(rec) && pos + RecordSize(rec) <= |s| && s[pos..pos + RecordSize(rec)] == RecordBytes(big, rec)
    requires SplitsFrom(s, pos + RecordSize(rec), big, rs, tail)
    ensures SplitsFrom(s, pos, big, [rec] + rs, tail)
  {
    hide RecordBytes, NoWholeRecord;
    var mid := pos + RecordSize(rec);
    assert ([rec] + rs)[1..] == rs;
    assert RecordsBytes(big, [rec] + rs) == RecordBytes(big, rec) + RecordsBytes(big, rs);
    hide RecordsBytes;
    assert s[pos..] == s[pos..mid] + s[mid..];
    Assoc(RecordBytes(big, rec), RecordsBytes(big, rs), tail);
  }

  lemma PacketsOfCons(rec: Record, rs: seq<Record>, nanos: bool, linktype: u32)
    requires ValidRecord(rec) && ValidRecords(rs)
    ensures ValidRecords([rec] + rs)
    ensures PacketsOf([rec] + rs, nanos, linktype) == [PacketOf(rec, nanos, linktype)] + PacketsOf(rs, nanos, linktype)
  {
    hide PacketOf;
    assert forall i | 0 < i <= |rs| :: ([rec] + rs)[i] == rs[i - 1];
  }

  lemma SplitIsValid(s: bytes, pos: nat, big: bool, rs: seq<Record>, tail: bytes)
    requires SplitsFrom(s, pos, big, rs, tail)
    ensures ValidRecords(rs)
  {
  }

  lemma ReadsSplitCons(r: Reader, r1: Reader, rec: Record, rs: seq<Record>, tail: bytes)
    requires ValidRecord(rec) && !r.finished && r.pos + RecordSize(rec) <= |r.file|
    requires r.file[r.pos..r.pos + RecordSize(rec)] == RecordBytes(r.swap, rec)
    requires r1 == r.(pos := r.pos + RecordSize(rec)) && ReadsSplit(r1, rs, tail)
    ensures ReadsSplit(r, [rec] + rs, tail)
  {
    hide RecordBytes, SplitsFrom, PacketsOf, PacketOf, Next, ReadAll, RecordSize;
    SplitIsValid(r1.file, r1.pos, r1.swap, rs, tail);
    NextWhole(r, rec);
    ReadAllStep(r, r1, PacketOf(rec, r.nanos, r.linktype));
    PacketsOfCons(rec, rs, r.nanos, r.linktype);
    SplitCons(r.file, r.pos, r.swap, rec, rs, tail);
  }

  lemma {:induction false} ReadsFrom(r: Reader)
    requires !r.finished && r.pos <= |r.file|
    ensures exists rs: seq<Record>, tail: bytes :: ReadsSplit(r, rs, tail)
    decreases |r.file| - r.pos
  {
    hide ReadsSplit, RecordBytes, HostWord;
    if r.pos + 16 > |r.file| || r.pos + 16 + HostWord(r.file, r.pos + 8, r.swap) > |r.file| {
      ReadsTail(r);
    } else {
      var rec := RecordAt(r.file, r.pos, r.swap);
      BytesAt(r.file, r.pos, r.swap);
      var r1 := r.(pos := r.pos + RecordSize(rec));
      ReadsFrom(r1);
      var rs: seq<Record>, tail: bytes :| ReadsSplit(r1, rs, tail);
      ReadsSplitCons(r, r1, rec, rs, tail);
    }
  }

  /** Every file that opens, whoever wrote it: the bytes behind its global header are the encoding of some records
      followed by a tail without a whole record, and reading delivers exactly those records, ending cleanly when the
      tail is shorter than a record header and with an error when it announces more data than there is. */
  lemma EveryFileReads(file: bytes)
    requires Open(file).Ok?
    ensures var r := Open(file).value;
      exists rs: seq<Record>, tail: bytes ::
        && SplitsFrom(file, 24, r.swap, rs, tail)
        && ReadAll(r) == (PacketsOf(rs, r.nanos, r.linktype), if |tail| < 16 then CleanEnd else DataTruncated)
  {
    var r := Open(file).value;
    hide Open, SplitsFrom, ReadAll, PacketsOf;
    ReadsFrom(r);
    var rs: seq<Record>, tail: bytes :| ReadsSplit(r, rs, tail);
  }

  // ----- which files open -----

  /** The first four bytes of a classic capture: two byte orders, two time resolutions. */
  predicate StartsWithMagic(file: bytes) {
    && |file| >= 4
    && file[..4] in {[0xD4, 0xC3, 0xB2, 0xA1], [0xA1, 0xB2, 0xC3, 0xD4],
                     [0x4D, 0x3C, 0xB2, 0xA1], [0xA1, 0xB2, 0x3C, 0x4D]}
  }

  lemma WordMatches(s: bytes, b0: byte, b1: byte, b2: byte, b3: byte)
    requires |s| >= 4
    ensures ReadLE32(s, 0) == Word(b0, b1, b2, b3) <==> s[..4] == [b0, b1, b2, b3]
  {
    hide Byte0, Byte1, Byte2, Byte3, Word;
    BytesOfWord(s[0], s[1], s[2], s[3]);
    BytesOfWord(b0, b1, b2, b3);
    assert s[..4] == [s[0], s[1], s[2], s[3]];
  }

  lemma MagicWords()
    ensures PCAP_MAGIC_LE == Word(0xD4, 0xC3, 0xB2, 0xA1) && PCAP_MAGIC_BE == Word(0xA1, 0xB2, 0xC3, 0xD4)
    ensures PCAP_NSEC_MAGIC_LE == Word(0x4D, 0x3C, 0xB2, 0xA1) && PCAP_NSEC_MAGIC_BE == Word(0xA1, 0xB2, 0x3C, 0x4D)
  {
  }

  lemma KnownIffMagic(file: bytes)
    requires |file| >= 4
    ensures KnownMagic(ReadLE32(file, 0)) <==> StartsWithMagic(file)
  {
    MagicWords();
    hide Word, ReadLE32;
    WordMatches(file, 0xD4, 0xC3, 0xB2, 0xA1);
    WordMatches(file, 0xA1, 0xB2, 0xC3, 0xD4);
    WordMatches(file, 0x4D, 0x3C, 0xB2, 0xA1);
    WordMatches(file, 0xA1, 0xB2, 0x3C, 0x4D);
  }

  /** A file opens if and only if it starts with one of the four magics and holds a whole global header; without a magic
      it is refused as unsupported, and a file that is too short for magic or header is refused as truncated. */
  lemma OpensExactlyWithMagic(file: bytes)
    ensures Open(file).Ok? <==> StartsWithMagic(file) && |file| >= 24
    ensures Open(file) == Err(UnsupportedMagic) <==> |file| >= 4 && !StartsWithMagic(file)
    ensures Open(file) == Err(TruncatedHeader) <==> |file| < 4 || (StartsWithMagic(file) && |file| < 24)
  {
    hide KnownMagic, StartsWithMagic, ReadLE32, HostWord, SwapMagic, NanosMagic;
    if |file| >= 4 {
      KnownIffMagic(file);
    } else {
      ShortHasNoMagic(file);
    }
  }

  lemma ShortHasNoMagic(file: bytes)
    requires |file| < 4
    ensures !StartsWithMagic(file)
  {
  }

  // ----- times and the end -----

  /** The time of a record survives to microseconds at either resolution. */
  lemma TimeSurvives(rec: Record, nanos: bool, linktype: u32)
    requires ValidRecord(rec)
    ensures TimestampMicros(PacketOf(rec, nanos, linktype).header)
         == rec.seconds * 1_000_000 + (if nanos then rec.fraction / 1000 else rec.fraction)
  {
  }

  /** The reader after `n` calls of `Next`. */
  function Advance(r: Reader, n: nat): (r1: Reader)
    requires r.pos <= |r.file|
    ensures r1.pos <= |r1.file|
  {
    if n == 0 then r else Next(Advance(r, n - 1)).0
  }

  lemma {:induction false} EndedState(r: Reader, n: nat)
    requires r.pos <= |r.file| && !Next(r).1.Got?
    ensures var r1 := Advance(r, n + 1); r1.pos == |r1.file| || r1.finished
    decreases n
  {
    hide HostWord, PacketAt;
    if n == 0 {
      assert Advance(r, 0) == r;
    } else {
      EndedState(r, n - 1);
    }
  }

  /** Once a call has delivered no packet, because the stream ended or its data was cut, every later call answers that
      the stream has ended. */
  lemma EndedStaysEnded(r: Reader, n: nat)
    requires r.pos <= |r.file| && !Next(r).1.Got?
    ensures Next(Advance(r, n + 1)).1 == End
  {
    EndedState(r, n);
    hide HostWord, PacketAt, Advance;
  }
}
