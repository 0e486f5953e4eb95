/** The block grammar of a little-endian pcapng section (section 3.1 of
    draft-ietf-opsawg-pcapng; EPB is section 4.3, SPB is section 4.4) and the walk that
    recovers packet locations from it. */
module Blocks {
  import opened Bytes

  const EPB_TYPE: u32 := 6
  const SPB_TYPE: u32 := 3

  /** `rest` is whatever follows the packet data in the block: padding and options. */
  datatype Block =
    | Epb(interfaceId: u32, tsHigh: u32, tsLow: u32, origLen: u32, data: bytes, rest: bytes)
    | Spb(origLen: u32, data: bytes, rest: bytes)
    | Other(kind: u32, body: bytes)

  function Kind(b: Block): u32 {
    match b
    case Epb(_, _, _, _, _, _) => EPB_TYPE
    case Spb(_, _, _) => SPB_TYPE
    case Other(kind, _) => kind
  }

  function BodySize(b: Block): nat {
    match b
    case Epb(_, _, _, _, data, rest) => 20 + |data| + |rest|
    case Spb(_, data, rest) => 4 + |data| + |rest|
    case Other(_, body) => |body|
  }

  function BlockSize(b: Block): nat {
    12 + BodySize(b)
  }

  predicate IsPacket(b: Block) {
    b.Epb? || b.Spb?
  }

  /** The total length fits its 32-bit field.  A block of packet type that is too short to
      hold the packet fields is an `Other`. */
  predicate WellFormed(b: Block) {
    && BlockSize(b) < POW32
    && (b.Other? && b.kind == EPB_TYPE ==> |b.body| < 20)
    && (b.Other? && b.kind == SPB_TYPE ==> |b.body| < 4)
  }

  predicate AllWellFormed(bs: seq<Block>) {
    forall i | 0 <= i < |bs| :: WellFormed(bs[i])
  }

  function Body(b: Block): (r: bytes)
    requires WellFormed(b)
    ensures |r| == BodySize(b)
  {
    match b
    case Epb(interfaceId, tsHigh, tsLow, origLen, data, rest) =>
      (LE32(interfaceId) + LE32(tsHigh) + LE32(tsLow)) + LE32(|data|) + (LE32(origLen) + data + rest)
    case Spb(origLen, data, rest) => LE32(origLen) + data + rest
    case Other(_, body) => body
  }

  function Encode(b: Block): (r: bytes)
    requires WellFormed(b)
    ensures |r| == BlockSize(b)
  {
    (LE32(Kind(b)) + LE32(BlockSize(b))) + Body(b) + LE32(BlockSize(b))
  }

  function EncodeAll(bs: seq<Block>): bytes
    requires AllWellFormed(bs)
  {
    if bs == [] then [] else Encode(bs[0]) + EncodeAll(bs[1..])
  }

  /** Where a packet's data lies in the file. */
  datatype Location = Location(offset: nat, size: nat)

  /** The packet blocks of a chain, in order. */
  function Packets(bs: seq<Block>): seq<Block> {
    if bs == [] then [] else PacketIn(bs[0]) + Packets(bs[1..])
  }

  function PacketIn(b: Block): seq<Block> {
    if IsPacket(b) then [b] else []
  }

  function DataOffset(b: Block): nat {
    if b.Epb? then 28 else 12
  }

  /** The length that the walk reports: the captured length of an EPB, the original length of an SPB. */
  function ReportedSize(b: Block): nat {
    match b
    case Epb(_, _, _, _, data, _) => |data|
    case Spb(origLen, _, _) => origLen
    case Other(_, _) => 0
  }

  /** The locations that a chain starting at byte `base` ought to yield. */
  function Locations(bs: seq<Block>, base: nat): seq<Location> {
    if bs == [] then [] else LocationIn(bs[0], base) + Locations(bs[1..], base + BlockSize(bs[0]))
  }

  function LocationIn(b: Block, base: nat): seq<Location> {
    if IsPacket(b) then [Location(base + DataOffset(b), ReportedSize(b))] else []
  }

  // ----- the walk -----

  predicate BlockFits(s: bytes, pos: nat) {
    && pos + 12 <= |s|
    && 12 <= ReadLE32(s, pos + 4)
    && pos + ReadLE32(s, pos + 4) <= |s|
  }

  /** What the walk records for the block at `pos`. */
  function Found(s: bytes, pos: nat): seq<Location>
    requires BlockFits(s, pos)
  {
    var kind, len := ReadLE32(s, pos), ReadLE32(s, pos + 4);
    if kind == EPB_TYPE && len >= 32 then [Location(pos + 28, ReadLE32(s, pos + 20))]
    else if kind == SPB_TYPE && len >= 16 then [Location(pos + 12, ReadLE32(s, pos + 8))]
    else []
  }

  function Scan(s: bytes, pos: nat): seq<Location>
    decreases |s| - pos
  {
    if BlockFits(s, pos) then Found(s, pos) + Scan(s, pos + ReadLE32(s, pos + 4)) else []
  }

  /** The position at which the walk stops. */
  function WalkEnd(s: bytes, pos: nat): (e: nat)
    requires pos <= |s|
    ensures pos <= e <= |s| && !BlockFits(s, e)
    decreases |s| - pos
  {
    if BlockFits(s, pos) then WalkEnd(s, pos + ReadLE32(s, pos + 4)) else pos
  }

  /** The walk consumes every byte. */
  predicate Complete(s: bytes) {
    WalkEnd(s, 0) == |s|
  }

  method ScanPacketLocations(data: array<byte>) returns (out: seq<Location>)
    ensures out == Scan(data[..], 0)
  {
    hide Scan, Found, ReadLE32;
    out := [];
    var pos: nat := 0;
    ghost var s := data[..];
    while pos + 12 <= data.Length
      invariant pos <= data.Length
      invariant out + Scan(s, pos) == Scan(s, 0)
    {
      var blockType := ReadArrayLE32(data, pos);
      var totalLen := ReadArrayLE32(data, pos + 4);
      if totalLen < 12 || pos + totalLen > data.Length {
        break;
      }
      ghost var before := out;
      if blockType == EPB_TYPE && totalLen >= 32 {
        var capturedLen := ReadArrayLE32(data, pos + 8 + 12);
        out := out + [Location(pos + 28, capturedLen)];
      } else if blockType == SPB_TYPE && totalLen >= 16 {
        var packetLen := ReadArrayLE32(data, pos + 8);
        out := out + [Location(pos + 12, packetLen)];
      }
      FoundBy(s, pos, blockType, totalLen);
      AppendScan(before, out, s, pos);
      pos := pos + totalLen;
    }
    ScanStops(s, pos);
  }

  lemma FoundBy(s: bytes, pos: nat, kind: u32, len: u32)
    requires BlockFits(s, pos) && kind == ReadLE32(s, pos) && len == ReadLE32(s, pos + 4)
    ensures Found(s, pos) ==
      if kind == EPB_TYPE && len >= 32 then [Location(pos + 28, ReadLE32(s, pos + 8 + 12))]
      else if kind == SPB_TYPE && len >= 16 then [Location(pos + 12, ReadLE32(s, pos + 8))]
      else []
  {
  }

  lemma ScanStops(s: bytes, pos: nat)
    requires !BlockFits(s, pos)
    ensures Scan(s, pos) == []
  {
  }

  method ReadArrayLE32(data: array<byte>, pos: nat) returns (v: u32)
    requires pos + 4 <= data.Length
    ensures v == ReadLE32(data[..], pos)
  {
    v := data[pos] as int + 0x100 * data[pos + 1] as int + 0x1_0000 * data[pos + 2] as int
      + 0x100_0000 * data[pos + 3] as int;
  }

  lemma AppendScan(before: seq<Location>, out: seq<Location>, s: bytes, pos: nat)
    requires BlockFits(s, pos) && out == before + Found(s, pos)
    ensures out + Scan(s, pos + ReadLE32(s, pos + 4)) == before + Scan(s, pos)
  {
    hide Found, BlockFits, ReadLE32;
  }

  // ----- arbitrary bytes -----

  /** On any bytes at all: offsets lie inside the file past the block header, grow by at least
      16 each time, and there is at most one location for every 16 bytes. */
  lemma {:induction false} ScanOfAnyBytes(s: bytes, pos: nat)
    requires pos <= |s|
    ensures forall i | 0 <= i < |Scan(s, pos)| :: pos + 12 <= Scan(s, pos)[i].offset < |s|
    ensures forall i, j | 0 <= i < j < |Scan(s, pos)| :: Scan(s, pos)[i].offset + 16 <= Scan(s, pos)[j].offset
    ensures 16 * |Scan(s, pos)| <= |s| - pos
    decreases |s| - pos
  {
    if BlockFits(s, pos) {
      var next := pos + ReadLE32(s, pos + 4);
      var here, later := Found(s, pos), Scan(s, next);
      var all: seq<Location> := here + later;
      ScanOfAnyBytes(s, next);
      forall i, j | 0 <= i < j < |all|
        ensures all[i].offset + 16 <= all[j].offset
      {
        if i < |here| {
          assert all[j] == later[j - |here|];
        }
      }
    }
  }

  /** A block header at `pos` whose length leads to `next`, inside the bytes. */
  predicate LeadsTo(s: bytes, pos: nat, next: nat) {
    pos + 12 <= |s| && next == pos + ReadLE32(s, pos + 4) && pos + 12 <= next <= |s|
  }

  /** Block starts, each led to by the one before, up to a place from which no header leads on. */
  ghost predicate HeaderChain(s: bytes, starts: seq<nat>) {
    && starts != [] && starts[0] == 0
    && (forall i | 0 <= i < |starts| - 1 :: LeadsTo(s, starts[i], starts[i + 1]))
    && LeadsNowhere(s, starts[|starts| - 1])
  }

  ghost predicate LeadsNowhere(s: bytes, pos: nat) {
    forall next: nat :: !LeadsTo(s, pos, next)
  }

  /** The packet data of the block that fills the bytes between two places, if the block is of packet type and long
      enough for the packet fields. */
  function PacketBetween(s: bytes, pos: nat, next: nat): seq<Location>
    requires LeadsTo(s, pos, next)
  {
    if ReadLE32(s, pos) == 6 && next - pos >= 32 then [Location(pos + 28, ReadLE32(s, pos + 20))]
    else if ReadLE32(s, pos) == 3 && next - pos >= 16 then [Location(pos + 12, ReadLE32(s, pos + 8))]
    else []
  }

  function PacketsBetween(s: bytes, starts: seq<nat>): seq<Location>
    requires forall i | 0 <= i < |starts| - 1 :: LeadsTo(s, starts[i], starts[i + 1])
  {
    if |starts| < 2 then [] else PacketBetween(s, starts[0], starts[1]) + PacketsBetween(s, starts[1..])
  }

  predicate StartsAt(s: bytes, starts: seq<nat>, pos: nat, end: nat) {
    && starts != [] && starts[0] == pos && starts[|starts| - 1] == end
    && (forall i | 0 <= i < |starts| - 1 :: LeadsTo(s, starts[i], starts[i + 1]))
  }

  lemma {:induction false} WalkFollowsHeaders(s: bytes, pos: nat) returns (starts: seq<nat>)
    requires pos <= |s|
    ensures StartsAt(s, starts, pos, WalkEnd(s, pos))
    ensures Scan(s, pos) == PacketsBetween(s, starts)
    decreases |s| - pos
  {
    if BlockFits(s, pos) {
      var next := pos + ReadLE32(s, pos + 4);
      var later := WalkFollowsHeaders(s, next);
      ScanStep(s, pos, next);
      starts := HeadersCons(s, pos, next, later, WalkEnd(s, next));
    } else {
      starts := [pos];
      ScanStops(s, pos);
    }
  }

  lemma HeadersCons(s: bytes, pos: nat, next: nat, later: seq<nat>, end: nat) returns (starts: seq<nat>)
    requires BlockFits(s, pos) && next == pos + ReadLE32(s, pos + 4) && StartsAt(s, later, next, end)
    ensures StartsAt(s, starts, pos, end)
    ensures PacketsBetween(s, starts) == Found(s, pos) + PacketsBetween(s, later)
  {
    hide ReadLE32;
    starts := [pos] + later;
    assert LeadsTo(s, pos, next) && PacketBetween(s, pos, next) == Found(s, pos);
    assert forall i | 0 < i < |starts| :: starts[i] == later[i - 1];
    assert starts[1..] == later;
  }

  /** On any bytes at all, the walk follows the headers as far as they lead, and reports exactly the packet blocks among
      the blocks that it passes. */
  lemma ScanFollowsHeaders(s: bytes)
    ensures exists starts: seq<nat> :: HeaderChain(s, starts) && Scan(s, 0) == PacketsBetween(s, starts)
    ensures Complete(s) <==> exists starts: seq<nat> :: HeaderChain(s, starts) && starts[|starts| - 1] == |s|
  {
    var starts := WalkFollowsHeaders(s, 0);
    hide Scan, WalkEnd, ReadLE32, PacketsBetween;
    assert HeaderChain(s, starts);
    forall other: seq<nat> | HeaderChain(s, other)
      ensures other[|other| - 1] == starts[|starts| - 1]
    {
      SameChain(s, starts, other);
    }
  }

  /** Headers lead on in one way only. */
  lemma {:induction false} SameTail(s: bytes, a: seq<nat>, b: seq<nat>, i: nat)
    requires HeaderChain(s, a) && HeaderChain(s, b) && i < |a|
    ensures i < |b| && a[i] == b[i]
    decreases i
  {
    if i > 0 {
      SameTail(s, a, b, i - 1);
      assert LeadsTo(s, a[i - 1], a[i]);
    }
  }

  lemma SameChain(s: bytes, a: seq<nat>, b: seq<nat>)
    requires HeaderChain(s, a) && HeaderChain(s, b)
    ensures a[|a| - 1] == b[|b| - 1]
  {
    hide LeadsTo;
    SameTail(s, a, b, |a| - 1);
    SameTail(s, b, a, |b| - 1);
  }

  // ----- well-formed chains -----

  lemma EncodedHeader(pre: bytes, b: Block, post: bytes)
    requires WellFormed(b)
    ensures var s := pre + Encode(b) + post;
      && |pre| + 8 <= |s|
      && ReadLE32(s, |pre|) == Kind(b) && ReadLE32(s, |pre| + 4) == BlockSize(b)
      && |s| == |pre| + BlockSize(b) + |post|
  {
    hide LE32, ReadLE32;
    var k, n := LE32(Kind(b)), LE32(BlockSize(b));
    var t := Body(b) + n;
    Assoc(k + n, Body(b), n);
    Assoc(k, n, t);
    Regroup(pre, [], k, n + t, post);
    assert [] + k + (n + t) == k + (n + t) && pre + [] == pre;
    ReadLE32At(pre, Kind(b), n + t + post);
    Regroup(pre + k, [], n, t, post);
    assert [] + n + t == n + t && pre + k + [] == pre + k;
    Assoc(pre + k, n + t, post);
    ReadLE32At(pre + k, BlockSize(b), t + post);
  }

  /** The length field and the data of a packet block, read back from the encoding. */
  lemma EncodedPacket(pre: bytes, b: Block, post: bytes)
    requires WellFormed(b) && IsPacket(b)
    ensures var s := pre + Encode(b) + post;
      && |pre| + BlockSize(b) <= |s|
      && ReadLE32(s, |pre| + DataOffset(b) - (if b.Epb? then 8 else 4)) == ReportedSize(b)
      && s[|pre| + DataOffset(b)..|pre| + DataOffset(b) + |b.data|] == b.data
  {
    hide LE32, ReadLE32;
    var n, kn := LE32(BlockSize(b)), LE32(Kind(b)) + LE32(BlockSize(b));
    var head, tail := pre + kn, n + post;
    Regroup(pre, kn, Body(b), n, post);
    assert pre + Encode(b) + post == head + Body(b) + tail;
    if b.Epb? {
      var x := LE32(b.interfaceId) + LE32(b.tsHigh) + LE32(b.tsLow);
      var l, o := LE32(|b.data|), LE32(b.origLen);
      Regroup(head, x, l, o + b.data + b.rest, tail);
      ReadLE32At(head + x, |b.data|, o + b.data + b.rest + tail);
      Regroup(head + x + l, o, b.data, b.rest, tail);
      Assoc(head + x + l, o + b.data + b.rest, tail);
      MiddleOf(head + x + l + o, b.data, b.rest + tail);
    } else {
      var o := LE32(b.origLen);
      Regroup(head, o, b.data, b.rest, tail);
      MiddleOf(head + o, b.data, b.rest + tail);
      Assoc(head + o, b.data, b.rest + tail);
      ReadLE32At(head, b.origLen, b.data + (b.rest + tail));
    }
  }

  lemma WalkOverBlock(pre: bytes, b: Block, post: bytes)
    requires WellFormed(b)
    ensures var s := pre + Encode(b) + post;
      && BlockFits(s, |pre|) && ReadLE32(s, |pre| + 4) == BlockSize(b)
      && Found(s, |pre|) == LocationIn(b, |pre|)
  {
    hide Encode, ReadLE32;
    EncodedHeader(pre, b, post);
    if IsPacket(b) {
      EncodedPacket(pre, b, post);
    }
  }

  /** One step of the walk, with the scan of the remaining bytes given. */
  lemma ScanStep(s: bytes, pos: nat, next: nat)
    requires BlockFits(s, pos) && next == pos + ReadLE32(s, pos + 4)
    ensures Scan(s, pos) == Found(s, pos) + Scan(s, next)
    ensures WalkEnd(s, pos) == WalkEnd(s, next)
  {
  }

  lemma ChainStep(s: bytes, pre: bytes, b: Block, post: bytes, next: nat)
    requires WellFormed(b)
    requires s == pre + Encode(b) + post && next == |pre| + BlockSize(b)
    ensures Scan(s, |pre|) == LocationIn(b, |pre|) + Scan(s, next)
    ensures next <= |s| && WalkEnd(s, |pre|) == WalkEnd(s, next)
  {
    hide *;
    WalkOverBlock(pre, b, post);
    ScanStep(s, |pre|, next);
  }

  lemma LocationsStep(bs: seq<Block>, base: nat, next: nat)
    requires bs != [] && next == base + BlockSize(bs[0])
    ensures Locations(bs, base) == LocationIn(bs[0], base) + Locations(bs[1..], next)
  {
  }

  /** The walk over a chain finds exactly its packet blocks and stops at its end. */
  lemma {:induction false} ScanOfChain(s: bytes, pre: bytes, bs: seq<Block>)
    requires AllWellFormed(bs) && s == pre + EncodeAll(bs)
    ensures Scan(s, |pre|) == Locations(bs, |pre|)
    ensures WalkEnd(s, |pre|) == |s|
    decreases |bs|
  {
    if bs != [] {
      hide Encode, WellFormed, Scan, WalkEnd, LocationIn, BlockSize, Locations;
      var b, rest := bs[0], bs[1..];
      var next := |pre + Encode(b)|;
      Assoc(pre, Encode(b), EncodeAll(rest));
      ScanOfChain(s, pre + Encode(b), rest);
      ChainStep(s, pre, b, EncodeAll(rest), next);
      LocationsStep(bs, |pre|, next);
    }
  }

  /** The location addresses exactly the packet's bytes, inside the file. */
  predicate Addresses(file: bytes, loc: Location, b: Block)
    requires IsPacket(b)
  {
    loc.offset + loc.size <= |file| && file[loc.offset..loc.offset + loc.size] == b.data
  }

  predicate Untruncated(b: Block) {
    b.Spb? ==> b.origLen == |b.data|
  }

  /** Position by position, the locations of a chain address its packets. */
  predicate LocationsMatch(file: bytes, locs: seq<Location>, packets: seq<Block>) {
    && |locs| == |packets|
    && forall i | 0 <= i < |packets| ::
         IsPacket(packets[i]) && (Addresses(file, locs[i], packets[i]) <==> Untruncated(packets[i]))
  }

  lemma LocationInMatches(pre: bytes, b: Block, post: bytes)
    requires WellFormed(b)
    ensures LocationsMatch(pre + Encode(b) + post, LocationIn(b, |pre|), PacketIn(b))
  {
    hide Encode, ReadLE32;
    if IsPacket(b) {
      EncodedPacket(pre, b, post);
    }
  }

  lemma LocationsMatchAppend(file: bytes, l1: seq<Location>, p1: seq<Block>, l2: seq<Location>, p2: seq<Block>)
    requires LocationsMatch(file, l1, p1) && LocationsMatch(file, l2, p2)
    ensures LocationsMatch(file, l1 + l2, p1 + p2)
  {
    forall i | 0 <= i < |p1 + p2|
      ensures IsPacket((p1 + p2)[i])
      ensures Addresses(file, (l1 + l2)[i], (p1 + p2)[i]) <==> Untruncated((p1 + p2)[i])
    {
      if i < |p1| {
        assert (p1 + p2)[i] == p1[i] && (l1 + l2)[i] == l1[i];
      } else {
        assert (p1 + p2)[i] == p2[i - |p1|] && (l1 + l2)[i] == l2[i - |p1|];
      }
    }
  }

  lemma {:induction false} ChainData(pre: bytes, bs: seq<Block>, post: bytes)
    requires AllWellFormed(bs)
    ensures LocationsMatch(pre + EncodeAll(bs) + post, Locations(bs, |pre|), Packets(bs))
    decreases |bs|
  {
    if bs != [] {
      hide Encode, LocationsMatch, PacketIn, LocationIn;
      var b, rest := bs[0], bs[1..];
      var e, t := Encode(b), EncodeAll(rest);
      var file := pre + (e + t) + post;
      assert file == pre + e + (t + post) && file == (pre + e) + t + post by {
        Assoc(pre, e, t);
        Assoc(pre + e, t, post);
      }
      LocationInMatches(pre, b, t + post);
      ChainData(pre + e, rest, post);
      LocationsMatchAppend(file, LocationIn(b, |pre|), PacketIn(b), Locations(rest, |pre + e|), Packets(rest));
    }
  }

  /** For every chain of well-formed blocks the walk returns one location per packet block, in
      order; and a location addresses the packet's bytes if and only if the packet is an EPB or
      an SPB that was not cut by a snap length. */
  lemma ScanIsExact(bs: seq<Block>)
    requires AllWellFormed(bs)
    ensures Complete(EncodeAll(bs))
    ensures LocationsMatch(EncodeAll(bs), Scan(EncodeAll(bs), 0), Packets(bs))
  {
    hide EncodeAll, Scan, WalkEnd, Locations, LocationsMatch, Packets, AllWellFormed;
    assert [] + EncodeAll(bs) == EncodeAll(bs);
    assert [] + EncodeAll(bs) + [] == EncodeAll(bs);
    ScanOfChain(EncodeAll(bs), [], bs);
    ChainData([], bs, []);
  }

  lemma LengthSixteen()
    ensures LE32(16)[0] == 16
  {
  }

  lemma CutSpbTail(b: Block)
    requires b == Spb(1, [], []) && WellFormed(b)
    ensures Encode(b)[12] == 16
  {
    LengthSixteen();
    hide LE32;
    var front := (LE32(SPB_TYPE) + LE32(16)) + Body(b);
    assert Encode(b) == front + LE32(16);
  }

  lemma CutSpbScan(b: Block)
    requires b == Spb(1, [], []) && WellFormed(b)
    ensures Scan(Encode(b), 0) == [Location(12, 1)]
  {
    hide Encode, Scan, WalkEnd, WellFormed;
    assert [] + Encode(b) + [] == Encode(b);
    ChainStep(Encode(b), [], b, [], 16);
    ScanStops(Encode(b), 16);
  }

  /** An SPB cut to no data at all: the walk still reports its original length of one byte, and the location addresses
      a byte of the block's trailing length field. */
  lemma CutSpbIsMisread(b: Block)
    requires b == Spb(1, [], [])
    ensures WellFormed(b) && !Untruncated(b)
    ensures Scan(Encode(b), 0) == [Location(12, 1)] && !Addresses(Encode(b), Location(12, 1), b)
    ensures Encode(b)[12] == 16
  {
    CutSpbScan(b);
    hide Scan, Encode;
    CutSpbTail(b);
  }

  function ChainSize(bs: seq<Block>): nat {
    if bs == [] then 0 else BlockSize(bs[0]) + ChainSize(bs[1..])
  }

  /** Data ranges in ascending order with gaps between them, strictly between two bounds. */
  predicate DisjointWithin(locs: seq<Location>, lo: nat, hi: nat) {
    && (forall i | 0 <= i < |locs| :: lo < locs[i].offset && locs[i].offset + locs[i].size < hi)
    && (forall i, j | 0 <= i < j < |locs| :: locs[i].offset + locs[i].size < locs[j].offset)
  }

  lemma DisjointAppend(l1: seq<Location>, l2: seq<Location>, lo: nat, mid: nat, hi: nat)
    requires lo <= mid <= hi && DisjointWithin(l1, lo, mid) && DisjointWithin(l2, mid, hi)
    ensures DisjointWithin(l1 + l2, lo, hi)
  {
    var all := l1 + l2;
    forall i, j | 0 <= i < j < |all|
      ensures all[i].offset + all[i].size < all[j].offset
    {
      if i < |l1| <= j {
        assert all[j] == l2[j - |l1|];
      }
    }
  }

  /** Locations of untruncated packets are pairwise disjoint and inside the chain's bytes. */
  lemma {:induction false} LocationsDisjoint(bs: seq<Block>, base: nat)
    requires forall i | 0 <= i < |bs| :: Untruncated(bs[i])
    ensures DisjointWithin(Locations(bs, base), base, base + ChainSize(bs))
    decreases |bs|
  {
    if bs != [] {
      var next := base + BlockSize(bs[0]);
      LocationsDisjoint(bs[1..], next);
      DisjointAppend(LocationIn(bs[0], base), Locations(bs[1..], next), base, next, base + ChainSize(bs));
    }
  }

  lemma {:induction false} ChainSizeIsLength(bs: seq<Block>)
    requires AllWellFormed(bs)
    ensures |EncodeAll(bs)| == ChainSize(bs)
    decreases |bs|
  {
    if bs != [] {
      ChainSizeIsLength(bs[1..]);
    }
  }

  /** For every chain whose SPBs are not cut, the scan's ranges are pairwise disjoint, in ascending order and strictly
      inside the file. */
  lemma ScanIsDisjoint(bs: seq<Block>)
    requires AllWellFormed(bs) && forall i | 0 <= i < |bs| :: Untruncated(bs[i])
    ensures DisjointWithin(Scan(EncodeAll(bs), 0), 0, |EncodeAll(bs)|)
  {
    hide DisjointWithin, Encode, EncodeAll, Scan, Locations;
    ScanOfChain(EncodeAll(bs), [], bs);
    LocationsDisjoint(bs, 0);
    ChainSizeIsLength(bs);
  }

  lemma EncodeAllCons(b: Block, rest: seq<Block>)
    requires WellFormed(b) && AllWellFormed(rest)
    ensures AllWellFormed([b] + rest)
    ensures EncodeAll([b] + rest) == Encode(b) + EncodeAll(rest)
  {
    hide WellFormed, Encode;
    assert ([b] + rest)[1..] == rest;
  }

  lemma {:induction false} EncodeAllAppend(xs: seq<Block>, ys: seq<Block>)
    requires AllWellFormed(xs) && AllWellFormed(ys)
    ensures AllWellFormed(xs + ys)
    ensures EncodeAll(xs + ys) == EncodeAll(xs) + EncodeAll(ys)
    decreases |xs|
  {
    hide Encode, WellFormed;
    if xs == [] {
      assert xs + ys == ys;
    } else {
      var b, rest := xs[0], xs[1..];
      EncodeAllAppend(rest, ys);
      hide *;
      EncodeAllCons(b, rest);
      EncodeAllCons(b, rest + ys);
      assert xs == [b] + rest;
      assert xs + ys == [b] + (rest + ys);
      Assoc(Encode(b), EncodeAll(rest), EncodeAll(ys));
    }
  }

  lemma {:induction false} PacketsAppend(xs: seq<Block>, ys: seq<Block>)
    ensures Packets(xs + ys) == Packets(xs) + Packets(ys)
    decreases |xs|
  {
    hide PacketIn;
    if xs == [] {
      assert xs + ys == ys;
    } else {
      PacketsAppend(xs[1..], ys);
      assert (xs + ys)[1..] == xs[1..] + ys;
      assert PacketIn(xs[0]) + (Packets(xs[1..]) + Packets(ys)) == PacketIn(xs[0]) + Packets(xs[1..]) + Packets(ys);
    }
  }

  // ----- composition -----

  function Shifted(locs: seq<Location>, d: nat): seq<Location> {
    seq(|locs|, i requires 0 <= i < |locs| => Location(locs[i].offset + d, locs[i].size))
  }

  lemma ReadInPrefix(a: bytes, b: bytes, pos: nat)
    requires pos + 4 <= |a|
    ensures ReadLE32(a + b, pos) == ReadLE32(a, pos)
  {
  }

  lemma ReadInSuffix(a: bytes, b: bytes, pos: nat)
    requires pos + 4 <= |b|
    ensures ReadLE32(a + b, |a| + pos) == ReadLE32(b, pos)
  {
  }

  lemma FoundInPrefix(a: bytes, b: bytes, pos: nat)
    requires BlockFits(a, pos)
    ensures BlockFits(a + b, pos) && Found(a + b, pos) == Found(a, pos)
    ensures ReadLE32(a + b, pos + 4) == ReadLE32(a, pos + 4)
  {
    ReadInPrefix(a, b, pos);
    ReadInPrefix(a, b, pos + 4);
    if ReadLE32(a, pos + 4) >= 32 {
      ReadInPrefix(a, b, pos + 20);
    }
    ReadInPrefix(a, b, pos + 8);
  }

  lemma PrefixStep(a: bytes, b: bytes, pos: nat, next: nat, e: nat)
    requires BlockFits(a, pos) && next == pos + ReadLE32(a, pos + 4)
    requires Scan(a + b, next) == Scan(a, next) + Scan(a + b, e)
    ensures Scan(a + b, pos) == Scan(a, pos) + Scan(a + b, e)
    ensures WalkEnd(a + b, pos) == WalkEnd(a + b, next)
  {
    hide *;
    FoundInPrefix(a, b, pos);
    ScanStep(a, pos, next);
    ScanStep(a + b, pos, next);
  }

  /** Up to the point where the walk of `a` stops, the walk of `a + b` is the same. */
  lemma {:induction false} ScanPastPrefix(a: bytes, b: bytes, pos: nat)
    requires pos <= |a|
    ensures Scan(a + b, pos) == Scan(a, pos) + Scan(a + b, WalkEnd(a, pos))
    ensures WalkEnd(a + b, pos) == WalkEnd(a + b, WalkEnd(a, pos))
    decreases |a| - pos
  {
    if BlockFits(a, pos) {
      var next := pos + ReadLE32(a, pos + 4);
      ScanPastPrefix(a, b, next);
      hide *;
      ScanStep(a, pos, next);
      PrefixStep(a, b, pos, next, WalkEnd(a, next));
    }
  }

  lemma FoundInSuffix(a: bytes, b: bytes, pos: nat)
    ensures BlockFits(a + b, |a| + pos) <==> BlockFits(b, pos)
    ensures BlockFits(b, pos) ==>
      && ReadLE32(a + b, |a| + pos + 4) == ReadLE32(b, pos + 4)
      && Found(a + b, |a| + pos) == Shifted(Found(b, pos), |a|)
  {
    if pos + 12 <= |b| {
      ReadInSuffix(a, b, pos);
      ReadInSuffix(a, b, pos + 4);
      ReadInSuffix(a, b, pos + 8);
      if BlockFits(b, pos) && ReadLE32(b, pos + 4) >= 32 {
        ReadInSuffix(a, b, pos + 20);
      }
    }
  }

  lemma ShiftedAppend(l1: seq<Location>, l2: seq<Location>, d: nat)
    ensures Shifted(l1 + l2, d) == Shifted(l1, d) + Shifted(l2, d)
  {
  }

  lemma {:induction false} WalkEndOfSuffix(a: bytes, b: bytes, pos: nat)
    requires pos <= |b|
    ensures WalkEnd(a + b, |a| + pos) == |a| + WalkEnd(b, pos)
    decreases |b| - pos
  {
    FoundInSuffix(a, b, pos);
    if BlockFits(b, pos) {
      WalkEndOfSuffix(a, b, pos + ReadLE32(b, pos + 4));
    }
  }

  lemma ShiftedStep(a: bytes, b: bytes, pos: nat, next: nat)
    requires BlockFits(b, pos) && next == pos + ReadLE32(b, pos + 4)
    requires Scan(a + b, |a| + next) == Shifted(Scan(b, next), |a|)
    ensures Scan(a + b, |a| + pos) == Shifted(Scan(b, pos), |a|)
  {
    hide *;
    FoundInSuffix(a, b, pos);
    ScanStep(b, pos, next);
    ScanStep(a + b, |a| + pos, |a| + next);
    ShiftedAppend(Found(b, pos), Scan(b, next), |a|);
  }

  lemma {:induction false} ScanOfSuffix(a: bytes, b: bytes, pos: nat)
    requires pos <= |b|
    ensures Scan(a + b, |a| + pos) == Shifted(Scan(b, pos), |a|)
    decreases |b| - pos
  {
    if BlockFits(b, pos) {
      var next := pos + ReadLE32(b, pos + 4);
      ScanOfSuffix(a, b, next);
      ShiftedStep(a, b, pos, next);
    } else {
      FoundInSuffix(a, b, pos);
      hide BlockFits;
    }
  }

  /** If the walk consumes all of `a`, scanning `a + b` is scanning each and shifting the second. */
  lemma ScanComposes(a: bytes, b: bytes)
    requires Complete(a)
    ensures Scan(a + b, 0) == Scan(a, 0) + Shifted(Scan(b, 0), |a|)
    ensures Complete(a + b) <==> Complete(b)
  {
    ScanPastPrefix(a, b, 0);
    ScanOfSuffix(a, b, 0);
    WalkEndOfSuffix(a, b, 0);
  }
}
