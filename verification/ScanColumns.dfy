/** What the rows of `read_pqcap_packets` show of a captured packet, told from the bytes of the packet alone. */
module ScanColumns {
  import opened Bytes
  import opened Wrappers
  import opened Numerals
  import opened Addresses
  import opened PacketDecoder
  import opened ClassicPcap
  import opened PacketScan

  // ----- where the headers lie in a frame -----

  predicate TypeAt(s: bytes, at: nat, high: byte, low: byte) {
    at + 2 <= |s| && s[at] == high && s[at + 1] == low
  }

  /** The ether type at a place is the one of IPv4 or IPv6. */
  predicate IpTypeAt(s: bytes, at: nat, version: nat) {
    (version == 4 && TypeAt(s, at, 0x08, 0x00)) || (version == 6 && TypeAt(s, at, 0x86, 0xDD))
  }

  /** An Ethernet frame with a VLAN tag, followed by a type. */
  predicate Tagged(s: bytes) {
    |s| >= 18 && (TypeAt(s, 12, 0x81, 0x00) || TypeAt(s, 12, 0x88, 0xA8))
  }

  /** The link layer says that an IP packet of the version starts at the place. */
  predicate LinkSays(dataLink: u16, s: bytes, version: nat, at: nat) {
    if dataLink == DLT_RAW then at == 0 && s != [] && s[0] / 16 == version
    else if dataLink == DLT_LINUX_SLL then at == 16 && IpTypeAt(s, 14, version)
    else at == (if Tagged(s) then 18 else 14) && IpTypeAt(s, at - 2, version)
  }

  /** A whole IPv4 header with its options starts at the place. */
  predicate V4At(dataLink: u16, s: bytes, at: nat) {
    LinkSays(dataLink, s, 4, at) && at + 20 <= |s| && 5 <= s[at] % 16 && at + 4 * (s[at] % 16) <= |s|
  }

  /** A whole IPv6 header starts at the place. */
  predicate V6At(dataLink: u16, s: bytes, at: nat) {
    LinkSays(dataLink, s, 6, at) && at + 40 <= |s|
  }

  /** The frame holds an IP header. */
  ghost predicate HasIpHeader(dataLink: u16, s: bytes) {
    exists at: nat :: V4At(dataLink, s, at) || V6At(dataLink, s, at)
  }

  predicate WholeTcpAt(s: bytes, at: nat) {
    at + 20 <= |s| && 5 <= s[at + 12] / 16 && at + 4 * (s[at + 12] / 16) <= |s|
  }

  // ----- the columns -----

  predicate Ports(row: ScanRow, srcPort: Option<int>, dstPort: Option<int>, protocol: string) {
    row.srcPort == srcPort && row.dstPort == dstPort && row.protocol == protocol
  }

  /** Ports and protocol when the bytes behind the IP header start at `at`. */
  predicate ShowsTransport(row: ScanRow, s: bytes, at: nat, number: byte, prefix: string) {
    if (number == 6 && WholeTcpAt(s, at)) || (number == 17 && at + 8 <= |s|)
    then Ports(row, Some(0x100 * s[at] as int + s[at + 1] as int), Some(0x100 * s[at + 2] as int + s[at + 3] as int),
               if number == 6 then "TCP" else "UDP")
    else Ports(row, None, None, if number == 6 && at + 20 <= |s| then "UNKNOWN" else prefix + Decimal(number))
  }

  predicate ShowsV4(row: ScanRow, s: bytes, at: nat)
    requires at + 20 <= |s|
  {
    && row.srcIp == Some(FormatIPv4(s[at + 12..at + 16])) && row.dstIp == Some(FormatIPv4(s[at + 16..at + 20]))
    && ShowsTransport(row, s, at + 4 * (s[at] % 16), s[at + 9], "IP_")
  }

  predicate ShowsV6(row: ScanRow, s: bytes, at: nat)
    requires at + 40 <= |s|
  {
    && row.srcIp == Some(FormatIPv6(s[at + 8..at + 24])) && row.dstIp == Some(FormatIPv6(s[at + 24..at + 40]))
    && ShowsTransport(row, s, at + 40, s[at + 6], "IP6_")
  }

  /** The number of an ether type at a place, as the row prints it. */
  function TypeName(prefix: string, s: bytes, at: nat): string
    requires at + 2 <= |s|
  {
    prefix + HexWord(0x100 * s[at] as int + s[at + 1] as int)
  }

  /** What the protocol column says of a frame without an IP header: the link layer's own type when it is not IP. */
  function LinkName(dataLink: u16, s: bytes): string {
    if s == [] then "UNKNOWN"
    else if dataLink == DLT_RAW then (if s[0] / 16 in {4, 6} then "UNKNOWN" else "RAW")
    else if dataLink == DLT_LINUX_SLL then
      if |s| < 16 then "SLL"
      else if IpTypeAt(s, 14, 4) || IpTypeAt(s, 14, 6) then "UNKNOWN"
      else TypeName("SLL_0x", s, 14)
    else if |s| < 14 then "LINK_" + Decimal(dataLink)
    else
      var at := if Tagged(s) then 16 else 12;
      if IpTypeAt(s, at, 4) || IpTypeAt(s, at, 6) then "UNKNOWN" else TypeName("ETH_0x", s, at)
  }

  predicate ShowsNoIp(row: ScanRow, dataLink: u16, s: bytes) {
    row.srcIp == None && row.dstIp == None && Ports(row, None, None, LinkName(dataLink, s))
  }

  /** Addresses, ports and protocol of a frame. */
  ghost predicate ShowsFrame(row: ScanRow, dataLink: u16, s: bytes) {
    && (forall at: nat | V4At(dataLink, s, at) :: ShowsV4(row, s, at))
    && (forall at: nat | V6At(dataLink, s, at) :: ShowsV6(row, s, at))
    && (!HasIpHeader(dataLink, s) ==> ShowsNoIp(row, dataLink, s))
  }

  /** Which columns are NULL: ports unless the protocol is TCP or UDP, addresses unless there is an IP header, the
      payload when nothing was captured. */
  ghost predicate NullsAreRight(row: ScanRow, dataLink: u16, s: bytes) {
    && (row.srcPort.Some? <==> row.protocol == "TCP" || row.protocol == "UDP")
    && (row.dstPort.Some? <==> row.protocol == "TCP" || row.protocol == "UDP")
    && (row.srcIp.Some? <==> HasIpHeader(dataLink, s))
    && (row.dstIp.Some? <==> HasIpHeader(dataLink, s))
    && (row.payload.None? <==> s == [])
  }

  /** The columns that the capture's record header gives. */
  predicate ShowsHeader(row: ScanRow, h: PacketHeader) {
    && row.timestampMicros == h.seconds * 1_000_000 + h.nanoseconds / 1000
    && row.interfaceId == h.interfaceId && row.dataLink == h.dataLink
    && row.capturedLength == h.capturedLength && row.origLen == h.originalLength
  }

  /** The row shows the packet, in every column. */
  ghost predicate ShowsPacket(row: ScanRow, p: Packet) {
    && ShowsHeader(row, p.header)
    && ShowsFrame(row, p.header.dataLink, p.data)
    && NullsAreRight(row, p.header.dataLink, p.data)
    && (row.payload.Some? ==> row.payload.value == p.data)
  }

  // ----- the decoder's answer, as columns -----

  /** The columns that a decoder's answer fills. */
  predicate Fills(row: ScanRow, out: ParsedL4) {
    && row.srcIp == (if out.srcIp == "" then None else Some(out.srcIp))
    && row.dstIp == (if out.dstIp == "" then None else Some(out.dstIp))
    && row.srcPort == (if out.hasPorts then Some(out.srcPort) else None)
    && row.dstPort == (if out.hasPorts then Some(out.dstPort) else None)
    && row.protocol == out.protocol
  }

  lemma TransportShown(row: ScanRow, s: bytes, at: nat, number: byte, prefix: string, src: string, dst: string)
    requires at <= |s| && Fills(row, ParseTransport(s[at..], number, prefix, src, dst))
    ensures ShowsTransport(row, s, at, number, prefix)
    ensures row.srcIp == (if src == "" then None else Some(src)) && row.dstIp == (if dst == "" then None else Some(dst))
  {
    hide Decimal;
    var t := s[at..];
    assert |t| >= 4 ==> t[0] == s[at] && t[1] == s[at + 1] && t[2] == s[at + 2] && t[3] == s[at + 3];
    assert |t| >= 20 ==> t[12] == s[at + 12];
  }

  lemma V4Shown(row: ScanRow, s: bytes, at: nat)
    requires at <= |s| && Fills(row, ParseIPv4(s[at..]))
    ensures at + 20 <= |s| && 5 <= s[at] % 16 && at + 4 * (s[at] % 16) <= |s| ==> ShowsV4(row, s, at)
    ensures !(at + 20 <= |s| && 5 <= s[at] % 16 && at + 4 * (s[at] % 16) <= |s|) ==> Fills(row, NOTHING)
  {
    hide ParseTransport, FormatIPv4, ShowsTransport;
    var t := s[at..];
    if at + 20 <= |s| && 5 <= s[at] % 16 && at + 4 * (s[at] % 16) <= |s| {
      assert t[0] == s[at] && t[9] == s[at + 9];
      assert t[12..16] == s[at + 12..at + 16] && t[16..20] == s[at + 16..at + 20];
      var end := at + 4 * (s[at] % 16);
      assert t[4 * (s[at] % 16)..] == s[end..];
      PrintsSomething4(s[at + 12..at + 16]);
      PrintsSomething4(s[at + 16..at + 20]);
      TransportShown(row, s, end, s[at + 9], "IP_", FormatIPv4(s[at + 12..at + 16]), FormatIPv4(s[at + 16..at + 20]));
    }
  }

  lemma PrintsSomething4(a: bytes)
    requires |a| == 4
    ensures FormatIPv4(a) != ""
  {
  }

  lemma PrintsSomething6(a: bytes)
    requires |a| == 16
    ensures FormatIPv6(a) != ""
  {
  }

  lemma V6Shown(row: ScanRow, s: bytes, at: nat)
    requires at <= |s| && Fills(row, ParseIPv6(s[at..]))
    ensures at + 40 <= |s| ==> ShowsV6(row, s, at)
    ensures !(at + 40 <= |s|) ==> Fills(row, NOTHING)
  {
    hide ParseTransport, FormatIPv6, ShowsTransport;
    var t := s[at..];
    if at + 40 <= |s| {
      assert t[6] == s[at + 6];
      assert t[8..24] == s[at + 8..at + 24] && t[24..40] == s[at + 24..at + 40];
      assert t[40..] == s[at + 40..];
      PrintsSomething6(s[at + 8..at + 24]);
      PrintsSomething6(s[at + 24..at + 40]);
      TransportShown(row, s, at + 40, s[at + 6], "IP6_",
                     FormatIPv6(s[at + 8..at + 24]), FormatIPv6(s[at + 24..at + 40]));
    }
  }

  /** The link layer hands the bytes from `at` on to the parser of the version. */
  lemma IpShown(row: ScanRow, dataLink: u16, s: bytes, version: nat, at: nat)
    requires version == 4 || version == 6
    requires at <= |s| && LinkSays(dataLink, s, version, at) && LinkName(dataLink, s) == "UNKNOWN"
    requires Fills(row, if version == 4 then ParseIPv4(s[at..]) else ParseIPv6(s[at..]))
    ensures ShowsFrame(row, dataLink, s)
  {
    if version == 4 {
      V4Shown(row, s, at);
    } else {
      V6Shown(row, s, at);
    }
    hide ParseIPv4, ParseIPv6, ShowsV4, ShowsV6, LinkName;
    OnlyOneIp(dataLink, s, version, at);
    if V4At(dataLink, s, at) || V6At(dataLink, s, at) {
      assert HasIpHeader(dataLink, s);
    }
  }

  lemma OnlyOneIp(dataLink: u16, s: bytes, version: nat, at: nat)
    requires LinkSays(dataLink, s, version, at)
    ensures forall v: nat, a: nat | LinkSays(dataLink, s, v, a) :: v == version && a == at
  {
  }

  lemma NoIpShown(row: ScanRow, dataLink: u16, s: bytes)
    requires forall v: nat, a: nat | v == 4 || v == 6 :: !LinkSays(dataLink, s, v, a)
    requires Fills(row, NOTHING.(protocol := LinkName(dataLink, s)))
    ensures ShowsFrame(row, dataLink, s)
  {
    hide LinkSays, LinkName;
  }

  lemma RawShown(row: ScanRow, s: bytes)
    requires s != [] && Fills(row, ParseRaw(s))
    ensures ShowsFrame(row, DLT_RAW, s)
  {
    hide ParseIPv4, ParseIPv6, ShowsFrame, Fills;
    assert s[0..] == s;
    if s[0] / 16 == 4 {
      IpShown(row, DLT_RAW, s, 4, 0);
    } else if s[0] / 16 == 6 {
      IpShown(row, DLT_RAW, s, 6, 0);
    } else {
      NoIpShown(row, DLT_RAW, s);
    }
  }

  lemma SllShown(row: ScanRow, s: bytes)
    requires s != [] && Fills(row, ParseSll(s))
    ensures ShowsFrame(row, DLT_LINUX_SLL, s)
  {
    hide ParseIPv4, ParseIPv6, ShowsFrame, Fills, HexWord;
    if IpTypeAt(s, 14, 4) {
      IpShown(row, DLT_LINUX_SLL, s, 4, 16);
    } else if IpTypeAt(s, 14, 6) {
      IpShown(row, DLT_LINUX_SLL, s, 6, 16);
    } else {
      NoIpShown(row, DLT_LINUX_SLL, s);
    }
  }

  lemma EtherTypeBytes(s: bytes, at: nat)
    requires at + 2 <= |s|
    ensures ReadBE16(s, at) == 0x100 * s[at] as int + s[at + 1] as int
    ensures ReadBE16(s, at) == 0x0800 <==> IpTypeAt(s, at, 4)
    ensures ReadBE16(s, at) == 0x86DD <==> IpTypeAt(s, at, 6)
    ensures ReadBE16(s, at) == 0x8100 <==> TypeAt(s, at, 0x81, 0x00)
    ensures ReadBE16(s, at) == 0x88A8 <==> TypeAt(s, at, 0x88, 0xA8)
  {
  }

  lemma EtherTypeShown(row: ScanRow, dataLink: u16, s: bytes, at: nat)
    requires dataLink != DLT_RAW && dataLink != DLT_LINUX_SLL && 14 <= at <= |s|
    requires at == (if Tagged(s) then 18 else 14) && Fills(row, ParseEtherType(ReadBE16(s, at - 2), s[at..]))
    ensures ShowsFrame(row, dataLink, s)
  {
    EtherTypeBytes(s, at - 2);
    hide ParseIPv4, ParseIPv6, ShowsFrame, Fills, HexWord, ReadBE16, Tagged, Decimal;
    if IpTypeAt(s, at - 2, 4) {
      IpShown(row, dataLink, s, 4, at);
    } else if IpTypeAt(s, at - 2, 6) {
      IpShown(row, dataLink, s, 6, at);
    } else {
      NoIpShown(row, dataLink, s);
    }
  }

  lemma EthernetShown(row: ScanRow, dataLink: u16, s: bytes)
    requires dataLink != DLT_RAW && dataLink != DLT_LINUX_SLL && s != [] && Fills(row, ParseEthernet(dataLink, s))
    ensures ShowsFrame(row, dataLink, s)
  {
    hide ParseEtherType, ShowsFrame, Fills, HexWord, ReadBE16, Decimal;
    if |s| < 14 {
      NoIpShown(row, dataLink, s);
    } else {
      EtherTypeBytes(s, 12);
      EtherTypeShown(row, dataLink, s, if Tagged(s) then 18 else 14);
    }
  }

  lemma FrameShown(row: ScanRow, dataLink: u16, s: bytes)
    requires Fills(row, ParseL4(dataLink, s))
    ensures ShowsFrame(row, dataLink, s)
  {
    hide ParseRaw, ParseSll, ParseEthernet, ShowsFrame, Fills;
    if s == [] {
      NoIpShown(row, dataLink, s);
    } else if dataLink == DLT_RAW {
      RawShown(row, s);
    } else if dataLink == DLT_LINUX_SLL {
      SllShown(row, s);
    } else {
      EthernetShown(row, dataLink, s);
    }
  }

  lemma TransportNulls(row: ScanRow, s: bytes, at: nat, number: byte, prefix: string)
    requires ShowsTransport(row, s, at, number, prefix) && prefix in {"IP_", "IP6_"}
    ensures row.srcPort.Some? <==> row.protocol == "TCP" || row.protocol == "UDP"
    ensures row.dstPort.Some? <==> row.protocol == "TCP" || row.protocol == "UDP"
  {
    hide Decimal;
    assert (prefix + Decimal(number))[0] == 'I';
  }

  lemma LinkNameIsNoTransport(dataLink: u16, s: bytes)
    ensures LinkName(dataLink, s) != "TCP" && LinkName(dataLink, s) != "UDP"
  {
    hide Decimal, HexWord;
    assert forall t: string :: ("SLL_0x" + t)[0] == 'S' && ("ETH_0x" + t)[0] == 'E' && ("LINK_" + t)[0] == 'L';
  }

  lemma NullsShown(row: ScanRow, dataLink: u16, s: bytes)
    requires ShowsFrame(row, dataLink, s) && (row.payload.None? <==> s == [])
    ensures NullsAreRight(row, dataLink, s)
  {
    hide FormatIPv4, FormatIPv6, ShowsTransport, V4At, V6At, LinkName;
    if at: nat :| V4At(dataLink, s, at) || V6At(dataLink, s, at) {
      if V4At(dataLink, s, at) {
        HeaderFits(dataLink, s, at);
        TransportNulls(row, s, at + 4 * (s[at] % 16), s[at + 9], "IP_");
      } else {
        HeaderFits(dataLink, s, at);
        TransportNulls(row, s, at + 40, s[at + 6], "IP6_");
      }
    } else {
      LinkNameIsNoTransport(dataLink, s);
    }
  }

  lemma HeaderFits(dataLink: u16, s: bytes, at: nat)
    ensures V4At(dataLink, s, at) ==> at + 20 <= |s|
    ensures V6At(dataLink, s, at) ==> at + 40 <= |s|
  {
  }

  // ----- delivered rows -----

  lemma RowShowsPacket(p: Packet)
    ensures ShowsPacket(RowOf(p), p)
  {
    var row := RowOf(p);
    assert Fills(row, ParseL4(p.header.dataLink, p.data)) by { hide ParseL4; }
    hide ParseL4, ShowsFrame, NullsAreRight, Fills;
    FrameShown(row, p.header.dataLink, p.data);
    NullsShown(row, p.header.dataLink, p.data);
  }

  /** Row by row, the call shows the capture's packets from number `from` on. */
  ghost predicate ShowsPackets(rows: seq<ScanRow>, packets: seq<Packet>, from: nat) {
    from + |rows| <= |packets| && forall i | 0 <= i < |rows| :: ShowsPacket(rows[i], packets[from + i])
  }

  lemma BatchShows(ps: seq<Packet>, from: nat, to: nat)
    requires from <= to <= |ps|
    ensures ShowsPackets(RowsOf(ps[from..to]), ps, from)
  {
    hide RowOf, ShowsPacket;
    forall i | 0 <= i < to - from
      ensures ShowsPacket(RowsOf(ps[from..to])[i], ps[from + i])
    {
      RowShowsPacket(ps[from + i]);
    }
  }

  /** Every row that any call of a scan delivers shows its packet in every column: row `i` of call `n` is packet
      `2048 * n + i` of the capture. */
  lemma DeliveredRowsShowPackets(r: Reader, n: nat)
    requires r.pos <= |r.file|
    ensures var result := Call(After(ScanState(r, false), n)).1;
      result.Rows? && result.rows != [] ==> ShowsPackets(result.rows, ReadAll(r).0, n * VECTOR_SIZE)
  {
    hide ReadAll, Call, After, RowsOf, ShowsPackets;
    BatchesCutTheList(r, n);
    var ps := ReadAll(r).0;
    var from, to := n * VECTOR_SIZE, (n + 1) * VECTOR_SIZE;
    if to <= |ps| {
      BatchShows(ps, from, to);
    } else if from <= |ps| {
      BatchShows(ps, from, |ps|);
      assert ps[from..|ps|] == ps[from..];
    }
  }
}
