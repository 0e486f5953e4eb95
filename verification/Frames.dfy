/** Building frames that the packet decoder understands, field by field as the standards lay them out. */
module Frames {
  import opened Bytes
  import opened Numerals
  import opened Addresses
  import opened PacketDecoder

  datatype Link =
    | Ethernet(macs: bytes)
    | TaggedEthernet(macs: bytes, tpid: u16, tci: u16)
    | Sll(head: bytes)
    | RawIp

  /** `head` is what lies between the first byte and the protocol (IPv4) or next header (IPv6) field. */
  datatype Net =
    | V4(head: bytes, checksum: bytes, src: bytes, dst: bytes, options: bytes)
    | V6(trafficNibble: nat, head: bytes, hopLimit: byte, src: bytes, dst: bytes)

  datatype Transport =
    | Tcp(srcPort: u16, dstPort: u16, seqAck: bytes, reserved: nat, tail: bytes, options: bytes)
    | Udp(srcPort: u16, dstPort: u16, lengthChecksum: bytes)

  predicate ValidLink(l: Link) {
    match l
    case Ethernet(macs) => |macs| == 12
    case TaggedEthernet(macs, tpid, _) => |macs| == 12 && (tpid == 0x8100 || tpid == 0x88A8)
    case Sll(head) => |head| == 14
    case RawIp => true
  }

  predicate ValidNet(n: Net) {
    match n
    case V4(head, checksum, src, dst, options) =>
      |head| == 8 && |checksum| == 2 && |src| == |dst| == 4 && |options| <= 40 && |options| % 4 == 0
    case V6(trafficNibble, head, _, src, dst) => trafficNibble < 16 && |head| == 5 && |src| == |dst| == 16
  }

  predicate ValidTransport(t: Transport) {
    match t
    case Tcp(_, _, seqAck, reserved, tail, options) =>
      |seqAck| == 8 && reserved < 16 && |tail| == 7 && |options| <= 40 && |options| % 4 == 0
    case Udp(_, _, lengthChecksum) => |lengthChecksum| == 4
  }

  function Protocol(t: Transport): byte {
    if t.Tcp? then 6 else 17
  }

  function EtherType(n: Net): u16 {
    if n.V4? then 0x0800 else 0x86DD
  }

  function TransportBytes(t: Transport): bytes
    requires ValidTransport(t)
  {
    match t
    case Tcp(srcPort, dstPort, seqAck, reserved, tail, options) =>
      BE16(srcPort) + BE16(dstPort) + seqAck + [(5 + |options| / 4) * 16 + reserved] + tail + options
    case Udp(srcPort, dstPort, lengthChecksum) => BE16(srcPort) + BE16(dstPort) + lengthChecksum
  }

  function NetBytes(n: Net, protocol: byte): bytes
    requires ValidNet(n)
  {
    match n
    case V4(head, checksum, src, dst, options) =>
      [0x40 + 5 + |options| / 4] + head + [protocol] + checksum + src + dst + options
    case V6(trafficNibble, head, hopLimit, src, dst) =>
      [0x60 + trafficNibble] + head + [protocol, hopLimit] + src + dst
  }

  function LinkBytes(l: Link, etherType: u16): bytes
    requires ValidLink(l)
  {
    match l
    case Ethernet(macs) => macs + BE16(etherType)
    case TaggedEthernet(macs, tpid, tci) => macs + BE16(tpid) + BE16(tci) + BE16(etherType)
    case Sll(head) => head + BE16(etherType)
    case RawIp => []
  }

  function Frame(l: Link, n: Net, t: Transport, payload: bytes): bytes
    requires ValidLink(l) && ValidNet(n) && ValidTransport(t)
  {
    LinkBytes(l, EtherType(n)) + (NetBytes(n, Protocol(t)) + (TransportBytes(t) + payload))
  }

  /** The link types under which the capture records such a frame. */
  predicate LinkTypeOf(l: Link, dataLink: u16) {
    match l
    case Ethernet(_) => dataLink != DLT_RAW && dataLink != DLT_LINUX_SLL
    case TaggedEthernet(_, _, _) => dataLink != DLT_RAW && dataLink != DLT_LINUX_SLL
    case Sll(_) => dataLink == DLT_LINUX_SLL
    case RawIp => dataLink == DLT_RAW
  }

  function SourceText(n: Net): string
    requires ValidNet(n)
  {
    if n.V4? then FormatIPv4(n.src) else FormatIPv6(n.src)
  }

  function DestinationText(n: Net): string
    requires ValidNet(n)
  {
    if n.V4? then FormatIPv4(n.dst) else FormatIPv6(n.dst)
  }

  function Built(n: Net, t: Transport): ParsedL4
    requires ValidNet(n)
  {
    ParsedL4(SourceText(n), DestinationText(n), true, t.srcPort, t.dstPort, if t.Tcp? then "TCP" else "UDP")
  }

  lemma BE16At(pre: bytes, v: u16, post: bytes)
    ensures ReadBE16(pre + BE16(v) + post, |pre|) == v
  {
  }

  /** The two ports at the front of a transport header. */
  lemma PortsInFront(srcPort: u16, dstPort: u16, rest: bytes)
    ensures var b := BE16(srcPort) + BE16(dstPort) + rest;
      ReadBE16(b, 0) == srcPort && ReadBE16(b, 2) == dstPort
  {
    BE16At(BE16(srcPort), dstPort, rest);
    var b := BE16(srcPort) + BE16(dstPort) + rest;
    assert b == [] + BE16(srcPort) + (BE16(dstPort) + rest);
    BE16At([], srcPort, BE16(dstPort) + rest);
  }

  /** The ports and the header length of a TCP header, also when it is followed by anything. */
  lemma TcpFields(t: Transport, payload: bytes)
    requires ValidTransport(t) && t.Tcp?
    ensures var b := TransportBytes(t) + payload;
      && ReadBE16(b, 0) == t.srcPort && ReadBE16(b, 2) == t.dstPort
      && b[12] / 16 * 4 == 20 + |t.options|
  {
    hide BE16, ReadBE16;
    var offset: bytes := [(5 + |t.options| / 4) * 16 + t.reserved];
    var rest := t.seqAck + offset + t.tail + t.options + payload;
    PortsInFront(t.srcPort, t.dstPort, rest);
    var b := TransportBytes(t) + payload;
    assert b == BE16(t.srcPort) + BE16(t.dstPort) + rest;
    assert b[12] == offset[0];
  }

  lemma TransportDecoded(t: Transport, payload: bytes, other: string, src: string, dst: string)
    requires ValidTransport(t)
    ensures ParseTransport(TransportBytes(t) + payload, Protocol(t), other, src, dst)
         == ParsedL4(src, dst, true, t.srcPort, t.dstPort, if t.Tcp? then "TCP" else "UDP")
  {
    if t.Tcp? {
      TcpFields(t, payload);
      hide BE16, ReadBE16;
    } else {
      hide BE16, ReadBE16;
      PortsInFront(t.srcPort, t.dstPort, t.lengthChecksum + payload);
      assert TransportBytes(t) + payload == BE16(t.srcPort) + BE16(t.dstPort) + (t.lengthChecksum + payload);
    }
  }

  lemma V4Decoded(n: Net, protocol: byte, rest: bytes)
    requires ValidNet(n) && n.V4?
    ensures var b := NetBytes(n, protocol) + rest;
      b[0] / 16 == 4 && ParseIPv4(b) == ParseTransport(rest, protocol, "IP_", FormatIPv4(n.src), FormatIPv4(n.dst))
  {
    hide ParseTransport, FormatIPv4;
    var first: bytes := [0x40 + 5 + |n.options| / 4];
    var p: bytes := [protocol];
    var b := NetBytes(n, protocol) + rest;
    assert b[0] == first[0] && first[0] % 16 * 4 == 20 + |n.options|;
    assert b[9] == protocol;
    assert b[12..16] == n.src && b[16..20] == n.dst;
    assert b[20 + |n.options|..] == rest;
  }

  lemma V6Decoded(n: Net, protocol: byte, rest: bytes)
    requires ValidNet(n) && n.V6?
    ensures var b := NetBytes(n, protocol) + rest;
      b[0] / 16 == 6 && ParseIPv6(b) == ParseTransport(rest, protocol, "IP6_", FormatIPv6(n.src), FormatIPv6(n.dst))
  {
    hide ParseTransport, FormatIPv6;
    var b := NetBytes(n, protocol) + rest;
    assert b[0] == 0x60 + n.trafficNibble;
    assert b[6] == protocol;
    assert b[8..24] == n.src && b[24..40] == n.dst;
    assert b[40..] == rest;
  }

  /** What the decoder answers for the network layer of a packet. */
  function ParseNet(n: Net, ip: bytes): ParsedL4 {
    if n.V4? then ParseIPv4(ip) else ParseIPv6(ip)
  }

  lemma NetDecoded(n: Net, t: Transport, payload: bytes)
    requires ValidNet(n) && ValidTransport(t)
    ensures var ip := NetBytes(n, Protocol(t)) + (TransportBytes(t) + payload);
      ip[0] / 16 == (if n.V4? then 4 else 6) && ParseNet(n, ip) == Built(n, t)
  {
    hide ParseTransport, TransportBytes, NetBytes, FormatIPv4, FormatIPv6, ParseIPv4, ParseIPv6;
    var rest := TransportBytes(t) + payload;
    if n.V4? {
      V4Decoded(n, Protocol(t), rest);
      TransportDecoded(t, payload, "IP_", FormatIPv4(n.src), FormatIPv4(n.dst));
    } else {
      V6Decoded(n, Protocol(t), rest);
      TransportDecoded(t, payload, "IP6_", FormatIPv6(n.src), FormatIPv6(n.dst));
    }
  }

  lemma LinkDecoded(l: Link, dataLink: u16, n: Net, ip: bytes)
    requires ValidLink(l) && LinkTypeOf(l, dataLink)
    requires ip != [] && ip[0] / 16 == (if n.V4? then 4 else 6)
    ensures ParseL4(dataLink, LinkBytes(l, EtherType(n)) + ip) == ParseNet(n, ip)
  {
    hide ParseIPv4, ParseIPv6, BE16, ReadBE16;
    var e := BE16(EtherType(n));
    var b := LinkBytes(l, EtherType(n)) + ip;
    match l
    case Ethernet(macs) =>
      BE16At(macs, EtherType(n), ip);
      assert b[14..] == ip;
    case TaggedEthernet(macs, tpid, tci) =>
      assert b == macs + BE16(tpid) + (BE16(tci) + e + ip);
      BE16At(macs, tpid, BE16(tci) + e + ip);
      assert b == (macs + BE16(tpid) + BE16(tci)) + e + ip;
      BE16At(macs + BE16(tpid) + BE16(tci), EtherType(n), ip);
      assert b[18..] == ip;
    case Sll(head) =>
      BE16At(head, EtherType(n), ip);
      assert b[16..] == ip;
    case RawIp =>
      assert b == ip;
  }

  /** Decoding a built frame gives back the addresses and ports it was built from: for Ethernet with no or one VLAN
      tag, Linux cooked capture or raw IP; IPv4 with any options or IPv6; TCP with any options or UDP; any payload. */
  lemma FrameRoundTrip(l: Link, dataLink: u16, n: Net, t: Transport, payload: bytes)
    requires ValidLink(l) && LinkTypeOf(l, dataLink) && ValidNet(n) && ValidTransport(t)
    ensures ParseL4(dataLink, Frame(l, n, t, payload)) == Built(n, t)
  {
    hide ParseL4, LinkBytes, NetBytes, TransportBytes, ParseNet, Built;
    NetDecoded(n, t, payload);
    var ip := NetBytes(n, Protocol(t)) + (TransportBytes(t) + payload);
    NetNotEmpty(n, Protocol(t));
    LinkDecoded(l, dataLink, n, ip);
  }

  // ----- packets without a usable transport header -----

  /** A frame whose packet carries any protocol number and any bytes behind the network header. */
  function PlainFrame(l: Link, n: Net, protocol: byte, rest: bytes): bytes
    requires ValidLink(l) && ValidNet(n)
  {
    LinkBytes(l, EtherType(n)) + (NetBytes(n, protocol) + rest)
  }

  /** The name of a protocol that is not decoded. */
  function NumberedName(n: Net, protocol: byte): string {
    (if n.V4? then "IP_" else "IP6_") + Decimal(protocol)
  }

  /** Both addresses, no ports and the given name. */
  function AddressesOnly(n: Net, name: string): ParsedL4
    requires ValidNet(n)
  {
    ParsedL4(SourceText(n), DestinationText(n), false, 0, 0, name)
  }

  /** No TCP or UDP header of full minimal length follows. */
  predicate Undecoded(protocol: byte, rest: bytes) {
    && (protocol == 6 ==> |rest| < 20)
    && (protocol == 17 ==> |rest| < 8)
  }

  /** The bytes of a TCP header whose own length field is too small or reaches past the end. */
  predicate BrokenTcp(rest: bytes) {
    |rest| >= 20 && (rest[12] / 16 < 5 || |rest| < rest[12] / 16 * 4)
  }

  lemma PlainDecoded(l: Link, dataLink: u16, n: Net, protocol: byte, rest: bytes, out: ParsedL4)
    requires ValidLink(l) && LinkTypeOf(l, dataLink) && ValidNet(n)
    requires ParseTransport(rest, protocol, if n.V4? then "IP_" else "IP6_", SourceText(n), DestinationText(n)) == out
    ensures ParseL4(dataLink, PlainFrame(l, n, protocol, rest)) == out
  {
    hide ParseL4, LinkBytes, NetBytes, ParseTransport, ParseIPv4, ParseIPv6, FormatIPv4, FormatIPv6;
    if n.V4? {
      V4Decoded(n, protocol, rest);
    } else {
      V6Decoded(n, protocol, rest);
    }
    NetNotEmpty(n, protocol);
    LinkDecoded(l, dataLink, n, NetBytes(n, protocol) + rest);
  }

  /** Any protocol but TCP and UDP, with any payload, and TCP and UDP with too few bytes for a header: both addresses
      are shown, no ports, and the number of the protocol. */
  lemma PlainFrameRoundTrip(l: Link, dataLink: u16, n: Net, protocol: byte, rest: bytes)
    requires ValidLink(l) && LinkTypeOf(l, dataLink) && ValidNet(n) && Undecoded(protocol, rest)
    ensures ParseL4(dataLink, PlainFrame(l, n, protocol, rest)) == AddressesOnly(n, NumberedName(n, protocol))
  {
    hide ParseL4, PlainFrame, Decimal, SourceText, DestinationText;
    PlainDecoded(l, dataLink, n, protocol, rest, AddressesOnly(n, NumberedName(n, protocol)));
  }

  /** A TCP header that announces less than its minimal length, or more than is there: both addresses are shown, no
      ports, and no protocol. */
  lemma BrokenTcpRoundTrip(l: Link, dataLink: u16, n: Net, rest: bytes)
    requires ValidLink(l) && LinkTypeOf(l, dataLink) && ValidNet(n) && BrokenTcp(rest)
    ensures ParseL4(dataLink, PlainFrame(l, n, 6, rest)) == AddressesOnly(n, "UNKNOWN")
  {
    hide ParseL4, PlainFrame, Decimal, SourceText, DestinationText;
    PlainDecoded(l, dataLink, n, 6, rest, AddressesOnly(n, "UNKNOWN"));
  }

  /** A TCP or UDP header of which the capture holds only the first `k` bytes: both addresses are shown, no ports, and
      the protocol number, or no protocol once the fixed part of a TCP header is there. */
  lemma CutFrameRoundTrip(l: Link, dataLink: u16, n: Net, t: Transport, k: nat)
    requires ValidLink(l) && LinkTypeOf(l, dataLink) && ValidNet(n) && ValidTransport(t) && k < |TransportBytes(t)|
    ensures ParseL4(dataLink, PlainFrame(l, n, Protocol(t), TransportBytes(t)[..k]))
         == AddressesOnly(n, if t.Tcp? && k >= 20 then "UNKNOWN" else NumberedName(n, Protocol(t)))
  {
    hide ParseL4, PlainFrame, Decimal, AddressesOnly, TransportBytes, LinkTypeOf;
    TransportSize(t);
    var rest := TransportBytes(t)[..k];
    if t.Tcp? && k >= 20 {
      TcpFields(t, []);
      assert TransportBytes(t) + [] == TransportBytes(t);
      assert rest[12] == TransportBytes(t)[12];
      BrokenTcpRoundTrip(l, dataLink, n, rest);
    } else {
      PlainFrameRoundTrip(l, dataLink, n, Protocol(t), rest);
    }
  }

  lemma TransportSize(t: Transport)
    requires ValidTransport(t)
    ensures |TransportBytes(t)| == if t.Tcp? then 20 + |t.options| else 8
  {
    hide BE16;
  }

  lemma NetNotEmpty(n: Net, protocol: byte)
    requires ValidNet(n)
    ensures NetBytes(n, protocol) != []
  {
  }

  // ----- the look-ahead bound is the best one -----

  const LONGEST_LINK: Link := TaggedEthernet(Zeros(12), 0x8100, 0)
  const LONGEST_NET: Net := V4(Zeros(8), Zeros(2), Zeros(4), Zeros(4), Zeros(40))
  const LONGEST_TRANSPORT: Transport := Tcp(1, 2, Zeros(8), 0, Zeros(7), Zeros(40))

  lemma LongestSizes()
    ensures ValidLink(LONGEST_LINK) && ValidNet(LONGEST_NET) && ValidTransport(LONGEST_TRANSPORT)
    ensures |LinkBytes(LONGEST_LINK, 0x0800)| == 18 && |NetBytes(LONGEST_NET, 6)| == 60
    ensures |TransportBytes(LONGEST_TRANSPORT)| == 60
  {
  }

  lemma LastByteMissing()
    requires ValidTransport(LONGEST_TRANSPORT) && |TransportBytes(LONGEST_TRANSPORT)| == 60
    ensures forall other: string, src: string, dst: string ::
      !ParseTransport(TransportBytes(LONGEST_TRANSPORT)[..59], 6, other, src, dst).hasPorts
  {
    var t := TransportBytes(LONGEST_TRANSPORT);
    TcpFields(LONGEST_TRANSPORT, []);
    assert t + [] == t;
    hide TransportBytes;
    assert t[..59][12] == t[12];
  }

  /** No shorter look-ahead would do: a frame of 138 bytes yields ports while its first 137 bytes do not. */
  lemma LookAheadIsTight()
    ensures ValidLink(LONGEST_LINK) && ValidNet(LONGEST_NET) && ValidTransport(LONGEST_TRANSPORT)
    ensures var f := Frame(LONGEST_LINK, LONGEST_NET, LONGEST_TRANSPORT, []);
      |f| == LOOK_AHEAD && ParseL4(1, f).hasPorts && !ParseL4(1, f[..LOOK_AHEAD - 1]).hasPorts
  {
    LongestSizes();
    LastByteMissing();
    var l, n, t := LinkBytes(LONGEST_LINK, 0x0800), NetBytes(LONGEST_NET, 6), TransportBytes(LONGEST_TRANSPORT);
    FrameRoundTrip(LONGEST_LINK, 1, LONGEST_NET, LONGEST_TRANSPORT, []);
    V4Decoded(LONGEST_NET, 6, t[..59]);
    LinkDecoded(LONGEST_LINK, 1, LONGEST_NET, n + t[..59]);
    var f := Frame(LONGEST_LINK, LONGEST_NET, LONGEST_TRANSPORT, []);
    hide LinkBytes, NetBytes, TransportBytes, ParseL4, ParseTransport, ParseIPv4;
    assert f == l + (n + (t + []));
    assert f[..137] == l + (n + t[..59]);
  }
}
