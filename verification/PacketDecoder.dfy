/** Addresses, ports and protocol of a captured frame (section 3.1 of RFC 791, section 3 of RFC 8200,
    section 3.1 of RFC 9293, RFC 768). */
module PacketDecoder {
  import opened Bytes
  import opened Numerals
  import opened Addresses

  const DLT_RAW: u16 := 101
  const DLT_LINUX_SLL: u16 := 113

  datatype ParsedL4 = ParsedL4(
    srcIp: string, dstIp: string, hasPorts: bool, srcPort: int, dstPort: int, protocol: string)

  const NOTHING: ParsedL4 := ParsedL4("", "", false, 0, 0, "UNKNOWN")

  /** `%04X` */
  function HexWord(v: u16): string {
    [UpperDigit(v / 0x1000), UpperDigit(v / 0x100 % 16), UpperDigit(v / 16 % 16), UpperDigit(v % 16)]
  }

  function UpperDigit(d: nat): char
    requires d < 16
  {
    if d < 10 then ('0' as int + d) as char else ('A' as int + d - 10) as char
  }

  lemma UpperDigitInjective(d: nat, e: nat)
    requires d < 16 && e < 16 && UpperDigit(d) == UpperDigit(e)
    ensures d == e
  {
  }

  lemma WordOfDigits(v: u16)
    ensures v == v / 0x1000 * 0x1000 + v / 0x100 % 16 * 0x100 + v / 16 % 16 * 16 + v % 16
  {
    var q1 := v / 16;
    var q2 := q1 / 16;
    assert q2 == v / 0x100 && q2 / 16 == v / 0x1000;
  }

  lemma UpperDigitReads(d: nat)
    requires d < 16
    ensures UpperDigit(d) == "0123456789ABCDEF"[d]
  {
  }

  /** The four digits of an ether type denote it, the most significant one first. */
  lemma HexWordReads(v: u16)
    ensures exists a: nat, b: nat, c: nat, d: nat ::
      && a < 16 && b < 16 && c < 16 && d < 16 && v == a * 0x1000 + b * 0x100 + c * 16 + d
      && HexWord(v) == UpperDigits(a, b, c, d)
  {
    hide UpperDigit;
    UpperDigitReads(v / 0x1000);
    UpperDigitReads(v / 0x100 % 16);
    UpperDigitReads(v / 16 % 16);
    UpperDigitReads(v % 16);
    WordOfDigits(v);
    assert HexWord(v) == UpperDigits(v / 0x1000, v / 0x100 % 16, v / 16 % 16, v % 16);
  }

  /** The text of four digits. */
  function UpperDigits(a: nat, b: nat, c: nat, d: nat): string
    requires a < 16 && b < 16 && c < 16 && d < 16
  {
    var digits := "0123456789ABCDEF";
    [digits[a], digits[b], digits[c], digits[d]]
  }

  /** Protocol names of different ether types differ, so filtering on a name selects one ether type. */
  lemma HexWordInjective(v: u16, w: u16)
    ensures HexWord(v) == HexWord(w) <==> v == w
  {
    hide UpperDigit;
    if HexWord(v) == HexWord(w) {
      var a, b := HexWord(v), HexWord(w);
      assert a[0] == b[0] && a[1] == b[1] && a[2] == b[2] && a[3] == b[3];
      UpperDigitInjective(v / 0x1000, w / 0x1000);
      UpperDigitInjective(v / 0x100 % 16, w / 0x100 % 16);
      UpperDigitInjective(v / 16 % 16, w / 16 % 16);
      UpperDigitInjective(v % 16, w % 16);
      WordOfDigits(v);
      WordOfDigits(w);
    }
  }

  // ----- what the parsers answer for a byte string -----

  /** The transport part, once the addresses are known. */
  function ParseTransport(t: bytes, protocol: byte, other: string, src: string, dst: string): ParsedL4 {
    if protocol == 6 && |t| >= 20 then
      var headerLength := t[12] / 16 * 4;
      if headerLength >= 20 && |t| >= headerLength then
        ParsedL4(src, dst, true, ReadBE16(t, 0), ReadBE16(t, 2), "TCP")
      else ParsedL4(src, dst, false, 0, 0, "UNKNOWN")
    else if protocol == 17 && |t| >= 8 then ParsedL4(src, dst, true, ReadBE16(t, 0), ReadBE16(t, 2), "UDP")
    else ParsedL4(src, dst, false, 0, 0, other + Decimal(protocol))
  }

  function ParseIPv4(s: bytes): ParsedL4 {
    if |s| < 20 then NOTHING
    else
      var ihl := s[0] % 16 * 4;
      if ihl < 20 || |s| < ihl then NOTHING
      else ParseTransport(s[ihl..], s[9], "IP_", FormatIPv4(s[12..16]), FormatIPv4(s[16..20]))
  }

  function ParseIPv6(s: bytes): ParsedL4 {
    if |s| < 40 then NOTHING
    else ParseTransport(s[40..], s[6], "IP6_", FormatIPv6(s[8..24]), FormatIPv6(s[24..40]))
  }

  function ParseRaw(s: bytes): ParsedL4
    requires s != []
  {
    if s[0] / 16 == 4 then ParseIPv4(s)
    else if s[0] / 16 == 6 then ParseIPv6(s)
    else NOTHING.(protocol := "RAW")
  }

  function ParseSll(s: bytes): ParsedL4 {
    if |s| < 16 then NOTHING.(protocol := "SLL")
    else
      var protocol := ReadBE16(s, 14);
      if protocol == 0x0800 then ParseIPv4(s[16..])
      else if protocol == 0x86DD then ParseIPv6(s[16..])
      else NOTHING.(protocol := "SLL_0x" + HexWord(protocol))
  }

  function ParseEtherType(etherType: u16, s: bytes): ParsedL4 {
    if etherType == 0x0800 then ParseIPv4(s)
    else if etherType == 0x86DD then ParseIPv6(s)
    else NOTHING.(protocol := "ETH_0x" + HexWord(etherType))
  }

  function ParseEthernet(dataLink: u16, s: bytes): ParsedL4 {
    if |s| < 14 then NOTHING.(protocol := "LINK_" + Decimal(dataLink))
    else
      var etherType := ReadBE16(s, 12);
      if (etherType == 0x8100 || etherType == 0x88A8) && |s| >= 18 then ParseEtherType(ReadBE16(s, 16), s[18..])
      else ParseEtherType(etherType, s[14..])
  }

  function ParseL4(dataLink: u16, s: bytes): ParsedL4 {
    if s == [] then NOTHING
    else if dataLink == DLT_RAW then ParseRaw(s)
    else if dataLink == DLT_LINUX_SLL then ParseSll(s)
    else ParseEthernet(dataLink, s)
  }

  // ----- the parsers as the code runs them, with a moving cursor over one buffer -----

  method ReadArrayBE16(data: array<byte>, pos: nat) returns (v: u16)
    requires pos + 2 <= data.Length
    ensures v == ReadBE16(data[pos..], 0)
  {
    v := 0x100 * data[pos] as int + data[pos + 1] as int;
  }

  method ParseTransportFields(data: array<byte>, start: nat, length: nat,
                              protocol: byte, other: string, src: string, dst: string)
    returns (out: ParsedL4)
    requires start + length == data.Length
    ensures out == ParseTransport(data[start..], protocol, other, src, dst)
  {
    out := ParsedL4(src, dst, false, 0, 0, "UNKNOWN");
    if protocol == 6 && length >= 20 {
      var tcpHeaderLen := data[start + 12] / 16 * 4;
      if tcpHeaderLen >= 20 && length >= tcpHeaderLen {
        var sp := ReadArrayBE16(data, start);
        var dp := ReadArrayBE16(data, start + 2);
        assert data[start + 2..] == data[start..][2..];
        out := out.(hasPorts := true, srcPort := sp, dstPort := dp, protocol := "TCP");
      }
    } else if protocol == 17 && length >= 8 {
      var sp := ReadArrayBE16(data, start);
      var dp := ReadArrayBE16(data, start + 2);
      assert data[start + 2..] == data[start..][2..];
      out := out.(hasPorts := true, srcPort := sp, dstPort := dp, protocol := "UDP");
    } else {
      out := out.(protocol := other + Decimal(protocol));
    }
  }

  method ParseIPv4Fields(data: array<byte>, start: nat, length: nat) returns (out: ParsedL4)
    requires start + length == data.Length
    ensures out == ParseIPv4(data[start..])
  {
    hide ParseTransport, FormatIPv4;
    var cursor, remaining := start, length;
    if remaining < 20 {
      return NOTHING;
    }
    var ihl := data[cursor] % 16 * 4;
    if ihl < 20 || remaining < ihl {
      return NOTHING;
    }
    var protocol := data[cursor + 9];
    var src := FormatIPv4(data[cursor + 12..cursor + 16]);
    var dst := FormatIPv4(data[cursor + 16..cursor + 20]);
    assert data[cursor + 12..cursor + 16] == data[start..][12..16];
    assert data[cursor + 16..cursor + 20] == data[start..][16..20];
    cursor, remaining := cursor + ihl, remaining - ihl;
    assert data[cursor..] == data[start..][ihl..];
    out := ParseTransportFields(data, cursor, remaining, protocol, "IP_", src, dst);
  }

  method ParseIPv6Fields(data: array<byte>, start: nat, length: nat) returns (out: ParsedL4)
    requires start + length == data.Length
    ensures out == ParseIPv6(data[start..])
  {
    hide ParseTransport, FormatIPv6;
    var cursor, remaining := start, length;
    if remaining < 40 {
      return NOTHING;
    }
    var nextHeader := data[cursor + 6];
    var src := FormatIPv6(data[cursor + 8..cursor + 24]);
    var dst := FormatIPv6(data[cursor + 24..cursor + 40]);
    assert data[cursor + 8..cursor + 24] == data[start..][8..24];
    assert data[cursor + 24..cursor + 40] == data[start..][24..40];
    cursor, remaining := cursor + 40, remaining - 40;
    assert data[cursor..] == data[start..][40..];
    out := ParseTransportFields(data, cursor, remaining, nextHeader, "IP6_", src, dst);
  }

  method ParseL4Fields(dataLink: u16, data: array<byte>) returns (out: ParsedL4)
    ensures out == ParseL4(dataLink, data[..])
  {
    hide ParseIPv4, ParseIPv6, HexWord;
    var cursor, remaining := 0, data.Length;
    assert data[0..] == data[..];
    if remaining == 0 {
      return NOTHING;
    }
    if dataLink == DLT_RAW {
      if data[0] / 16 == 4 {
        out := ParseIPv4Fields(data, cursor, remaining);
        return;
      }
      if data[0] / 16 == 6 {
        out := ParseIPv6Fields(data, cursor, remaining);
        return;
      }
      return NOTHING.(protocol := "RAW");
    }
    if dataLink == DLT_LINUX_SLL {
      if remaining < 16 {
        return NOTHING.(protocol := "SLL");
      }
      var protocol := ReadArrayBE16(data, cursor + 14);
      cursor, remaining := cursor + 16, remaining - 16;
      if protocol == 0x0800 {
        out := ParseIPv4Fields(data, cursor, remaining);
        return;
      }
      if protocol == 0x86DD {
        out := ParseIPv6Fields(data, cursor, remaining);
        return;
      }
      return NOTHING.(protocol := "SLL_0x" + HexWord(protocol));
    }
    if remaining < 14 {
      return NOTHING.(protocol := "LINK_" + Decimal(dataLink));
    }
    var etherType := ReadArrayBE16(data, cursor + 12);
    cursor, remaining := cursor + 14, remaining - 14;
    if (etherType == 0x8100 || etherType == 0x88A8) && remaining >= 4 {
      etherType := ReadArrayBE16(data, cursor + 2);
      cursor, remaining := cursor + 4, remaining - 4;
    }
    if etherType == 0x0800 {
      out := ParseIPv4Fields(data, cursor, remaining);
      return;
    }
    if etherType == 0x86DD {
      out := ParseIPv6Fields(data, cursor, remaining);
      return;
    }
    out := NOTHING.(protocol := "ETH_0x" + HexWord(etherType));
  }

  // ----- ports and protocol -----

  /** The protocol column says TCP or UDP exactly when ports are present. */
  predicate PortsMatchProtocol(p: ParsedL4) {
    && (p.hasPorts <==> p.protocol == "TCP" || p.protocol == "UDP")
    && (p.hasPorts ==> p.srcIp != "" && p.dstIp != "" && 0 <= p.srcPort < POW16 && 0 <= p.dstPort < POW16)
    && (!p.hasPorts ==> p.srcPort == p.dstPort == 0)
  }

  lemma TransportPorts(t: bytes, protocol: byte, other: string, src: string, dst: string)
    requires other == "IP_" || other == "IP6_"
    requires src != "" && dst != ""
    ensures PortsMatchProtocol(ParseTransport(t, protocol, other, src, dst))
  {
    hide Numeral;
    assert (other + Decimal(protocol))[0] == 'I';
  }

  lemma IPPorts(s: bytes)
    ensures PortsMatchProtocol(ParseIPv4(s)) && PortsMatchProtocol(ParseIPv6(s))
  {
    hide ParseTransport, PortsMatchProtocol;
    NothingPorts();
    if |s| >= 20 {
      var ihl := s[0] % 16 * 4;
      if 20 <= ihl <= |s| {
        TransportPorts(s[ihl..], s[9], "IP_", FormatIPv4(s[12..16]), FormatIPv4(s[16..20]));
      }
    }
    if |s| >= 40 {
      TransportPorts(s[40..], s[6], "IP6_", FormatIPv6(s[8..24]), FormatIPv6(s[24..40]));
    }
  }

  lemma NothingPorts()
    ensures PortsMatchProtocol(NOTHING)
  {
  }

  lemma OtherPorts(name: string, rest: string)
    requires name in ["RAW", "SLL", "SLL_0x", "ETH_0x", "LINK_"]
    ensures PortsMatchProtocol(NOTHING.(protocol := name + rest)) && PortsMatchProtocol(NOTHING.(protocol := name))
  {
    assert (name + rest)[0] == name[0];
  }

  /** For every byte string and link type, ports are present exactly when the protocol is TCP or UDP. */
  lemma PortsExactlyForTcpAndUdp(dataLink: u16, s: bytes)
    ensures PortsMatchProtocol(ParseL4(dataLink, s))
  {
    hide PortsMatchProtocol, ParseIPv4, ParseIPv6, HexWord, Decimal;
    NothingPorts();
    IPPorts(s);
    OtherPorts("RAW", "");
    OtherPorts("SLL", "");
    OtherPorts("LINK_", Decimal(dataLink));
    if |s| >= 16 {
      IPPorts(s[16..]);
      OtherPorts("SLL_0x", HexWord(ReadBE16(s, 14)));
    }
    if |s| >= 18 {
      IPPorts(s[18..]);
      OtherPorts("ETH_0x", HexWord(ReadBE16(s, 16)));
    }
    if |s| >= 14 {
      IPPorts(s[14..]);
      OtherPorts("ETH_0x", HexWord(ReadBE16(s, 12)));
    }
  }

  // ----- how far the decoder looks -----

  const LOOK_AHEAD: nat := 138

  lemma BE16InPrefix(s: bytes, m: nat, pos: nat)
    requires pos + 2 <= m <= |s|
    ensures ReadBE16(s[..m], pos) == ReadBE16(s, pos)
  {
  }

  /** 60 bytes decide the transport part; and ports found in a prefix are final. */
  lemma TransportInPrefix(t: bytes, m: nat, protocol: byte, other: string, src: string, dst: string)
    requires m <= |t|
    requires m >= 60 || ParseTransport(t[..m], protocol, other, src, dst).hasPorts
    ensures ParseTransport(t[..m], protocol, other, src, dst) == ParseTransport(t, protocol, other, src, dst)
  {
    hide Decimal;
    if m >= 8 {
      BE16InPrefix(t, m, 0);
      BE16InPrefix(t, m, 2);
    }
  }

  lemma IPv4InPrefix(s: bytes, m: nat)
    requires m <= |s| && (m >= 120 || ParseIPv4(s[..m]).hasPorts)
    ensures ParseIPv4(s[..m]) == ParseIPv4(s)
  {
    hide ParseTransport, FormatIPv4;
    if m >= 20 {
      var ihl := s[0] % 16 * 4;
      assert s[..m][12..16] == s[12..16] && s[..m][16..20] == s[16..20];
      if 20 <= ihl <= m {
        assert s[..m][ihl..] == s[ihl..][..m - ihl];
        TransportInPrefix(s[ihl..], m - ihl, s[9], "IP_", FormatIPv4(s[12..16]), FormatIPv4(s[16..20]));
      }
    }
  }

  lemma IPv6InPrefix(s: bytes, m: nat)
    requires m <= |s| && (m >= 100 || ParseIPv6(s[..m]).hasPorts)
    ensures ParseIPv6(s[..m]) == ParseIPv6(s)
  {
    hide ParseTransport, FormatIPv6;
    if m >= 40 {
      assert s[..m][8..24] == s[8..24] && s[..m][24..40] == s[24..40];
      assert s[..m][40..] == s[40..][..m - 40];
      TransportInPrefix(s[40..], m - 40, s[6], "IP6_", FormatIPv6(s[8..24]), FormatIPv6(s[24..40]));
    }
  }

  lemma EtherTypeInPrefix(etherType: u16, s: bytes, m: nat)
    requires m <= |s| && (m >= 120 || ParseEtherType(etherType, s[..m]).hasPorts)
    ensures ParseEtherType(etherType, s[..m]) == ParseEtherType(etherType, s)
  {
    hide ParseIPv4, ParseIPv6, HexWord;
    if etherType == 0x0800 {
      IPv4InPrefix(s, m);
    } else if etherType == 0x86DD {
      IPv6InPrefix(s, m);
    }
  }

  predicate IsTag(etherType: u16) {
    etherType == 0x8100 || etherType == 0x88A8
  }

  lemma TaggedParse(dataLink: u16, s: bytes)
    requires |s| >= 14 && IsTag(ReadBE16(s, 12))
    ensures |s| >= 18 ==> ParseEthernet(dataLink, s) == ParseEtherType(ReadBE16(s, 16), s[18..])
    ensures |s| < 18 ==> !ParseEthernet(dataLink, s).hasPorts
  {
    hide ParseIPv4, ParseIPv6, HexWord, ReadBE16, Decimal;
  }

  lemma TaggedInPrefix(dataLink: u16, s: bytes, m: nat)
    requires 14 <= m <= |s| && IsTag(ReadBE16(s, 12))
    requires m >= LOOK_AHEAD || ParseEthernet(dataLink, s[..m]).hasPorts
    ensures ParseEthernet(dataLink, s[..m]) == ParseEthernet(dataLink, s)
  {
    hide ParseEthernet, ParseEtherType, ReadBE16;
    BE16InPrefix(s, m, 12);
    TaggedParse(dataLink, s);
    TaggedParse(dataLink, s[..m]);
    BE16InPrefix(s, m, 16);
    assert s[..m][18..] == s[18..][..m - 18];
    EtherTypeInPrefix(ReadBE16(s, 16), s[18..], m - 18);
  }

  lemma UntaggedInPrefix(dataLink: u16, s: bytes, m: nat)
    requires 14 <= m <= |s| && !IsTag(ReadBE16(s, 12))
    requires m >= LOOK_AHEAD || ParseEthernet(dataLink, s[..m]).hasPorts
    ensures ParseEthernet(dataLink, s[..m]) == ParseEthernet(dataLink, s)
  {
    hide ParseEtherType, ReadBE16, Decimal;
    BE16InPrefix(s, m, 12);
    assert s[..m][14..] == s[14..][..m - 14];
    EtherTypeInPrefix(ReadBE16(s, 12), s[14..], m - 14);
  }

  lemma EthernetInPrefix(dataLink: u16, s: bytes, m: nat)
    requires m <= |s| && (m >= LOOK_AHEAD || ParseEthernet(dataLink, s[..m]).hasPorts)
    ensures ParseEthernet(dataLink, s[..m]) == ParseEthernet(dataLink, s)
  {
    assert m >= 14;
    hide ParseEthernet, ReadBE16;
    if IsTag(ReadBE16(s, 12)) {
      TaggedInPrefix(dataLink, s, m);
    } else {
      UntaggedInPrefix(dataLink, s, m);
    }
  }

  lemma SllInPrefix(s: bytes, m: nat)
    requires m <= |s| && (m >= LOOK_AHEAD || ParseSll(s[..m]).hasPorts)
    ensures ParseSll(s[..m]) == ParseSll(s)
  {
    hide ParseIPv4, ParseIPv6, HexWord;
    if m >= 16 {
      BE16InPrefix(s, m, 14);
      assert s[..m][16..] == s[16..][..m - 16];
      var protocol := ReadBE16(s, 14);
      if protocol == 0x0800 {
        IPv4InPrefix(s[16..], m - 16);
      } else if protocol == 0x86DD {
        IPv6InPrefix(s[16..], m - 16);
      }
    }
  }

  /** A prefix decides the answer when it has 138 bytes, and also as soon as it shows ports. */
  lemma PrefixDecides(dataLink: u16, s: bytes, m: nat)
    requires m <= |s| && (m >= LOOK_AHEAD || ParseL4(dataLink, s[..m]).hasPorts)
    ensures ParseL4(dataLink, s[..m]) == ParseL4(dataLink, s)
  {
    hide ParseIPv4, ParseIPv6, ParseSll, ParseEthernet;
    if m > 0 {
      if dataLink == DLT_RAW {
        if s[0] / 16 == 4 {
          IPv4InPrefix(s, m);
        } else if s[0] / 16 == 6 {
          IPv6InPrefix(s, m);
        }
      } else if dataLink == DLT_LINUX_SLL {
        SllInPrefix(s, m);
      } else {
        EthernetInPrefix(dataLink, s, m);
      }
    }
  }

  /** The decoder looks at no more than the first 138 bytes of a frame. */
  lemma LooksAtFirst138(dataLink: u16, s: bytes)
    ensures ParseL4(dataLink, s) == ParseL4(dataLink, s[..if |s| < LOOK_AHEAD then |s| else LOOK_AHEAD])
  {
    hide ParseL4;
    if |s| < LOOK_AHEAD {
      assert s[..|s|] == s;
    } else {
      PrefixDecides(dataLink, s, LOOK_AHEAD);
    }
  }

  /** Once a prefix of a frame yields ports, every extension yields the identical answer. */
  lemma PortsAreFinal(dataLink: u16, s: bytes, more: bytes)
    requires ParseL4(dataLink, s).hasPorts
    ensures ParseL4(dataLink, s + more) == ParseL4(dataLink, s)
  {
    hide ParseL4;
    assert (s + more)[..|s|] == s;
    PrefixDecides(dataLink, s + more, |s|);
  }
}
