/** What the dissector returns for real frames: Ethernet with no VLAN tag or one (IEEE 802.3, 802.1Q) or raw IP, IPv4
    with any options (section 3.1 of RFC 791) or IPv6 (section 3 of RFC 8200), TCP (section 3.1 of RFC 9293), UDP
    (RFC 768) or anything else. The frames are written here from their fields, header by header. */
module DissectFrames {
  import opened Wrappers
  import opened Bytes
  import opened Text
  import opened Packets
  import opened TcpFlags
  import opened Dissect
  import Checksum
  import Synth

  type Sixteen = q: bytes | |q| == 16 witness [0, 0, 0, 0, 0, 0, 0, 0, 0, 0, 0, 0, 0, 0, 0, 0]

  /** The fields the dissector does not look at are kept as they are. */
  datatype Segment =
    | Tcp(srcPort: nat, dstPort: nat, numbers: bytes, offset: byte, flagBits: byte, rest: bytes)
    | Udp(srcPort: nat, dstPort: nat, rest: bytes)
    | Other(proto: byte, payload: bytes)

  /** `service`: from the type of service to the time to live; `first` and `flow`: from the version to the payload
      length. The version is what the frame says; behind an Ethernet header it is not looked at. */
  datatype Ip =
    | V4(version: byte, service: bytes, checksum: bytes, src: Quad, dst: Quad, options: bytes)
    | V6(first: byte, flow: bytes, hops: byte, src6: Sixteen, dst6: Sixteen)

  datatype Link =
    | Untagged(macs: bytes)
    | Tagged(macs: bytes, tag: bytes)
    | RawIp

  /** A complete TCP or UDP header; protocol numbers 6 and 17 with less than one count as other. */
  predicate ValidSegment(s: Segment)
  {
    match s
    case Tcp(sp, dp, numbers, _, _, rest) => sp < TWO16 && dp < TWO16 && |numbers| == 8 && |rest| >= 6
    case Udp(sp, dp, rest) => sp < TWO16 && dp < TWO16 && |rest| >= 4
    case Other(proto, payload) => (proto == 6 ==> |payload| < 20) && (proto == 17 ==> |payload| < 8)
  }

  predicate ValidIp(ip: Ip)
  {
    match ip
    case V4(version, service, checksum, _, _, options) =>
      version < 16 && |service| == 8 && |checksum| == 2 && |options| <= 40 && |options| % 4 == 0
    case V6(_, flow, _, _, _) => |flow| == 5
  }

  predicate ValidLink(link: Link)
  {
    match link
    case Untagged(macs) => |macs| == 12
    case Tagged(macs, tag) => |macs| == 12 && |tag| == 2
    case RawIp => true
  }

  /** Without a link header the version has to be the right one. */
  predicate ValidFrame(link: Link, ip: Ip, s: Segment)
  {
    && ValidLink(link) && ValidIp(ip) && ValidSegment(s)
    && (link.RawIp? ==> if ip.V4? then ip.version == 4 else ip.first / 16 == 6)
  }

  function Protocol(s: Segment): byte
  {
    match s
    case Tcp(_, _, _, _, _, _) => 6
    case Udp(_, _, _) => 17
    case Other(proto, _) => proto
  }

  function SegmentBytes(s: Segment): bytes
    requires ValidSegment(s)
  {
    match s
    case Tcp(sp, dp, numbers, offset, flagBits, rest) =>
      Put16(Big, sp) + Put16(Big, dp) + numbers + [offset, flagBits] + rest
    case Udp(sp, dp, rest) => Put16(Big, sp) + Put16(Big, dp) + rest
    case Other(_, payload) => payload
  }

  function IpBytes(ip: Ip, proto: byte, segment: bytes): bytes
    requires ValidIp(ip)
  {
    match ip
    case V4(version, service, checksum, src, dst, options) =>
      [version * 16 + (20 + |options|) / 4] + service + [proto] + checksum + src + dst + options + segment
    case V6(first, flow, hops, src, dst) => [first] + flow + [proto, hops] + src + dst + segment
  }

  function FrameBytes(link: Link, ip: Ip, s: Segment): bytes
    requires ValidFrame(link, ip, s)
  {
    var ethertype := Put16(Big, if ip.V4? then 0x0800 else 0x86DD);
    var packet := IpBytes(ip, Protocol(s), SegmentBytes(s));
    match link
    case Untagged(macs) => macs + ethertype + packet
    case Tagged(macs, tag) => macs + [0x81, 0x00] + tag + ethertype + packet
    case RawIp => packet
  }

  function LinkType(link: Link): int { if link.RawIp? then 101 else 1 }

  function SourceOf(ip: Ip): string { if ip.V4? then Dotted(ip.src) else FormatIpv6(ip.src6) }

  function DestinationOf(ip: Ip): string { if ip.V4? then Dotted(ip.dst) else FormatIpv6(ip.dst6) }

  /** What a frame says. */
  function Told(ip: Ip, s: Segment): Fields
  {
    var src, dst := Some(SourceOf(ip)), Some(DestinationOf(ip));
    match s
    case Tcp(sp, dp, _, _, flagBits, _) => Fields("tcp", src, Some(sp), dst, Some(dp), Some(FlagText(flagBits)))
    case Udp(sp, dp, _) => Fields("udp", src, Some(sp), dst, Some(dp), None)
    case Other(proto, _) => Fields(if proto == 1 || proto == 58 then "icmp" else "other", src, None, dst, None, None)
  }

  lemma SegmentReads(s: Segment, r: Fields)
    requires ValidSegment(s) && r.protocol == "other" && r.srcPort == r.dstPort == None && r.flags == None
    ensures L4Fields(Protocol(s), SegmentBytes(s), r) ==
            Told(V4(4, Zeros(8), Zeros(2), Zeros(4), Zeros(4), []), s).(srcAddr := r.srcAddr, dstAddr := r.dstAddr)
  {
    hide FlagText, Dotted, FormatIpv6;
    if !s.Other? {
      var b := SegmentBytes(s);
      assert b[0..2] == Put16(Big, s.srcPort) && b[2..4] == Put16(Big, s.dstPort);
      GetPut16(Big, s.srcPort, b, 0);
      GetPut16(Big, s.dstPort, b, 2);
    }
  }

  lemma Ipv4Reads(ip: Ip, proto: byte, segment: bytes)
    requires ValidIp(ip) && ip.V4?
    ensures var b := IpBytes(ip, proto, segment);
            && b != [] && b[0] / 16 == ip.version
            && Ipv4Fields(b, BLANK) ==
               L4Fields(proto, segment, BLANK.(srcAddr := Some(Dotted(ip.src)), dstAddr := Some(Dotted(ip.dst))))
  {
    hide L4Fields, Dotted;
    var b := IpBytes(ip, proto, segment);
    var n := 20 + |ip.options|;
    assert b[0] == ip.version * 16 + n / 4 && n / 4 * 4 == n;
    assert b[9] == proto;
    assert b[12..16] == ip.src && b[16..20] == ip.dst && b[n..] == segment;
  }

  lemma Ipv6Reads(ip: Ip, proto: byte, segment: bytes)
    requires ValidIp(ip) && ip.V6?
    ensures var b := IpBytes(ip, proto, segment);
            && b != [] && b[0] == ip.first
            && Ipv6Fields(b, BLANK) ==
               L4Fields(proto, segment,
                        BLANK.(srcAddr := Some(FormatIpv6(ip.src6)), dstAddr := Some(FormatIpv6(ip.dst6))))
  {
    hide L4Fields, FormatIpv6;
    var b := IpBytes(ip, proto, segment);
    assert b[6] == proto;
    assert b[8..24] == ip.src6 && b[24..40] == ip.dst6 && b[40..] == segment;
  }

  /** Every frame, with any addresses, options, ports, flags and payload, dissects into what it says. */
  lemma FrameReadsBack(link: Link, ip: Ip, s: Segment)
    requires ValidFrame(link, ip, s)
    ensures FrameFields(LinkType(link), FrameBytes(link, ip, s)) == Told(ip, s)
  {
    hide IpBytes, Ipv4Fields, Ipv6Fields, L4Fields, FlagText, Dotted, FormatIpv6, SegmentBytes;
    var b := SegmentBytes(s);
    var packet := IpBytes(ip, Protocol(s), b);
    var ethertype := if ip.V4? then 0x0800 else 0x86DD;
    SegmentReads(s, BLANK.(srcAddr := Some(SourceOf(ip)), dstAddr := Some(DestinationOf(ip))));
    if ip.V4? { Ipv4Reads(ip, Protocol(s), b); } else { Ipv6Reads(ip, Protocol(s), b); }
    LinkReads(link, ethertype, packet);
  }

  /** The bytes behind the link header, found by the type the header gives. */
  lemma LinkReads(link: Link, ethertype: nat, packet: bytes)
    requires ValidLink(link) && ethertype in {0x0800, 0x86DD}
    ensures link.Untagged? ==>
              EthernetFields(link.macs + Put16(Big, ethertype) + packet) ==
              if ethertype == 0x0800 then Ipv4Fields(packet, BLANK) else Ipv6Fields(packet, BLANK)
    ensures link.Tagged? ==>
              EthernetFields(link.macs + [0x81, 0x00] + link.tag + Put16(Big, ethertype) + packet) ==
              if ethertype == 0x0800 then Ipv4Fields(packet, BLANK) else Ipv6Fields(packet, BLANK)
  {
    hide Ipv4Fields, Ipv6Fields, Put16;
    if link.Untagged? {
      var f := link.macs + Put16(Big, ethertype) + packet;
      assert f[12..14] == Put16(Big, ethertype) && f[14..] == packet;
      GetPut16(Big, ethertype, f, 12);
    } else if link.Tagged? {
      var f := link.macs + [0x81, 0x00] + link.tag + Put16(Big, ethertype) + packet;
      assert f[12] == 0x81 && f[13] == 0x00;
      assert f[16..18] == Put16(Big, ethertype) && f[18..] == packet;
      GetPut16(Big, ethertype, f, 16);
    }
  }

  // ------------------------------------------------------------------ nothing else is read

  /** The segment that stands in some bytes. */
  function SegmentIn(proto: byte, b: bytes): (s: Segment)
    ensures ValidSegment(s) && Protocol(s) == proto
  {
    if proto == 6 && |b| >= 20 then Tcp(Get16(Big, b, 0), Get16(Big, b, 2), b[4..12], b[12], b[13], b[14..])
    else if proto == 17 && |b| >= 8 then Udp(Get16(Big, b, 0), Get16(Big, b, 2), b[4..])
    else Other(proto, b)
  }

  lemma SegmentInBytes(proto: byte, b: bytes)
    ensures SegmentBytes(SegmentIn(proto, b)) == b
  {
    hide Put16, Get16;
    if |b| >= 4 {
      Put16Get16(Big, b, 0);
      Put16Get16(Big, b, 2);
    }
  }

  /** Whether some bytes hold an IPv4 header with its options, or an IPv6 header. */
  predicate HoldsIpv4(b: bytes) { |b| >= 20 && 20 <= b[0] % 16 * 4 <= |b| }

  predicate HoldsIpv6(b: bytes) { |b| >= 40 }

  function Ipv4In(b: bytes): (ip: Ip)
    requires HoldsIpv4(b)
    ensures ip.V4? && ValidIp(ip)
  {
    V4(b[0] / 16, b[1..9], b[10..12], b[12..16], b[16..20], b[20..b[0] % 16 * 4])
  }

  function Ipv6In(b: bytes): (ip: Ip)
    requires HoldsIpv6(b)
    ensures ip.V6? && ValidIp(ip)
  {
    V6(b[0], b[1..6], b[7], b[8..24], b[24..40])
  }

  lemma Ipv4InBytes(b: bytes)
    requires HoldsIpv4(b)
    ensures var s := SegmentIn(b[9], b[b[0] % 16 * 4..]);
            IpBytes(Ipv4In(b), Protocol(s), SegmentBytes(s)) == b
  {
    hide SegmentIn, SegmentBytes;
    SegmentInBytes(b[9], b[b[0] % 16 * 4..]);
  }

  lemma Ipv6InBytes(b: bytes)
    requires HoldsIpv6(b)
    ensures var s := SegmentIn(b[6], b[40..]); IpBytes(Ipv6In(b), Protocol(s), SegmentBytes(s)) == b
  {
    hide SegmentIn, SegmentBytes;
    SegmentInBytes(b[6], b[40..]);
  }

  /** Some frame of this link type consists of these bytes. */
  ghost predicate IsFrame(linktype: int, data: bytes)
  {
    exists link, ip, s :: ValidFrame(link, ip, s) && LinkType(link) == linktype && FrameBytes(link, ip, s) == data
  }

  /** Fields are read from the bytes of a frame, and from nothing else: whatever is cut, malformed, of another link
      type or of another EtherType stays blank. */
  lemma OnlyFramesAreRead(linktype: int, data: bytes)
    ensures FrameFields(linktype, data) != BLANK <==> IsFrame(linktype, data)
  {
    hide FrameFields, FrameBytes;
    if IsFrame(linktype, data) {
      var link, ip, s :| ValidFrame(link, ip, s) && LinkType(link) == linktype && FrameBytes(link, ip, s) == data;
      FrameReadsBack(link, ip, s);
    }
    if FrameFields(linktype, data) != BLANK {
      if linktype == 1 { EthernetIsFrame(data); } else { RawIsFrame(linktype, data); }
    }
  }

  lemma RawIsFrame(linktype: int, data: bytes)
    requires FrameFields(linktype, data) != BLANK && linktype != 1
    ensures IsFrame(linktype, data)
  {
    hide IpBytes, SegmentBytes, L4Fields, SegmentIn;
    if data[0] / 16 == 4 {
      Ipv4InBytes(data);
      assert FrameBytes(RawIp, Ipv4In(data), SegmentIn(data[9], data[data[0] % 16 * 4..])) == data;
    } else {
      Ipv6InBytes(data);
      assert FrameBytes(RawIp, Ipv6In(data), SegmentIn(data[6], data[40..])) == data;
    }
  }

  lemma EthernetIsFrame(data: bytes)
    requires FrameFields(1, data) != BLANK
    ensures IsFrame(1, data)
  {
    hide IpBytes, SegmentBytes, L4Fields, SegmentIn, FrameBytes, Get16;
    var tagged := Get16(Big, data, 12) == 0x8100 && |data| >= 18;
    var b := data[if tagged then 18 else 14..];
    var link := if tagged then Tagged(data[..12], data[14..16]) else Untagged(data[..12]);
    var four := Get16(Big, data, if tagged then 16 else 12) == 0x0800;
    var ip := if four then Ipv4In(b) else Ipv6In(b);
    var s := if four then SegmentIn(b[9], b[b[0] % 16 * 4..]) else SegmentIn(b[6], b[40..]);
    if four { Ipv4InBytes(b); } else { Ipv6InBytes(b); }
    LinkBytes(data, link, ip, s);
    assert FrameBytes(link, ip, s) == data;
  }

  /** An Ethernet header is written back from its parts. */
  lemma LinkBytes(data: bytes, link: Link, ip: Ip, s: Segment)
    requires |data| >= 14 && ValidFrame(link, ip, s) && !link.RawIp?
    requires link.Tagged? ==> |data| >= 18 && Get16(Big, data, 12) == 0x8100 && link.tag == data[14..16]
    requires link.macs == data[..12]
    requires Get16(Big, data, if link.Tagged? then 16 else 12) == if ip.V4? then 0x0800 else 0x86DD
    requires IpBytes(ip, Protocol(s), SegmentBytes(s)) == data[if link.Tagged? then 18 else 14..]
    ensures FrameBytes(link, ip, s) == data
  {
    hide IpBytes, SegmentBytes, Put16, Get16;
    if link.Tagged? {
      Put16Get16(Big, data, 12);
      Put16Get16(Big, data, 16);
      TagType();
      assert data == data[..12] + data[12..14] + data[14..16] + data[16..18] + data[18..];
    } else {
      Put16Get16(Big, data, 12);
      assert data == data[..12] + data[12..14] + data[14..];
    }
  }

  lemma TagType()
    ensures Put16(Big, 0x8100) == [0x81, 0x00]
  {
  }

  // ------------------------------------------------------------------ synthesised frames

  /** What the export writes for a row: placeholders for all that is not observed. */
  function RowSegment(p: Packet, checksum: bytes): Segment
  {
    var n := PayloadOf(p);
    var sp := if p.srcPort.None? then 0 else p.srcPort.value % 65536;
    var dp := if p.dstPort.None? then 0 else p.dstPort.value % 65536;
    if Lower(p.protocol) == "tcp" then
      Tcp(sp, dp, Zeros(8), 0x50, ParseFlags(p.flags), [0, 0] + checksum + [0, 0] + Zeros(n))
    else if Lower(p.protocol) == "udp" then Udp(sp, dp, Put16(Big, 8 + n) + checksum + Zeros(n))
    else if Lower(p.protocol) == "icmp" then Other(1, [8, 0] + checksum + Zeros(4 + n))
    else Other(253, Zeros(n))
  }

  /** A row's frame, field by field: an untagged IPv4 frame without options, not to be fragmented, with a time to live
      of 64 and locally administered addresses; only the two checksums are left to say. */
  lemma SynthesizedIsFrame(aton: Aton, p: Packet) returns (header: bytes, segment: bytes)
    requires BothIpv4(aton, p) && p.length >= Synth.RowStackLen(p)
    ensures |header| == |segment| == 2
    ensures var total := if Synth.Transport(p).None? then 20 else Min(p.length, 65549) - 14;
            var ip := V4(4, [0] + Put16(Big, total) + [0, 0, 0x40, 0, 64], header,
                         SourceQuad(aton, p), DestQuad(aton, p), []);
            var link := Untagged([2, 0, 0, 0, 0, 2, 2, 0, 0, 0, 0, 1]);
            && ValidFrame(link, ip, RowSegment(p, segment))
            && Synth.Synthesize(aton, p) == FrameBytes(link, ip, RowSegment(p, segment))
  {
    hide Put16, ParseFlags, Synth.Ipv4Header, Synth.L4Header, SegmentBytes, RowSegment, Synth.EthernetHeader;
    var src, dst := SourceQuad(aton, p), DestQuad(aton, p);
    var link := Untagged([2, 0, 0, 0, 0, 2, 2, 0, 0, 0, 0, 1]);
    var total := if Synth.Transport(p).None? then 20 else Min(p.length, 65549) - 14;
    var n := PayloadOf(p);
    var proto := if Synth.Transport(p).None? then Synth.EXPERIMENTAL else Synth.Transport(p).value;
    header := HeaderParts(src, dst, proto, total - 20);
    segment := SegmentParts(aton, p);
    var ip := V4(4, [0] + Put16(Big, total) + [0, 0, 0x40, 0, 64], header, src, dst, []);
    LinkParts(Synth.Ipv4Header(src, dst, proto, total - 20), SegmentBytes(RowSegment(p, segment)));
    if Synth.Transport(p).None? {
      assert Synth.Synthesize(aton, p) == Synth.Stack(aton, p) + Zeros(n);
    } else {
      Synth.FrameIsStack(aton, p);
    }
  }

  lemma LinkParts(header: bytes, rest: bytes)
    ensures Synth.EthernetHeader(ETHERTYPE_IPV4) + header + rest ==
            [2, 0, 0, 0, 0, 2, 2, 0, 0, 0, 0, 1] + Put16(Big, 0x0800) + (header + rest)
  {
    assert Synth.EthernetHeader(ETHERTYPE_IPV4) == [2, 0, 0, 0, 0, 2, 2, 0, 0, 0, 0, 1] + Put16(Big, 0x0800);
  }

  lemma HeaderParts(src: Quad, dst: Quad, proto: byte, n: nat) returns (checksum: bytes)
    requires 20 + n < TWO16
    ensures |checksum| == 2
    ensures forall segment: bytes ::
              IpBytes(V4(4, [0] + Put16(Big, 20 + n) + [0, 0, 0x40, 0, 64], checksum, src, dst, []), proto, segment)
              == Synth.Ipv4Header(src, dst, proto, n) + segment
  {
    hide Put16;
    var front := Synth.Ipv4Front(proto, n);
    checksum := Put16(Big, Checksum.Internet(front + [0, 0] + (src + dst)));
    assert front == [0x45] + ([0] + Put16(Big, 20 + n) + [0, 0, 0x40, 0, 64]) + [proto];
  }

  lemma SegmentParts(aton: Aton, p: Packet) returns (checksum: bytes)
    requires BothIpv4(aton, p) && p.length >= Synth.RowStackLen(p)
    ensures |checksum| == 2 && ValidSegment(RowSegment(p, checksum))
    ensures var src, dst := SourceQuad(aton, p), DestQuad(aton, p);
            var n := PayloadOf(p);
            match Synth.Transport(p)
            case None => Protocol(RowSegment(p, checksum)) == 253 && SegmentBytes(RowSegment(p, checksum)) == Zeros(n)
            case Some(proto) =>
              && proto in {Synth.TCP, Synth.UDP, Synth.ICMP} && n == Synth.PayloadLen(p, proto)
              && Protocol(RowSegment(p, checksum)) == proto
              && SegmentBytes(RowSegment(p, checksum)) == Synth.L4Header(p, proto, src, dst, Zeros(n)) + Zeros(n)
  {
    hide Put16, ParseFlags, PortField, RowSegment, SegmentBytes, Synth.L4Header;
    if Lower(p.protocol) == "tcp" {
      checksum := TcpParts(aton, p);
    } else if Lower(p.protocol) == "udp" {
      checksum := UdpParts(aton, p);
    } else if Lower(p.protocol) == "icmp" {
      checksum := IcmpParts(aton, p);
    } else {
      checksum := [0, 0];
      OtherParts(p, checksum);
    }
  }

  /** The payload of a frame that has room for its stack. */
  function PayloadOf(p: Packet): nat { Max(0, Min(p.length, 65549) - Synth.RowStackLen(p)) }

  lemma TcpParts(aton: Aton, p: Packet) returns (checksum: bytes)
    requires BothIpv4(aton, p) && p.length >= Synth.RowStackLen(p) && Lower(p.protocol) == "tcp"
    ensures var n, s := PayloadOf(p), RowSegment(p, checksum);
            && |checksum| == 2 && ValidSegment(s) && Protocol(s) == 6 && n == Synth.PayloadLen(p, 6)
            && SegmentBytes(s) == Synth.L4Header(p, 6, SourceQuad(aton, p), DestQuad(aton, p), Zeros(n)) + Zeros(n)
  {
    hide Put16, ParseFlags;
    var n := PayloadOf(p);
    var pseudo := Synth.PseudoHeader(SourceQuad(aton, p), DestQuad(aton, p), Synth.TCP, 20 + n);
    checksum := Put16(Big, Checksum.Internet(pseudo + Synth.TcpFront(p) + [0, 0] + ([0, 0] + Zeros(n))));
  }

  lemma UdpParts(aton: Aton, p: Packet) returns (checksum: bytes)
    requires BothIpv4(aton, p) && p.length >= Synth.RowStackLen(p) && Lower(p.protocol) == "udp"
    ensures var n, s := PayloadOf(p), RowSegment(p, checksum);
            && |checksum| == 2 && ValidSegment(s) && Protocol(s) == 17 && n == Synth.PayloadLen(p, 17)
            && SegmentBytes(s) == Synth.L4Header(p, 17, SourceQuad(aton, p), DestQuad(aton, p), Zeros(n)) + Zeros(n)
  {
    hide Put16, ParseFlags;
    var n := PayloadOf(p);
    var pseudo := Synth.PseudoHeader(SourceQuad(aton, p), DestQuad(aton, p), Synth.UDP, 8 + n);
    var csum := Checksum.Internet(pseudo + Synth.UdpFront(p, 8 + n) + [0, 0] + Zeros(n));
    checksum := Put16(Big, if csum == 0 then 0xFFFF else csum);
  }

  lemma IcmpParts(aton: Aton, p: Packet) returns (checksum: bytes)
    requires BothIpv4(aton, p) && p.length >= Synth.RowStackLen(p) && Lower(p.protocol) == "icmp"
    ensures var n, s := PayloadOf(p), RowSegment(p, checksum);
            && |checksum| == 2 && ValidSegment(s) && Protocol(s) == 1 && n == Synth.PayloadLen(p, 1)
            && SegmentBytes(s) == Synth.L4Header(p, 1, SourceQuad(aton, p), DestQuad(aton, p), Zeros(n)) + Zeros(n)
  {
    hide Put16, ParseFlags;
    var n := PayloadOf(p);
    checksum := Put16(Big, Checksum.Internet([8, 0] + [0, 0] + (Zeros(4) + Zeros(n))));
    assert Zeros(4) + Zeros(n) == Zeros(4 + n);
  }

  lemma OtherParts(p: Packet, checksum: bytes)
    requires Lower(p.protocol) !in {"tcp", "udp", "icmp"}
    ensures var s := RowSegment(p, checksum);
            ValidSegment(s) && Protocol(s) == 253 && SegmentBytes(s) == Zeros(PayloadOf(p))
  {
  }

  // ------------------------------------------------------------------ address text

  function HexDigitValue(c: char): nat
  {
    if '0' <= c <= '9' then c as int - '0' as int else if 'a' <= c <= 'f' then c as int - 'a' as int + 10 else 0
  }

  function HexValue(s: string): nat
  {
    if s == "" then 0 else 16 * HexValue(s[..|s| - 1]) + HexDigitValue(s[|s| - 1])
  }

  lemma {:induction false} HexReads(n: nat)
    ensures HexValue(Hex(n)) == n && ':' !in Hex(n)
    ensures Hex(n) != "" && (Hex(n)[0] == '0' ==> n == 0)
  {
    hide HexDigit, HexDigitValue;
    var high := if n < 16 then "" else Hex(n / 16);
    DigitReads(n % 16);
    HexSnoc(high, HexDigit(n % 16));
    if n >= 16 { HexReads(n / 16); }
  }

  lemma DigitReads(d: nat)
    requires d < 16
    ensures HexDigitValue(HexDigit(d)) == d && HexDigit(d) != ':' && (HexDigit(d) == '0' ==> d == 0)
  {
  }

  lemma HexSnoc(high: string, d: char)
    ensures HexValue(high + [d]) == 16 * HexValue(high) + HexDigitValue(d) && HexValue("") == 0
  {
    assert (high + [d])[..|high|] == high;
  }

  lemma HexOfZero()
    ensures Hex(0) == "0"
  {
  }

  /** The text of an IPv6 address is its eight groups in order, in hexadecimal without leading zeros. */
  lemma Ipv6TextReads(raw: Sixteen)
    ensures var groups := Split(FormatIpv6(raw), ':');
            && |groups| == 8
            && forall i :: 0 <= i < 8 ==>
                 && HexValue(groups[i]) == (raw[2 * i] as int) * 0x100 + raw[2 * i + 1]
                 && groups[i] != "" && (groups[i][0] == '0' ==> groups[i] == "0")
  {
    hide Hex, HexValue;
    var groups := seq(8, i requires 0 <= i < 8 => Hex(Get16(Big, raw, 2 * i)));
    forall i | 0 <= i < 8
      ensures HexValue(groups[i]) == (raw[2 * i] as int) * 0x100 + raw[2 * i + 1] && ':' !in groups[i]
      ensures groups[i] != "" && (groups[i][0] == '0' ==> groups[i] == "0")
    {
      HexOfZero();
      HexReads(Get16(Big, raw, 2 * i));
    }
    SplitJoin(groups, ':');
  }

  /** So it determines the address. */
  lemma Ipv6TextDetermines(a: Sixteen, b: Sixteen)
    requires FormatIpv6(a) == FormatIpv6(b)
    ensures a == b
  {
    hide FormatIpv6, HexValue, Split;
    Ipv6TextReads(a);
    Ipv6TextReads(b);
    forall k | 0 <= k < 16
      ensures a[k] == b[k]
    {
      var i := k / 2;
      assert (a[2 * i] as int) * 0x100 + a[2 * i + 1] == (b[2 * i] as int) * 0x100 + b[2 * i + 1];
    }
  }

  /** The text of an IPv4 address is its four bytes in order, in decimal. */
  lemma Ipv4TextReads(q: Quad)
    ensures var parts := Split(Dotted(q), '.');
            |parts| == 4 && forall i :: 0 <= i < 4 ==> IsDigits(parts[i]) && Number(parts[i]) == q[i]
  {
    hide Decimal;
    var parts := [Decimal(q[0]), Decimal(q[1]), Decimal(q[2]), Decimal(q[3])];
    forall i | 0 <= i < 4
      ensures '.' !in parts[i] && IsDigits(parts[i]) && Number(parts[i]) == q[i]
    {
      NumberOfDecimal(q[i]);
    }
    JoinFour(parts, ".");
    SplitJoin(parts, '.');
  }

  lemma JoinFour(parts: seq<string>, sep: string)
    requires |parts| == 4
    ensures Join(parts, sep) == parts[0] + sep + parts[1] + sep + parts[2] + sep + parts[3]
  {
    assert parts[1..] == [parts[1], parts[2], parts[3]];
    assert parts[1..][1..] == [parts[2], parts[3]] && parts[1..][1..][1..] == [parts[3]];
    assert Join(parts[1..][1..], sep) == parts[2] + sep + parts[3];
    assert Join(parts[1..], sep) == parts[1] + sep + (parts[2] + sep + parts[3]);
  }
}
