/** Frame synthesis from a stored row, and what a receiver finds in the frame: lengths that agree and
    checksums that verify (RFC 791 section 3.1, RFC 9293 section 3.1, RFC 768). */
module Synth {
  import opened Wrappers
  import opened Bytes
  import opened Text
  import opened Packets
  import opened Checksum
  import opened TcpFlags

  const ICMP: byte := 1
  const TCP: byte := 6
  const UDP: byte := 17
  const EXPERIMENTAL: byte := 253
  const MAX_FRAME := 14 + 65535

  function EthernetHeader(ethertype: int): (h: bytes)
    requires 0 <= ethertype < TWO16
    ensures |h| == 14
  {
    [2, 0, 0, 0, 0, 2] + [2, 0, 0, 0, 0, 1] + Put16(Big, ethertype)
  }

  /** Everything before the IPv4 header checksum. */
  function Ipv4Front(proto: byte, payloadLen: nat): (h: bytes)
    ensures |h| == 10
  {
    [0x45, 0] + Put16(Big, (20 + payloadLen) % TWO16) + [0, 0, 0x40, 0, 64, proto]
  }

  function Ipv4Header(src: Quad, dst: Quad, proto: byte, payloadLen: nat): (h: bytes)
    ensures |h| == 20
  {
    var front := Ipv4Front(proto, payloadLen);
    front + Put16(Big, Internet(front + [0, 0] + (src + dst))) + (src + dst)
  }

  function PseudoHeader(src: Quad, dst: Quad, proto: byte, length: nat): (h: bytes)
    requires length < TWO16
    ensures |h| == 12
  {
    src + dst + [0, proto] + Put16(Big, length)
  }

  function TcpFront(p: Packet): (h: bytes)
    ensures |h| == 16
  {
    Put16(Big, PortField(p.srcPort)) + Put16(Big, PortField(p.dstPort)) + Zeros(8)
    + [0x50, ParseFlags(p.flags), 0, 0]
  }

  function TcpHeader(p: Packet, src: Quad, dst: Quad, payload: bytes): (h: bytes)
    requires 20 + |payload| < TWO16
    ensures |h| == 20
  {
    var pseudo := PseudoHeader(src, dst, TCP, 20 + |payload|);
    TcpFront(p) + Put16(Big, Internet(pseudo + TcpFront(p) + [0, 0] + ([0, 0] + payload))) + [0, 0]
  }

  function UdpFront(p: Packet, length: nat): (h: bytes)
    requires length < TWO16
    ensures |h| == 6
  {
    Put16(Big, PortField(p.srcPort)) + Put16(Big, PortField(p.dstPort)) + Put16(Big, length)
  }

  function UdpHeader(p: Packet, src: Quad, dst: Quad, payload: bytes): (h: bytes)
    requires 8 + |payload| < TWO16
    ensures |h| == 8
  {
    var length := 8 + |payload|;
    var csum := Internet(PseudoHeader(src, dst, UDP, length) + UdpFront(p, length) + [0, 0] + payload);
    UdpFront(p, length) + Put16(Big, if csum == 0 then 0xFFFF else csum)
  }

  function IcmpHeader(payload: bytes): (h: bytes)
    ensures |h| == 8
  {
    [8, 0] + Put16(Big, Internet([8, 0] + [0, 0] + (Zeros(4) + payload))) + Zeros(4)
  }

  /** The transport this row's protocol text selects; None is the catch-all branch. */
  function Transport(p: Packet): Option<byte>
  {
    match Lower(p.protocol)
    case "tcp" => Some(TCP)
    case "udp" => Some(UDP)
    case "icmp" => Some(ICMP)
    case _ => None
  }

  function L4HeaderLen(proto: byte): nat { if proto == TCP then 20 else 8 }

  function StackLen(proto: byte): nat { 14 + 20 + L4HeaderLen(proto) }

  function PayloadLen(p: Packet, proto: byte): (n: nat)
    ensures 20 + L4HeaderLen(proto) + n <= 65535
  {
    Min(Max(0, p.length - StackLen(proto)), Max(0, 65535 - 20 - L4HeaderLen(proto)))
  }

  function PadTo(stack: bytes, origLen: int): (frame: bytes)
    ensures |frame| == Max(0, Min(origLen, MAX_FRAME))
  {
    if origLen <= 0 then []
    else
      var target := Min(origLen, MAX_FRAME);
      if |stack| < target then stack + Zeros(target - |stack|) else stack[..target]
  }

  function L4Header(p: Packet, proto: byte, src: Quad, dst: Quad, payload: bytes): (h: bytes)
    requires proto in {TCP, UDP, ICMP} && L4HeaderLen(proto) + |payload| < TWO16
    ensures |h| == L4HeaderLen(proto)
  {
    if proto == TCP then TcpHeader(p, src, dst, payload)
    else if proto == UDP then UdpHeader(p, src, dst, payload)
    else IcmpHeader(payload)
  }

  function Ipv4Stack(p: Packet, proto: byte, src: Quad, dst: Quad): (stack: bytes)
    requires proto in {TCP, UDP, ICMP}
    ensures |stack| == StackLen(proto) + PayloadLen(p, proto)
  {
    var payload := Zeros(PayloadLen(p, proto));
    EthernetHeader(ETHERTYPE_IPV4) + Ipv4Header(src, dst, proto, L4HeaderLen(proto) + |payload|)
    + (L4Header(p, proto, src, dst, payload) + payload)
  }

  function Stack(aton: Aton, p: Packet): bytes
  {
    if !BothIpv4(aton, p) then EthernetHeader(ETHERTYPE_IPV6)
    else
      var src, dst := SourceQuad(aton, p), DestQuad(aton, p);
      match Transport(p)
      case None => EthernetHeader(ETHERTYPE_IPV4) + Ipv4Header(src, dst, EXPERIMENTAL, 0)
      case Some(proto) => Ipv4Stack(p, proto, src, dst)
  }

  /** `synthesize_frame`: the bytes written for a row. */
  function Synthesize(aton: Aton, p: Packet): (frame: bytes)
    ensures |frame| == Max(0, Min(p.length, MAX_FRAME))
  {
    PadTo(Stack(aton, p), p.length)
  }

  // ------------------------------------------------------------------ what a receiver reads

  function TotalLength(frame: bytes): nat
    requires |frame| >= 34
  {
    Get16(Big, frame, 16)
  }

  predicate Ipv4Verifies(frame: bytes)
    requires |frame| >= 34
  {
    Verifies(frame[14..34])
  }

  /** The segment checksum: the segment's words, and what the pseudo-header adds from the frame itself: both
      addresses, the protocol number and the segment's length. */
  predicate SegmentVerifies(frame: bytes)
    requires 34 <= |frame| <= MAX_FRAME
  {
    var segment := frame[34..];
    if frame[23] == ICMP then Verifies(segment)
    else
      var pseudo := WordSum(frame[26..30]) + WordSum(frame[30..34]) + frame[23] + |segment|;
      Fold(pseudo + WordSum(segment)) == 0xFFFF
  }

  lemma PseudoSum(src: Quad, dst: Quad, proto: byte, segment: bytes)
    requires |segment| < TWO16
    ensures WordSum(PseudoHeader(src, dst, proto, |segment|) + segment) ==
            WordSum(src) + WordSum(dst) + proto + |segment| + WordSum(segment)
  {
    hide WordSum, Put16;
    WordSumAppend(PseudoHeader(src, dst, proto, |segment|), segment);
    WordSumAppend(src + dst + [0, proto], Put16(Big, |segment|));
    WordSumAppend(src + dst, [0, proto]);
    WordSumAppend(src, dst);
    OneWord(0, proto);
    FieldSum(|segment|);
  }

  lemma OneWord(a: byte, b: byte)
    ensures WordSum([a, b]) == (a as int) * 0x100 + b
  {
    assert [a, b][2..] == [];
  }

  lemma FieldSum(v: nat)
    requires v < TWO16
    ensures WordSum(Put16(Big, v)) == v
  {
    OneWord(v / 0x100, v % 0x100);
  }

  lemma Ipv4HeaderVerifies(src: Quad, dst: Quad, proto: byte, payloadLen: nat)
    ensures Verifies(Ipv4Header(src, dst, proto, payloadLen))
  {
    StoredChecksumVerifies(Ipv4Front(proto, payloadLen), src + dst);
  }

  lemma TcpSegmentVerifies(p: Packet, src: Quad, dst: Quad, payload: bytes)
    requires 20 + |payload| < TWO16
    ensures Verifies(PseudoHeader(src, dst, TCP, 20 + |payload|) + (TcpHeader(p, src, dst, payload) + payload))
  {
    var pseudo := PseudoHeader(src, dst, TCP, 20 + |payload|);
    var after := [0, 0] + payload;
    var csum := Internet(pseudo + TcpFront(p) + [0, 0] + after);
    StoredChecksumVerifies(pseudo + TcpFront(p), after);
    assert pseudo + (TcpHeader(p, src, dst, payload) + payload) == pseudo + TcpFront(p) + Put16(Big, csum) + after;
  }

  lemma UdpSegmentVerifies(p: Packet, src: Quad, dst: Quad, payload: bytes)
    requires 8 + |payload| < TWO16
    ensures var h := UdpHeader(p, src, dst, payload);
            && Verifies(PseudoHeader(src, dst, UDP, 8 + |payload|) + (h + payload))
            && Get16(Big, h, 6) != 0
  {
    var length := 8 + |payload|;
    var pseudo := PseudoHeader(src, dst, UDP, length);
    var csum := Internet(pseudo + UdpFront(p, length) + [0, 0] + payload);
    var stored := if csum == 0 then 0xFFFF else csum;
    StoredChecksumVerifies(pseudo + UdpFront(p, length), payload);
    assert pseudo + (UdpHeader(p, src, dst, payload) + payload)
        == pseudo + UdpFront(p, length) + Put16(Big, stored) + payload;
    var h := UdpHeader(p, src, dst, payload);
    assert h[6] == Put16(Big, stored)[0] && h[7] == Put16(Big, stored)[1];
  }

  lemma IcmpSegmentVerifies(payload: bytes)
    ensures Verifies(IcmpHeader(payload) + payload)
  {
    var csum := Internet([8, 0] + [0, 0] + (Zeros(4) + payload));
    StoredChecksumVerifies([8, 0], Zeros(4) + payload);
    assert IcmpHeader(payload) + payload == [8, 0] + Put16(Big, csum) + (Zeros(4) + payload);
  }

  /** Where the IPv4 header keeps its fields. */
  lemma Ipv4Fields(src: Quad, dst: Quad, proto: byte, payloadLen: nat)
    ensures var ip := Ipv4Header(src, dst, proto, payloadLen);
            && ip[0] == 0x45 && ip[9] == proto && ip[12..16] == src && ip[16..20] == dst
            && Get16(Big, ip, 2) == (20 + payloadLen) % TWO16
  {
    var ip := Ipv4Header(src, dst, proto, payloadLen);
    var total := Put16(Big, (20 + payloadLen) % TWO16);
    assert ip[2] == total[0] && ip[3] == total[1];
    assert ip[12..] == src + dst;
    assert ip[12..16] == (src + dst)[..4] == src;
    assert ip[16..20] == (src + dst)[4..] == dst;
  }

  /** Fields of an IPv4 header behind an Ethernet header, at their frame offsets. */
  lemma FrameFields(src: Quad, dst: Quad, proto: byte, payloadLen: nat, frame: bytes)
    requires |frame| >= 34 && frame[14..34] == Ipv4Header(src, dst, proto, payloadLen)
    ensures frame[14] == 0x45 && frame[23] == proto && frame[26..30] == src && frame[30..34] == dst
    ensures TotalLength(frame) == (20 + payloadLen) % TWO16
  {
    Ipv4Fields(src, dst, proto, payloadLen);
    var ip := frame[14..34];
    assert forall i :: 0 <= i < 20 ==> frame[14 + i] == ip[i];
    assert frame[26..30] == ip[12..16] && frame[30..34] == ip[16..20];
  }

  /** The bytes of an IPv4 stack at their frame offsets. */
  lemma StackLayout(p: Packet, proto: byte, src: Quad, dst: Quad)
    requires proto in {TCP, UDP, ICMP}
    ensures
      var frame, payload := Ipv4Stack(p, proto, src, dst), Zeros(PayloadLen(p, proto));
      && frame[12..14] == Put16(Big, ETHERTYPE_IPV4)
      && frame[14..34] == Ipv4Header(src, dst, proto, L4HeaderLen(proto) + |payload|)
      && frame[34..] == L4Header(p, proto, src, dst, payload) + payload
      && frame[14] == 0x45 && frame[23] == proto && frame[26..30] == src && frame[30..34] == dst
      && TotalLength(frame) == |frame| - 14
  {
    hide Ipv4Header, L4Header, Put16, TotalLength;
    var frame, payload := Ipv4Stack(p, proto, src, dst), Zeros(PayloadLen(p, proto));
    var eth, ip := EthernetHeader(ETHERTYPE_IPV4), Ipv4Header(src, dst, proto, L4HeaderLen(proto) + |payload|);
    ThreeParts(eth, ip, L4Header(p, proto, src, dst, payload) + payload);
    assert frame[12..14] == eth[12..14] by { assert frame[..14] == eth; }
    EthernetType(ETHERTYPE_IPV4);
    FrameFields(src, dst, proto, L4HeaderLen(proto) + |payload|, frame);
  }

  lemma ThreeParts(a: bytes, b: bytes, c: bytes)
    ensures (a + b + c)[..|a|] == a && (a + b + c)[|a|..|a| + |b|] == b && (a + b + c)[|a| + |b|..] == c
  {
  }

  lemma EthernetType(ethertype: int)
    requires 0 <= ethertype < TWO16
    ensures EthernetHeader(ethertype)[12..14] == Put16(Big, ethertype)
  {
  }

  /** An observed length with room for the stack is met exactly, up to the frame cap: nothing is padded or cut. */
  lemma FrameIsStack(aton: Aton, p: Packet)
    requires BothIpv4(aton, p) && Transport(p).Some? && p.length >= StackLen(Transport(p).value)
    ensures Synthesize(aton, p) == Ipv4Stack(p, Transport(p).value, SourceQuad(aton, p), DestQuad(aton, p))
  {
  }

  /** The length of the header stack a row's protocol gets: for any other protocol the IPv4 header alone. */
  function RowStackLen(p: Packet): nat
  {
    if Transport(p).Some? then StackLen(Transport(p).value) else 34
  }

  /** Every IPv4 frame that holds its IPv4 header has a header checksum that verifies at the receiver. With room for
      the whole stack, a TCP, UDP or ICMP frame is also internally consistent: the IPv4 total length is the frame
      length less the Ethernet header, and the transport checksum verifies. A frame of any other protocol announces an
      IPv4 packet without payload, whatever its length. */
  lemma SynthesizedFrameVerifies(aton: Aton, p: Packet)
    requires BothIpv4(aton, p) && p.length >= 34
    ensures var frame := Synthesize(aton, p);
            && |frame| == Min(p.length, MAX_FRAME)
            && Ipv4Verifies(frame)
            && (Transport(p).Some? && p.length >= RowStackLen(p) ==>
                  TotalLength(frame) == |frame| - 14 && SegmentVerifies(frame))
            && (Transport(p) == Some(UDP) && p.length >= RowStackLen(p) ==> Get16(Big, frame, 40) != 0)
            && (Transport(p).None? ==> TotalLength(frame) == 20)
  {
    hide Ipv4Verifies, SegmentVerifies, TotalLength, Synthesize;
    if Transport(p).None? {
      OtherFrameVerifies(aton, p);
    } else {
      TransportHeaderVerifies(aton, p);
      if p.length >= RowStackLen(p) { FullFrameVerifies(aton, p); }
    }
  }

  lemma OtherFrameVerifies(aton: Aton, p: Packet)
    requires BothIpv4(aton, p) && Transport(p).None? && p.length >= 34
    ensures var frame := Synthesize(aton, p); Ipv4Verifies(frame) && TotalLength(frame) == 20
  {
    hide Verifies, TotalLength, Ipv4Header, Transport, SourceQuad, DestQuad;
    var frame, src, dst := Synthesize(aton, p), SourceQuad(aton, p), DestQuad(aton, p);
    var eth, ip := EthernetHeader(ETHERTYPE_IPV4), Ipv4Header(src, dst, EXPERIMENTAL, 0);
    assert frame[..34] == eth + ip;
    assert frame[14..34] == frame[..34][14..] == ip;
    FrameFields(src, dst, EXPERIMENTAL, 0, frame);
    Ipv4HeaderVerifies(src, dst, EXPERIMENTAL, 0);
  }

  /** A cut stack keeps its IPv4 header. */
  lemma TransportHeaderVerifies(aton: Aton, p: Packet)
    requires BothIpv4(aton, p) && Transport(p).Some? && p.length >= 34
    ensures Ipv4Verifies(Synthesize(aton, p))
  {
    hide Ipv4Stack, Ipv4Header, L4Header, Verifies, TotalLength, SourceQuad, DestQuad;
    var proto, frame := Transport(p).value, Synthesize(aton, p);
    var src, dst := SourceQuad(aton, p), DestQuad(aton, p);
    var stack, n := Ipv4Stack(p, proto, src, dst), L4HeaderLen(proto) + PayloadLen(p, proto);
    StackLayout(p, proto, src, dst);
    assert frame[14..34] == stack[14..34];
    Ipv4HeaderVerifies(src, dst, proto, n);
  }

  lemma FullFrameVerifies(aton: Aton, p: Packet)
    requires BothIpv4(aton, p) && Transport(p).Some? && p.length >= StackLen(Transport(p).value)
    ensures var frame := Synthesize(aton, p);
            && TotalLength(frame) == |frame| - 14
            && SegmentVerifies(frame)
            && (Transport(p) == Some(UDP) ==> Get16(Big, frame, 40) != 0)
  {
    hide Ipv4Stack, Ipv4Header, L4Header, Verifies, PseudoHeader, Synthesize, TotalLength, SourceQuad, DestQuad;
    var proto, frame := Transport(p).value, Synthesize(aton, p);
    var payload := Zeros(PayloadLen(p, proto));
    var src, dst := SourceQuad(aton, p), DestQuad(aton, p);
    TransportIs(p);
    FrameIsStack(aton, p);
    StackLayout(p, proto, src, dst);
    L4Verifies(p, proto, src, dst, payload, frame);
  }

  lemma TransportIs(p: Packet)
    ensures Transport(p).Some? ==> Transport(p).value in {TCP, UDP, ICMP}
  {
  }

  /** The segment behind a frame's IPv4 header, at the frame's offsets. */
  lemma L4Verifies(p: Packet, proto: byte, src: Quad, dst: Quad, payload: bytes, frame: bytes)
    requires proto in {TCP, UDP, ICMP} && L4HeaderLen(proto) + |payload| < TWO16 && 34 <= |frame| <= MAX_FRAME
    requires frame[34..] == L4Header(p, proto, src, dst, payload) + payload
    requires frame[23] == proto && frame[26..30] == src && frame[30..34] == dst
    ensures SegmentVerifies(frame)
    ensures proto == UDP ==> |frame| >= 42 && Get16(Big, frame, 40) != 0
  {
    hide WordSum, Fold, PseudoHeader, TcpHeader, UdpHeader, IcmpHeader;
    if proto == TCP {
      TcpSegmentVerifies(p, src, dst, payload);
      PseudoSum(src, dst, proto, frame[34..]);
    } else if proto == UDP {
      UdpSegmentVerifies(p, src, dst, payload);
      PseudoSum(src, dst, proto, frame[34..]);
      var h := UdpHeader(p, src, dst, payload);
      assert frame[40] == frame[34..][6] == h[6] && frame[41] == frame[34..][7] == h[7];
    } else {
      IcmpSegmentVerifies(payload);
    }
  }

  /** When the header's total length is right. For TCP, UDP and ICMP exactly when the observed length has room for
      the whole stack: a shorter frame is a truncated prefix that still announces the full stack. For any other
      protocol exactly when the observed length is that of the bare headers: padding beyond them is not announced. */
  lemma TotalLengthExact(aton: Aton, p: Packet)
    requires BothIpv4(aton, p) && p.length >= 34
    ensures var frame := Synthesize(aton, p);
            TotalLength(frame) == |frame| - 14 <==>
              if Transport(p).Some? then p.length >= RowStackLen(p) else p.length == 34
  {
    hide TotalLength, Synthesize;
    if Transport(p).Some? { TransportLengthExact(aton, p); } else { OtherFrameVerifies(aton, p); }
  }

  lemma TransportLengthExact(aton: Aton, p: Packet)
    requires BothIpv4(aton, p) && Transport(p).Some? && p.length >= 34
    ensures var frame := Synthesize(aton, p);
            TotalLength(frame) == |frame| - 14 <==> p.length >= StackLen(Transport(p).value)
  {
    var proto, frame := Transport(p).value, Synthesize(aton, p);
    var src, dst := SourceQuad(aton, p), DestQuad(aton, p);
    StackLayout(p, proto, src, dst);
    if p.length >= StackLen(proto) {
      FrameIsStack(aton, p);
    } else {
      var stack := Ipv4Stack(p, proto, src, dst);
      assert frame == stack[..p.length];
      assert frame[16] == stack[16] && frame[17] == stack[17];
    }
  }
}
