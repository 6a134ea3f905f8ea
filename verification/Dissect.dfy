/** The frame dissector, and the proof that it inverts frame synthesis: for every stored row, exactly which
    fields come back out of the frame written for it. */
module Dissect {
  import opened Wrappers
  import opened Bytes
  import opened Text
  import opened Packets
  import opened TcpFlags
  import Synth

  const ETHERTYPE_VLAN := 0x8100
  const LINKTYPE_ETHERNET := 1
  const LINKTYPE_RAW := 101

  datatype Fields = Fields(
    protocol: string, srcAddr: Option<string>, srcPort: Option<int>,
    dstAddr: Option<string>, dstPort: Option<int>, flags: Option<string>)

  const BLANK := Fields("other", None, None, None, None, None)

  function HexDigit(n: nat): char
    requires n < 16
  {
    "0123456789abcdef"[n]
  }

  function Hex(n: nat): string { (if n < 16 then "" else Hex(n / 16)) + [HexDigit(n % 16)] }

  /** Eight hexadecimal groups, never compressed. */
  function FormatIpv6(raw: bytes): string
    requires |raw| == 16
  {
    Join(seq(8, i requires 0 <= i < 8 => Hex(Get16(Big, raw, 2 * i))), ":")
  }

  function L4Fields(proto: byte, buf: bytes, r: Fields): Fields
  {
    if proto == 6 && |buf| >= 20 then
      r.(protocol := "tcp", srcPort := Some(Get16(Big, buf, 0)), dstPort := Some(Get16(Big, buf, 2)),
         flags := Some(FlagText(buf[13])))
    else if proto == 17 && |buf| >= 8 then
      r.(protocol := "udp", srcPort := Some(Get16(Big, buf, 0)), dstPort := Some(Get16(Big, buf, 2)))
    else if proto in {1, 58} then r.(protocol := "icmp")
    else r.(protocol := "other")
  }

  function Ipv4Fields(buf: bytes, r: Fields): Fields
  {
    if |buf| < 20 then r
    else
      var ihl := buf[0] % 16 * 4;
      if ihl < 20 || |buf| < ihl then r
      else L4Fields(buf[9], buf[ihl..], r.(srcAddr := Some(Dotted(buf[12..16])), dstAddr := Some(Dotted(buf[16..20]))))
  }

  function Ipv6Fields(buf: bytes, r: Fields): Fields
  {
    if |buf| < 40 then r
    else L4Fields(buf[6], buf[40..],
                  r.(srcAddr := Some(FormatIpv6(buf[8..24])), dstAddr := Some(FormatIpv6(buf[24..40]))))
  }

  function EthernetFields(data: bytes): Fields
  {
    if |data| < 14 then BLANK
    else
      var tagged := Get16(Big, data, 12) == ETHERTYPE_VLAN && |data| >= 18;
      var ethertype := Get16(Big, data, if tagged then 16 else 12);
      var rest := data[if tagged then 18 else 14..];
      if ethertype == ETHERTYPE_IPV4 then Ipv4Fields(rest, BLANK)
      else if ethertype == ETHERTYPE_IPV6 then Ipv6Fields(rest, BLANK)
      else BLANK
  }

  function RawIpFields(data: bytes): Fields
  {
    if data == [] then BLANK
    else if data[0] / 16 == 4 then Ipv4Fields(data, BLANK)
    else if data[0] / 16 == 6 then Ipv6Fields(data, BLANK)
    else BLANK
  }

  function FrameFields(linktype: int, data: bytes): Fields
  {
    if linktype == LINKTYPE_ETHERNET then EthernetFields(data)
    else if linktype == LINKTYPE_RAW then RawIpFields(data)
    else BLANK
  }

  /** The result dict that the nested dissectors fill in place. */
  class Dissection {
    var fields: Fields

    constructor ()
      ensures fields == BLANK
    {
      fields := BLANK;
    }

    method DissectL4(proto: byte, buf: bytes)
      modifies this
      ensures fields == L4Fields(proto, buf, old(fields))
    {
      if proto == 6 && |buf| >= 20 {
        fields := fields.(protocol := "tcp");
        fields := fields.(srcPort := Some(Get16(Big, buf, 0)));
        fields := fields.(dstPort := Some(Get16(Big, buf, 2)));
        fields := fields.(flags := Some(FlagText(buf[13])));
      } else if proto == 17 && |buf| >= 8 {
        fields := fields.(protocol := "udp");
        fields := fields.(srcPort := Some(Get16(Big, buf, 0)));
        fields := fields.(dstPort := Some(Get16(Big, buf, 2)));
      } else if proto == 1 || proto == 58 {
        fields := fields.(protocol := "icmp");
      } else {
        fields := fields.(protocol := "other");
      }
    }

    method DissectIpv4(buf: bytes)
      modifies this
      ensures fields == Ipv4Fields(buf, old(fields))
    {
      if |buf| < 20 { return; }
      var ihl := buf[0] % 16 * 4;
      if ihl < 20 || |buf| < ihl { return; }
      fields := fields.(srcAddr := Some(Dotted(buf[12..16])));
      fields := fields.(dstAddr := Some(Dotted(buf[16..20])));
      DissectL4(buf[9], buf[ihl..]);
    }

    method DissectIpv6(buf: bytes)
      modifies this
      ensures fields == Ipv6Fields(buf, old(fields))
    {
      if |buf| < 40 { return; }
      fields := fields.(srcAddr := Some(FormatIpv6(buf[8..24])));
      fields := fields.(dstAddr := Some(FormatIpv6(buf[24..40])));
      DissectL4(buf[6], buf[40..]);
    }
  }

  method DissectEthernet(data: bytes) returns (fields: Fields)
    ensures fields == EthernetFields(data)
  {
    var result := new Dissection();
    if |data| < 14 { return result.fields; }
    var ethertype, offset := Get16(Big, data, 12), 14;
    if ethertype == ETHERTYPE_VLAN && |data| >= offset + 4 {
      ethertype := Get16(Big, data, offset + 2);
      offset := offset + 4;
    }
    if ethertype == ETHERTYPE_IPV4 {
      result.DissectIpv4(data[offset..]);
    } else if ethertype == ETHERTYPE_IPV6 {
      result.DissectIpv6(data[offset..]);
    }
    return result.fields;
  }

  method DissectFrame(linktype: int, data: bytes) returns (fields: Fields)
    ensures fields == FrameFields(linktype, data)
  {
    if linktype == LINKTYPE_ETHERNET {
      fields := DissectEthernet(data);
    } else if linktype == LINKTYPE_RAW {
      var result := new Dissection();
      if data != [] && data[0] / 16 == 4 {
        result.DissectIpv4(data);
      } else if data != [] && data[0] / 16 == 6 {
        result.DissectIpv6(data);
      }
      fields := result.fields;
    } else {
      fields := BLANK;
    }
  }

  // ------------------------------------------------------------------ the inverse of synthesis

  const ZERO_IPV6 := "0:0:0:0:0:0:0:0"

  /** The fields that come back for a stored row, told from the row alone. */
  function Recovered(aton: Aton, p: Packet): Fields
  {
    if !BothIpv4(aton, p) then
      if p.length < 54 then BLANK else BLANK.(srcAddr := Some(ZERO_IPV6), dstAddr := Some(ZERO_IPV6))
    else if p.length < 34 then BLANK
    else
      var r := BLANK.(srcAddr := Some(Dotted(SourceQuad(aton, p))), dstAddr := Some(Dotted(DestQuad(aton, p))));
      var ports := r.(srcPort := Some(PortField(p.srcPort)), dstPort := Some(PortField(p.dstPort)));
      match Synth.Transport(p)
      case None => r
      case Some(proto) =>
        if proto == Synth.TCP then
          if p.length < 54 then r else ports.(protocol := "tcp", flags := Some(FlagText(ParseFlags(p.flags))))
        else if proto == Synth.UDP then
          if p.length < 42 then r else ports.(protocol := "udp")
        else r.(protocol := "icmp")
  }

  lemma ZeroIpv6Text(raw: bytes)
    requires |raw| == 16 && forall i :: 0 <= i < 16 ==> raw[i] == 0
    ensures FormatIpv6(raw) == ZERO_IPV6
  {
    var groups := seq(8, i requires 0 <= i < 8 => Hex(Get16(Big, raw, 2 * i)));
    assert Hex(0) == "0";
    assert |groups| == 8 && forall i :: 0 <= i < 8 ==> groups[i] == "0";
    assert groups == ["0", "0", "0", "0", "0", "0", "0", "0"];
    ZeroGroups();
  }

  lemma JoinCons(part: string, rest: seq<string>, sep: string)
    requires rest != []
    ensures Join([part] + rest, sep) == part + sep + Join(rest, sep)
  {
    assert ([part] + rest)[1..] == rest;
  }

  lemma ZeroGroups()
    ensures Join(["0", "0", "0", "0", "0", "0", "0", "0"], ":") == ZERO_IPV6
  {
    hide Join;
    var one := ["0"];
    LoneJoin("0", ":");
    JoinCons("0", one, ":");
    JoinCons("0", one + one, ":");
    JoinCons("0", one + (one + one), ":");
    JoinCons("0", one + (one + (one + one)), ":");
    JoinCons("0", one + (one + (one + (one + one))), ":");
    JoinCons("0", one + (one + (one + (one + (one + one)))), ":");
    JoinCons("0", one + (one + (one + (one + (one + (one + one))))), ":");
    assert one + (one + (one + (one + (one + (one + (one + one)))))) == ["0", "0", "0", "0", "0", "0", "0", "0"];
  }

  lemma LoneJoin(part: string, sep: string)
    ensures Join([part], sep) == part
  {
  }

  /** An Ethernet+IPv4 frame dissects into its addresses and whatever its segment holds. */
  lemma Ipv4FrameFields(src: Quad, dst: Quad, proto: byte, payloadLen: nat, frame: bytes)
    requires |frame| >= 34 && frame[12..14] == Put16(Big, ETHERTYPE_IPV4)
    requires frame[14..34] == Synth.Ipv4Header(src, dst, proto, payloadLen)
    ensures EthernetFields(frame)
         == L4Fields(proto, frame[34..], BLANK.(srcAddr := Some(Dotted(src)), dstAddr := Some(Dotted(dst))))
  {
    Synth.FrameFields(src, dst, proto, payloadLen, frame);
    assert frame[12] == frame[12..14][0] && frame[13] == frame[12..14][1];
    var buf := frame[14..];
    assert buf[0] == 0x45 && buf[9] == proto;
    assert forall i :: 0 <= i < |buf| ==> buf[i] == frame[14 + i];
    assert buf[12..16] == frame[26..30];
    assert buf[16..20] == frame[30..34];
    assert buf[20..] == frame[34..];
  }

  /** Ports and flags at the front of a TCP or UDP header. */
  lemma SegmentFields(p: Packet, proto: byte, src: Quad, dst: Quad, payload: bytes, segment: bytes)
    requires proto in {Synth.TCP, Synth.UDP} && Synth.L4HeaderLen(proto) + |payload| < TWO16
    requires segment == Synth.L4Header(p, proto, src, dst, payload) + payload
    ensures Get16(Big, segment, 0) == PortField(p.srcPort) && Get16(Big, segment, 2) == PortField(p.dstPort)
    ensures proto == Synth.TCP ==> segment[13] == ParseFlags(p.flags)
  {
    var from, to := Put16(Big, PortField(p.srcPort)), Put16(Big, PortField(p.dstPort));
    if proto == Synth.TCP {
      assert segment[..16] == Synth.TcpFront(p);
      assert forall i :: 0 <= i < 16 ==> segment[i] == Synth.TcpFront(p)[i];
    } else {
      var front := Synth.UdpFront(p, 8 + |payload|);
      assert segment[..6] == front;
      assert forall i :: 0 <= i < 6 ==> segment[i] == front[i];
    }
    assert segment[0] == from[0] && segment[1] == from[1] && segment[2] == to[0] && segment[3] == to[1];
  }

  lemma FrameIsCut(aton: Aton, p: Packet)
    requires BothIpv4(aton, p) && Synth.Transport(p).Some? && p.length >= 34
    ensures var frame := Synth.Synthesize(aton, p);
            var stack := Synth.Ipv4Stack(p, Synth.Transport(p).value, SourceQuad(aton, p), DestQuad(aton, p));
            34 <= |frame| <= |stack| && frame == stack[..|frame|]
  {
    hide Synth.Ipv4Stack;
  }

  /** A frame holding at least its IPv4 header yields the addresses; the segment bytes decide the rest. */
  lemma DissectIpv4Frame(aton: Aton, p: Packet)
    requires BothIpv4(aton, p) && Synth.Transport(p).Some? && p.length >= 34
    ensures EthernetFields(Synth.Synthesize(aton, p)) == Recovered(aton, p)
  {
    hide EthernetFields, Synth.Ipv4Header, Synth.L4Header, Synth.Ipv4Stack, Synth.Synthesize, Put16, Get16;
    hide ParseFlags, FlagText, Dotted;
    var frame := Synth.Synthesize(aton, p);
    var src, dst, proto := SourceQuad(aton, p), DestQuad(aton, p), Synth.Transport(p).value;
    var stack := Synth.Ipv4Stack(p, proto, src, dst);
    var payload := Zeros(Synth.PayloadLen(p, proto));
    Synth.StackLayout(p, proto, src, dst);
    FrameIsCut(aton, p);
    assert stack[0..0 + |frame|] == frame;
    SubSlice(stack, 0, frame, 12, 14);
    SubSlice(stack, 0, frame, 14, 34);
    Ipv4FrameFields(src, dst, proto, Synth.L4HeaderLen(proto) + |payload|, frame);
    if p.length >= Synth.StackLen(proto) {
      Synth.FrameIsStack(aton, p);
      if proto != Synth.ICMP { SegmentFields(p, proto, src, dst, payload, frame[34..]); }
    }
  }

  lemma DissectOtherFrame(aton: Aton, p: Packet)
    requires BothIpv4(aton, p) && Synth.Transport(p).None? && p.length >= 34
    ensures EthernetFields(Synth.Synthesize(aton, p)) == Recovered(aton, p)
  {
    var frame := Synth.Synthesize(aton, p);
    var src, dst := SourceQuad(aton, p), DestQuad(aton, p);
    var ip := Synth.Ipv4Header(src, dst, Synth.EXPERIMENTAL, 0);
    assert frame[..34] == Synth.EthernetHeader(ETHERTYPE_IPV4) + ip;
    assert frame[12..14] == frame[..34][12..14] == Put16(Big, ETHERTYPE_IPV4);
    assert frame[14..34] == frame[..34][14..] == ip;
    Ipv4FrameFields(src, dst, Synth.EXPERIMENTAL, 0, frame);
  }

  lemma DissectNonIpv4Frame(aton: Aton, p: Packet)
    requires !BothIpv4(aton, p) || p.length < 34
    ensures EthernetFields(Synth.Synthesize(aton, p)) == Recovered(aton, p)
  {
    var frame, stack := Synth.Synthesize(aton, p), Synth.Stack(aton, p);
    if |frame| >= 14 {
      var ethertype := if BothIpv4(aton, p) then ETHERTYPE_IPV4 else ETHERTYPE_IPV6;
      assert stack[..14] == Synth.EthernetHeader(ethertype);
      assert frame[..14] == stack[..14];
      assert frame[12] == frame[..14][12] && frame[13] == frame[..14][13];
      assert Get16(Big, frame, 12) == ethertype;
      if p.length >= 54 {
        assert frame == stack + Zeros(|frame| - 14);
        var buf := frame[14..];
        assert buf == Zeros(|frame| - 14);
        ZeroIpv6Text(buf[8..24]);
        ZeroIpv6Text(buf[24..40]);
      }
    }
  }

  /** The dissector on the frame of any stored row. */
  lemma DissectSynthesized(aton: Aton, p: Packet)
    ensures EthernetFields(Synth.Synthesize(aton, p)) == Recovered(aton, p)
  {
    if !BothIpv4(aton, p) || p.length < 34 {
      DissectNonIpv4Frame(aton, p);
    } else if Synth.Transport(p).Some? {
      DissectIpv4Frame(aton, p);
    } else {
      DissectOtherFrame(aton, p);
    }
  }
}
