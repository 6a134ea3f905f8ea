/** A packet-log row as the export reads it and the import produces it. The address parser is foreign
    (`socket.inet_aton`), so it is a parameter everywhere. */
module Packets {
  import opened Wrappers
  import opened Bytes
  import opened Text

  const ETHERTYPE_IPV4 := 0x0800
  const ETHERTYPE_IPV6 := 0x86DD

  type Quad = q: bytes | |q| == 4 witness [0, 0, 0, 0]
  type Aton = string -> Option<Quad>

  /** `ts` is in seconds. A NULL port, address or flag column is None. */
  datatype Packet = Packet(
    ts: real, protocol: string,
    srcAddr: Option<string>, srcPort: Option<int>,
    dstAddr: Option<string>, dstPort: Option<int>,
    length: int, flags: Option<string>)

  /** Dotted-decimal text of four address bytes. */
  function Dotted(q: Quad): (s: string)
    ensures '.' in s
  {
    Decimal(q[0]) + "." + Decimal(q[1]) + "." + Decimal(q[2]) + "." + Decimal(q[3])
  }

  /** What is assumed of the platform's parser: it reads the canonical dotted form. */
  ghost predicate ReadsDotted(aton: Aton) { forall q: Quad :: aton(Dotted(q)) == Some(q) }

  predicate IsIpv4(aton: Aton, addr: string) { aton(addr).Some? && '.' in addr }

  function SourceText(p: Packet): string { if p.srcAddr in {None, Some("")} then "0.0.0.0" else p.srcAddr.value }

  function DestText(p: Packet): string { if p.dstAddr in {None, Some("")} then "0.0.0.0" else p.dstAddr.value }

  predicate BothIpv4(aton: Aton, p: Packet) { IsIpv4(aton, SourceText(p)) && IsIpv4(aton, DestText(p)) }

  function SourceQuad(aton: Aton, p: Packet): Quad
    requires BothIpv4(aton, p)
  {
    aton(SourceText(p)).value
  }

  function DestQuad(aton: Aton, p: Packet): Quad
    requires BothIpv4(aton, p)
  {
    aton(DestText(p)).value
  }

  function PortField(port: Option<int>): (v: int)
    ensures 0 <= v < TWO16
  {
    if port.None? then 0 else port.value % TWO16
  }
}
