/** Capture-file export and import end to end: rows to frames to a pcap file, and a pcap or pcapng file back to
    rows. The main results say what an import returns for every exported row list, for every cut of a written
    file, and in either byte order. */
module PcapRoundTrip {
  import opened Wrappers
  import opened Bytes
  import opened Text
  import opened Packets
  import opened TcpFlags
  import opened PcapFormat
  import Synth
  import Dissect
  import PcapNg

  // ------------------------------------------------------------------ export

  /** `int(t)`: truncation toward zero. */
  function Truncate(t: real): int { if t >= 0.0 then t.Floor else -(-t).Floor }

  /** `round(x)`: to nearest, ties to even. */
  function Round(x: real): int
  {
    var down := x.Floor;
    var part := x - down as real;
    if part < 0.5 || (part == 0.5 && down % 2 == 0) then down else down + 1
  }

  function Microseconds(ts: real): int { Round((ts - Truncate(ts) as real) * 1_000_000.0) }

  /** The record written for a row whose length fits its field. */
  function RecordOf(aton: Aton, p: Packet): (r: Record)
    requires 0 <= p.length < TWO32
    ensures Encodable(r)
  {
    Record(Truncate(p.ts) % TWO32, Microseconds(p.ts) % TWO32, p.length, Synth.Synthesize(aton, p), false)
  }

  function WriteRow(aton: Aton, p: Packet): Result<bytes, WriteError>
  {
    var frame := Synth.Synthesize(aton, p);
    WritePacketRecord(Truncate(p.ts), Microseconds(p.ts), |frame|, p.length, frame)
  }

  function WriteRows(aton: Aton, rows: seq<Packet>): Result<bytes, WriteError>
  {
    if rows == [] then Ok([])
    else match WriteRow(aton, rows[0])
      case Err(e) => Err(e)
      case Ok(chunk) =>
        match WriteRows(aton, rows[1..])
        case Err(e) => Err(e)
        case Ok(rest) => Ok(chunk + rest)
  }

  /** `_iter_pcap_bytes`, its chunks joined; an unpackable row ends the stream with an error. */
  method IterPcapBytes(aton: Aton, rows: seq<Packet>) returns (r: Result<bytes, WriteError>)
    ensures r == match WriteRows(aton, rows)
                 case Err(e) => Err(e)
                 case Ok(body) => Ok(WriteGlobalHeader(65535, 1) + body)
  {
    hide WriteRow;
    var out := WriteGlobalHeader(65535, 1);
    for i := 0 to |rows|
      invariant match WriteRows(aton, rows[i..])
                case Err(e) => WriteRows(aton, rows) == Err(e)
                case Ok(rest) => WriteRows(aton, rows).Ok?
                                 && out + rest == WriteGlobalHeader(65535, 1) + WriteRows(aton, rows).value
    {
      assert rows[i..][1..] == rows[i + 1..];
      match WriteRow(aton, rows[i]) {
        case Err(e) => return Err(e);
        case Ok(chunk) =>
          assert forall rest :: (out + chunk) + rest == out + (chunk + rest);
          out := out + chunk;
      }
    }
    assert out + [] == out;
    return Ok(out);
  }

  function RecordsOf(aton: Aton, rows: seq<Packet>): (rs: seq<Record>)
    requires forall i :: 0 <= i < |rows| ==> 0 <= rows[i].length < TWO32
    ensures |rs| == |rows| && AllEncodable(rs, false)
    ensures forall i :: 0 <= i < |rs| ==> rs[i] == RecordOf(aton, rows[i])
  {
    seq(|rows|, i requires 0 <= i < |rows| => RecordOf(aton, rows[i]))
  }

  lemma WriteRowEncodes(aton: Aton, p: Packet)
    ensures WriteRow(aton, p) == if 0 <= p.length < TWO32 then Ok(EncodeRecord(Little, RecordOf(aton, p)))
                                 else Err(FieldOutOfRange)
  {
    hide Put32, Microseconds, Truncate;
  }

  /** The export fails exactly when some length does not fit 32 bits; otherwise it writes the rows' records. */
  lemma {:induction false} WriteRowsEncodes(aton: Aton, rows: seq<Packet>)
    ensures WriteRows(aton, rows) ==
            if forall i :: 0 <= i < |rows| ==> 0 <= rows[i].length < TWO32
            then Ok(EncodeAll(Little, RecordsOf(aton, rows))) else Err(FieldOutOfRange)
  {
    hide WriteRow, RecordOf, EncodeRecord;
    if rows != [] {
      WriteRowEncodes(aton, rows[0]);
      WriteRowsEncodes(aton, rows[1..]);
      if forall i :: 0 <= i < |rows| ==> 0 <= rows[i].length < TWO32 {
        assert forall i :: 0 <= i < |rows[1..]| ==> rows[1..][i] == rows[i + 1];
        assert RecordsOf(aton, rows)[1..] == RecordsOf(aton, rows[1..]);
      } else if 0 <= rows[0].length < TWO32 {
        var i :| 0 <= i < |rows| && !(0 <= rows[i].length < TWO32);
        assert rows[1..][i - 1] == rows[i];
      }
    }
  }

  // ------------------------------------------------------------------ import

  datatype ImportError = TooShort | Unreadable(cause: PcapError) | NothingParsed

  datatype Imported = Imported(linktypeName: string, packets: seq<Packet>, truncated: bool, parseErrors: nat)

  function LinktypeName(linktype: nat): string
  {
    if linktype == 0 then "NULL" else if linktype == 1 then "EN10MB" else if linktype == 101 then "RAW"
    else if linktype == 228 then "IPV4" else if linktype == 229 then "IPV6"
    else "UNKNOWN(" + Decimal(linktype) + ")"
  }

  /** Different link types have different names. */
  lemma LinktypeNamesDiffer(a: nat, b: nat)
    requires LinktypeName(a) == LinktypeName(b)
    ensures a == b
  {
    hide Decimal;
    if LinktypeName(a)[0] == 'U' {
      var x, y := LinktypeName(a), LinktypeName(b);
      assert Decimal(a) == x[8..|x| - 1] && Decimal(b) == y[8..|y| - 1];
      NumberOfDecimal(a);
      NumberOfDecimal(b);
    }
  }

  lemma LinktypeNames()
    ensures LinktypeName(0) == "NULL" && LinktypeName(1) == "EN10MB" && LinktypeName(101) == "RAW"
    ensures LinktypeName(228) == "IPV4" && LinktypeName(229) == "IPV6" && LinktypeName(147) == "UNKNOWN(147)"
  {
    assert Decimal(1) == "1" && Decimal(14) == "14";
  }

  function PacketOf(linktype: nat, r: Record): Packet
  {
    var f := Dissect.FrameFields(linktype, r.data);
    Packet(r.Timestamp(), f.protocol, f.srcAddr, f.srcPort, f.dstAddr, f.dstPort, r.origLen, f.flags)
  }

  function PacketsOf(linktype: nat, rs: seq<Record>): (ps: seq<Packet>)
    ensures |ps| == |rs| && forall i :: 0 <= i < |rs| ==> ps[i] == PacketOf(linktype, rs[i])
  {
    seq(|rs|, i requires 0 <= i < |rs| => PacketOf(linktype, rs[i]))
  }

  /** The result for a stream the reader has already limited to `maxPackets`. */
  function Finish(linktype: nat, s: Stream, maxPackets: nat): Result<Imported, ImportError>
  {
    if s.records == [] && s.error.Some? then Err(NothingParsed)
    else Ok(Imported(LinktypeName(linktype), PacketsOf(linktype, s.records),
                     s.error.Some? || |s.records| >= maxPackets, if s.error.Some? then 1 else 0))
  }

  function ImportFile(f: bytes, maxPackets: nat): Result<Imported, ImportError>
  {
    if |f| < 4 then Err(TooShort)
    else if PcapNg.IsPcapng(f) then
      match PcapNg.Pcapng(f, true, Some(maxPackets))
      case Err(e) => Err(Unreadable(e))
      case Ok((linktype, s)) => Finish(linktype, s, maxPackets)
    else
      match ReadGlobalHeader(f)
      case Err(e) => Err(Unreadable(e))
      case Ok(h) => Finish(h.network, Records(h, f, HEADER_LEN, Some(|f|), Some(maxPackets)), maxPackets)
  }

  /** What a capped reader guarantees: never more than the cap, and no error once it is reached. */
  predicate Capped(s: Stream, maxPackets: nat)
  {
    |s.records| <= maxPackets && (|s.records| == maxPackets ==> s.error.None?)
  }

  lemma {:induction false} RecordsCapped(h: GlobalHeader, f: bytes, pos: nat, fileSize: Option<nat>, max: nat)
    requires pos <= |f|
    ensures Capped(Records(h, f, pos, fileSize, Some(max)), max)
    decreases |f| - pos
  {
    hide RecordLen, RecordAt;
    if max > 0 && pos < |f| && RecordLen(h.order, f, pos, fileSize).Ok? {
      RecordsCapped(h, f, pos + RECORD_LEN + RecordLen(h.order, f, pos, fileSize).value, fileSize, max - 1);
    }
  }

  lemma {:induction false} ScanCapped(st: PcapNg.State, rest: bytes, sized: bool, max: nat)
    requires PcapNg.ValidState(st)
    ensures Capped(PcapNg.Scan(st, rest, sized, Some(max)), max)
    decreases |rest|
  {
    hide PcapNg.Step, PcapNg.ValidState;
    if max > 0 && rest != [] && PcapNg.Step(st, rest, sized).Ok? {
      var (len, next, packet) := PcapNg.Step(st, rest, sized).value;
      ScanCapped(next, rest[len..], sized, if packet.None? then max else max - 1);
    }
  }

  /** The loop of `_drain_records`, with its early exit at the cap. */
  method DrainRecords(s: Stream, linktype: nat, maxPackets: nat)
    returns (packets: seq<Packet>, truncated: bool, parseErrors: nat)
    requires Capped(s, maxPackets)
    ensures packets == PacketsOf(linktype, s.records)
    ensures truncated == (s.error.Some? || (s.records != [] && |s.records| == maxPackets))
    ensures parseErrors == if s.error.Some? then 1 else 0
  {
    hide PacketOf;
    packets, truncated, parseErrors := [], false, 0;
    for i := 0 to |s.records|
      invariant packets == PacketsOf(linktype, s.records[..i])
      invariant !truncated && (i > 0 ==> i < maxPackets)
    {
      var fields := Dissect.DissectFrame(linktype, s.records[i].data);
      packets := packets + [DissectedPacket(linktype, s.records[i], fields)];
      assert packets == PacketsOf(linktype, s.records[..i + 1]);
      if |packets| >= maxPackets {
        truncated := true;
        assert s.records[..i + 1] == s.records;
        return;
      }
    }
    assert s.records[..|s.records|] == s.records;
    if s.error.Some? { truncated, parseErrors := true, 1; }
  }

  function DissectedPacket(linktype: nat, r: Record, f: Dissect.Fields): (p: Packet)
    ensures f == Dissect.FrameFields(linktype, r.data) ==> p == PacketOf(linktype, r)
  {
    Packet(r.Timestamp(), f.protocol, f.srcAddr, f.srcPort, f.dstAddr, f.dstPort, r.origLen, f.flags)
  }

  /** `parse_pcap_file` on the bytes of the stored upload. */
  method ParsePcapFile(f: bytes, maxPackets: nat) returns (r: Result<Imported, ImportError>)
    ensures r == ImportFile(f, maxPackets)
  {
    hide PcapNg.IsPcapng, PcapNg.Pcapng, ReadGlobalHeader, Records, PacketsOf;
    if |f| < 4 { return Err(TooShort); }
    var linktype, s;
    if PcapNg.IsPcapng(f) {
      var read := PcapNg.ReadPcapng(f, true, Some(maxPackets));
      if read.Err? { return Err(Unreadable(read.error)); }
      linktype, s := read.value.0, read.value.1;
      PcapngCapped(f, maxPackets);
    } else {
      var header := ReadGlobalHeader(f);
      if header.Err? { return Err(Unreadable(header.error)); }
      linktype := header.value.network;
      s := ReadPcapRecords(f, header.value, HEADER_LEN, Some(|f|), Some(maxPackets));
      RecordsCapped(header.value, f, HEADER_LEN, Some(|f|), maxPackets);
    }
    var packets, truncated, parseErrors := DrainRecords(s, linktype, maxPackets);
    if packets == [] && parseErrors > 0 { return Err(NothingParsed); }
    if |packets| >= maxPackets { truncated := true; }
    return Ok(Imported(LinktypeName(linktype), packets, truncated, parseErrors));
  }

  lemma PcapngCapped(f: bytes, max: nat)
    ensures var r := PcapNg.Pcapng(f, true, Some(max)); r.Ok? ==> Capped(r.value.1, max)
  {
    PcapNg.InitialValid();
    ScanCapped(PcapNg.INITIAL, f, true, max);
  }

  // ------------------------------------------------------------------ cuts and byte orders

  /** A capture file of `rs` in the given byte order and resolution. */
  function FileBytes(order: Order, nanosecond: bool, snaplen: nat, network: nat, rs: seq<Record>): bytes
    requires 0 < snaplen <= MAX_SNAPLEN && network < TWO32 && AllEncodable(rs, nanosecond)
  {
    HeaderBytes(order, nanosecond, snaplen, network) + EncodeAll(order, rs)
  }

  /** Importing a written file cut `k` bytes after its header: exactly the records wholly inside the cut, as far
      as the cap allows; below the cap the result is flagged truncated exactly when the cut is not on a record
      boundary, and it is refused when the cut leaves bytes but no whole record. */
  lemma ImportCut(order: Order, nanosecond: bool, snaplen: nat, network: nat, rs: seq<Record>, k: nat, max: nat)
    requires 0 < snaplen <= MAX_SNAPLEN && network < TWO32 && AllEncodable(rs, nanosecond) && k <= SizeOf(rs)
    ensures |FileBytes(order, nanosecond, snaplen, network, rs)| == HEADER_LEN + SizeOf(rs)
    ensures
      var f := FileBytes(order, nanosecond, snaplen, network, rs)[..HEADER_LEN + k];
      var n := Whole(rs, k);
      var bad := n < max && k != SizeOf(rs[..n]);
      ImportFile(f, max) ==
        if n == 0 && bad then Err(NothingParsed)
        else Ok(Imported(LinktypeName(network), PacketsOf(network, rs[..Min(n, max)]), bad || n >= max,
                         if bad then 1 else 0))
  {
    hide HeaderBytes, Whole, Records, ReadGlobalHeader, PcapNg.IsPcapng, PacketsOf;
    EncodedSize(order, rs);
    var header := HeaderBytes(order, nanosecond, snaplen, network);
    var f := FileBytes(order, nanosecond, snaplen, network, rs)[..HEADER_LEN + k];
    assert f == header + EncodeAll(order, rs)[..k];
    HeaderRoundTrip(order, nanosecond, snaplen, network, EncodeAll(order, rs)[..k]);
    NotPcapng(order, nanosecond, snaplen, network, f);
    var h := GlobalHeader(order, nanosecond, snaplen, network);
    CutFileReads(h, header, rs, k, Some(|f|), Some(max));
  }

  lemma NotPcapng(order: Order, nanosecond: bool, snaplen: nat, network: nat, f: bytes)
    requires snaplen < TWO32 && network < TWO32
    requires HeaderBytes(order, nanosecond, snaplen, network) <= f
    ensures !PcapNg.IsPcapng(f)
  {
    hide HeaderBytes, Put32;
    var h := HeaderBytes(order, nanosecond, snaplen, network);
    var m := Put32(order, if nanosecond then MAGIC_NSEC else MAGIC_USEC);
    HeaderFields(order, nanosecond, snaplen, network);
    MagicBytes(order, nanosecond);
    assert f[0] == h[0] == h[0..4][0] == m[0];
  }

  /** The same logical file imports to the same result in either byte order, wherever it is cut. */
  lemma ByteOrderIrrelevant(nanosecond: bool, snaplen: nat, network: nat, rs: seq<Record>, k: nat, max: nat)
    requires 0 < snaplen <= MAX_SNAPLEN && network < TWO32 && AllEncodable(rs, nanosecond) && k <= SizeOf(rs)
    ensures |FileBytes(Little, nanosecond, snaplen, network, rs)| == HEADER_LEN + SizeOf(rs)
    ensures |FileBytes(Big, nanosecond, snaplen, network, rs)| == HEADER_LEN + SizeOf(rs)
    ensures ImportFile(FileBytes(Little, nanosecond, snaplen, network, rs)[..HEADER_LEN + k], max)
         == ImportFile(FileBytes(Big, nanosecond, snaplen, network, rs)[..HEADER_LEN + k], max)
  {
    hide ImportFile, FileBytes, Whole, PacketsOf;
    ImportCut(Little, nanosecond, snaplen, network, rs, k, max);
    ImportCut(Big, nanosecond, snaplen, network, rs, k, max);
  }

  // ------------------------------------------------------------------ the round trip

  /** The row an import returns for an exported row. */
  function Canonical(aton: Aton, p: Packet): Packet
  {
    var f := Dissect.Recovered(aton, p);
    var ts := (Truncate(p.ts) % TWO32) as real + (Microseconds(p.ts) % TWO32) as real / 1_000_000.0;
    Packet(ts, f.protocol, f.srcAddr, f.srcPort, f.dstAddr, f.dstPort, p.length, f.flags)
  }

  lemma ImportedRow(aton: Aton, p: Packet)
    requires 0 <= p.length < TWO32
    ensures PacketOf(1, RecordOf(aton, p)) == Canonical(aton, p)
  {
    hide Dissect.Recovered, Dissect.EthernetFields;
    Dissect.DissectSynthesized(aton, p);
  }

  function CanonicalRows(aton: Aton, rows: seq<Packet>): (ps: seq<Packet>)
    ensures |ps| == |rows| && forall i :: 0 <= i < |rows| ==> ps[i] == Canonical(aton, rows[i])
  {
    seq(|rows|, i requires 0 <= i < |rows| => Canonical(aton, rows[i]))
  }

  lemma ImportedRows(aton: Aton, rows: seq<Packet>, n: nat)
    requires (forall i :: 0 <= i < |rows| ==> 0 <= rows[i].length < TWO32) && n <= |rows|
    ensures PacketsOf(1, RecordsOf(aton, rows)[..n]) == CanonicalRows(aton, rows[..n])
  {
    hide Canonical, RecordOf, PacketOf;
    forall i | 0 <= i < n ensures PacketOf(1, RecordsOf(aton, rows)[i]) == Canonical(aton, rows[i]) {
      ImportedRow(aton, rows[i]);
    }
  }

  /** Exporting any rows and importing the file returns their canonical forms in order, up to the packet cap;
      only a length outside 32 bits makes the export fail. */
  lemma ExportImport(aton: Aton, rows: seq<Packet>, max: nat)
    ensures WriteRows(aton, rows).Ok? <==> forall i :: 0 <= i < |rows| ==> 0 <= rows[i].length < TWO32
    ensures WriteRows(aton, rows).Ok? ==>
              ImportFile(WriteGlobalHeader(65535, 1) + WriteRows(aton, rows).value, max)
              == Ok(Imported("EN10MB", CanonicalRows(aton, rows[..Min(|rows|, max)]), |rows| >= max, 0))
  {
    hide Canonical, RecordOf, PacketOf, WriteRows, ImportFile, PacketsOf, CanonicalRows, EncodeAll, RecordsOf;
    hide WriteGlobalHeader, Encodable;
    WriteRowsEncodes(aton, rows);
    if forall i :: 0 <= i < |rows| ==> 0 <= rows[i].length < TWO32 {
      ImportWhole(RecordsOf(aton, rows), max);
      ImportedRows(aton, rows, Min(|rows|, max));
    }
  }

  lemma TakeAll<T>(s: seq<T>, n: nat)
    requires n == |s|
    ensures s[..n] == s
  {
  }

  /** A whole written file imports to its records, up to the cap. */
  lemma ImportAll(order: Order, nanosecond: bool, snaplen: nat, network: nat, rs: seq<Record>, max: nat)
    requires 0 < snaplen <= MAX_SNAPLEN && network < TWO32 && AllEncodable(rs, nanosecond)
    ensures ImportFile(FileBytes(order, nanosecond, snaplen, network, rs), max)
         == Ok(Imported(LinktypeName(network), PacketsOf(network, rs[..Min(|rs|, max)]), |rs| >= max, 0))
  {
    hide ImportFile, Whole, PacketsOf, EncodeAll, FileBytes, HeaderBytes, SizeOf, AllEncodable, LinktypeName;
    ImportCut(order, nanosecond, snaplen, network, rs, SizeOf(rs), max);
    WholeFile(rs);
    TakeAll(FileBytes(order, nanosecond, snaplen, network, rs), HEADER_LEN + SizeOf(rs));
    TakeAll(rs, |rs|);
  }

  lemma ImportWhole(rs: seq<Record>, max: nat)
    requires AllEncodable(rs, false)
    ensures ImportFile(WriteGlobalHeader(65535, 1) + EncodeAll(Little, rs), max)
         == Ok(Imported("EN10MB", PacketsOf(1, rs[..Min(|rs|, max)]), |rs| >= max, 0))
  {
    hide ImportFile, PacketsOf, EncodeAll, FileBytes, WriteGlobalHeader, AllEncodable, LinktypeName;
    FileIsExport(rs);
    ImportAll(Little, false, 65535, 1, rs, max);
  }

  lemma FileIsExport(rs: seq<Record>)
    requires AllEncodable(rs, false)
    ensures FileBytes(Little, false, 65535, 1, rs) == WriteGlobalHeader(65535, 1) + EncodeAll(Little, rs)
    ensures LinktypeName(1) == "EN10MB"
  {
    hide HeaderBytes, EncodeAll;
  }

  lemma {:induction false} WholeFile(rs: seq<Record>)
    ensures Whole(rs, SizeOf(rs)) == |rs|
  {
    if rs != [] { WholeFile(rs[1..]); }
  }

  ghost predicate DottedPair(p: Packet)
  {
    p.srcAddr.Some? && CanonicalAddress(p.srcAddr.value) && p.dstAddr.Some? && CanonicalAddress(p.dstAddr.value)
  }

  predicate NoTransport(p: Packet) { p.srcPort.None? && p.dstPort.None? && p.flags.None? }

  /** The rows of no transport whose addresses survive. */
  ghost predicate OtherAddresses(p: Packet)
  {
    || (DottedPair(p) && p.length >= 34)
    || (p.srcAddr.None? && p.dstAddr.None? && p.length < 34)
    || (p.srcAddr == p.dstAddr == Some(Dissect.ZERO_IPV6) && p.length >= 54)
  }

  /** Rows that come back unchanged, told from the row alone. */
  ghost predicate Faithful(p: Packet)
  {
    && 0.0 <= p.ts < TWO32 as real && WholeMicroseconds(p.ts)
    && (match p.protocol
        case "tcp" =>
          DottedPair(p) && p.length >= 54 && PortsPresent(p) && p.flags.Some? && TcpFlags.Canonical(p.flags.value)
        case "udp" => DottedPair(p) && p.length >= 42 && PortsPresent(p) && p.flags.None?
        case "icmp" => DottedPair(p) && p.length >= 34 && NoTransport(p)
        case "other" => OtherAddresses(p) && NoTransport(p)
        case _ => false)
  }

  predicate WholeMicroseconds(ts: real) { (ts * 1_000_000.0).Floor as real == ts * 1_000_000.0 }

  ghost predicate CanonicalAddress(addr: string) { exists q: Quad :: addr == Dotted(q) }

  predicate PortsPresent(p: Packet)
  {
    && p.srcPort.Some? && 0 <= p.srcPort.value < TWO16
    && p.dstPort.Some? && 0 <= p.dstPort.value < TWO16
  }

  lemma RoundExactly(x: real, n: nat)
    requires 0.0 <= x < n as real
    ensures 0 <= Round(x) <= n && (Round(x) as real == x <==> x.Floor as real == x)
  {
  }

  /** Rounding is to the nearest whole number, and to the even one between two. */
  lemma RoundNearest(x: real)
    ensures -0.5 <= Round(x) as real - x <= 0.5
    ensures Round(x) as real - x == 0.5 || Round(x) as real - x == -0.5 ==> Round(x) % 2 == 0
  {
  }

  /** A row's time within 32 bits of seconds is exported to the nearest microsecond. */
  lemma ExportedTimeIsNear(aton: Aton, p: Packet)
    requires 0 <= p.length < TWO32 && 0.0 <= p.ts < TWO32 as real
    ensures -0.0000005 <= RecordOf(aton, p).Timestamp() - p.ts <= 0.0000005
  {
    hide Round, Synth.Synthesize;
    var sec := Truncate(p.ts);
    var x := (p.ts - sec as real) * 1_000_000.0;
    RoundExactly(x, 1_000_000);
    RoundNearest(x);
  }

  lemma FloorShift(n: int, x: real)
    ensures (n as real + x).Floor == n + x.Floor
  {
  }

  lemma TimeInRange(ts: real)
    requires 0.0 <= ts < TWO32 as real
    ensures (Truncate(ts) % TWO32) as real + (Microseconds(ts) % TWO32) as real / 1_000_000.0 == ts
       <==> WholeMicroseconds(ts)
  {
    hide Round;
    var sec := Truncate(ts);
    var x := (ts - sec as real) * 1_000_000.0;
    RoundExactly(x, 1_000_000);
    assert ts * 1_000_000.0 == (sec * 1_000_000) as real + x;
    FloorShift(sec * 1_000_000, x);
  }

  /** Seconds beyond 32 bits wrap. */
  lemma TimeWraps(ts: real)
    requires ts >= TWO32 as real
    ensures (Truncate(ts) % TWO32) as real + (Microseconds(ts) % TWO32) as real / 1_000_000.0 != ts
  {
    hide Round;
    var sec := Truncate(ts);
    RoundExactly((ts - sec as real) * 1_000_000.0, 1_000_000);
    assert sec >= TWO32;
    if sec % TWO32 == TWO32 - 1 { assert sec >= 2 * TWO32 - 1; }
  }

  /** A time survives exactly when it is a whole number of microseconds that fits 32 bits of seconds. */
  lemma TimeExact(ts: real)
    ensures (Truncate(ts) % TWO32) as real + (Microseconds(ts) % TWO32) as real / 1_000_000.0 == ts
       <==> 0.0 <= ts < TWO32 as real && WholeMicroseconds(ts)
  {
    hide Truncate, Microseconds, WholeMicroseconds;
    if 0.0 <= ts < TWO32 as real { TimeInRange(ts); } else if ts >= TWO32 as real { TimeWraps(ts); }
  }

  /** An exported row comes back as itself exactly when it is faithful: whole microseconds in range; and for TCP, UDP
      and ICMP canonical dotted addresses, ports and canonical flags where the protocol has them, and an observed
      length with room for the header stack (for ICMP, for the IPv4 header). A row of protocol "other" needs no ports,
      no flags, and addresses that its length lets through. No other protocol text survives. */
  lemma RowRoundTrip(aton: Aton, p: Packet)
    requires ReadsDotted(aton)
    ensures Canonical(aton, p) == p <==> Faithful(p)
  {
    hide Canonical, Dissect.Recovered, DottedPair, OtherAddresses, WholeMicroseconds;
    if p.protocol == "other" {
      OtherRoundTrip(aton, p);
    } else if p.protocol in {"tcp", "udp", "icmp"} {
      TransportRoundTrip(aton, p);
    } else {
      ForeignProtocol(aton, p);
    }
  }

  lemma TransportRoundTrip(aton: Aton, p: Packet)
    requires ReadsDotted(aton) && p.protocol in {"tcp", "udp", "icmp"}
    ensures Canonical(aton, p) == p <==> Faithful(p)
  {
    hide Truncate, Microseconds, WholeMicroseconds, FlagText, ParseFlags, Dotted, CanonicalAddress;
    TimeExact(p.ts);
    KnownProtocols();
    AddressRoundTrip(aton, p);
    if p.flags.Some? { FlagsRoundTrip(p.flags.value); }
  }

  lemma OtherRoundTrip(aton: Aton, p: Packet)
    requires ReadsDotted(aton) && p.protocol == "other"
    ensures Canonical(aton, p) == p <==>
            0.0 <= p.ts < TWO32 as real && WholeMicroseconds(p.ts) && OtherAddresses(p) && NoTransport(p)
  {
    hide Truncate, Microseconds, WholeMicroseconds, FlagText, ParseFlags, Dotted, CanonicalAddress, IsIpv4;
    TimeExact(p.ts);
    KnownProtocols();
    AddressRoundTrip(aton, p);
    NoAddressIsIpv4(aton);
    ZeroIpv6IsNotIpv4(aton);
  }

  /** An empty address column is exported as 0.0.0.0. */
  lemma NoAddressIsIpv4(aton: Aton)
    requires ReadsDotted(aton)
    ensures IsIpv4(aton, "0.0.0.0")
  {
    var q: Quad := [0, 0, 0, 0];
    assert Dotted(q) == "0.0.0.0";
  }

  lemma ZeroIpv6IsNotIpv4(aton: Aton)
    ensures !IsIpv4(aton, Dissect.ZERO_IPV6) && !CanonicalAddress(Dissect.ZERO_IPV6) && Dissect.ZERO_IPV6 != ""
  {
    hide Dotted;
    assert '.' !in Dissect.ZERO_IPV6;
  }

  lemma ForeignProtocol(aton: Aton, p: Packet)
    requires p.protocol !in {"tcp", "udp", "icmp", "other"}
    ensures Canonical(aton, p) != p
  {
    hide Truncate, Microseconds, FlagText, ParseFlags, Dotted;
  }

  lemma KnownProtocols()
    ensures Lower("tcp") == "tcp" && Lower("udp") == "udp" && Lower("icmp") == "icmp" && Lower("other") == "other"
  {
  }

  lemma FlagsRoundTrip(text: string)
    ensures FlagText(ParseFlags(Some(text))) == text <==> TcpFlags.Canonical(text)
  {
    hide FlagText, ParseFlags;
    if TcpFlags.Canonical(text) {
      var bits: byte :| text == FlagText(bits);
      FlagRoundTrip(bits);
    }
  }

  /** Both addresses come back exactly when both are canonical dotted text. */
  lemma AddressRoundTrip(aton: Aton, p: Packet)
    requires ReadsDotted(aton)
    ensures BothIpv4(aton, p) && p.srcAddr == Some(Dotted(SourceQuad(aton, p)))
                              && p.dstAddr == Some(Dotted(DestQuad(aton, p)))
       <==> p.srcAddr.Some? && CanonicalAddress(p.srcAddr.value) && p.dstAddr.Some? && CanonicalAddress(p.dstAddr.value)
  {
    hide Dotted;
  }

  /** The main law of the capture-file chain: fewer than the cap of faithful rows, exported and imported, are
      exactly the rows, in order, with nothing flagged. */
  lemma FaithfulRoundTrip(aton: Aton, rows: seq<Packet>, max: nat)
    requires ReadsDotted(aton) && |rows| < max
    requires forall i :: 0 <= i < |rows| ==> Faithful(rows[i]) && 0 <= rows[i].length < TWO32
    ensures WriteRows(aton, rows).Ok?
    ensures ImportFile(WriteGlobalHeader(65535, 1) + WriteRows(aton, rows).value, max)
         == Ok(Imported("EN10MB", rows, false, 0))
  {
    hide Canonical, WriteRows, ImportFile, Faithful, WriteGlobalHeader;
    forall i | 0 <= i < |rows|
      ensures Canonical(aton, rows[i]) == rows[i]
    {
      RowRoundTrip(aton, rows[i]);
    }
    ExportImport(aton, rows, max);
    assert rows[..|rows|] == rows && CanonicalRows(aton, rows) == rows;
  }

  /** The snap length the export declares, 65535, is kept by a row's record exactly up to that observed length; from
      there the record grows to the frame cap of 65549 bytes. */
  lemma DeclaredSnaplenExceeded(aton: Aton, p: Packet)
    requires 0 <= p.length < TWO32
    ensures |RecordOf(aton, p).data| <= 65535 <==> p.length <= 65535
    ensures |RecordOf(aton, p).data| == 65549 <==> p.length >= 65549
  {
    hide Truncate, Microseconds;
  }
}
