/** The classic libpcap file (draft-ietf-opsawg-pcap sections 4 and 5): the writer, the bounds-checked reader,
    and what the reader returns for complete, cut and hostile files. */
module PcapFormat {
  import opened Wrappers
  import opened Bytes

  const MAGIC_USEC := 0xA1B2C3D4
  const MAGIC_NSEC := 0xA1B23C4D
  const HEADER_LEN := 24
  const RECORD_LEN := 16
  const MAX_PACKET_LEN := 4 * 1024 * 1024
  const MAX_SNAPLEN := 16 * 1024 * 1024

  datatype PcapError =
    | EmptyFile | TruncatedGlobalHeader | BadMagic | ImplausibleSnaplen
    | TruncatedRecordHeader | PacketTooLong | BeyondEndOfFile | TruncatedData
    | TruncatedBlock | BadBlockLength | BlockTooLong | LengthMismatch | BadByteOrderMagic | TruncatedBody
    | DataExceedsBlock

  datatype WriteError = LengthDiffers | FieldOutOfRange

  datatype GlobalHeader = GlobalHeader(order: Order, nanosecond: bool, snaplen: nat, network: nat)

  datatype Record = Record(tsSec: nat, tsFrac: nat, origLen: nat, data: bytes, nanosecond: bool)
  {
    /** Seconds since the epoch. */
    function Timestamp(): real
    {
      tsSec as real + tsFrac as real / if nanosecond then 1_000_000_000.0 else 1_000_000.0
    }
  }

  /** What a reader generator hands over: the records yielded, then the error that ended it, if any. */
  datatype Stream = Stream(records: seq<Record>, error: Option<PcapError>)

  // ------------------------------------------------------------------ writing

  /** A global header in either byte order and resolution. */
  function HeaderBytes(order: Order, nanosecond: bool, snaplen: int, network: int): (h: bytes)
    requires 0 <= snaplen < TWO32 && 0 <= network < TWO32
    ensures |h| == HEADER_LEN
  {
    Put32(order, if nanosecond then MAGIC_NSEC else MAGIC_USEC) + (Put16(order, 2) + Put16(order, 4))
    + Zeros(8) + Put32(order, snaplen) + Put32(order, network)
  }

  function WriteGlobalHeader(snaplen: int, linktype: int): (h: bytes)
    requires 0 <= snaplen < TWO32 && 0 <= linktype < TWO32
  {
    HeaderBytes(Little, false, snaplen, linktype)
  }

  /** Timestamps are masked to 32 bits; a length that does not fit makes `struct.pack` raise. */
  function WritePacketRecord(tsSec: int, tsUsec: int, inclLen: int, origLen: int, data: bytes):
    (r: Result<bytes, WriteError>)
  {
    if |data| != inclLen then Err(LengthDiffers)
    else if inclLen >= TWO32 || !(0 <= origLen < TWO32) then Err(FieldOutOfRange)
    else Ok(Put32(Little, tsSec % TWO32) + Put32(Little, tsUsec % TWO32) + Put32(Little, inclLen)
            + Put32(Little, origLen) + data)
  }

  predicate Encodable(r: Record)
  {
    r.tsSec < TWO32 && r.tsFrac < TWO32 && r.origLen < TWO32 && |r.data| <= MAX_PACKET_LEN
  }

  function EncodeRecord(order: Order, r: Record): (b: bytes)
    requires Encodable(r)
    ensures |b| == RECORD_LEN + |r.data|
  {
    Put32(order, r.tsSec) + Put32(order, r.tsFrac) + Put32(order, |r.data|) + Put32(order, r.origLen) + r.data
  }

  predicate AllEncodable(rs: seq<Record>, nanosecond: bool)
  {
    forall i :: 0 <= i < |rs| ==> Encodable(rs[i]) && rs[i].nanosecond == nanosecond
  }

  function EncodeAll(order: Order, rs: seq<Record>): bytes
    requires forall i :: 0 <= i < |rs| ==> Encodable(rs[i])
  {
    if rs == [] then [] else EncodeRecord(order, rs[0]) + EncodeAll(order, rs[1..])
  }

  function SizeOf(rs: seq<Record>): nat
  {
    if rs == [] then 0 else RECORD_LEN + |rs[0].data| + SizeOf(rs[1..])
  }

  // ------------------------------------------------------------------ reading

  function MagicLookup(f: bytes): Option<(Order, bool)>
    requires |f| >= 4
  {
    if Get32(Little, f, 0) == MAGIC_USEC then Some((Little, false))
    else if Get32(Big, f, 0) == MAGIC_USEC then Some((Big, false))
    else if Get32(Little, f, 0) == MAGIC_NSEC then Some((Little, true))
    else if Get32(Big, f, 0) == MAGIC_NSEC then Some((Big, true))
    else None
  }

  function ReadGlobalHeader(f: bytes): (r: Result<GlobalHeader, PcapError>)
    ensures r.Ok? ==> |f| >= HEADER_LEN
  {
    if |f| == 0 then Err(EmptyFile)
    else if |f| < HEADER_LEN then Err(TruncatedGlobalHeader)
    else match MagicLookup(f)
      case None => Err(BadMagic)
      case Some((order, nanosecond)) =>
        var snaplen := Get32(order, f, 16);
        if snaplen == 0 || snaplen > MAX_SNAPLEN then Err(ImplausibleSnaplen)
        else Ok(GlobalHeader(order, nanosecond, snaplen, Get32(order, f, 20)))
  }

  /** `max_packets` less one; None is no limit. */
  function Less(room: Option<nat>): Option<nat>
    requires room != Some(0)
  {
    if room.None? then None else Some(room.value - 1)
  }

  /** The outcome of the record header at `pos`: how long its data is, or why it is refused. */
  function RecordLen(order: Order, f: bytes, pos: nat, fileSize: Option<nat>): (r: Result<nat, PcapError>)
    requires pos < |f|
    ensures r.Ok? ==> pos + RECORD_LEN + r.value <= |f|
  {
    if |f| - pos < RECORD_LEN then Err(TruncatedRecordHeader)
    else
      var incl := Get32(order, f, pos + 8);
      if incl > MAX_PACKET_LEN then Err(PacketTooLong)
      else if fileSize.Some? && incl > Max(fileSize.value - (pos + RECORD_LEN), 0) then Err(BeyondEndOfFile)
      else if incl > |f| - (pos + RECORD_LEN) then Err(TruncatedData)
      else Ok(incl)
  }

  function RecordAt(h: GlobalHeader, f: bytes, pos: nat, incl: nat): Record
    requires pos + RECORD_LEN + incl <= |f|
  {
    Record(Get32(h.order, f, pos), Get32(h.order, f, pos + 4), Get32(h.order, f, pos + 12),
           f[pos + RECORD_LEN..pos + RECORD_LEN + incl], h.nanosecond)
  }

  /** The stream read from `pos` on, with `room` packets still allowed. */
  function Records(h: GlobalHeader, f: bytes, pos: nat, fileSize: Option<nat>, room: Option<nat>): Stream
    requires pos <= |f|
    decreases |f| - pos
  {
    if room == Some(0) || pos == |f| then Stream([], None)
    else match RecordLen(h.order, f, pos, fileSize)
      case Err(e) => Stream([], Some(e))
      case Ok(incl) =>
        var rest := Records(h, f, pos + RECORD_LEN + incl, fileSize, Less(room));
        Stream([RecordAt(h, f, pos, incl)] + rest.records, rest.error)
  }

  lemma RecordsUnfold(h: GlobalHeader, f: bytes, pos: nat, fileSize: Option<nat>, room: Option<nat>)
    requires pos <= |f|
    ensures Records(h, f, pos, fileSize, room) ==
            if room == Some(0) || pos == |f| then Stream([], None)
            else match RecordLen(h.order, f, pos, fileSize)
              case Err(e) => Stream([], Some(e))
              case Ok(incl) =>
                var rest := Records(h, f, pos + RECORD_LEN + incl, fileSize, Less(room));
                Stream([RecordAt(h, f, pos, incl)] + rest.records, rest.error)
  {
  }

  lemma NothingRead(s: Stream)
    ensures Stream([] + s.records, s.error) == s
  {
  }

  lemma AppendOne(a: seq<Record>, r: Record, b: seq<Record>)
    ensures a + ([r] + b) == a + [r] + b
  {
  }

  /** The loop of `read_pcap_records`, from the first record to the last yield. */
  method ReadPcapRecords(f: bytes, h: GlobalHeader, start: nat, fileSize: Option<nat>, maxPackets: Option<nat>)
    returns (stream: Stream)
    requires start <= |f|
    ensures stream == Records(h, f, start, fileSize, maxPackets)
  {
    hide RecordLen, RecordAt, Records;
    var records: seq<Record> := [];
    var count, pos := 0, start;
    NothingRead(Records(h, f, start, fileSize, maxPackets));
    while true
      invariant start <= pos <= |f| && count == |records|
      invariant maxPackets.Some? ==> count <= maxPackets.value
      invariant var left := if maxPackets.None? then None else Some(maxPackets.value - count);
                var rest := Records(h, f, pos, fileSize, left);
                Records(h, f, start, fileSize, maxPackets) == Stream(records + rest.records, rest.error)
      decreases |f| - pos
    {
      ghost var left := if maxPackets.None? then None else Some(maxPackets.value - count);
      RecordsUnfold(h, f, pos, fileSize, left);
      assert records + [] == records;
      if maxPackets.Some? && count >= maxPackets.value { return Stream(records, None); }
      if pos == |f| { return Stream(records, None); }
      match RecordLen(h.order, f, pos, fileSize) {
        case Err(e) => return Stream(records, Some(e));
        case Ok(incl) =>
          ghost var rest := Records(h, f, pos + RECORD_LEN + incl, fileSize, Less(left));
          AppendOne(records, RecordAt(h, f, pos, incl), rest.records);
          records := records + [RecordAt(h, f, pos, incl)];
          pos := pos + RECORD_LEN + incl;
          count := count + 1;
      }
    }
  }

  // ------------------------------------------------------------------ properties

  /** The size of a file, when the reader is told it, is the file's. */
  predicate HonestSize(f: bytes, fileSize: Option<nat>) { fileSize.None? || fileSize.value == |f| }

  lemma MagicBytes(order: Order, nanosecond: bool)
    ensures Put32(order, if nanosecond then MAGIC_NSEC else MAGIC_USEC) ==
            if order.Big? then [0xA1, 0xB2, if nanosecond then 0x3C else 0xC3, if nanosecond then 0x4D else 0xD4]
            else [if nanosecond then 0x4D else 0xD4, if nanosecond then 0x3C else 0xC3, 0xB2, 0xA1]
  {
  }

  lemma MagicRoundTrip(order: Order, nanosecond: bool, f: bytes)
    requires |f| >= 4 && f[0..4] == Put32(order, if nanosecond then MAGIC_NSEC else MAGIC_USEC)
    ensures MagicLookup(f) == Some((order, nanosecond))
  {
    hide Put32;
    var m := Put32(order, if nanosecond then MAGIC_NSEC else MAGIC_USEC);
    MagicBytes(order, nanosecond);
    assert f[0] == m[0] && f[1] == m[1] && f[2] == m[2] && f[3] == m[3];
  }

  lemma HeaderFields(order: Order, nanosecond: bool, snaplen: nat, network: nat)
    requires snaplen < TWO32 && network < TWO32
    ensures var h := HeaderBytes(order, nanosecond, snaplen, network);
            && h[0..4] == Put32(order, if nanosecond then MAGIC_NSEC else MAGIC_USEC)
            && h[16..20] == Put32(order, snaplen) && h[20..24] == Put32(order, network)
  {
    hide Put32;
  }

  lemma HeaderRoundTrip(order: Order, nanosecond: bool, snaplen: nat, network: nat, rest: bytes)
    requires snaplen < TWO32 && network < TWO32
    ensures ReadGlobalHeader(HeaderBytes(order, nanosecond, snaplen, network) + rest)
         == if snaplen == 0 || snaplen > MAX_SNAPLEN then Err(ImplausibleSnaplen)
            else Ok(GlobalHeader(order, nanosecond, snaplen, network))
  {
    hide HeaderBytes, Put32, Get32, MagicLookup;
    var h := HeaderBytes(order, nanosecond, snaplen, network);
    var f := h + rest;
    HeaderFields(order, nanosecond, snaplen, network);
    assert f[0..4] == h[0..4] && f[16..20] == h[16..20] && f[20..24] == h[20..24];
    MagicRoundTrip(order, nanosecond, f);
    GetPut32(order, snaplen, f, 16);
    GetPut32(order, network, f, 20);
  }

  lemma RecordParts(order: Order, r: Record)
    requires Encodable(r)
    ensures var e := EncodeRecord(order, r);
            && e[0..4] == Put32(order, r.tsSec) && e[4..8] == Put32(order, r.tsFrac)
            && e[8..12] == Put32(order, |r.data|) && e[12..16] == Put32(order, r.origLen) && e[16..] == r.data
  {
  }

  /** A record written at `pos` reads back, in either byte order. */
  lemma RecordRoundTrip(h: GlobalHeader, r: Record, f: bytes, pos: nat, fileSize: Option<nat>)
    requires Encodable(r) && r.nanosecond == h.nanosecond && HonestSize(f, fileSize)
    requires pos + RECORD_LEN + |r.data| <= |f|
    requires f[pos..pos + RECORD_LEN + |r.data|] == EncodeRecord(h.order, r)
    ensures RecordLen(h.order, f, pos, fileSize) == Ok(|r.data|) && RecordAt(h, f, pos, |r.data|) == r
  {
    hide EncodeRecord, Put32, Get32;
    var e := EncodeRecord(h.order, r);
    RecordParts(h.order, r);
    SubSlice(f, pos, e, 0, 4);
    SubSlice(f, pos, e, 4, 8);
    SubSlice(f, pos, e, 8, 12);
    SubSlice(f, pos, e, 12, 16);
    SubSlice(f, pos, e, 16, |e|);
    GetPut32(h.order, r.tsSec, f, pos);
    GetPut32(h.order, r.tsFrac, f, pos + 4);
    GetPut32(h.order, |r.data|, f, pos + 8);
    GetPut32(h.order, r.origLen, f, pos + 12);
  }

  /** A record whose header is complete but whose data is cut is refused. */
  lemma CutRecordRefused(h: GlobalHeader, r: Record, f: bytes, pos: nat, fileSize: Option<nat>)
    requires Encodable(r) && HonestSize(f, fileSize)
    requires pos < |f| < pos + RECORD_LEN + |r.data|
    requires f[pos..] == EncodeRecord(h.order, r)[..|f| - pos]
    ensures RecordLen(h.order, f, pos, fileSize).Err?
  {
    hide EncodeRecord, Put32, Get32;
    if |f| - pos >= RECORD_LEN {
      RecordParts(h.order, r);
      var e := EncodeRecord(h.order, r);
      SubSlice(f, pos, e[..|f| - pos], 8, 12);
      assert e[..|f| - pos][8..12] == e[8..12];
      GetPut32(h.order, |r.data|, f, pos + 8);
    }
  }

  lemma {:induction false} EncodedSize(order: Order, rs: seq<Record>)
    requires forall i :: 0 <= i < |rs| ==> Encodable(rs[i])
    ensures |EncodeAll(order, rs)| == SizeOf(rs)
  {
    if rs != [] { EncodedSize(order, rs[1..]); }
  }

  /** How many whole records the first `k` bytes of an encoding hold. */
  function Whole(rs: seq<Record>, k: nat): (n: nat)
    ensures n <= |rs|
    ensures SizeOf(rs[..n]) <= k
    ensures n < |rs| ==> k < SizeOf(rs[..n + 1])
  {
    if rs == [] || k < RECORD_LEN + |rs[0].data| then
      assert rs != [] ==> rs[..1][1..] == [];
      0
    else
      var n := 1 + Whole(rs[1..], k - RECORD_LEN - |rs[0].data|);
      assert rs[..n][1..] == rs[1..][..n - 1];
      assert n < |rs| ==> rs[..n + 1][1..] == rs[1..][..n];
      n
  }

  /** The stream of an encoding cut after `k` of its bytes: exactly the whole records, as far as the packet cap
      allows, then an error unless the cut is on a record boundary or the cap was reached first. */
  ghost predicate IsCutStream(s: Stream, rs: seq<Record>, k: nat, room: Option<nat>)
  {
    var n := Whole(rs, k);
    if room.Some? && room.value <= n then s == Stream(rs[..room.value], None)
    else s.records == rs[..n] && (s.error.None? <==> k == SizeOf(rs[..n]))
  }

  /** Cutting a written file at any byte after its header, in either byte order and resolution. */
  lemma {:induction false} CutFileReads(
    h: GlobalHeader, before: bytes, rs: seq<Record>, k: nat, fileSize: Option<nat>, room: Option<nat>)
    requires AllEncodable(rs, h.nanosecond)
    requires k <= |EncodeAll(h.order, rs)|
    requires var f := before + EncodeAll(h.order, rs)[..k]; HonestSize(f, fileSize)
    ensures var f := before + EncodeAll(h.order, rs)[..k];
            IsCutStream(Records(h, f, |before|, fileSize, room), rs, k, room)
    decreases |rs|
  {
    hide EncodeRecord, RecordAt, RecordLen, IsCutStream, Records, EncodeAll, Encodable;
    var f, pos := before + EncodeAll(h.order, rs)[..k], |before|;
    RecordsUnfold(h, f, pos, fileSize, room);
    EncodeCons(h.order, rs);
    if room != Some(0) && k != 0 {
      var first, tail := EncodeRecord(h.order, rs[0]), EncodeAll(h.order, rs[1..]);
      if k >= |first| {
        assert f == (before + first) + tail[..k - |first|];
        assert f[pos..pos + |first|] == first;
        RecordRoundTrip(h, rs[0], f, pos, fileSize);
        CutFileReads(h, before + first, rs[1..], k - |first|, fileSize, Less(room));
        ConsCutStream(Records(h, f, pos + |first|, fileSize, Less(room)), rs, k, room);
      } else {
        assert f[pos..] == first[..k];
        CutRecordRefused(h, rs[0], f, pos, fileSize);
        EmptyCutStream(rs, k, room, RecordLen(h.order, f, pos, fileSize).error);
      }
    } else {
      EmptyCutStream(rs, k, room, TruncatedData);
    }
  }

  lemma EncodeCons(order: Order, rs: seq<Record>)
    requires forall i :: 0 <= i < |rs| ==> Encodable(rs[i])
    ensures rs == [] ==> EncodeAll(order, rs) == []
    ensures rs != [] ==> EncodeAll(order, rs) == EncodeRecord(order, rs[0]) + EncodeAll(order, rs[1..])
  {
  }

  lemma EmptyCutStream(rs: seq<Record>, k: nat, room: Option<nat>, e: PcapError)
    requires Whole(rs, k) == 0 || room == Some(0)
    ensures room == Some(0) || k == 0 ==> IsCutStream(Stream([], None), rs, k, room)
    ensures room != Some(0) && k != 0 ==> IsCutStream(Stream([], Some(e)), rs, k, room)
  {
  }

  lemma ConsCutStream(s: Stream, rs: seq<Record>, k: nat, room: Option<nat>)
    requires rs != [] && RECORD_LEN + |rs[0].data| <= k && room != Some(0)
    requires IsCutStream(s, rs[1..], k - RECORD_LEN - |rs[0].data|, Less(room))
    ensures IsCutStream(Stream([rs[0]] + s.records, s.error), rs, k, room)
  {
    var n := Whole(rs, k);
    assert rs[..n] == [rs[0]] + rs[1..][..n - 1];
    assert rs[..n][1..] == rs[1..][..n - 1];
    if room.Some? && room.value <= n { assert rs[..room.value] == [rs[0]] + rs[1..][..room.value - 1]; }
  }

  /** The stream read at `pos` is the exact encoding of what follows, up to where it ends. */
  ghost predicate IsExact(h: GlobalHeader, f: bytes, pos: nat, s: Stream)
  {
    var end := pos + SizeOf(s.records);
    && AllEncodable(s.records, h.nanosecond)
    && end <= |f|
    && f[pos..end] == EncodeAll(h.order, s.records)
    && (s.error.None? <==> end == |f|)
  }

  /** Hostile input: whatever the bytes, the records read are the exact encoding of a prefix of them, and the
      reader ends without an error exactly when that prefix is the whole rest of the file. */
  lemma {:induction false} ReadIsExact(h: GlobalHeader, f: bytes, pos: nat, fileSize: Option<nat>)
    requires pos <= |f| && HonestSize(f, fileSize)
    ensures IsExact(h, f, pos, Records(h, f, pos, fileSize, None))
    decreases |f| - pos
  {
    hide EncodeRecord, RecordAt, IsExact;
    if pos == |f| {
      EmptyExact(h, f, pos, None);
    } else {
      match RecordLen(h.order, f, pos, fileSize)
      case Err(e) => EmptyExact(h, f, pos, Some(e));
      case Ok(incl) =>
        ReadIsExact(h, f, pos + RECORD_LEN + incl, fileSize);
        RecordBytes(h, f, pos, incl);
        ConsExact(h, f, pos, RecordAt(h, f, pos, incl), Records(h, f, pos + RECORD_LEN + incl, fileSize, None));
    }
  }

  lemma EmptyExact(h: GlobalHeader, f: bytes, pos: nat, error: Option<PcapError>)
    requires pos <= |f| && (error.None? <==> pos == |f|)
    ensures IsExact(h, f, pos, Stream([], error))
  {
  }

  lemma ConsExact(h: GlobalHeader, f: bytes, pos: nat, r: Record, s: Stream)
    requires Encodable(r) && r.nanosecond == h.nanosecond
    requires var next := pos + RECORD_LEN + |r.data|;
             next <= |f| && f[pos..next] == EncodeRecord(h.order, r) && IsExact(h, f, next, s)
    ensures IsExact(h, f, pos, Stream([r] + s.records, s.error))
  {
    hide EncodeRecord;
    var next := pos + RECORD_LEN + |r.data|;
    var end := next + SizeOf(s.records);
    assert ([r] + s.records)[1..] == s.records;
    assert f[pos..next] + f[next..end] == f[pos..end];
  }

  lemma RecordBytes(h: GlobalHeader, f: bytes, pos: nat, incl: nat)
    requires pos + RECORD_LEN + incl <= |f| && incl <= MAX_PACKET_LEN && Get32(h.order, f, pos + 8) == incl
    ensures var r := RecordAt(h, f, pos, incl);
            Encodable(r) && r.nanosecond == h.nanosecond && |r.data| == incl
    ensures EncodeRecord(h.order, RecordAt(h, f, pos, incl)) == f[pos..pos + RECORD_LEN + incl]
  {
    hide Put32, Get32;
    Put32Get32(h.order, f, pos);
    Put32Get32(h.order, f, pos + 4);
    Put32Get32(h.order, f, pos + 8);
    Put32Get32(h.order, f, pos + 12);
    var end := pos + RECORD_LEN + incl;
    assert f[pos..pos + 4] + f[pos + 4..pos + 8] + f[pos + 8..pos + 12] + f[pos + 12..pos + 16] + f[pos + 16..end]
        == f[pos..end];
  }
}
