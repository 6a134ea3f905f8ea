/** The pcapng reader (draft-ietf-opsawg-pcapng sections 3.1 and 4.1 to 4.3) as a scan over blocks that carries
    the byte order, the interface list and the first interface seen. Sections declared in the other byte order
    follow the code, which reads a block's length before it knows the order. */
module PcapNg {
  import opened Wrappers
  import opened Bytes
  import opened PcapFormat

  const BT_SECTION_HEADER := 0x0A0D0D0A
  const BT_INTERFACE := 1
  const BT_PACKET := 6
  const BYTE_ORDER_MAGIC := 0x1A2B3C4D
  const BYTE_ORDER_SWAPPED := 0x4D3C2B1A
  const MIN_BLOCK := 12
  const MAX_BLOCK := 16 * 1024 * 1024
  const DEFAULT_SNAPLEN := 262144
  const BILLION := 1_000_000_000

  datatype Interface = Interface(linktype: nat, snaplen: nat, nsPerUnit: real)

  /** `meta` is the first interface described so far: its link type and snap length. */
  datatype State = State(order: Order, interfaces: seq<Interface>, meta: Option<(nat, nat)>)

  const INITIAL := State(Little, [], None)

  // ------------------------------------------------------------------ interface options

  function Power(b: real, n: nat): real { if n == 0 then 1.0 else b * Power(b, n - 1) }

  lemma {:induction false} PowerPositive(b: real, n: nat)
    requires b > 0.0
    ensures Power(b, n) > 0.0
  {
    if n > 0 { PowerPositive(b, n - 1); }
  }

  /** Nanoseconds per timestamp unit for one `if_tsresol` byte: a negative power of two when the high bit is
      set, of ten otherwise. */
  function Resolution(b: byte): (ns: real)
    ensures ns > 0.0
  {
    PowerPositive(2.0, b % 0x80);
    PowerPositive(10.0, b);
    BILLION as real / if b >= 0x80 then Power(2.0, b % 0x80) else Power(10.0, b)
  }

  /** Nanoseconds per unit after the options from `off` on, starting from `ns`. */
  function TsResol(options: bytes, order: Order, off: nat, ns: real): real
    requires off <= |options|
    decreases |options| - off
  {
    if off + 4 > |options| then ns
    else
      var code, length := Get16(order, options, off), Get16(order, options, off + 2);
      var padded := (length + 3) / 4 * 4;
      if (code == 0 && length == 0) || off + 4 + padded > |options| then ns
      else TsResol(options, order, off + 4 + padded,
                   if code == 9 && length >= 1 then Resolution(options[off + 4]) else ns)
  }

  /** The loop of `_parse_if_tsresol`. */
  method ParseIfTsResol(options: bytes, order: Order) returns (ns: real)
    ensures ns == TsResol(options, order, 0, 1000.0)
  {
    ns := 1000.0;
    var off := 0;
    while off + 4 <= |options|
      invariant off <= |options|
      invariant TsResol(options, order, off, ns) == TsResol(options, order, 0, 1000.0)
    {
      var code, length := Get16(order, options, off), Get16(order, options, off + 2);
      if code == 0 && length == 0 { break; }
      var padded := (length + 3) / 4 * 4;
      if off + 4 + padded > |options| { break; }
      if code == 9 && length >= 1 { ns := Resolution(options[off + 4]); }
      off := off + 4 + padded;
    }
  }

  /** An option of a block: its code and its value. */
  datatype BlockOption = BlockOption(code: nat, value: bytes)

  /** The options up to the end marker, the end of the bytes or the first option that is cut. */
  function Options(bs: bytes, order: Order): seq<BlockOption>
  {
    if |bs| < 4 then []
    else
      var code, length := Get16(order, bs, 0), Get16(order, bs, 2);
      var padded := (length + 3) / 4 * 4;
      if (code == 0 && length == 0) || 4 + padded > |bs| then []
      else [BlockOption(code, bs[4..4 + length])] + Options(bs[4 + padded..], order)
  }

  predicate GivesResolution(o: BlockOption) { o.code == 9 && o.value != [] }

  /** Writing options, each padded to four bytes. */
  function OptionBytes(o: BlockOption, order: Order): bytes
    requires o.code < TWO16 && |o.value| < TWO16
  {
    var n := |o.value|;
    Put16(order, o.code) + Put16(order, n) + o.value + Zeros((n + 3) / 4 * 4 - n)
  }

  function EncodeOptions(options: seq<BlockOption>, order: Order): bytes
    requires forall i :: 0 <= i < |options| ==> options[i].code < TWO16 && |options[i].value| < TWO16
  {
    if options == [] then [] else OptionBytes(options[0], order) + EncodeOptions(options[1..], order)
  }

  /** Options written in either byte order, with or without an end marker after them, are the ones found. */
  lemma {:induction false} OptionsReadBack(options: seq<BlockOption>, order: Order, rest: bytes)
    requires forall i :: 0 <= i < |options| ==> options[i].code < TWO16 && |options[i].value| < TWO16
    requires forall i :: 0 <= i < |options| ==> options[i].code != 0 || options[i].value != []
    requires |rest| < 4 || (Get16(order, rest, 0) == 0 && Get16(order, rest, 2) == 0)
    ensures Options(EncodeOptions(options, order) + rest, order) == options
  {
    hide Put16, Get16, OptionBytes, Options;
    if options == [] {
      assert EncodeOptions(options, order) + rest == rest;
      OptionsEnd(rest, order);
    } else {
      OptionsReadBack(options[1..], order, rest);
      var tail := EncodeOptions(options[1..], order) + rest;
      OptionReads(options[0], order, tail);
      assert EncodeOptions(options, order) + rest == OptionBytes(options[0], order) + tail;
    }
  }

  lemma OptionsEnd(rest: bytes, order: Order)
    requires |rest| < 4 || (Get16(order, rest, 0) == 0 && Get16(order, rest, 2) == 0)
    ensures Options(rest, order) == []
  {
    hide Get16;
  }

  lemma OptionReads(o: BlockOption, order: Order, tail: bytes)
    requires o.code < TWO16 && |o.value| < TWO16 && (o.code != 0 || o.value != [])
    ensures Options(OptionBytes(o, order) + tail, order) == [o] + Options(tail, order)
  {
    hide Put16, Get16;
    var n := |o.value|;
    var bs := OptionBytes(o, order) + tail;
    assert bs[0..2] == Put16(order, o.code) && bs[2..4] == Put16(order, n);
    GetPut16(order, o.code, bs, 0);
    GetPut16(order, n, bs, 2);
    assert bs[4..4 + n] == o.value && bs[4 + (n + 3) / 4 * 4..] == tail;
  }

  predicate NoResolution(options: seq<BlockOption>)
  {
    forall i :: 0 <= i < |options| ==> !GivesResolution(options[i])
  }

  predicate LastResolution(options: seq<BlockOption>, k: nat)
  {
    k < |options| && GivesResolution(options[k]) && NoResolution(options[k + 1..])
  }

  /** The last option that gives a resolution decides; without one a unit is a microsecond. */
  lemma LastResolutionDecides(bs: bytes, order: Order)
    ensures NoResolution(Options(bs, order)) ==> TsResol(bs, order, 0, 1000.0) == 1000.0
    ensures forall k: nat :: LastResolution(Options(bs, order), k) ==>
                TsResol(bs, order, 0, 1000.0) == Resolution(Options(bs, order)[k].value[0])
  {
    assert bs[0..] == bs;
    if NoResolution(Options(bs, order)) { NoneFrom(bs, order, 0, 1000.0); }
    forall k: nat | LastResolution(Options(bs, order), k)
      ensures TsResol(bs, order, 0, 1000.0) == Resolution(Options(bs, order)[k].value[0])
    {
      LastFrom(bs, order, 0, 1000.0, k);
    }
  }

  lemma {:induction false} NoneFrom(bs: bytes, order: Order, off: nat, ns: real)
    requires off <= |bs| && NoResolution(Options(bs[off..], order))
    ensures TsResol(bs, order, off, ns) == ns
    decreases |bs| - off
  {
    hide Get16, Resolution, NoResolution, Options;
    if off + 4 <= |bs| {
      var next := off + 4 + (Get16(order, bs, off + 2) + 3) / 4 * 4;
      if OptionAt(bs, order, off) {
        var later := Options(bs[next..], order);
        OptionsUnfold(bs, order, off);
        NoneTail(Options(bs[off..], order), later);
        NoneFrom(bs, order, next, ns);
      }
    }
  }

  lemma {:induction false} LastFrom(bs: bytes, order: Order, off: nat, ns: real, k: nat)
    requires off <= |bs| && LastResolution(Options(bs[off..], order), k)
    ensures TsResol(bs, order, off, ns) == Resolution(Options(bs[off..], order)[k].value[0])
    decreases |bs| - off
  {
    hide Get16, Resolution, NoResolution, Options;
    var options := Options(bs[off..], order);
    OptionsUnfold(bs, order, off);
    var next := off + 4 + (Get16(order, bs, off + 2) + 3) / 4 * 4;
    var later := Options(bs[next..], order);
    var chosen := if GivesResolution(options[0]) then Resolution(options[0].value[0]) else ns;
    if k == 0 {
      assert options[1..] == later;
      NoneFrom(bs, order, next, chosen);
    } else {
      assert options[k + 1..] == later[k..];
      LastFrom(bs, order, next, chosen, k - 1);
    }
  }

  /** A whole option stands at `off`, and is not the end marker. */
  predicate OptionAt(bs: bytes, order: Order, off: nat)
  {
    off + 4 <= |bs| &&
      var code, length := Get16(order, bs, off), Get16(order, bs, off + 2);
      (code != 0 || length != 0) && off + 4 + (length + 3) / 4 * 4 <= |bs|
  }

  lemma OptionsUnfold(bs: bytes, order: Order, off: nat)
    requires off <= |bs|
    ensures !OptionAt(bs, order, off) ==> Options(bs[off..], order) == []
    ensures OptionAt(bs, order, off) ==>
              var length := Get16(order, bs, off + 2);
              var o := BlockOption(Get16(order, bs, off), bs[off + 4..off + 4 + length]);
              Options(bs[off..], order) == [o] + Options(bs[off + 4 + (length + 3) / 4 * 4..], order)
  {
    hide Get16, Options;
    OptionsHead(bs[off..], order);
    if off + 4 <= |bs| {
      SameField(bs, order, off, 0);
      SameField(bs, order, off, 2);
      if OptionAt(bs, order, off) {
        var length := Get16(order, bs, off + 2);
        var padded := (length + 3) / 4 * 4;
        SliceOfRest(bs, off, 4, 4 + length);
        assert bs[off..][4 + padded..] == bs[off + 4 + padded..];
      }
    }
  }

  lemma SliceOfRest(bs: bytes, off: nat, i: nat, j: nat)
    requires i <= j && off + j <= |bs|
    ensures bs[off..][i..j] == bs[off + i..off + j]
  {
  }

  lemma OptionsHead(bs: bytes, order: Order)
    ensures Options(bs, order) ==
            if OptionAt(bs, order, 0)
            then var length := Get16(order, bs, 2);
                 [BlockOption(Get16(order, bs, 0), bs[4..4 + length])] + Options(bs[4 + (length + 3) / 4 * 4..], order)
            else []
  {
    hide Get16;
  }

  lemma NoneTail(options: seq<BlockOption>, later: seq<BlockOption>)
    requires options != [] && options[1..] == later && NoResolution(options)
    ensures NoResolution(later) && !GivesResolution(options[0])
  {
    assert forall i :: 0 <= i < |later| ==> later[i] == options[i + 1];
  }

  lemma SameField(bs: bytes, order: Order, off: nat, i: nat)
    requires off + i + 2 <= |bs|
    ensures Get16(order, bs[off..], i) == Get16(order, bs, off + i)
  {
  }

  // ------------------------------------------------------------------ one block

  /** The length of the block that starts `rest`, or why it is refused. `sized`: the reader was told the size
      of the file. */
  function BlockLen(order: Order, rest: bytes, sized: bool): (r: Result<nat, PcapError>)
    ensures r.Ok? ==> MIN_BLOCK <= r.value <= |rest|
  {
    if |rest| < 8 then Err(TruncatedBlock)
    else
      var len := Get32(order, rest, 4);
      if len < MIN_BLOCK || len % 4 != 0 then Err(BadBlockLength)
      else if len > MAX_BLOCK then Err(BlockTooLong)
      else if sized && len - 8 > Max(|rest| - 8, 0) then Err(BeyondEndOfFile)
      else if len > |rest| then Err(TruncatedData)
      else if Get32(order, rest, len - 4) != len then Err(LengthMismatch)
      else Ok(len)
  }

  /** A timestamp of `units` on an interface: whole seconds, the fraction in nanoseconds. */
  function SplitTime(units: nat, nsPerUnit: real): (t: (nat, nat))
    requires nsPerUnit > 0.0
    ensures t.1 < BILLION && t.0 * BILLION + t.1 == (units as real * nsPerUnit).Floor
  {
    var total := units as real * nsPerUnit;
    var sec := (total / BILLION as real).Floor;
    var part := total - (sec * BILLION) as real;
    assert sec as real <= total / BILLION as real < sec as real + 1.0;
    assert 0.0 <= part < BILLION as real;
    (sec, part.Floor)
  }

  function NsPerUnit(st: State, interfaceId: nat): (ns: real)
  {
    if interfaceId < |st.interfaces| then st.interfaces[interfaceId].nsPerUnit else 1000.0
  }

  ghost predicate ValidState(st: State) { forall i :: 0 <= i < |st.interfaces| ==> st.interfaces[i].nsPerUnit > 0.0 }

  function PacketRecord(st: State, body: bytes, capLen: nat): Record
    requires ValidState(st) && 20 + capLen <= |body|
  {
    var ns := NsPerUnit(st, Get32(st.order, body, 0));
    var units := Get32(st.order, body, 4) * TWO32 + Get32(st.order, body, 8);
    var (sec, frac) := SplitTime(units, ns);
    Record(sec, if ns < 1000.0 then frac else frac / 1000, Get32(st.order, body, 16),
           body[20..20 + capLen], ns < 1000.0)
  }

  /** What a block's body does to the state, and the packet it yields. Other block types do nothing. */
  function Interpret(st: State, btype: nat, body: bytes): (r: Result<(State, Option<Record>), PcapError>)
    requires ValidState(st)
    ensures r.Ok? ==> ValidState(r.value.0)
  {
    if btype == BT_SECTION_HEADER then
      if |body| < 16 then Err(TruncatedBody)
      else
        var magic := Get32(Little, body, 0);
        if magic == BYTE_ORDER_MAGIC then Ok((st.(order := Little, interfaces := []), None))
        else if magic == BYTE_ORDER_SWAPPED then Ok((st.(order := Big, interfaces := []), None))
        else Err(BadByteOrderMagic)
    else if btype == BT_INTERFACE then
      if |body| < 8 then Err(TruncatedBody)
      else
        var linktype, snaplen := Get16(st.order, body, 0), Get32(st.order, body, 4);
        if snaplen > MAX_SNAPLEN then Err(ImplausibleSnaplen)
        else
          var kept := if snaplen == 0 then DEFAULT_SNAPLEN else snaplen;
          TsResolPositive(body[8..], st.order, 0, 1000.0);
          Ok((st.(interfaces := st.interfaces + [Interface(linktype, kept, TsResol(body[8..], st.order, 0, 1000.0))],
                  meta := if st.meta.None? then Some((linktype, kept)) else st.meta), None))
    else if btype == BT_PACKET then
      if |body| < 20 then Err(TruncatedBody)
      else
        var capLen := Get32(st.order, body, 12);
        if capLen > MAX_PACKET_LEN then Err(PacketTooLong)
        else if 20 + (capLen + 3) / 4 * 4 > |body| then Err(DataExceedsBlock)
        else Ok((st, Some(PacketRecord(st, body, capLen))))
    else Ok((st, None))
  }

  lemma {:induction false} TsResolPositive(options: bytes, order: Order, off: nat, ns: real)
    requires off <= |options| && ns > 0.0
    ensures TsResol(options, order, off, ns) > 0.0
    decreases |options| - off
  {
    if off + 4 <= |options| {
      var code, length := Get16(order, options, off), Get16(order, options, off + 2);
      var padded := (length + 3) / 4 * 4;
      if !(code == 0 && length == 0) && off + 4 + padded <= |options| {
        TsResolPositive(options, order, off + 4 + padded,
                        if code == 9 && length >= 1 then Resolution(options[off + 4]) else ns);
      }
    }
  }

  /** Frame and interpret the block that starts `rest`: its length, the next state and the packet, if any. */
  function Step(st: State, rest: bytes, sized: bool): (r: Result<(nat, State, Option<Record>), PcapError>)
    requires ValidState(st)
    ensures r.Ok? ==> MIN_BLOCK <= r.value.0 <= |rest| && ValidState(r.value.1)
  {
    match BlockLen(st.order, rest, sized)
    case Err(e) => Err(e)
    case Ok(len) =>
      match Interpret(st, Get32(st.order, rest, 0), rest[8..len - 4])
      case Err(e) => Err(e)
      case Ok((next, packet)) => Ok((len, next, packet))
  }

  // ------------------------------------------------------------------ the scan

  function Cons(packet: Option<Record>, s: Stream): Stream
  {
    if packet.None? then s else Stream([packet.value] + s.records, s.error)
  }

  /** `count` packets yielded so far leave this much room. */
  function Left(room: Option<nat>, packet: Option<Record>): Option<nat>
    requires room != Some(0)
  {
    if packet.None? then room else Less(room)
  }

  function Scan(st: State, rest: bytes, sized: bool, room: Option<nat>): Stream
    requires ValidState(st)
    decreases |rest|
  {
    if room == Some(0) || rest == [] then Stream([], None)
    else match Step(st, rest, sized)
      case Err(e) => Stream([], Some(e))
      case Ok((len, next, packet)) => Cons(packet, Scan(next, rest[len..], sized, Left(room, packet)))
  }

  /** The first interface known when the first packet comes out, or when the file ends without one. */
  function FirstMeta(st: State, rest: bytes, sized: bool): Option<(nat, nat)>
    requires ValidState(st)
    decreases |rest|
  {
    if rest == [] then st.meta
    else match Step(st, rest, sized)
      case Err(e) => st.meta
      case Ok((len, next, packet)) => if packet.Some? then next.meta else FirstMeta(next, rest[len..], sized)
  }

  predicate IsPcapng(f: bytes)
  {
    |f| >= 4 && (Get32(Little, f, 0) == BT_SECTION_HEADER || Get32(Big, f, 0) == BT_SECTION_HEADER)
  }

  /** The link type reported and the packet stream; an error before the first packet is raised at once. */
  function Pcapng(f: bytes, sized: bool, room: Option<nat>): Result<(nat, Stream), PcapError>
  {
    if !IsPcapng(f) then Err(BadMagic)
    else
      var s := Scan(INITIAL, f, sized, room);
      if s.records == [] && s.error.Some? then Err(s.error.value)
      else
        var meta := if room == Some(0) then None else FirstMeta(INITIAL, f, sized);
        Ok((if meta.None? then 1 else meta.value.0, s))
  }

  /** Mid-scan: `records` are out, the reader stands at `pos` in state `st`, `meta` is what was known when the
      first packet came out. */
  ghost predicate Reading(f: bytes, sized: bool, room: Option<nat>, st: State, pos: nat, records: seq<Record>,
                          meta: Option<(nat, nat)>)
  {
    && pos <= |f| && ValidState(st) && (room.Some? ==> |records| <= room.value)
    && (var rest := Scan(st, f[pos..], sized, if room.None? then None else Some(room.value - |records|));
        Scan(INITIAL, f, sized, room) == Stream(records + rest.records, rest.error))
    && FirstMeta(INITIAL, f, sized) == (if records == [] then FirstMeta(st, f[pos..], sized) else meta)
  }

  lemma OtherMagic(f: bytes, sized: bool, room: Option<nat>)
    ensures !IsPcapng(f) ==> Pcapng(f, sized, room) == Err(BadMagic)
  {
  }

  lemma ReadingStarts(f: bytes, sized: bool, room: Option<nat>)
    ensures ValidState(INITIAL) && Reading(f, sized, room, INITIAL, 0, [], None)
  {
    hide Step;
    assert f[0..] == f;
  }

  lemma ReadingStep(f: bytes, sized: bool, room: Option<nat>, st: State, pos: nat, records: seq<Record>,
                    meta: Option<(nat, nat)>)
    requires Reading(f, sized, room, st, pos, records, meta) && pos < |f|
    requires (room.Some? ==> |records| < room.value) && Step(st, f[pos..], sized).Ok?
    ensures var (len, next, packet) := Step(st, f[pos..], sized).value;
            Reading(f, sized, room, next, pos + len, if packet.None? then records else records + [packet.value],
                    if packet.Some? && records == [] then next.meta else meta)
  {
    hide Step;
    var (len, next, packet) := Step(st, f[pos..], sized).value;
    var left := if room.None? then None else Some(room.value - |records|);
    assert f[pos..][len..] == f[pos + len..];
    if packet.Some? {
      var rest := Scan(next, f[pos + len..], sized, Less(left));
      assert records + ([packet.value] + rest.records) == records + [packet.value] + rest.records;
    }
  }

  /** The three ways the scan ends: the cap, the end of the file, a refused block. */
  lemma ReadingEnds(f: bytes, sized: bool, room: Option<nat>, st: State, pos: nat, records: seq<Record>,
                    meta: Option<(nat, nat)>, error: Option<PcapError>)
    requires Reading(f, sized, room, st, pos, records, meta) && IsPcapng(f)
    requires room == Some(0) ==> st == INITIAL
    requires if room == Some(|records|) || pos == |f| then error.None?
             else error.Some? && Step(st, f[pos..], sized) == Err(error.value)
    ensures Pcapng(f, sized, room) ==
            if records == [] && error.Some? then Err(error.value)
            else
              var known := if records == [] then st.meta else meta;
              Ok((if known.None? then 1 else known.value.0, Stream(records, error)))
  {
    hide Step, IsPcapng;
    assert records + [] == records;
  }

  /** `read_pcapng` drained by its caller. */
  method ReadPcapng(f: bytes, sized: bool, maxPackets: Option<nat>) returns (r: Result<(nat, Stream), PcapError>)
    ensures r == Pcapng(f, sized, maxPackets)
  {
    hide Step, Reading, Scan, FirstMeta, Pcapng, IsPcapng, ValidState;
    if !IsPcapng(f) { OtherMagic(f, sized, maxPackets); return Err(BadMagic); }
    var st, pos := INITIAL, 0;
    var records: seq<Record> := [];
    var error: Option<PcapError> := None;
    var meta: Option<(nat, nat)> := None;
    ReadingStarts(f, sized, maxPackets);
    while !(maxPackets.Some? && |records| >= maxPackets.value) && pos < |f| && error.None?
      invariant pos <= |f| && ValidState(st) && Reading(f, sized, maxPackets, st, pos, records, meta)
      invariant maxPackets.Some? ==> |records| <= maxPackets.value
      invariant maxPackets == Some(0) ==> st == INITIAL
      invariant error.Some? ==> pos < |f| && maxPackets != Some(|records|)
      invariant error.Some? ==> Step(st, f[pos..], sized) == Err(error.value)
      decreases |f| - pos, error.None?
    {
      match Step(st, f[pos..], sized) {
        case Err(e) => error := Some(e);
        case Ok((len, next, packet)) =>
          ReadingStep(f, sized, maxPackets, st, pos, records, meta);
          if packet.Some? {
            if records == [] { meta := next.meta; }
            records := records + [packet.value];
          }
          st, pos := next, pos + len;
      }
    }
    ReadingEnds(f, sized, maxPackets, st, pos, records, meta, error);
    if records == [] && error.Some? { return Err(error.value); }
    var known := if records == [] then st.meta else meta;
    return Ok((if known.None? then 1 else known.value.0, Stream(records, error)));
  }

  // ------------------------------------------------------------------ properties

  /** The state after bytes that are nothing but whole, acceptable blocks. */
  function After(st: State, a: bytes, sized: bool): (end: State)
    requires ValidState(st) && Scan(st, a, sized, None).error.None?
    ensures ValidState(end)
    decreases |a|
  {
    if a == [] then st
    else
      var (len, next, packet) := Step(st, a, sized).value;
      After(next, a[len..], sized)
  }

  lemma StepAppend(st: State, a: bytes, b: bytes, sized: bool)
    requires ValidState(st) && Step(st, a, sized).Ok?
    ensures Step(st, a + b, sized) == Step(st, a, sized)
  {
    hide Interpret;
    var len := BlockLen(st.order, a, sized).value;
    GetAppend(st.order, a, b, 0);
    GetAppend(st.order, a, b, 4);
    GetAppend(st.order, a, b, len - 4);
    assert (a + b)[8..len - 4] == a[8..len - 4];
  }

  lemma GetAppend(order: Order, a: bytes, b: bytes, i: nat)
    requires i + 4 <= |a|
    ensures Get32(order, a + b, i) == Get32(order, a, i)
  {
  }

  /** What follows whole blocks is read exactly as if the reader had started there in the state they leave. */
  lemma {:induction false} ScanAppend(st: State, a: bytes, b: bytes, sized: bool)
    requires ValidState(st) && Scan(st, a, sized, None).error.None?
    ensures var rest := Scan(After(st, a, sized), b, sized, None);
            Scan(st, a + b, sized, None) == Stream(Scan(st, a, sized, None).records + rest.records, rest.error)
    decreases |a|
  {
    hide Step, ValidState;
    if a == [] {
      assert a + b == b;
      assert [] + Scan(st, b, sized, None).records == Scan(st, b, sized, None).records;
    } else {
      var (len, next, packet) := Step(st, a, sized).value;
      StepAppend(st, a, b, sized);
      assert (a + b)[len..] == a[len..] + b;
      ScanAppend(next, a[len..], b, sized);
      var s, rest := Scan(next, a[len..], sized, None), Scan(After(next, a[len..], sized), b, sized, None);
      assert Scan(st, a + b, sized, None) == Cons(packet, Stream(s.records + rest.records, rest.error));
      ConsJoin(packet, s.records, rest);
    }
  }

  lemma ConsJoin(packet: Option<Record>, first: seq<Record>, rest: Stream)
    ensures Cons(packet, Stream(first + rest.records, rest.error))
         == Stream(Cons(packet, Stream(first, None)).records + rest.records, rest.error)
  {
    if packet.Some? { assert [packet.value] + (first + rest.records) == [packet.value] + first + rest.records; }
  }

  /** Two tails the reader cannot tell apart from the state whole blocks leave are not told apart after them. */
  lemma {:induction false} SameTail(st: State, a: bytes, b: bytes, c: bytes, sized: bool, room: Option<nat>)
    requires ValidState(st) && Scan(st, a, sized, None).error.None?
    requires var end := After(st, a, sized);
             && FirstMeta(end, b, sized) == FirstMeta(end, c, sized)
             && forall r :: Scan(end, b, sized, r) == Scan(end, c, sized, r)
    ensures Scan(st, a + b, sized, room) == Scan(st, a + c, sized, room)
    ensures FirstMeta(st, a + b, sized) == FirstMeta(st, a + c, sized)
    decreases |a|
  {
    hide Step, ValidState;
    if a == [] {
      assert a + b == b && a + c == c;
    } else {
      var (len, next, packet) := Step(st, a, sized).value;
      StepAppend(st, a, b, sized);
      StepAppend(st, a, c, sized);
      assert (a + b)[len..] == a[len..] + b && (a + c)[len..] == a[len..] + c;
      SameTail(next, a[len..], b, c, sized, if room == Some(0) then None else Left(room, packet));
    }
  }

  /** A well-framed block in a given byte order. */
  function EncodeBlock(order: Order, btype: nat, body: bytes): (b: bytes)
    requires btype < TWO32 && |body| % 4 == 0 && MIN_BLOCK + |body| <= MAX_BLOCK
  {
    var len := Put32(order, MIN_BLOCK + |body|);
    Put32(order, btype) + len + body + len
  }

  lemma UnknownBlockStep(st: State, btype: nat, body: bytes, b: bytes, sized: bool)
    requires ValidState(st)
    requires btype < TWO32 && btype !in {BT_SECTION_HEADER, BT_INTERFACE, BT_PACKET}
    requires |body| % 4 == 0 && MIN_BLOCK + |body| <= MAX_BLOCK
    ensures Step(st, EncodeBlock(st.order, btype, body) + b, sized) == Ok((MIN_BLOCK + |body|, st, None))
  {
    hide Put32, Get32, EncodeBlock;
    var rest := EncodeBlock(st.order, btype, body) + b;
    BlockParts(st.order, btype, body, b);
    GetPut32(st.order, btype, rest, 0);
    GetPut32(st.order, MIN_BLOCK + |body|, rest, 4);
    GetPut32(st.order, MIN_BLOCK + |body|, rest, 8 + |body|);
  }

  lemma BlockParts(order: Order, btype: nat, body: bytes, b: bytes)
    requires btype < TWO32 && |body| % 4 == 0 && MIN_BLOCK + |body| <= MAX_BLOCK
    ensures var f, len := EncodeBlock(order, btype, body) + b, Put32(order, MIN_BLOCK + |body|);
            && |f| == MIN_BLOCK + |body| + |b| && f[MIN_BLOCK + |body|..] == b
            && f[0..4] == Put32(order, btype) && f[4..8] == len && f[8 + |body|..12 + |body|] == len
  {
    hide Put32;
    var e, len := EncodeBlock(order, btype, body), Put32(order, MIN_BLOCK + |body|);
    assert |Put32(order, btype)| == |len| == 4;
    assert e[0..4] == Put32(order, btype) && e[4..8] == len && e[8 + |body|..] == len;
    assert (e + b)[0..4] == e[0..4] && (e + b)[4..8] == e[4..8] && (e + b)[8 + |body|..12 + |body|] == e[8 + |body|..];
  }

  /** A decorative block of any unknown type, framed in the byte order in force, can stand between any two
      blocks: the packets, the outcome and the reported link type stay the same. */
  lemma UnknownBlockTransparent(a: bytes, btype: nat, body: bytes, b: bytes, sized: bool, room: Option<nat>)
    requires IsPcapng(a) && Scan(INITIAL, a, sized, None).error.None?
    requires btype < TWO32 && btype !in {BT_SECTION_HEADER, BT_INTERFACE, BT_PACKET}
    requires |body| % 4 == 0 && MIN_BLOCK + |body| <= MAX_BLOCK
    ensures var block := EncodeBlock(After(INITIAL, a, sized).order, btype, body);
            Pcapng(a + (block + b), sized, room) == Pcapng(a + b, sized, room)
  {
    hide ValidState, EncodeBlock, Get32, After, Scan, FirstMeta;
    InitialValid();
    var end := After(INITIAL, a, sized);
    var block := EncodeBlock(end.order, btype, body);
    GetAppend(Little, a, b, 0);
    GetAppend(Big, a, b, 0);
    GetAppend(Little, a, block + b, 0);
    GetAppend(Big, a, block + b, 0);
    forall r ensures Scan(end, block + b, sized, r) == Scan(end, b, sized, r) {
      UnknownBlockSkipped(end, btype, body, b, sized, r);
    }
    UnknownBlockSkipped(end, btype, body, b, sized, None);
    SameTail(INITIAL, a, block + b, b, sized, room);
  }

  lemma InitialValid()
    ensures ValidState(INITIAL)
  {
  }

  lemma UnknownBlockSkipped(st: State, btype: nat, body: bytes, b: bytes, sized: bool, room: Option<nat>)
    requires ValidState(st)
    requires btype < TWO32 && btype !in {BT_SECTION_HEADER, BT_INTERFACE, BT_PACKET}
    requires |body| % 4 == 0 && MIN_BLOCK + |body| <= MAX_BLOCK
    ensures var block := EncodeBlock(st.order, btype, body);
            && Scan(st, block + b, sized, room) == Scan(st, b, sized, room)
            && FirstMeta(st, block + b, sized) == FirstMeta(st, b, sized)
  {
    hide Step, EncodeBlock, ValidState;
    UnknownBlockStep(st, btype, body, b, sized);
    BlockParts(st.order, btype, body, b);
  }

  /** From `start` up to `end` stands a packet block framed in the given byte order (its type, and its length at both
      ends), and the record's data is the captured length of bytes that follow the packet's own header. */
  predicate Inside(order: Order, rest: bytes, r: Record, start: nat, end: nat)
  {
    && start + 32 <= end <= |rest|
    && Get32(order, rest, start) == BT_PACKET
    && Get32(order, rest, start + 4) == Get32(order, rest, end - 4) == end - start
    && |r.data| == Get32(order, rest, start + 20) && start + 28 + |r.data| + 4 <= end
    && r.data == rest[start + 28..start + 28 + |r.data|]
    && r.origLen == Get32(order, rest, start + 24)
  }

  /** The bytes before `start` are whole blocks that leave the reader in this byte order. */
  ghost predicate InForce(st: State, rest: bytes, sized: bool, start: nat, order: Order)
    requires ValidState(st)
  {
    && start <= |rest| && Scan(st, rest[..start], sized, None).error.None?
    && After(st, rest[..start], sized).order == order
  }

  /** Where a packet's block starts and ends, and the byte order in force there. */
  datatype Place = Place(order: Order, start: nat, end: nat)

  ghost predicate Placed(st: State, rest: bytes, sized: bool, r: Record, p: Place)
    requires ValidState(st)
  {
    Inside(p.order, rest, r, p.start, p.end) && InForce(st, rest, sized, p.start, p.order)
  }

  ghost predicate Framed(st: State, rest: bytes, sized: bool, records: seq<Record>, places: seq<Place>)
    requires ValidState(st)
  {
    && |places| == |records|
    && (forall i :: 0 <= i < |records| ==> Placed(st, rest, sized, records[i], places[i]))
    && (forall i, j :: 0 <= i < j < |records| ==> places[i].end <= places[j].start)
  }

  /** Whatever the bytes, every packet yielded is the captured slice of its own block: a packet block, framed in the
      byte order in force where it starts. The blocks are disjoint, in file order and inside the file. */
  lemma {:induction false} PacketsAreSlices(st: State, rest: bytes, sized: bool, room: Option<nat>)
    returns (places: seq<Place>)
    requires ValidState(st)
    ensures Framed(st, rest, sized, Scan(st, rest, sized, room).records, places)
    decreases |rest|
  {
    hide Step, ValidState, Framed, Placed;
    if room == Some(0) || rest == [] || Step(st, rest, sized).Err? {
      places := [];
      EmptyFramed(st, rest, sized);
    } else {
      var (len, next, packet) := Step(st, rest, sized).value;
      var later := PacketsAreSlices(next, rest[len..], sized, Left(room, packet));
      var tail := Scan(next, rest[len..], sized, Left(room, packet)).records;
      ShiftFramed(st, rest, sized, tail, later);
      places := Shifted(later, len);
      if packet.Some? {
        PacketInBlock(st, rest, sized);
        ConsFramed(st, rest, sized, packet.value, tail, places, Place(st.order, 0, len));
        places := [Place(st.order, 0, len)] + places;
      }
    }
  }

  lemma EmptyFramed(st: State, rest: bytes, sized: bool)
    requires ValidState(st)
    ensures Framed(st, rest, sized, [], [])
  {
  }

  function Shifted(places: seq<Place>, d: nat): (r: seq<Place>)
    ensures |r| == |places|
    ensures forall i :: 0 <= i < |r| ==> r[i] == Place(places[i].order, places[i].start + d, places[i].end + d)
  {
    seq(|places|, i requires 0 <= i < |places| => Place(places[i].order, places[i].start + d, places[i].end + d))
  }

  lemma ShiftFramed(st: State, rest: bytes, sized: bool, tail: seq<Record>, places: seq<Place>)
    requires ValidState(st) && Step(st, rest, sized).Ok?
    requires var (len, next, packet) := Step(st, rest, sized).value; Framed(next, rest[len..], sized, tail, places)
    ensures Framed(st, rest, sized, tail, Shifted(places, Step(st, rest, sized).value.0))
    ensures forall i :: 0 <= i < |tail| ==>
              Shifted(places, Step(st, rest, sized).value.0)[i].start >= Step(st, rest, sized).value.0
  {
    hide Shifted, Step, Inside, InForce, ValidState;
    var (len, next, packet) := Step(st, rest, sized).value;
    forall i | 0 <= i < |tail|
      ensures Placed(st, rest, sized, tail[i], Shifted(places, len)[i])
    {
      var p := places[i];
      assert Placed(next, rest[len..], sized, tail[i], p);
      ShiftInside(p.order, rest, len, tail[i], p.start, p.end);
      ShiftInForce(st, rest, sized, p.start, p.order);
    }
  }

  lemma ShiftInside(order: Order, rest: bytes, len: nat, r: Record, start: nat, end: nat)
    requires len <= |rest| && Inside(order, rest[len..], r, start, end)
    ensures Inside(order, rest, r, start + len, end + len)
  {
    hide Get32;
    SliceOfTail(rest, len, start + 28, start + 28 + |r.data|);
    GetTail(order, rest, len, start);
    GetTail(order, rest, len, start + 4);
    GetTail(order, rest, len, end - 4);
    GetTail(order, rest, len, start + 20);
    GetTail(order, rest, len, start + 24);
  }

  lemma GetTail(order: Order, rest: bytes, len: nat, i: nat)
    requires len <= |rest| && i + 4 <= |rest| - len
    ensures Get32(order, rest[len..], i) == Get32(order, rest, len + i)
  {
  }

  /** A block that fits a prefix of the bytes is framed there as in the whole. */
  lemma StepPrefix(st: State, rest: bytes, sized: bool, k: nat)
    requires ValidState(st) && Step(st, rest, sized).Ok? && Step(st, rest, sized).value.0 <= k <= |rest|
    ensures Step(st, rest[..k], sized) == Step(st, rest, sized)
  {
    hide Interpret, Get32;
    var len := BlockLen(st.order, rest, sized).value;
    var a := rest[..k];
    assert a + rest[k..] == rest;
    GetAppend(st.order, a, rest[k..], 0);
    GetAppend(st.order, a, rest[k..], 4);
    GetAppend(st.order, a, rest[k..], len - 4);
    assert a[8..len - 4] == rest[8..len - 4];
  }

  lemma ShiftInForce(st: State, rest: bytes, sized: bool, start: nat, order: Order)
    requires ValidState(st) && Step(st, rest, sized).Ok?
    requires var (len, next, packet) := Step(st, rest, sized).value; InForce(next, rest[len..], sized, start, order)
    ensures InForce(st, rest, sized, start + Step(st, rest, sized).value.0, order)
  {
    hide Step, ValidState;
    var (len, next, packet) := Step(st, rest, sized).value;
    StepPrefix(st, rest, sized, len + start);
    assert rest[..len + start][len..] == rest[len..][..start];
  }

  lemma SliceOfTail(rest: bytes, len: nat, i: nat, j: nat)
    requires len <= |rest| && i <= j <= |rest| - len
    ensures rest[len..][i..j] == rest[len + i..len + j]
  {
  }

  lemma ConsFramed(st: State, rest: bytes, sized: bool, packet: Record, tail: seq<Record>, places: seq<Place>,
                   first: Place)
    requires ValidState(st) && Framed(st, rest, sized, tail, places) && Placed(st, rest, sized, packet, first)
    requires forall i :: 0 <= i < |places| ==> first.end <= places[i].start
    ensures Framed(st, rest, sized, [packet] + tail, [first] + places)
  {
    hide Placed, ValidState;
  }

  lemma PacketInBlock(st: State, rest: bytes, sized: bool)
    requires ValidState(st) && Step(st, rest, sized).Ok? && Step(st, rest, sized).value.2.Some?
    ensures var (len, next, packet) := Step(st, rest, sized).value;
            Placed(st, rest, sized, packet.value, Place(st.order, 0, len))
  {
    hide TsResol, SplitTime, NsPerUnit, Get32;
    var (len, next, packet) := Step(st, rest, sized).value;
    assert len == BlockLen(st.order, rest, sized).value;
    var body := rest[8..len - 4];
    GetSlice(st.order, rest, 8, len - 4, 12);
    GetSlice(st.order, rest, 8, len - 4, 16);
    var n := |packet.value.data|;
    assert packet.value.data == body[20..20 + n];
    SubSlice(rest, 8, body, 20, 20 + n);
    assert rest[..0] == [];
  }

  lemma GetSlice(order: Order, rest: bytes, from: nat, to: nat, i: nat)
    requires from <= to <= |rest| && i + 4 <= to - from
    ensures Get32(order, rest[from..to], i) == Get32(order, rest, from + i)
  {
  }

  /** On a microsecond interface the record's seconds and fraction are the raw timestamp, split exactly. */
  lemma MicrosecondsSplit(units: nat)
    ensures var (sec, frac) := SplitTime(units, 1000.0);
            sec * 1_000_000 + frac / 1000 == units && frac / 1000 < 1_000_000
  {
    var (sec, frac) := SplitTime(units, 1000.0);
    assert units as real * 1000.0 == (units * 1000) as real;
    assert sec * BILLION + frac == units * 1000;
  }

  // ------------------------------------------------------------------ the first section

  /** A 32-bit number with its bytes in the other order. */
  function Reversed(v: nat): (r: nat)
    requires v < TWO32
    ensures r < TWO32
  {
    Get32(Little, Put32(Big, v), 0)
  }

  /** What the reader asks of a file's first block. Its length is read in little-endian order, whatever the section
      declares, because it comes before the byte-order magic. */
  predicate FirstFits(f: bytes)
  {
    |f| >= 8 &&
      var n := Get32(Little, f, 4);
      && 28 <= n <= MAX_BLOCK && n % 4 == 0 && n <= |f| && Get32(Little, f, n - 4) == n
      && (Get32(Little, f, 8) == BYTE_ORDER_MAGIC || Get32(Little, f, 8) == BYTE_ORDER_SWAPPED)
  }

  function DeclaredOrder(f: bytes): Order
    requires |f| >= 12
  {
    if Get32(Little, f, 8) == BYTE_ORDER_MAGIC then Little else Big
  }

  lemma SameMagic(f: bytes)
    requires IsPcapng(f)
    ensures Get32(Little, f, 0) == BT_SECTION_HEADER
  {
    hide Get32, Put32;
    SectionTypeReadsAlike();
    Put32Get32(Big, f, 0);
    if Get32(Big, f, 0) == BT_SECTION_HEADER { GetPut32(Little, BT_SECTION_HEADER, f, 0); }
  }

  lemma SectionTypeReadsAlike()
    ensures Put32(Big, BT_SECTION_HEADER) == Put32(Little, BT_SECTION_HEADER)
  {
    assert Put32(Big, BT_SECTION_HEADER) == [0x0A, 0x0D, 0x0D, 0x0A];
  }

  /** The first section is accepted exactly when its length, read in little-endian order, frames it and its magic is
      known; it then sets the byte order it declares. A file whose first section is refused is refused. */
  lemma FirstSectionExactly(f: bytes, sized: bool)
    requires IsPcapng(f)
    ensures Step(INITIAL, f, sized).Ok? <==> FirstFits(f)
    ensures FirstFits(f) ==>
              Step(INITIAL, f, sized) == Ok((Get32(Little, f, 4), State(DeclaredOrder(f), [], None), None))
    ensures !FirstFits(f) ==> forall room :: room != Some(0) ==> Pcapng(f, sized, room).Err?
  {
    hide Get32, IsPcapng;
    InitialValid();
    SameMagic(f);
    if |f| >= 8 {
      var n := Get32(Little, f, 4);
      if 28 <= n <= |f| { GetSlice(Little, f, 8, n - 4, 0); }
    }
    if Step(INITIAL, f, sized).Err? {
      forall room | room != Some(0)
        ensures Pcapng(f, sized, room).Err?
      {
        RefusedFirst(f, sized, room);
      }
    }
  }

  lemma RefusedFirst(f: bytes, sized: bool, room: Option<nat>)
    requires IsPcapng(f) && ValidState(INITIAL) && Step(INITIAL, f, sized).Err? && room != Some(0)
    ensures Pcapng(f, sized, room).Err?
  {
    hide Step;
  }

  lemma BigParts(body: bytes, rest: bytes)
    requires |body| % 4 == 0 && MIN_BLOCK + |body| <= MAX_BLOCK
    ensures var f := EncodeBlock(Big, BT_SECTION_HEADER, body) + rest;
            IsPcapng(f) && |f| == MIN_BLOCK + |body| + |rest| && Get32(Little, f, 4) == Reversed(MIN_BLOCK + |body|)
  {
    hide Put32, EncodeBlock, IsPcapng;
    var f := EncodeBlock(Big, BT_SECTION_HEADER, body) + rest;
    BlockParts(Big, BT_SECTION_HEADER, body, rest);
    SwappedMagic(f);
    SameBytes(f, 4, Put32(Big, MIN_BLOCK + |body|), 0);
  }

  lemma SameBytes(f: bytes, i: nat, g: bytes, j: nat)
    requires i + 4 <= |f| && j + 4 <= |g| && f[i..i + 4] == g[j..j + 4]
    ensures forall order :: Get32(order, f, i) == Get32(order, g, j)
  {
    var a, b := f[i..i + 4], g[j..j + 4];
    assert f[i] == a[0] == b[0] == g[j] && f[i + 1] == a[1] == b[1] == g[j + 1];
    assert f[i + 2] == a[2] == b[2] == g[j + 2] && f[i + 3] == a[3] == b[3] == g[j + 3];
  }

  /** A big-endian section header at the start of a file is accepted exactly when its length with the bytes reversed
      is an acceptable block length that fits the file, stands again where that length puts the trailer, and the
      magic is known. */
  lemma BigSectionExactly(body: bytes, rest: bytes, sized: bool)
    requires |body| % 4 == 0 && MIN_BLOCK + |body| <= MAX_BLOCK
    ensures var f, n := EncodeBlock(Big, BT_SECTION_HEADER, body) + rest, Reversed(MIN_BLOCK + |body|);
            && IsPcapng(f) && |f| == MIN_BLOCK + |body| + |rest|
            && (Step(INITIAL, f, sized).Ok? <==>
                  && 28 <= n <= MAX_BLOCK && n % 4 == 0 && n <= |f| && Get32(Little, f, n - 4) == n
                  && (Get32(Little, f, 8) == BYTE_ORDER_MAGIC || Get32(Little, f, 8) == BYTE_ORDER_SWAPPED))
            && (Step(INITIAL, f, sized).Err? ==> forall room :: room != Some(0) ==> Pcapng(f, sized, room).Err?)
  {
    hide Get32, Put32, EncodeBlock, IsPcapng, Step, Pcapng, Reversed;
    BigParts(body, rest);
    FirstSectionExactly(EncodeBlock(Big, BT_SECTION_HEADER, body) + rest, sized);
  }

  /** So a big-endian section whose length reads the same both ways is accepted, and switches the reader over. */
  lemma PalindromeAccepted(body: bytes, rest: bytes, sized: bool)
    requires 16 <= |body| && |body| % 4 == 0 && MIN_BLOCK + |body| <= MAX_BLOCK
    requires body[0..4] == Put32(Big, BYTE_ORDER_MAGIC) && Reversed(MIN_BLOCK + |body|) == MIN_BLOCK + |body|
    ensures Step(INITIAL, EncodeBlock(Big, BT_SECTION_HEADER, body) + rest, sized)
         == Ok((MIN_BLOCK + |body|, State(Big, [], None), None))
  {
    hide Get32, Put32, EncodeBlock, IsPcapng, Step;
    var f, n := EncodeBlock(Big, BT_SECTION_HEADER, body) + rest, MIN_BLOCK + |body|;
    BlockParts(Big, BT_SECTION_HEADER, body, rest);
    BigParts(body, rest);
    SameBytes(f, n - 4, f, 4);
    BodyOf(Big, BT_SECTION_HEADER, body, rest);
    assert f[8..12] == f[8..8 + |body|][0..4];
    SameBytes(f, 8, Put32(Big, BYTE_ORDER_MAGIC), 0);
    assert Put32(Big, BYTE_ORDER_MAGIC)[0..4] == Put32(Big, BYTE_ORDER_MAGIC);
    SwappedConstant();
    FirstSectionExactly(f, sized);
  }

  lemma BodyOf(order: Order, btype: nat, body: bytes, b: bytes)
    requires btype < TWO32 && |body| % 4 == 0 && MIN_BLOCK + |body| <= MAX_BLOCK
    ensures var f := EncodeBlock(order, btype, body) + b;
            |f| >= 8 + |body| && f[8..8 + |body|] == body
  {
    hide Put32;
    var e := EncodeBlock(order, btype, body);
    assert e[8..8 + |body|] == body;
    assert (e + b)[8..8 + |body|] == e[8..8 + |body|];
  }

  lemma SwappedConstant()
    ensures Get32(Little, Put32(Big, BYTE_ORDER_MAGIC), 0) == BYTE_ORDER_SWAPPED
  {
  }

  /** 65792 is such a length: 0x00010100. */
  lemma BigSectionOf65792(body: bytes, rest: bytes, sized: bool)
    requires |body| == 65780 && body[0..4] == Put32(Big, BYTE_ORDER_MAGIC)
    ensures Step(INITIAL, EncodeBlock(Big, BT_SECTION_HEADER, body) + rest, sized)
         == Ok((65792, State(Big, [], None), None))
  {
    hide Step, EncodeBlock;
    ReversedOf65792();
    PalindromeAccepted(body, rest, sized);
  }

  lemma ReversedOf65792()
    ensures Reversed(65792) == 65792
  {
    assert Put32(Big, 65792) == [0, 1, 1, 0];
  }

  /** A big-endian section whose length is not a multiple of 256, as of any short header, is refused. */
  lemma SwappedSectionRefused(body: bytes, rest: bytes, sized: bool, room: Option<nat>)
    requires |body| >= 16 && |body| % 4 == 0 && MIN_BLOCK + |body| <= MAX_BLOCK
    requires (MIN_BLOCK + |body|) % 0x100 != 0
    ensures Pcapng(EncodeBlock(Big, BT_SECTION_HEADER, body) + rest, sized, room)
         == if room == Some(0) then Ok((1, Stream([], None))) else Err(BlockTooLong)
  {
    hide Put32, EncodeBlock, Get32, Interpret, IsPcapng;
    var len := MIN_BLOCK + |body|;
    var f := EncodeBlock(Big, BT_SECTION_HEADER, body) + rest;
    BlockParts(Big, BT_SECTION_HEADER, body, rest);
    SwappedLength(len, f);
    SwappedMagic(f);
  }

  lemma SwappedMagic(f: bytes)
    requires |f| >= 4 && f[0..4] == Put32(Big, BT_SECTION_HEADER)
    ensures IsPcapng(f)
  {
    GetPut32(Big, BT_SECTION_HEADER, f, 0);
  }

  lemma SwappedLength(len: nat, f: bytes)
    requires len < MAX_BLOCK && len % 4 == 0 && len % 0x100 != 0 && |f| >= 8 && f[4..8] == Put32(Big, len)
    ensures Get32(Little, f, 4) > MAX_BLOCK && Get32(Little, f, 4) % 4 == 0
  {
    var p := Put32(Big, len);
    assert p[0] == 0 && p[3] == len % TWO16 % 0x100;
    assert f[4] == f[4..8][0] && f[5] == f[4..8][1] && f[6] == f[4..8][2] && f[7] == f[4..8][3];
    LowByte(len);
  }

  lemma LowBits(len: nat, c: nat, r: nat)
    requires len == 0x100 * c + r && r < 0x100 && len % 4 == 0
    ensures len % 0x100 == r && r % 4 == 0
  {
    assert r == 4 * (len / 4 - 64 * c);
  }

  lemma LowByte(len: nat)
    requires len % 4 == 0 && len % 0x100 != 0
    ensures len % TWO16 % 0x100 >= 4
  {
    var hi, lo := len / TWO16, len % TWO16;
    LowBits(len, hi * 0x100 + lo / 0x100, lo % 0x100);
  }
}
