/** Pcapng files written block by block (sections 3 and 4 of draft-ietf-opsawg-pcapng), and the proof that the reader
    finds in them exactly the packets written, with the times their own interfaces declare. */
module PcapNgFiles {
  import opened Wrappers
  import opened Bytes
  import opened Arithmetic
  import opened PcapFormat
  import opened PcapNg
  import PcapRoundTrip

  /** `time` counts units of the packet's interface; `more` is what follows a header or a packet's data. */
  datatype Block =
    | Section(order: Order, more: bytes)
    | InterfaceBlock(linktype: nat, reserved: nat, snaplen: nat, options: seq<BlockOption>, ended: bool)
    | PacketBlock(iface: nat, time: nat, origLen: nat, data: bytes, more: bytes)
    | Unknown(btype: nat, body: bytes)

  function TypeOf(b: Block): nat
  {
    match b
    case Section(_, _) => 0x0A0D0D0A
    case InterfaceBlock(_, _, _, _, _) => 1
    case PacketBlock(_, _, _, _, _) => 6
    case Unknown(btype, _) => btype
  }

  predicate WritableOptions(options: seq<BlockOption>)
  {
    forall i :: 0 <= i < |options| ==>
      options[i].code < TWO16 && |options[i].value| < TWO16 && (options[i].code != 0 || options[i].value != [])
  }

  /** Every field fits, and no sanity ceiling of the reader is passed. */
  predicate Writable(b: Block)
  {
    match b
    case Section(_, more) => |more| >= 12 && |more| % 4 == 0
    case InterfaceBlock(linktype, reserved, snaplen, options, _) =>
      linktype < TWO16 && reserved < TWO16 && snaplen <= MAX_SNAPLEN && WritableOptions(options)
    case PacketBlock(iface, time, origLen, data, more) =>
      iface < TWO32 && time < TWO32 * TWO32 && origLen < TWO32 && |data| <= MAX_PACKET_LEN && |more| % 4 == 0
    case Unknown(btype, body) =>
      btype < TWO32 && btype !in {0x0A0D0D0A, 1, 6} && |body| % 4 == 0
  }

  lemma {:induction false} OptionsAligned(options: seq<BlockOption>, order: Order)
    requires WritableOptions(options)
    ensures |EncodeOptions(options, order)| % 4 == 0
  {
    hide OptionBytes;
    if options != [] {
      OptionsAligned(options[1..], order);
      OptionAligned(options[0], order);
    }
  }

  lemma OptionAligned(o: BlockOption, order: Order)
    requires o.code < TWO16 && |o.value| < TWO16
    ensures |OptionBytes(o, order)| % 4 == 0
  {
    hide Put16;
  }

  function OrderAfter(b: Block, order: Order): Order { if b.Section? then b.order else order }

  function PacketHead(b: Block, order: Order): (head: bytes)
    requires b.PacketBlock? && Writable(b)
    ensures |head| == 20
  {
    Put32(order, b.iface) + Put32(order, b.time / TWO32) + Put32(order, b.time % TWO32)
    + Put32(order, |b.data|) + Put32(order, b.origLen)
  }

  function Padding(n: nat): (zeros: bytes)
    ensures |zeros| == (n + 3) / 4 * 4 - n && (n + |zeros|) % 4 == 0
  {
    Zeros((n + 3) / 4 * 4 - n)
  }

  function InterfaceHead(b: Block, order: Order): (head: bytes)
    requires b.InterfaceBlock? && Writable(b)
    ensures |head| == 8
  {
    Put16(order, b.linktype) + Put16(order, b.reserved) + Put32(order, b.snaplen)
  }

  function InterfaceOptions(options: seq<BlockOption>, order: Order, ended: bool): (written: bytes)
    requires WritableOptions(options)
    ensures |written| % 4 == 0
  {
    OptionsAligned(options, order);
    EncodeOptions(options, order) + (if ended then Zeros(4) else [])
  }

  function PacketData(data: bytes, more: bytes): (written: bytes)
    requires |more| % 4 == 0
    ensures |written| % 4 == 0 && |written| == (|data| + 3) / 4 * 4 + |more| && written[..|data|] == data
  {
    var padded := data + Padding(|data|);
    assert (padded + more)[..|data|] == data;
    padded + more
  }

  function Joined(head: bytes, rest: bytes): (body: bytes)
    requires |head| % 4 == 0 && |rest| % 4 == 0
    ensures |body| % 4 == 0 && |body| == |head| + |rest| && body[..|head|] == head && body[|head|..] == rest
  {
    head + rest
  }

  function Body(b: Block, order: Order): (body: bytes)
    requires Writable(b)
    ensures |body| % 4 == 0
  {
    match b
    case Section(o, more) => Joined(Put32(o, 0x1A2B3C4D), more)
    case InterfaceBlock(_, _, _, options, ended) =>
      Joined(InterfaceHead(b, order), InterfaceOptions(options, order, ended))
    case PacketBlock(_, _, _, data, more) => Joined(PacketHead(b, order), PacketData(data, more))
    case Unknown(_, body) => body
  }

  /** The reader takes a section's length in the order in force before it. */
  predicate Fits(b: Block, order: Order)
  {
    Writable(b) &&
      var n := 12 + |Body(b, order)|;
      n <= MAX_BLOCK && (b.Section? && b.order != order ==> Reversed(n) == n)
  }

  predicate AllFit(blocks: seq<Block>, order: Order)
    decreases |blocks|
  {
    blocks == [] || (Fits(blocks[0], order) && AllFit(blocks[1..], OrderAfter(blocks[0], order)))
  }

  function FileBytes(blocks: seq<Block>, order: Order): bytes
    requires AllFit(blocks, order)
    decreases |blocks|
  {
    if blocks == [] then []
    else
      var o := OrderAfter(blocks[0], order);
      EncodeBlock(o, TypeOf(blocks[0]), Body(blocks[0], order)) + FileBytes(blocks[1..], o)
  }

  // ------------------------------------------------------------------ what a file says

  type Positive = r: real | r > 0.0 witness 1.0

  /** Nanoseconds per unit: by the last option that gives a resolution, else a microsecond. */
  function Unit(options: seq<BlockOption>): Positive
  {
    if options == [] then 1000.0
    else
      var last := options[|options| - 1];
      if GivesResolution(last) then Resolution(last.value[0]) else Unit(options[..|options| - 1])
  }

  /** The floor of the time in nanoseconds, as seconds and a fraction; the fraction is in microseconds unless the
      interface counts in less. */
  function PacketTold(b: Block, unit: Positive): Record
    requires b.PacketBlock?
  {
    assert b.time as real * unit >= 0.0;
    RecordAt((b.time as real * unit).Floor, unit < 1000.0, b.origLen, b.data)
  }

  function RecordAt(ns: nat, fine: bool, origLen: nat, data: bytes): Record
  {
    var fraction := ns % 1_000_000_000;
    Record(ns / 1_000_000_000, if fine then fraction else fraction / 1000, origLen, data, fine)
  }

  /** The packets in order; an interface number counts the interfaces described before the packet in its section. */
  function Told(blocks: seq<Block>, units: seq<Positive>): seq<Record>
    decreases |blocks|
  {
    if blocks == [] then []
    else
      match blocks[0]
      case Section(_, _) => Told(blocks[1..], [])
      case InterfaceBlock(_, _, _, options, _) => Told(blocks[1..], units + [Unit(options)])
      case PacketBlock(iface, _, _, _, _) =>
        [PacketTold(blocks[0], if iface < |units| then units[iface] else 1000.0)] + Told(blocks[1..], units)
      case Unknown(_, _) => Told(blocks[1..], units)
  }

  /** The link type of the first interface of the file, unless a packet comes before it. */
  function FirstLink(blocks: seq<Block>): Option<nat>
    decreases |blocks|
  {
    if blocks == [] || blocks[0].PacketBlock? then None
    else if blocks[0].InterfaceBlock? then Some(blocks[0].linktype)
    else FirstLink(blocks[1..])
  }

  function Take<T>(s: seq<T>, room: Option<nat>): seq<T>
  {
    if room.Some? && room.value < |s| then s[..room.value] else s
  }

  // ------------------------------------------------------------------ one block

  /** A block whose type and length the reader's order shows right, whatever order it was written in. */
  lemma FramedStep(st: State, o: Order, btype: nat, body: bytes, b: bytes, sized: bool)
    requires ValidState(st) && btype < TWO32 && |body| % 4 == 0 && MIN_BLOCK + |body| <= MAX_BLOCK
    requires o != st.order ==> Reversed(btype) == btype && Reversed(MIN_BLOCK + |body|) == MIN_BLOCK + |body|
    ensures Step(st, EncodeBlock(o, btype, body) + b, sized) ==
            match Interpret(st, btype, body)
            case Err(e) => Err(e)
            case Ok((next, packet)) => Ok((MIN_BLOCK + |body|, next, packet))
  {
    hide Put32, Get32, EncodeBlock, Interpret, ValidState, Reversed;
    var rest, n := EncodeBlock(o, btype, body) + b, MIN_BLOCK + |body|;
    BlockParts(o, btype, body, b);
    BodyOf(o, btype, body, b);
    ReadsInEither(st.order, o, btype, rest, 0);
    ReadsInEither(st.order, o, n, rest, 4);
    ReadsInEither(st.order, o, n, rest, n - 4);
  }

  lemma ReadsInEither(order: Order, o: Order, v: nat, f: bytes, i: nat)
    requires v < TWO32 && i + 4 <= |f| && f[i..i + 4] == Put32(o, v) && (o != order ==> Reversed(v) == v)
    ensures Get32(order, f, i) == v
  {
    hide Put32, Get32;
    if o == order {
      GetPut32(order, v, f, i);
    } else {
      SameBytes(f, i, Put32(o, v), 0);
      BothWays(v);
    }
  }

  lemma BothWays(v: nat)
    requires v < TWO32
    ensures Get32(Little, Put32(Big, v), 0) == Get32(Big, Put32(Little, v), 0) == Reversed(v)
  {
  }

  lemma SectionTypeReversed()
    ensures Reversed(0x0A0D0D0A) == 0x0A0D0D0A
  {
    assert Put32(Big, 0x0A0D0D0A) == [0x0A, 0x0D, 0x0D, 0x0A];
  }

  // ------------------------------------------------------------------ each kind of block

  lemma SectionRead(st: State, b: Block)
    requires ValidState(st) && b.Section? && Writable(b)
    ensures Interpret(st, 0x0A0D0D0A, Body(b, st.order)) == Ok((State(b.order, [], st.meta), None))
  {
    hide Get32, Put32;
    var body := Body(b, st.order);
    assert body[0..4] == Put32(b.order, BYTE_ORDER_MAGIC);
    if b.order.Little? {
      GetPut32(Little, BYTE_ORDER_MAGIC, body, 0);
    } else {
      SameBytes(body, 0, Put32(Big, BYTE_ORDER_MAGIC), 0);
      SwappedConstant();
    }
  }

  lemma {:induction false} UnitIsLast(options: seq<BlockOption>)
    ensures if NoResolution(options) then Unit(options) == 1000.0
            else exists k: nat :: LastResolution(options, k) && Unit(options) == Resolution(options[k].value[0])
  {
    hide Resolution;
    if options != [] {
      var n := |options| - 1;
      if GivesResolution(options[n]) {
        assert LastResolution(options, n);
      } else {
        UnitIsLast(options[..n]);
        if !NoResolution(options[..n]) {
          var k: nat :| LastResolution(options[..n], k) && Unit(options[..n]) == Resolution(options[..n][k].value[0]);
          LaterThan(options, k);
        }
      }
    }
  }

  lemma LaterThan(options: seq<BlockOption>, k: nat)
    requires options != [] && !GivesResolution(options[|options| - 1])
    requires LastResolution(options[..|options| - 1], k)
    ensures LastResolution(options, k)
  {
    var init := options[..|options| - 1];
    var later := options[k + 1..];
    forall i | 0 <= i < |later|
      ensures !GivesResolution(later[i])
    {
      if i < |later| - 1 { assert init[k + 1..][i] == later[i]; }
    }
  }

  lemma UnitRead(options: seq<BlockOption>, order: Order, ended: bool)
    requires WritableOptions(options)
    ensures TsResol(EncodeOptions(options, order) + (if ended then Zeros(4) else []), order, 0, 1000.0) == Unit(options)
  {
    hide TsResol, Options, EncodeOptions, Unit, Resolution, NoResolution, LastResolution;
    var closing := if ended then Zeros(4) else [];
    ZeroField(order);
    OptionsReadBack(options, order, closing);
    LastResolutionDecides(EncodeOptions(options, order) + closing, order);
    UnitIsLast(options);
  }

  lemma ZeroField(order: Order)
    ensures Get16(order, Zeros(4), 0) == 0 && Get16(order, Zeros(4), 2) == 0
  {
  }

  lemma InterfaceRead(st: State, b: Block)
    requires ValidState(st) && b.InterfaceBlock? && Writable(b)
    ensures var r := Interpret(st, 1, Body(b, st.order));
            && r.Ok? && r.value.1.None?
            && var next := r.value.0;
               && next.order == st.order && |next.interfaces| == |st.interfaces| + 1
               && next.interfaces[..|st.interfaces|] == st.interfaces
               && next.interfaces[|st.interfaces|].nsPerUnit == Unit(b.options)
               && next.meta.Some?
               && next.meta.value.0 == if st.meta.Some? then st.meta.value.0 else b.linktype
  {
    hide Get32, Put32, Get16, Put16, TsResol, Unit, EncodeOptions;
    var body := Body(b, st.order);
    assert body[0..2] == Put16(st.order, b.linktype) && body[4..8] == Put32(st.order, b.snaplen);
    assert body[8..] == InterfaceOptions(b.options, st.order, b.ended);
    GetPut16(st.order, b.linktype, body, 0);
    GetPut32(st.order, b.snaplen, body, 4);
    UnitRead(b.options, st.order, b.ended);
  }

  lemma PacketRead(st: State, b: Block, unit: Positive)
    requires ValidState(st) && b.PacketBlock? && Writable(b) && NsPerUnit(st, b.iface) == unit
    ensures Interpret(st, 6, Body(b, st.order)) == Ok((st, Some(PacketTold(b, unit))))
  {
    hide Get32, PacketHead, Body, PacketRecord, PacketTold;
    PacketParts(b, st.order);
    HeadRead(b, st.order, Body(b, st.order));
    assert b.time / TWO32 * TWO32 + b.time % TWO32 == b.time;
    RecordTold(st, b, unit);
  }

  lemma RecordTold(st: State, b: Block, unit: Positive)
    requires ValidState(st) && b.PacketBlock? && Writable(b) && NsPerUnit(st, b.iface) == unit
    requires var body, n := Body(b, st.order), |b.data|;
             && |body| >= 20 + n && body[20..20 + n] == b.data
             && Get32(st.order, body, 0) == b.iface && Get32(st.order, body, 16) == b.origLen
             && Get32(st.order, body, 4) * TWO32 + Get32(st.order, body, 8) == b.time
    ensures PacketRecord(st, Body(b, st.order), |b.data|) == PacketTold(b, unit)
  {
    hide Get32, Body, SplitTime;
    SplitIsDivision(b.time, unit);
  }

  lemma PacketParts(b: Block, order: Order)
    requires b.PacketBlock? && Writable(b)
    ensures var body, n := Body(b, order), |b.data|;
            |body| >= 20 + (n + 3) / 4 * 4 && body[0..20] == PacketHead(b, order) && body[20..20 + n] == b.data
  {
    hide PacketHead, PacketData;
    var body, n, rest := Body(b, order), |b.data|, PacketData(b.data, b.more);
    assert body == Joined(PacketHead(b, order), rest);
    assert body[20..20 + n] == body[20..][..n] == rest[..n];
  }

  lemma HeadRead(b: Block, order: Order, body: bytes)
    requires b.PacketBlock? && Writable(b) && |body| >= 20 && body[0..20] == PacketHead(b, order)
    ensures Get32(order, body, 0) == b.iface
    ensures Get32(order, body, 4) == b.time / TWO32 && Get32(order, body, 8) == b.time % TWO32
    ensures Get32(order, body, 12) == |b.data| && Get32(order, body, 16) == b.origLen
  {
    hide Get32, Put32;
    var head := PacketHead(b, order);
    assert head[0..4] == Put32(order, b.iface) && head[4..8] == Put32(order, b.time / TWO32);
    assert head[8..12] == Put32(order, b.time % TWO32);
    assert head[12..16] == Put32(order, |b.data|) && head[16..20] == Put32(order, b.origLen);
    SubSlice(body, 0, head, 0, 4);
    SubSlice(body, 0, head, 4, 8);
    SubSlice(body, 0, head, 8, 12);
    SubSlice(body, 0, head, 12, 16);
    SubSlice(body, 0, head, 16, 20);
    GetPut32(order, b.iface, body, 0);
    GetPut32(order, b.time / TWO32, body, 4);
    GetPut32(order, b.time % TWO32, body, 8);
    GetPut32(order, |b.data|, body, 12);
    GetPut32(order, b.origLen, body, 16);
  }

  lemma SplitIsDivision(time: nat, unit: Positive)
    ensures var ns := (time as real * unit).Floor;
            SplitTime(time, unit) == (ns / 1_000_000_000, ns % 1_000_000_000)
  {
    var (sec, part) := SplitTime(time, unit);
    QuotientIs((time as real * unit).Floor, BILLION, sec);
  }

  // ------------------------------------------------------------------ the whole file

  /** The reader's state agrees with the file written so far. */
  ghost predicate Agrees(st: State, order: Order, units: seq<Positive>, link: Option<nat>)
  {
    && ValidState(st) && st.order == order && |st.interfaces| == |units|
    && (forall i :: 0 <= i < |units| ==> st.interfaces[i].nsPerUnit == units[i])
    && link == if st.meta.Some? then Some(st.meta.value.0) else None
  }

  function UnitsAfter(b: Block, units: seq<Positive>): seq<Positive>
  {
    if b.Section? then [] else if b.InterfaceBlock? then units + [Unit(b.options)] else units
  }

  function LinkAfter(b: Block, link: Option<nat>): Option<nat>
  {
    if link.None? && b.InterfaceBlock? then Some(b.linktype) else link
  }

  function TellsPacket(b: Block, units: seq<Positive>): Option<Record>
  {
    if b.PacketBlock? then Some(PacketTold(b, if b.iface < |units| then units[b.iface] else 1000.0)) else None
  }

  lemma BlockRead(st: State, b: Block, units: seq<Positive>, link: Option<nat>, rest: bytes, sized: bool)
    returns (next: State)
    requires Agrees(st, st.order, units, link) && Fits(b, st.order)
    ensures var o := OrderAfter(b, st.order);
            && Step(st, EncodeBlock(o, TypeOf(b), Body(b, st.order)) + rest, sized) ==
               Ok((12 + |Body(b, st.order)|, next, TellsPacket(b, units)))
            && Agrees(next, o, UnitsAfter(b, units), LinkAfter(b, link))
  {
    hide Step, EncodeBlock, Interpret, Body, Unit, PacketTold, Reversed;
    var o, body := OrderAfter(b, st.order), Body(b, st.order);
    SectionTypeReversed();
    FramedStep(st, o, TypeOf(b), body, rest, sized);
    match b {
      case Section(_, _) => SectionRead(st, b);
      case InterfaceBlock(_, _, _, _, _) => InterfaceRead(st, b);
      case PacketBlock(iface, _, _, _, _) => PacketRead(st, b, if iface < |units| then units[iface] else 1000.0);
      case Unknown(btype, _) => UnknownRead(st, btype, body);
    }
    next := Interpret(st, TypeOf(b), body).value.0;
  }

  lemma UnknownRead(st: State, btype: nat, body: bytes)
    requires ValidState(st) && btype !in {0x0A0D0D0A, 1, 6}
    ensures Interpret(st, btype, body) == Ok((st, None))
  {
  }

  /** From any state that agrees, the scan yields what the rest of the file says, up to the room there is. */
  lemma {:induction false} RestReadsBack(st: State, blocks: seq<Block>, units: seq<Positive>, link: Option<nat>,
                                         sized: bool, room: Option<nat>)
    requires Agrees(st, st.order, units, link) && AllFit(blocks, st.order)
    ensures Scan(st, FileBytes(blocks, st.order), sized, room) == Stream(Take(Told(blocks, units), room), None)
    ensures var meta := FirstMeta(st, FileBytes(blocks, st.order), sized);
            if link.Some? then meta.Some? && meta.value.0 == link.value
            else if FirstLink(blocks).Some? then meta.Some? && meta.value.0 == FirstLink(blocks).value
            else meta.None?
    decreases |blocks|
  {
    hide Step, EncodeBlock, Body, PacketTold, Unit, Told, FirstLink, Take, ValidState;
    if blocks == [] {
      NothingTold(units, room);
    } else {
      var b := blocks[0];
      var o := OrderAfter(b, st.order);
      var rest := FileBytes(blocks[1..], o);
      var next := BlockRead(st, b, units, link, rest, sized);
      BlockParts(o, TypeOf(b), Body(b, st.order), rest);
      TellsNext(blocks, units);
      TakeNext(TellsPacket(b, units), Told(blocks[1..], UnitsAfter(b, units)), room);
      RestReadsBack(next, blocks[1..], UnitsAfter(b, units), LinkAfter(b, link), sized,
                    if room == Some(0) then None else Left(room, TellsPacket(b, units)));
    }
  }

  lemma NothingTold(units: seq<Positive>, room: Option<nat>)
    ensures Take(Told([], units), room) == [] && FirstLink([]).None?
  {
  }

  lemma TellsNext(blocks: seq<Block>, units: seq<Positive>)
    requires blocks != []
    ensures var b, later := blocks[0], Told(blocks[1..], UnitsAfter(blocks[0], units));
            var packet := TellsPacket(b, units);
            && Told(blocks, units) == (if packet.Some? then [packet.value] + later else later)
            && FirstLink(blocks) == (if b.PacketBlock? then None
                                     else if b.InterfaceBlock? then Some(b.linktype) else FirstLink(blocks[1..]))
  {
    hide PacketTold, Unit;
  }

  lemma TakeNext(packet: Option<Record>, later: seq<Record>, room: Option<nat>)
    ensures var all := if packet.Some? then [packet.value] + later else later;
            Take(all, room) ==
            if room == Some(0) then []
            else Cons(packet, Stream(Take(later, Left(room, packet)), None)).records
  {
  }

  /** A file that opens with a section reads back: exactly its packets, in order and with their own interfaces' times,
      as many as there is room for, no error, and the link type of its first interface. */
  lemma FileReadsBack(blocks: seq<Block>, sized: bool, room: Option<nat>)
    requires blocks != [] && blocks[0].Section? && AllFit(blocks, Little)
    ensures Pcapng(FileBytes(blocks, Little), sized, room) ==
            Ok((if room == Some(0) || FirstLink(blocks).None? then 1 else FirstLink(blocks).value,
                Stream(Take(Told(blocks, []), room), None)))
  {
    hide Scan, FirstMeta, EncodeBlock, Body, Told, FirstLink;
    InitialValid();
    RestReadsBack(INITIAL, blocks, [], None, sized, room);
    FileStarts(blocks);
  }

  lemma FileStarts(blocks: seq<Block>)
    requires blocks != [] && blocks[0].Section? && AllFit(blocks, Little)
    ensures IsPcapng(FileBytes(blocks, Little))
  {
    hide EncodeBlock, Body, Get32;
    var o, f := blocks[0].order, FileBytes(blocks, Little);
    BlockParts(o, 0x0A0D0D0A, Body(blocks[0], Little), FileBytes(blocks[1..], o));
    GetPut32(o, 0x0A0D0D0A, f, 0);
  }

  // ------------------------------------------------------------------ units

  lemma PowerStep(b: real, n: nat)
    ensures Power(b, n) == if n == 0 then 1.0 else b * Power(b, n - 1)
  {
  }

  /** The unit an option byte stands for: a second divided by ten, or by two with the high bit set, as often as the
      byte's value says. */
  lemma ResolutionByByte(b: byte)
    ensures b in {0, 0x80} ==> Resolution(b) == 1_000_000_000.0
    ensures 0 < b < 0x80 ==> Resolution(b) * 10.0 == Resolution(b - 1)
    ensures 0x80 < b ==> Resolution(b) * 2.0 == Resolution(b - 1)
  {
    hide Power;
    if b in {0, 0x80} {
      PowerStep(10.0, 0);
      PowerStep(2.0, 0);
    } else if b < 0x80 {
      PowerStep(10.0, b);
      PowerPositive(10.0, b);
      PowerPositive(10.0, b - 1);
      DivideByProduct(BILLION as real, 10.0, Power(10.0, b - 1));
    } else {
      PowerStep(2.0, b % 0x80);
      PowerPositive(2.0, b % 0x80);
      PowerPositive(2.0, b % 0x80 - 1);
      DivideByProduct(BILLION as real, 2.0, Power(2.0, b % 0x80 - 1));
    }
  }

  // ------------------------------------------------------------------ the import of such a file

  /** The row's time in seconds: the packet's time to the nanosecond, or to the microsecond below. */
  lemma TimeTold(b: Block, unit: Positive, ns: nat)
    requires b.PacketBlock? && ns == (b.time as real * unit).Floor
    ensures PacketTold(b, unit).Timestamp() ==
            if unit < 1000.0 then ns as real / 1_000_000_000.0 else (ns / 1000) as real / 1_000_000.0
  {
    hide RecordAt;
    assert PacketTold(b, unit) == RecordAt(ns, unit < 1000.0, b.origLen, b.data);
    RecordTime(ns, unit < 1000.0, b.origLen, b.data);
  }

  lemma RecordTime(ns: nat, fine: bool, origLen: nat, data: bytes)
    ensures RecordAt(ns, fine, origLen, data).Timestamp() ==
            if fine then ns as real / 1_000_000_000.0 else (ns / 1000) as real / 1_000_000.0
  {
    InSeconds(ns);
  }

  lemma InSeconds(ns: nat)
    ensures (ns / 1_000_000_000) as real + (ns % 1_000_000_000) as real / 1_000_000_000.0 ==
            ns as real / 1_000_000_000.0
    ensures (ns / 1_000_000_000) as real + (ns % 1_000_000_000 / 1000) as real / 1_000_000.0 ==
            (ns / 1000) as real / 1_000_000.0
  {
    var q, r := ns / 1_000_000_000, ns % 1_000_000_000;
    SplitSeconds(ns);
    assert ns as real == q as real * 1_000_000_000.0 + r as real;
    assert (ns / 1000) as real == q as real * 1_000_000.0 + (r / 1000) as real;
  }

  lemma SplitSeconds(ns: nat)
    ensures ns == ns / 1_000_000_000 * 1_000_000_000 + ns % 1_000_000_000
    ensures ns / 1000 == ns / 1_000_000_000 * 1_000_000 + ns % 1_000_000_000 / 1000
  {
  }

  /** The rows an import makes of it: for each packet the fields of its bytes under the first interface's link type,
      its time and its original length; flagged as truncated exactly when the cap is reached, and without errors. */
  lemma ImportReadsBack(blocks: seq<Block>, max: nat)
    requires blocks != [] && blocks[0].Section? && AllFit(blocks, Little)
    ensures var all := Told(blocks, []);
            var link := if max == 0 || FirstLink(blocks).None? then 1 else FirstLink(blocks).value;
            PcapRoundTrip.ImportFile(FileBytes(blocks, Little), max) ==
            Ok(PcapRoundTrip.Imported(PcapRoundTrip.LinktypeName(link),
                                      PcapRoundTrip.PacketsOf(link, Take(all, Some(max))), |all| >= max, 0))
  {
    hide Told, FirstLink, FileBytes, IsPcapng, Pcapng, PcapRoundTrip.PacketsOf, PcapRoundTrip.LinktypeName;
    FileReadsBack(blocks, true, Some(max));
    FileStarts(blocks);
    assert |FileBytes(blocks, Little)| >= 4 by { IsLong(FileBytes(blocks, Little)); }
  }

  lemma IsLong(f: bytes)
    requires IsPcapng(f)
    ensures |f| >= 4
  {
  }
}
