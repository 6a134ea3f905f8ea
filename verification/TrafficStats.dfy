/** Ingest and time series: the packet log and the per-minute table are fed from the same events, and a series
    read from either must say the same. */
module TrafficStats {
  import opened Wrappers
  import opened Arithmetic

  datatype Direction = Inbound | Outbound | Local

  /** An observed packet, or a polled flow sample when `synthetic`. */
  datatype PacketEvent = PacketEvent(
    ts: real, protocol: string, srcAddr: string, dstAddr: string,
    length: int, bytesIn: int, bytesOut: int, synthetic: bool)

  /** A row of the packet log, as far as the series read it. */
  datatype Row = Row(ts: real, protocol: string, direction: Direction, length: int)

  datatype Agg = Agg(
    bytesIn: int, bytesOut: int, packetsIn: int, packetsOut: int, tcp: int, udp: int, icmp: int, other: int)

  const ZERO := Agg(0, 0, 0, 0, 0, 0, 0, 0)

  function Plus(a: Agg, b: Agg): Agg
  {
    Agg(a.bytesIn + b.bytesIn, a.bytesOut + b.bytesOut, a.packetsIn + b.packetsIn, a.packetsOut + b.packetsOut,
        a.tcp + b.tcp, a.udp + b.udp, a.icmp + b.icmp, a.other + b.other)
  }

  /** What one packet adds: everything not inbound counts as outgoing. */
  function One(r: Row): Agg
  {
    var a := if r.direction.Inbound? then ZERO.(bytesIn := r.length, packetsIn := 1)
             else ZERO.(bytesOut := r.length, packetsOut := 1);
    if r.protocol == "tcp" then a.(tcp := 1) else if r.protocol == "udp" then a.(udp := 1)
    else if r.protocol == "icmp" then a.(icmp := 1) else a.(other := 1)
  }

  // ------------------------------------------------------------------ ingest

  /** Direction and the byte counts in and out. */
  function ClassifyDirection(selfIps: set<string>, e: PacketEvent): (Direction, int, int)
  {
    if e.synthetic then (if e.bytesOut >= e.bytesIn then Outbound else Inbound, e.bytesIn, e.bytesOut)
    else if e.srcAddr in selfIps && e.dstAddr !in selfIps then (Outbound, 0, e.length)
    else if e.dstAddr in selfIps && e.srcAddr !in selfIps then (Inbound, e.length, 0)
    else (Local, 0, e.length)
  }

  function Turned(d: Direction): Direction
  {
    match d case Inbound => Outbound case Outbound => Inbound case Local => Local
  }

  /** A captured packet's bytes are all counted, once, on the side its direction names; and the reply to a packet,
      between the same two ends, has the opposite direction, or is local with it. */
  lemma RepliesTurn(selfIps: set<string>, e: PacketEvent)
    requires !e.synthetic
    ensures var (d, bytesIn, bytesOut) := ClassifyDirection(selfIps, e);
            && bytesIn + bytesOut == e.length && (if d.Inbound? then bytesOut == 0 else bytesIn == 0)
            && (d.Outbound? <==> e.srcAddr in selfIps && e.dstAddr !in selfIps)
            && ClassifyDirection(selfIps, e.(srcAddr := e.dstAddr, dstAddr := e.srcAddr)).0 == Turned(d)
  {
  }

  function RowOf(selfIps: set<string>, e: PacketEvent): Row
  {
    var (direction, bytesIn, bytesOut) := ClassifyDirection(selfIps, e);
    Row(e.ts, e.protocol, direction, bytesIn + bytesOut)
  }

  /** One row of the minute table. */
  datatype MinuteRow = MinuteRow(minute: int, agg: Agg)

  function Minute(ts: real): int { (ts / 60.0).Floor * 60 }

  /** Insert a minute's counts, or add them to the row that is there. */
  function Upsert(table: seq<MinuteRow>, m: int, v: Agg): seq<MinuteRow>
  {
    if table == [] then [MinuteRow(m, v)]
    else if table[0].minute == m then [MinuteRow(m, Plus(table[0].agg, v))] + table[1..]
    else [table[0]] + Upsert(table[1..], m, v)
  }

  /** The batch's own per-minute counts, in order of first appearance. */
  function MinuteAgg(rows: seq<Row>): seq<MinuteRow>
  {
    if rows == [] then []
    else
      var last := rows[|rows| - 1];
      Upsert(MinuteAgg(rows[..|rows| - 1]), Minute(last.ts), One(last))
  }

  function UpsertAll(table: seq<MinuteRow>, more: seq<MinuteRow>): seq<MinuteRow>
  {
    if more == [] then table
    else Upsert(UpsertAll(table, more[..|more| - 1]), more[|more| - 1].minute, more[|more| - 1].agg)
  }

  class TrafficStore {
    var packets: seq<Row>
    var minutes: seq<MinuteRow>

    constructor ()
      ensures packets == [] && minutes == []
    {
      packets, minutes := [], [];
    }

    /** `record_batch`. */
    method RecordBatch(events: seq<Row>)
      modifies this`minutes
      ensures minutes == UpsertAll(old(minutes), MinuteAgg(events))
    {
      var agg: seq<MinuteRow> := [];
      for i := 0 to |events|
        invariant agg == MinuteAgg(events[..i]) && minutes == old(minutes)
      {
        assert events[..i + 1][..i] == events[..i];
        agg := Upsert(agg, Minute(events[i].ts), One(events[i]));
      }
      assert events[..|events|] == events;
      for i := 0 to |agg|
        invariant minutes == UpsertAll(old(minutes), agg[..i])
      {
        assert agg[..i + 1][..i] == agg[..i];
        minutes := Upsert(minutes, agg[i].minute, agg[i].agg);
      }
      assert agg[..|agg|] == agg;
    }

    /** The stores' part of `_process_events`: both are fed from one pass over the events. */
    method ProcessEvents(selfIps: set<string>, events: seq<PacketEvent>)
      modifies this
      ensures var rows := RowsOf(selfIps, events);
              packets == old(packets) + rows && minutes == UpsertAll(old(minutes), MinuteAgg(rows))
    {
      var rows: seq<Row> := [];
      for i := 0 to |events|
        invariant rows == RowsOf(selfIps, events[..i]) && packets == old(packets) && minutes == old(minutes)
      {
        rows := rows + [RowOf(selfIps, events[i])];
      }
      assert events[..|events|] == events;
      packets := packets + rows;
      RecordBatch(rows);
    }

    /** `get_timeseries` from the window start on: zero-filled buckets, then the raw rows for buckets under a
        minute and the minute table otherwise. */
    method GetTimeseries(start: real, now: real, bucket: int) returns (points: seq<(int, Agg)>)
      requires bucket > 0
      ensures points == Series(packets, minutes, start, now, bucket)
    {
      var first, last := KeyOf(start, bucket), KeyOf(now, bucket);
      if last < first { last := first; }
      var n := Buckets(start, now, bucket);
      BucketsReach(start, now, bucket);
      var sums: seq<Agg>;
      if bucket < 60 {
        sums := SumRaw(first, last, bucket, n);
      } else {
        sums := SumMinutes(first, last, bucket, n);
      }
      points := seq(n, i requires 0 <= i < n => (first + i * bucket, sums[i]));
    }

    method SumRaw(first: int, last: int, bucket: int, n: nat) returns (sums: seq<Agg>)
      requires Range(first, last, bucket, n)
      ensures RawSums(sums, packets, first, bucket, n)
    {
      sums := seq(n, _ => ZERO);
      for k := 0 to |packets|
        invariant RawSums(sums, packets[..k], first, bucket, n)
      {
        RawStep(sums, packets[..k], packets[k], first, last, bucket, n);
        assert packets[..k + 1] == packets[..k] + [packets[k]];
        if first as real <= packets[k].ts < (last + bucket) as real {
          sums := AddAt(sums, Slot(first, bucket, n, KeyOf(packets[k].ts, bucket)), One(packets[k]));
        }
      }
      assert packets[..|packets|] == packets;
    }

    method SumMinutes(first: int, last: int, bucket: int, n: nat) returns (sums: seq<Agg>)
      requires Range(first, last, bucket, n)
      ensures MinuteSums(sums, minutes, first, bucket, n)
    {
      sums := seq(n, _ => ZERO);
      for k := 0 to |minutes|
        invariant MinuteSums(sums, minutes[..k], first, bucket, n)
      {
        MinuteStep(sums, minutes[..k], minutes[k], first, last, bucket, n);
        assert minutes[..k + 1] == minutes[..k] + [minutes[k]];
        if first <= minutes[k].minute < last + bucket {
          sums := AddAt(sums, Slot(first, bucket, n, MinuteKey(minutes[k].minute, bucket)), minutes[k].agg);
        }
      }
      assert minutes[..|minutes|] == minutes;
    }
  }

  function RowsOf(selfIps: set<string>, events: seq<PacketEvent>): (rows: seq<Row>)
    ensures |rows| == |events| && forall i :: 0 <= i < |rows| ==> rows[i] == RowOf(selfIps, events[i])
  {
    seq(|events|, i requires 0 <= i < |events| => RowOf(selfIps, events[i]))
  }

  // ------------------------------------------------------------------ buckets

  /** `int(ts // bucket) * bucket`. */
  function KeyOf(ts: real, bucket: int): int
    requires bucket > 0
  {
    (ts / bucket as real).Floor * bucket
  }

  function Buckets(start: real, now: real, bucket: int): (n: nat)
    requires bucket > 0
  {
    var first, last := KeyOf(start, bucket), KeyOf(now, bucket);
    if last < first then 1 else (last - first) / bucket + 1
  }

  function MinuteKey(minute: int, bucket: int): int
    requires bucket > 0
  {
    minute / bucket * bucket
  }

  /** Buckets `first`, `first + bucket`, ... `last`. */
  predicate Range(first: int, last: int, bucket: int, n: nat)
  {
    bucket > 0 && first % bucket == 0 && n > 0 && last == first + (n - 1) * bucket
  }

  lemma MultipleMod(q: int, b: int)
    requires b > 0
    ensures (q * b) % b == 0 && (q * b) / b == q
  {
    QuotientIs(q * b, b, q);
  }

  lemma KeyIsMultiple(ts: real, bucket: int)
    requires bucket > 0
    ensures KeyOf(ts, bucket) % bucket == 0 && KeyOf(ts, bucket) as real <= ts < (KeyOf(ts, bucket) + bucket) as real
  {
    var d := (ts / bucket as real).Floor;
    MultipleMod(d, bucket);
    QuotientAtLeast(ts, bucket as real, d as real);
    QuotientAtLeast(ts, bucket as real, d as real + 1.0);
    RealMultiples(d, bucket);
  }

  lemma MinuteKeyIsMultiple(minute: int, bucket: int)
    requires bucket > 0
    ensures MinuteKey(minute, bucket) % bucket == 0
    ensures MinuteKey(minute, bucket) <= minute < MinuteKey(minute, bucket) + bucket
  {
    MultipleMod(minute / bucket, bucket);
  }

  lemma BucketsReach(start: real, now: real, bucket: int)
    requires bucket > 0
    ensures var first, last := KeyOf(start, bucket), KeyOf(now, bucket);
            Range(first, if last < first then first else last, bucket, Buckets(start, now, bucket))
  {
    var p, q := (start / bucket as real).Floor, (now / bucket as real).Floor;
    MultipleMod(p, bucket);
    var first, last := p * bucket, q * bucket;
    assert last - first == (q - p) * bucket;
    MultipleMod(q - p, bucket);
    if last < first { assert Buckets(start, now, bucket) == 1; } else { assert (last - first) / bucket == q - p; }
  }

  /** The position of a bucket key among `n` buckets from `first` on. */
  function Slot(first: int, bucket: int, n: nat, key: int): (at: Option<nat>)
    requires bucket > 0
    ensures at.Some? ==> at.value < n
  {
    if first <= key && (key - first) / bucket < n then Some((key - first) / bucket) else None
  }

  lemma SlotIsKey(first: int, bucket: int, n: nat, key: int, i: int)
    requires bucket > 0 && first % bucket == 0 && key % bucket == 0 && 0 <= i < n
    ensures first + i * bucket == key <==> Slot(first, bucket, n, key) == Some(i)
  {
    var q := key / bucket - first / bucket;
    Apart(first, key, bucket);
    MultipleMod(q, bucket);
    MulOrder(i, q, bucket);
    MulOrder(0, q, bucket);
  }

  lemma Apart(a: int, b: int, k: int)
    requires k > 0 && a % k == 0 && b % k == 0
    ensures b - a == (b / k - a / k) * k
  {
    assert a == a / k * k && b == b / k * k;
  }

  function AddAt(sums: seq<Agg>, at: Option<nat>, v: Agg): (r: seq<Agg>)
    requires at.Some? ==> at.value < |sums|
    ensures |r| == |sums| && forall i :: 0 <= i < |sums| ==> r[i] == if at == Some(i) then Plus(sums[i], v) else sums[i]
  {
    if at.Some? then sums[at.value := Plus(sums[at.value], v)] else sums
  }

  predicate RawSums(sums: seq<Agg>, rows: seq<Row>, first: int, bucket: int, n: nat)
    requires bucket > 0
  {
    |sums| == n && forall i :: 0 <= i < n ==> sums[i] == RawPoint(rows, bucket, first + i * bucket)
  }

  predicate MinuteSums(sums: seq<Agg>, table: seq<MinuteRow>, first: int, bucket: int, n: nat)
    requires bucket > 0
  {
    |sums| == n && forall i :: 0 <= i < n ==> sums[i] == MinutePoint(table, bucket, first + i * bucket)
  }

  lemma RawSnoc(rows: seq<Row>, r: Row, bucket: int, b: int)
    requires bucket > 0
    ensures RawPoint(rows + [r], bucket, b) ==
            if KeyOf(r.ts, bucket) == b then Plus(RawPoint(rows, bucket, b), One(r)) else RawPoint(rows, bucket, b)
  {
    hide Plus, One, KeyOf;
    assert (rows + [r])[..|rows|] == rows;
  }

  /** A key among the buckets has its whole width inside the range. */
  lemma RangeSpan(first: int, last: int, bucket: int, n: nat, key: int, i: int)
    requires Range(first, last, bucket, n) && 0 <= i < n
    ensures first + i * bucket == key ==> first <= key <= last
  {
    MulMono(0, i, bucket);
    MulMono(i, n - 1, bucket);
  }

  lemma RawStep(sums: seq<Agg>, rows: seq<Row>, r: Row, first: int, last: int, bucket: int, n: nat)
    requires Range(first, last, bucket, n) && RawSums(sums, rows, first, bucket, n)
    ensures RawSums(if first as real <= r.ts < (last + bucket) as real
                    then AddAt(sums, Slot(first, bucket, n, KeyOf(r.ts, bucket)), One(r)) else sums,
                    rows + [r], first, bucket, n)
  {
    hide RawPoint, Plus, One, KeyOf, Slot, AddAt;
    var key := KeyOf(r.ts, bucket);
    KeyIsMultiple(r.ts, bucket);
    var now := if first as real <= r.ts < (last + bucket) as real then AddAt(sums, Slot(first, bucket, n, key), One(r))
               else sums;
    forall i | 0 <= i < n
      ensures now[i] == RawPoint(rows + [r], bucket, first + i * bucket)
    {
      RawSnoc(rows, r, bucket, first + i * bucket);
      SlotIsKey(first, bucket, n, key, i);
      RangeSpan(first, last, bucket, n, key, i);
    }
  }

  lemma MinuteStep(sums: seq<Agg>, table: seq<MinuteRow>, r: MinuteRow, first: int, last: int, bucket: int, n: nat)
    requires Range(first, last, bucket, n) && MinuteSums(sums, table, first, bucket, n)
    ensures MinuteSums(if first <= r.minute < last + bucket
                       then AddAt(sums, Slot(first, bucket, n, MinuteKey(r.minute, bucket)), r.agg) else sums,
                       table + [r], first, bucket, n)
  {
    hide MinutePoint, Plus, MinuteKey, Slot, AddAt;
    var key := MinuteKey(r.minute, bucket);
    MinuteKeyIsMultiple(r.minute, bucket);
    var now := if first <= r.minute < last + bucket then AddAt(sums, Slot(first, bucket, n, key), r.agg) else sums;
    forall i | 0 <= i < n
      ensures now[i] == MinutePoint(table + [r], bucket, first + i * bucket)
    {
      MinutePointSnoc(table, r, bucket, first + i * bucket);
      SlotIsKey(first, bucket, n, key, i);
      RangeSpan(first, last, bucket, n, key, i);
    }
  }

  /** The raw rows of one bucket. */
  function RawPoint(rows: seq<Row>, bucket: int, b: int): Agg
    requires bucket > 0
  {
    if rows == [] then ZERO
    else
      var last := rows[|rows| - 1];
      var before := RawPoint(rows[..|rows| - 1], bucket, b);
      if KeyOf(last.ts, bucket) == b then Plus(before, One(last)) else before
  }

  /** The minute rows of one bucket. */
  function MinutePoint(table: seq<MinuteRow>, bucket: int, b: int): Agg
    requires bucket > 0
  {
    if table == [] then ZERO
    else
      var rest := MinutePoint(table[1..], bucket, b);
      if MinuteKey(table[0].minute, bucket) == b then Plus(table[0].agg, rest) else rest
  }

  function Series(packets: seq<Row>, minutes: seq<MinuteRow>, start: real, now: real, bucket: int): seq<(int, Agg)>
    requires bucket > 0
  {
    var first, n := KeyOf(start, bucket), Buckets(start, now, bucket);
    seq(n, i requires 0 <= i < n =>
      (first + i * bucket, if bucket < 60 then RawPoint(packets, bucket, first + i * bucket)
                           else MinutePoint(minutes, bucket, first + i * bucket)))
  }

  /** The reference: a raw scan of the whole log for every bucket, whatever its size. */
  function RawSeries(packets: seq<Row>, start: real, now: real, bucket: int): seq<(int, Agg)>
    requires bucket > 0
  {
    var first, n := KeyOf(start, bucket), Buckets(start, now, bucket);
    seq(n, i requires 0 <= i < n => (first + i * bucket, RawPoint(packets, bucket, first + i * bucket)))
  }

  // ------------------------------------------------------------------ properties

  lemma PlusLaws(a: Agg, b: Agg, c: Agg)
    ensures Plus(a, ZERO) == a == Plus(ZERO, a) && Plus(a, b) == Plus(b, a)
    ensures Plus(Plus(a, b), c) == Plus(a, Plus(b, c))
  {
  }

  lemma {:induction false} MinutePointAppend(s: seq<MinuteRow>, t: seq<MinuteRow>, bucket: int, b: int)
    requires bucket > 0
    ensures MinutePoint(s + t, bucket, b) == Plus(MinutePoint(s, bucket, b), MinutePoint(t, bucket, b))
  {
    if s == [] {
      assert s + t == t;
    } else {
      assert (s + t)[1..] == s[1..] + t;
      MinutePointAppend(s[1..], t, bucket, b);
    }
  }

  lemma MinutePointSnoc(s: seq<MinuteRow>, r: MinuteRow, bucket: int, b: int)
    requires bucket > 0
    ensures MinutePoint(s + [r], bucket, b) ==
            if MinuteKey(r.minute, bucket) == b then Plus(MinutePoint(s, bucket, b), r.agg)
            else MinutePoint(s, bucket, b)
  {
    hide Plus, MinuteKey;
    MinutePointAppend(s, [r], bucket, b);
    assert [r][1..] == [];
    PlusLaws(r.agg, ZERO, ZERO);
    PlusLaws(MinutePoint(s, bucket, b), ZERO, ZERO);
  }

  /** An upsert adds its counts to its own bucket and to no other, for buckets of any size. */
  lemma {:induction false} UpsertAdds(table: seq<MinuteRow>, m: int, v: Agg, bucket: int, b: int)
    requires bucket > 0
    ensures MinutePoint(Upsert(table, m, v), bucket, b) ==
            Plus(MinutePoint(table, bucket, b), if MinuteKey(m, bucket) == b then v else ZERO)
  {
    hide Plus, MinuteKey;
    if table == [] {
      assert [MinuteRow(m, v)][1..] == [];
      PlusLaws(v, ZERO, ZERO);
      PlusLaws(ZERO, ZERO, ZERO);
    } else {
      var rest := MinutePoint(table[1..], bucket, b);
      PlusLaws(table[0].agg, v, rest);
      PlusLaws(table[0].agg, rest, v);
      PlusLaws(rest, v, v);
      PlusLaws(Plus(table[0].agg, rest), v, v);
      PlusLaws(rest, ZERO, ZERO);
      if table[0].minute == m {
        assert ([MinuteRow(m, Plus(table[0].agg, v))] + table[1..])[1..] == table[1..];
        PlusLaws(MinutePoint(table, bucket, b), ZERO, ZERO);
      } else {
        assert ([table[0]] + Upsert(table[1..], m, v))[1..] == Upsert(table[1..], m, v);
        UpsertAdds(table[1..], m, v, bucket, b);
        PlusLaws(MinutePoint(table, bucket, b), ZERO, ZERO);
        PlusLaws(table[0].agg, rest, ZERO);
      }
    }
  }

  lemma EmptyPoint(bucket: int, b: int)
    requires bucket > 0
    ensures MinutePoint([], bucket, b) == ZERO
  {
  }

  lemma {:induction false} UpsertAllAdds(table: seq<MinuteRow>, more: seq<MinuteRow>, bucket: int, b: int)
    requires bucket > 0
    ensures MinutePoint(UpsertAll(table, more), bucket, b) ==
            Plus(MinutePoint(table, bucket, b), MinutePoint(more, bucket, b))
  {
    hide Plus, MinuteKey, Upsert, MinutePoint;
    var p := MinutePoint(table, bucket, b);
    if more == [] {
      EmptyPoint(bucket, b);
      PlusLaws(p, ZERO, ZERO);
    } else {
      var init, last := more[..|more| - 1], more[|more| - 1];
      UpsertAllAdds(table, init, bucket, b);
      UpsertAdds(UpsertAll(table, init), last.minute, last.agg, bucket, b);
      assert more == init + [last];
      MinutePointSnoc(init, last, bucket, b);
      PlusLaws(p, MinutePoint(init, bucket, b), last.agg);
      PlusLaws(Plus(p, MinutePoint(init, bucket, b)), ZERO, ZERO);
    }
  }

  /** Rows counted by the bucket their minute falls in. */
  function ByMinute(rows: seq<Row>, bucket: int, b: int): Agg
    requires bucket > 0
  {
    if rows == [] then ZERO
    else
      var last := rows[|rows| - 1];
      Plus(ByMinute(rows[..|rows| - 1], bucket, b), if MinuteKey(Minute(last.ts), bucket) == b then One(last) else ZERO)
  }

  lemma {:induction false} MinuteAggCounts(rows: seq<Row>, bucket: int, b: int)
    requires bucket > 0
    ensures MinutePoint(MinuteAgg(rows), bucket, b) == ByMinute(rows, bucket, b)
  {
    if rows != [] {
      var last := rows[|rows| - 1];
      MinuteAggCounts(rows[..|rows| - 1], bucket, b);
      UpsertAdds(MinuteAgg(rows[..|rows| - 1]), Minute(last.ts), One(last), bucket, b);
    }
  }

  lemma {:induction false} ByMinuteAppend(s: seq<Row>, t: seq<Row>, bucket: int, b: int)
    requires bucket > 0
    ensures ByMinute(s + t, bucket, b) == Plus(ByMinute(s, bucket, b), ByMinute(t, bucket, b))
  {
    hide MinuteKey, Minute;
    if t == [] {
      assert s + t == s;
    } else {
      var init, last := t[..|t| - 1], t[|t| - 1];
      assert (s + t)[..|s + t| - 1] == s + init;
      ByMinuteAppend(s, init, bucket, b);
      var more := if MinuteKey(Minute(last.ts), bucket) == b then One(last) else ZERO;
      PlusLaws(ByMinute(s, bucket, b), ByMinute(init, bucket, b), more);
    }
  }

  /** The stores after a run of batches, none of whose rows has been pruned. */
  function Log(batches: seq<seq<Row>>): seq<Row>
  {
    if batches == [] then [] else Log(batches[..|batches| - 1]) + batches[|batches| - 1]
  }

  function Table(batches: seq<seq<Row>>): seq<MinuteRow>
  {
    if batches == [] then []
    else UpsertAll(Table(batches[..|batches| - 1]), MinuteAgg(batches[|batches| - 1]))
  }

  /** The minute table counts the log by minute, however its events were split into batches. */
  lemma {:induction false} TableCountsLog(batches: seq<seq<Row>>, bucket: int, b: int)
    requires bucket > 0
    ensures MinutePoint(Table(batches), bucket, b) == ByMinute(Log(batches), bucket, b)
  {
    if batches != [] {
      var init, last := batches[..|batches| - 1], batches[|batches| - 1];
      TableCountsLog(init, bucket, b);
      UpsertAllAdds(Table(init), MinuteAgg(last), bucket, b);
      MinuteAggCounts(last, bucket, b);
      ByMinuteAppend(Log(init), last, bucket, b);
    }
  }

  predicate DistinctMinutes(table: seq<MinuteRow>)
  {
    forall i, j :: 0 <= i < j < |table| ==> table[i].minute != table[j].minute
  }

  lemma {:induction false} UpsertDistinct(table: seq<MinuteRow>, m: int, v: Agg)
    requires DistinctMinutes(table)
    ensures DistinctMinutes(Upsert(table, m, v))
    ensures forall r :: r in Upsert(table, m, v) ==> r.minute == m || r in table
  {
    if table != [] && table[0].minute != m {
      var rest := Upsert(table[1..], m, v);
      UpsertDistinct(table[1..], m, v);
      forall i | 0 <= i < |rest| ensures rest[i].minute != table[0].minute {
        if rest[i].minute != m {
          assert rest[i] in table[1..];
          var k :| 0 <= k < |table[1..]| && table[1..][k] == rest[i];
          assert table[k + 1] == rest[i];
        }
      }
    }
  }

  lemma {:induction false} UpsertAllDistinct(table: seq<MinuteRow>, more: seq<MinuteRow>)
    requires DistinctMinutes(table)
    ensures DistinctMinutes(UpsertAll(table, more))
  {
    if more != [] {
      UpsertAllDistinct(table, more[..|more| - 1]);
      UpsertDistinct(UpsertAll(table, more[..|more| - 1]), more[|more| - 1].minute, more[|more| - 1].agg);
    }
  }

  lemma {:induction false} TableDistinct(batches: seq<seq<Row>>)
    ensures DistinctMinutes(Table(batches))
  {
    if batches != [] {
      TableDistinct(batches[..|batches| - 1]);
      UpsertAllDistinct(Table(batches[..|batches| - 1]), MinuteAgg(batches[|batches| - 1]));
    }
  }

  /** The minute table holds one row a minute, and two ways of batching the same events give every minute the
      same counts. */
  lemma BatchingIsInvisible(xs: seq<seq<Row>>, ys: seq<seq<Row>>, m: int)
    requires Log(xs) == Log(ys)
    ensures DistinctMinutes(Table(xs)) && DistinctMinutes(Table(ys))
    ensures MinutePoint(Table(xs), 60, m) == MinutePoint(Table(ys), 60, m)
  {
    TableDistinct(xs);
    TableDistinct(ys);
    TableCountsLog(xs, 60, m);
    TableCountsLog(ys, 60, m);
  }

  lemma RealQuotientIs(x: real, k: int, d: int)
    requires k > 0 && (d * k) as real <= x < (d * k + k) as real
    ensures (x / k as real).Floor == d
  {
    RealMultiples(d, k);
    QuotientAtLeast(x, k as real, d as real);
    QuotientAtLeast(x, k as real, d as real + 1.0);
  }

  lemma MinutesOfBucket(q: int, k: int)
    requires k > 0
    ensures MinuteKey(q * 60, 60 * k) == q / k * (60 * k)
  {
    var d := q / k;
    assert d * k <= q < d * k + k;
    assert d * (60 * k) == 60 * (d * k);
    QuotientIs(q * 60, 60 * k, d);
  }

  lemma DivideTwice(ts: real, k: int)
    requires k > 0
    ensures ts / (60 * k) as real == ts / 60.0 / k as real
  {
    var r := k as real;
    assert (60 * k) as real == 60.0 * r;
    assert ts / (60.0 * r) * (60.0 * r) == ts;
  }

  lemma WholeFloor(x: real, k: int)
    requires k > 0
    ensures (x / k as real).Floor == x.Floor / k
  {
    var d := x.Floor / k;
    assert d * k <= x.Floor < d * k + k;
    RealQuotientIs(x, k, d);
  }

  /** In a bucket of whole minutes, a time and its minute fall together. */
  lemma WholeMinutes(ts: real, k: int)
    requires k > 0
    ensures MinuteKey(Minute(ts), 60 * k) == KeyOf(ts, 60 * k)
  {
    hide MinuteKey;
    MinutesOfBucket((ts / 60.0).Floor, k);
    DivideTwice(ts, k);
    WholeFloor(ts / 60.0, k);
  }

  lemma {:induction false} WholeMinutePoints(rows: seq<Row>, k: int, b: int)
    requires k > 0
    ensures ByMinute(rows, 60 * k, b) == RawPoint(rows, 60 * k, b)
  {
    if rows != [] {
      WholeMinutePoints(rows[..|rows| - 1], k, b);
      WholeMinutes(rows[|rows| - 1].ts, k);
    }
  }

  lemma PointsAgree(batches: seq<seq<Row>>, bucket: int, b: int)
    requires bucket > 0 && bucket % 60 == 0
    ensures MinutePoint(Table(batches), bucket, b) == RawPoint(Log(batches), bucket, b)
  {
    hide RawPoint, MinutePoint, Log, Table, ByMinute;
    assert bucket == 60 * (bucket / 60);
    TableCountsLog(batches, bucket, b);
    WholeMinutePoints(Log(batches), bucket / 60, b);
  }

  /** For buckets of whole minutes the series, read from the minute table, is the raw scan of the log bucket for
      bucket, for every history of batches and every window. */
  lemma SeriesAgree(batches: seq<seq<Row>>, start: real, now: real, bucket: int)
    requires bucket > 0 && (bucket < 60 || bucket % 60 == 0)
    ensures Series(Log(batches), Table(batches), start, now, bucket) == RawSeries(Log(batches), start, now, bucket)
  {
    hide RawPoint, MinutePoint, Log, Table, KeyOf;
    if bucket >= 60 {
      var first, n := KeyOf(start, bucket), Buckets(start, now, bucket);
      forall i | 0 <= i < n
        ensures MinutePoint(Table(batches), bucket, first + i * bucket) ==
                RawPoint(Log(batches), bucket, first + i * bucket)
      {
        PointsAgree(batches, bucket, first + i * bucket);
      }
    }
  }

  /** Whole minutes are exactly what it takes: any other bucket of a minute or more misplaces some packet. */
  lemma AgreementNeedsWholeMinutes(bucket: int)
    requires bucket >= 60
    ensures bucket % 60 == 0 <==>
            forall batches: seq<seq<Row>>, start: real, now: real ::
              Series(Log(batches), Table(batches), start, now, bucket) == RawSeries(Log(batches), start, now, bucket)
  {
    if bucket % 60 == 0 {
      forall batches: seq<seq<Row>>, start: real, now: real
        ensures Series(Log(batches), Table(batches), start, now, bucket) == RawSeries(Log(batches), start, now, bucket)
      {
        SeriesAgree(batches, start, now, bucket);
      }
    } else {
      var batches, t := Misplaced(bucket);
      assert Series(Log(batches), Table(batches), t, t, bucket)[0].1 != RawSeries(Log(batches), t, t, bucket)[0].1;
    }
  }

  /** A packet at the very start of a bucket, whose minute began in the bucket before. */
  lemma Misplaced(bucket: int) returns (batches: seq<seq<Row>>, t: real)
    requires bucket >= 60 && bucket % 60 != 0
    ensures Buckets(t, t, bucket) == 1
    ensures MinutePoint(Table(batches), bucket, KeyOf(t, bucket)) != RawPoint(Log(batches), bucket, KeyOf(t, bucket))
  {
    hide *;
    t := bucket as real;
    batches := [[Row(t, "tcp", Local, 1)]];
    FirstOfBucket(bucket);
    OneRowLog(Row(t, "tcp", Local, 1));
    TableCountsLog(batches, bucket, bucket);
    OneRowPoints(Row(t, "tcp", Local, 1), bucket);
    OneBucket(t, bucket);
  }

  lemma OneRowLog(r: Row)
    ensures Log([[r]]) == [r]
  {
    assert [[r]][..0] == [];
    assert Log([]) + [r] == [r];
  }

  lemma CountsOne(r: Row)
    ensures One(r).packetsIn + One(r).packetsOut == 1
    ensures One(r).tcp + One(r).udp + One(r).icmp + One(r).other == 1
  {
  }

  lemma OneRowPoints(r: Row, bucket: int)
    requires bucket > 0 && KeyOf(r.ts, bucket) == bucket && MinuteKey(Minute(r.ts), bucket) == 0
    ensures RawPoint([r], bucket, bucket) != ByMinute([r], bucket, bucket)
  {
    hide KeyOf, MinuteKey, Minute, One, Plus;
    assert [r][..0] == [];
    CountsOne(r);
    PlusLaws(ZERO, ZERO, ZERO);
    PlusLaws(One(r), ZERO, ZERO);
  }

  lemma OneBucket(t: real, bucket: int)
    requires bucket > 0
    ensures Buckets(t, t, bucket) == 1
  {
    hide KeyOf;
  }

  lemma FirstOfBucket(bucket: int)
    requires bucket >= 60 && bucket % 60 != 0
    ensures KeyOf(bucket as real, bucket) == bucket && MinuteKey(Minute(bucket as real), bucket) == 0
  {
    assert bucket as real / bucket as real == 1.0;
    assert (bucket as real / 60.0).Floor == bucket / 60;
    QuotientIs(Minute(bucket as real), bucket, 0);
  }
}
