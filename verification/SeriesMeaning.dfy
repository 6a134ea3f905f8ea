/** The time series told from the observed packets: what each bucket counts, and which buckets there are. */
module SeriesMeaning {
  import opened Wrappers
  import opened TrafficStats
  import Arithmetic

  /** Coming in: to an own address from another one; for a polled sample, more bytes in than out. */
  predicate Incoming(selfIps: set<string>, e: PacketEvent)
  {
    if e.synthetic then e.bytesIn > e.bytesOut else e.dstAddr in selfIps && e.srcAddr !in selfIps
  }

  function Size(e: PacketEvent): int { if e.synthetic then e.bytesIn + e.bytesOut else e.length }

  predicate Within(e: PacketEvent, from: int, to: int) { from as real <= e.ts < to as real }

  /** How many of the events have a property, and their bytes together. */
  function Number(events: seq<PacketEvent>, p: PacketEvent -> bool): nat
  {
    if events == [] then 0
    else Number(events[..|events| - 1], p) + if p(events[|events| - 1]) then 1 else 0
  }

  function Total(events: seq<PacketEvent>, p: PacketEvent -> bool): int
  {
    if events == [] then 0
    else Total(events[..|events| - 1], p) + if p(events[|events| - 1]) then Size(events[|events| - 1]) else 0
  }

  /** What a bucket says of the events observed in it. */
  predicate Says(v: Agg, selfIps: set<string>, events: seq<PacketEvent>, from: int, to: int)
  {
    var own := selfIps;
    && v.bytesIn == Total(events, e => Within(e, from, to) && Incoming(own, e))
    && v.bytesOut == Total(events, e => Within(e, from, to) && !Incoming(own, e))
    && v.packetsIn == Number(events, e => Within(e, from, to) && Incoming(own, e))
    && v.packetsOut == Number(events, e => Within(e, from, to) && !Incoming(own, e))
    && v.tcp == Number(events, e => Within(e, from, to) && e.protocol == "tcp")
    && v.udp == Number(events, e => Within(e, from, to) && e.protocol == "udp")
    && v.icmp == Number(events, e => Within(e, from, to) && e.protocol == "icmp")
    && v.other == Number(events, e => Within(e, from, to) && e.protocol !in {"tcp", "udp", "icmp"})
  }

  lemma {:induction false} PointSays(selfIps: set<string>, events: seq<PacketEvent>, bucket: int, b: int)
    requires bucket > 0 && b % bucket == 0
    ensures Says(RawPoint(RowsOf(selfIps, events), bucket, b), selfIps, events, b, b + bucket)
  {
    hide KeyOf;
    if events != [] {
      var n := |events| - 1;
      PointSays(selfIps, events[..n], bucket, b);
      var rows := RowsOf(selfIps, events);
      assert rows[..n] == RowsOf(selfIps, events[..n]);
      KeyIsInterval(rows[n].ts, bucket, b);
    }
  }

  /** A time's bucket is the aligned interval it lies in. */
  lemma KeyIsInterval(ts: real, bucket: int, b: int)
    requires bucket > 0 && b % bucket == 0
    ensures KeyOf(ts, bucket) == b <==> b as real <= ts < (b + bucket) as real
  {
    hide KeyOf;
    var key := KeyOf(ts, bucket);
    KeyIsMultiple(ts, bucket);
    Apart(b, key, bucket);
    var q := key / bucket - b / bucket;
    if q > 0 { Arithmetic.MulMono(1, q, bucket); } else if q < 0 { Arithmetic.MulMono(q, -1, bucket); }
  }

  function Flat(batches: seq<seq<PacketEvent>>): seq<PacketEvent>
  {
    if batches == [] then [] else Flat(batches[..|batches| - 1]) + batches[|batches| - 1]
  }

  function Rows(selfIps: set<string>, batches: seq<seq<PacketEvent>>): seq<seq<Row>>
  {
    seq(|batches|, i requires 0 <= i < |batches| => RowsOf(selfIps, batches[i]))
  }

  lemma {:induction false} LogIsRows(selfIps: set<string>, batches: seq<seq<PacketEvent>>)
    ensures Log(Rows(selfIps, batches)) == RowsOf(selfIps, Flat(batches))
  {
    if batches != [] {
      var n := |batches| - 1;
      LogIsRows(selfIps, batches[..n]);
      assert Rows(selfIps, batches)[..n] == Rows(selfIps, batches[..n]);
    }
  }

  /** For buckets under a minute or of whole minutes, whatever the batches: the series begins with the bucket of the
      window's start, goes on bucket by bucket to that of its end, and each bucket counts exactly the packets observed
      in it, by direction and protocol. */
  lemma SeriesSays(selfIps: set<string>, batches: seq<seq<PacketEvent>>, start: real, now: real, bucket: int)
    requires bucket > 0 && (bucket < 60 || bucket % 60 == 0)
    ensures var rows := Rows(selfIps, batches);
            var points := Series(Log(rows), Table(rows), start, now, bucket);
            && points != []
            && points[0].0 as real <= start < (points[0].0 + bucket) as real
            && (start <= now ==> var last := points[|points| - 1].0; last as real <= now < (last + bucket) as real)
            && (now < points[0].0 as real ==> |points| == 1)
            && (forall i :: 0 <= i < |points| ==>
                  && points[i].0 == points[0].0 + i * bucket && points[i].0 % bucket == 0
                  && Says(points[i].1, selfIps, Flat(batches), points[i].0, points[i].0 + bucket))
  {
    hide RawPoint, MinutePoint, Log, Table, KeyOf, Buckets, Says, Rows, Flat;
    var rows := Rows(selfIps, batches);
    var first, n := KeyOf(start, bucket), Buckets(start, now, bucket);
    SeriesAgree(rows, start, now, bucket);
    LogIsRows(selfIps, batches);
    BucketsReach(start, now, bucket);
    KeyIsMultiple(start, bucket);
    WindowReached(start, now, bucket);
    var points := Series(Log(rows), Table(rows), start, now, bucket);
    forall i | 0 <= i < n
      ensures points[i].0 == points[0].0 + i * bucket && points[i].0 % bucket == 0
      ensures Says(points[i].1, selfIps, Flat(batches), points[i].0, points[i].0 + bucket)
    {
      Aligned(first, bucket, i);
      PointSays(selfIps, Flat(batches), bucket, first + i * bucket);
    }
  }

  lemma Aligned(first: int, bucket: int, i: int)
    requires bucket > 0 && first % bucket == 0
    ensures (first + i * bucket) % bucket == 0
  {
    var q := first / bucket;
    assert first + i * bucket == (q + i) * bucket;
    MultipleMod(q + i, bucket);
  }

  lemma WindowReached(start: real, now: real, bucket: int)
    requires bucket > 0
    ensures var first, n := KeyOf(start, bucket), Buckets(start, now, bucket);
            && n > 0
            && (start <= now ==> var last := first + (n - 1) * bucket; last as real <= now < (last + bucket) as real)
            && (now < first as real ==> n == 1)
  {
    hide KeyOf;
    BucketsReach(start, now, bucket);
    KeyIsMultiple(start, bucket);
    KeyIsMultiple(now, bucket);
    if start <= now { KeysRise(start, now, bucket); }
  }

  lemma KeysRise(s: real, t: real, bucket: int)
    requires bucket > 0 && s <= t
    ensures KeyOf(s, bucket) <= KeyOf(t, bucket)
  {
    hide KeyOf;
    KeyIsMultiple(s, bucket);
    KeyIsMultiple(t, bucket);
    Apart(KeyOf(s, bucket), KeyOf(t, bucket), bucket);
    var q := KeyOf(t, bucket) / bucket - KeyOf(s, bucket) / bucket;
    if q < 0 { Arithmetic.MulMono(q, -1, bucket); }
  }
}
