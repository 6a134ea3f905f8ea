/** The threat timeline: event rows counted into buckets by severity. */
module ThreatTimeline {
  import opened Arithmetic

  datatype Event = Event(severity: string, ts: int)

  predicate Known(severity: string) { severity in ["critical", "high", "medium", "low", "info"] }

  /** Buckets from `since` to `until`, at least one, rounded up. */
  function Buckets(since: int, until: int, bucket: int): (n: nat)
    requires bucket > 0
    ensures n >= 1 && until - since <= n * bucket && (n == 1 || n * bucket - bucket < until - since)
  {
    if until - since <= bucket then 1 else (until - since - 1) / bucket + 1
  }

  /** Events a bucket shows, by its own bounds. */
  function In(events: seq<Event>, from: int, to: int): multiset<string>
  {
    if events == [] then multiset{}
    else
      var e := events[|events| - 1];
      var before := In(events[..|events| - 1], from, to);
      if from <= e.ts < to && e.severity in {"critical", "high", "medium", "low", "info"}
      then before + multiset{e.severity} else before
  }

  /** `timeline`, over the rows of a query for `since <= ts <= until`. */
  method Timeline(events: seq<Event>, since: int, until: int, bucket: int)
    returns (points: seq<(int, multiset<string>)>)
    requires bucket > 0 && forall i :: 0 <= i < |events| ==> since <= events[i].ts <= until
    ensures |points| == Buckets(since, until, bucket)
    ensures forall i :: 0 <= i < |points| ==>
              points[i] ==
              (Start(since, bucket, i), In(events, Start(since, bucket, i), Start(since, bucket, i) + bucket))
  {
    hide Known, In, Start;
    var n := Buckets(since, until, bucket);
    var counts: seq<multiset<string>> := seq(n, _ => multiset{});
    EmptyIsEmpty();
    for k := 0 to |events|
      invariant |counts| == n && Counted(counts, events[..k], since, bucket)
    {
      var e := events[k];
      var at := (e.ts - since) / bucket;
      CountNext(counts, events, k, since, bucket);
      if 0 <= at < n && Known(e.severity) { counts := counts[at := counts[at] + multiset{e.severity}]; }
    }
    assert events[..|events|] == events;
    points := seq(n, i requires 0 <= i < n => (Start(since, bucket, i), counts[i]));
  }

  function Start(since: int, bucket: int, i: int): int { since + i * bucket }

  lemma StartsBucket(ts: int, since: int, bucket: int, i: int)
    requires bucket > 0
    ensures Start(since, bucket, i) <= ts < Start(since, bucket, i) + bucket <==> (ts - since) / bucket == i
  {
    BucketAt(ts - since, bucket, i);
  }

  lemma EmptyIsEmpty()
    ensures forall from, to :: In([], from, to) == multiset{}
  {
  }

  predicate Counted(counts: seq<multiset<string>>, events: seq<Event>, since: int, bucket: int)
  {
    forall i :: 0 <= i < |counts| ==> counts[i] == In(events, Start(since, bucket, i), Start(since, bucket, i) + bucket)
  }

  /** An event counts in the bucket its offset falls in and in no other. */
  lemma CountNext(counts: seq<multiset<string>>, events: seq<Event>, k: nat, since: int, bucket: int)
    requires bucket > 0 && k < |events| && Counted(counts, events[..k], since, bucket)
    ensures var at := (events[k].ts - since) / bucket;
            Counted(if 0 <= at < |counts| && Known(events[k].severity)
                    then counts[at := counts[at] + multiset{events[k].severity}]
                    else counts, events[..k + 1], since, bucket)
  {
    hide Known, In, Start;
    var at := (events[k].ts - since) / bucket;
    var now := if 0 <= at < |counts| && Known(events[k].severity)
               then counts[at := counts[at] + multiset{events[k].severity}] else counts;
    forall i | 0 <= i < |counts|
      ensures now[i] == In(events[..k + 1], Start(since, bucket, i), Start(since, bucket, i) + bucket)
    {
      StartsBucket(events[k].ts, since, bucket, i);
      InSnoc(events, k, Start(since, bucket, i), Start(since, bucket, i) + bucket);
    }
  }

  lemma InSnoc(events: seq<Event>, k: nat, from: int, to: int)
    requires k < |events|
    ensures In(events[..k + 1], from, to) ==
              if from <= events[k].ts < to && Known(events[k].severity)
              then In(events[..k], from, to) + multiset{events[k].severity} else In(events[..k], from, to)
  {
    assert events[..k + 1][..k] == events[..k];
  }

  lemma BucketAt(d: int, bucket: int, i: int)
    requires bucket > 0
    ensures i * bucket <= d < i * bucket + bucket <==> d / bucket == i
  {
    var q := d / bucket;
    assert d == bucket * q + d % bucket && bucket * q == q * bucket;
    if i < q { MulMono(i + 1, q, bucket); } else if q < i { MulMono(q + 1, i, bucket); }
  }

  lemma {:induction false} InSplits(events: seq<Event>, from: int, mid: int, to: int)
    requires from <= mid <= to
    ensures In(events, from, to) == In(events, from, mid) + In(events, mid, to)
  {
    hide Known;
    if events != [] { InSplits(events[..|events| - 1], from, mid, to); }
  }

  /** The first `k` buckets together. */
  function Together(events: seq<Event>, since: int, bucket: int, k: nat): multiset<string>
  {
    if k == 0 then multiset{}
    else
      var from := Start(since, bucket, k - 1);
      Together(events, since, bucket, k - 1) + In(events, from, from + bucket)
  }

  lemma {:induction false} EmptyIn(events: seq<Event>, at: int)
    ensures In(events, at, at) == multiset{}
  {
    if events != [] { EmptyIn(events[..|events| - 1], at); }
  }

  lemma {:induction false} TogetherIsIn(events: seq<Event>, since: int, bucket: int, k: nat)
    requires bucket > 0
    ensures Together(events, since, bucket, k) == In(events, since, since + k * bucket)
  {
    hide In;
    if k == 0 {
      EmptyIn(events, since);
    } else {
      TogetherIsIn(events, since, bucket, k - 1);
      MulMono(0, k - 1, bucket);
      InSplits(events, since, since + (k - 1) * bucket, since + (k - 1) * bucket + bucket);
      assert (k - 1) * bucket + bucket == k * bucket;
    }
  }

  lemma {:induction false} InWidens(events: seq<Event>, from: int, to: int, wider: int)
    requires to <= wider && forall i :: 0 <= i < |events| ==> events[i].ts < to
    ensures In(events, from, wider) == In(events, from, to)
  {
    hide Known;
    if events != [] { InWidens(events[..|events| - 1], from, to, wider); }
  }

  /** The last bucket ends with the window when the window is whole buckets, and after it otherwise. */
  lemma BucketsEnd(since: int, until: int, bucket: int)
    requires bucket > 0 && since <= until
    ensures var end := since + Buckets(since, until, bucket) * bucket;
            if until > since && (until - since) % bucket == 0 then end == until else end > until
  {
    var n, d := Buckets(since, until, bucket), until - since;
    BucketAt(d, bucket, n);
    assert (n - 1) * bucket == n * bucket - bucket;
    if d == n * bucket { assert d / bucket == n && d % bucket == 0; } else { BucketAt(d, bucket, n - 1); }
  }

  /** The buckets together show every event the query returns, once, except those exactly at the end of a window
      that is a whole number of buckets long. */
  lemma TimelineLosesTheEnd(events: seq<Event>, since: int, until: int, bucket: int)
    requires bucket > 0 && since <= until && forall i :: 0 <= i < |events| ==> since <= events[i].ts <= until
    ensures var shown := Together(events, since, bucket, Buckets(since, until, bucket));
            if until > since && (until - since) % bucket == 0
            then shown == In(events, since, until)
            else shown == In(events, since, until + 1)
  {
    hide In, Buckets, Together;
    var n := Buckets(since, until, bucket);
    TogetherIsIn(events, since, bucket, n);
    BucketsEnd(since, until, bucket);
    if !(until > since && (until - since) % bucket == 0) { InWidens(events, since, until + 1, since + n * bucket); }
  }
}
