/** The per-peer token bucket of the API, over real time. */
module RateLimiting {
  import opened Wrappers

  datatype Bucket = Bucket(tokens: real, last: real)

  /** `rate` tokens come back per second. */
  datatype Config = Config(capacity: real, rate: real, maxPeers: nat)

  type Table = map<string, Bucket>

  /** One call: a new bucket reads the clock at `born`, the refill at `now`. */
  datatype Request = Request(peer: string, born: real, now: real)

  predicate ValidConfig(c: Config) { c.capacity >= 1.0 && c.rate > 0.0 }

  function MinReal(a: real, b: real): real { if a <= b then a else b }

  function MaxReal(a: real, b: real): real { if a >= b then a else b }

  /** Tokens that come back over `elapsed` seconds. */
  function Gain(c: Config, elapsed: real): real { elapsed * c.rate }

  function Refilled(c: Config, b: Bucket, now: real): real
  {
    MinReal(c.capacity, b.tokens + Gain(c, MaxReal(now - b.last, 0.0)))
  }

  function BucketFor(c: Config, table: Table, r: Request): Bucket
  {
    if r.peer in table then table[r.peer] else Bucket(c.capacity, r.born)
  }

  /** The table the request is booked in: a full table is dropped when a new peer comes. */
  function Room(c: Config, table: Table, peer: string): Table
  {
    if peer !in table && |table| >= c.maxPeers then map[] else table
  }

  predicate Allowed(c: Config, table: Table, r: Request) { Refilled(c, BucketFor(c, table, r), r.now) >= 1.0 }

  function After(c: Config, table: Table, r: Request): Table
  {
    var tokens := Refilled(c, BucketFor(c, table, r), r.now);
    Room(c, table, r.peer)[r.peer := Bucket(if tokens >= 1.0 then tokens - 1.0 else tokens, r.now)]
  }

  /** Whole seconds to wait after a refusal; 0 when allowed. */
  function RetryAfter(c: Config, table: Table, r: Request): int
    requires ValidConfig(c)
  {
    var tokens := Refilled(c, BucketFor(c, table, r), r.now);
    if tokens >= 1.0 then 0
    else
      var wait := ((1.0 - tokens) / c.rate).Floor + 1;
      if wait >= 1 then wait else 1
  }

  class RateLimiter {
    const c: Config
    var buckets: Table

    ghost predicate Valid()
      reads this
    {
      ValidConfig(c)
    }

    constructor (capacity: int, windowSeconds: real, maxPeers: nat)
      requires capacity >= 1 && windowSeconds > 0.0
      ensures Valid() && buckets == map[]
      ensures c.capacity == capacity as real && c.rate * windowSeconds == c.capacity && c.maxPeers == maxPeers
    {
      c := Config(capacity as real, capacity as real / windowSeconds, maxPeers);
      buckets := map[];
    }

    /** `check`, with the two clock readings as arguments. */
    method Check(peer: string, born: real, now: real) returns (allowed: bool, retryAfter: int)
      requires Valid()
      modifies this
      ensures Valid() && buckets == After(c, old(buckets), Request(peer, born, now))
      ensures allowed == Allowed(c, old(buckets), Request(peer, born, now))
      ensures retryAfter == RetryAfter(c, old(buckets), Request(peer, born, now))
    {
      if peer !in buckets {
        if |buckets| >= c.maxPeers { buckets := map[]; }
        buckets := buckets[peer := Bucket(c.capacity, born)];
      }
      var b := buckets[peer];
      var elapsed := MaxReal(now - b.last, 0.0);
      var tokens := MinReal(c.capacity, b.tokens + Gain(c, elapsed));
      if tokens >= 1.0 {
        buckets := buckets[peer := Bucket(tokens - 1.0, now)];
        return true, 0;
      }
      buckets := buckets[peer := Bucket(tokens, now)];
      var wait := (1.0 - tokens) / c.rate;
      return false, if wait.Floor + 1 >= 1 then wait.Floor + 1 else 1;
    }
  }

  // ------------------------------------------------------------------ properties

  /** Requests in clock order inside the closed window from `from` to `to`. */
  predicate Timely(rs: seq<Request>, from: real, to: real)
    decreases |rs|
  {
    if rs == [] then from <= to
    else from <= rs[0].born <= rs[0].now <= to && Timely(rs[1..], rs[0].now, to)
  }

  /** No request of the run drops a table that holds the peer. */
  predicate NeverDropped(c: Config, table: Table, rs: seq<Request>, peer: string)
    decreases |rs|
  {
    rs == [] || ((peer in table ==> peer in Room(c, table, rs[0].peer))
                 && NeverDropped(c, After(c, table, rs[0]), rs[1..], peer))
  }

  /** How many of the peer's requests are admitted. */
  function Admitted(c: Config, table: Table, rs: seq<Request>, peer: string): nat
    decreases |rs|
  {
    if rs == [] then 0
    else (if rs[0].peer == peer && Allowed(c, table, rs[0]) then 1 else 0)
         + Admitted(c, After(c, table, rs[0]), rs[1..], peer)
  }

  /** The tokens the peer could spend at `now`. */
  function Budget(c: Config, table: Table, peer: string, now: real): (b: real)
    ensures b <= c.capacity
  {
    if peer in table then Refilled(c, table[peer], now) else c.capacity
  }

  predicate ReadBefore(table: Table, peer: string, now: real) { peer in table ==> table[peer].last <= now }

  lemma GainAdds(c: Config, a: real, b: real)
    ensures Gain(c, a) + Gain(c, b) == Gain(c, a + b)
  {
  }

  lemma GainRises(c: Config, a: real, b: real)
    requires ValidConfig(c) && a <= b
    ensures Gain(c, a) <= Gain(c, b) && Gain(c, 0.0) == 0.0
  {
    assert (b - a) * c.rate >= 0.0;
  }

  /** The budget grows no faster than the refill rate. */
  lemma BudgetGrows(c: Config, table: Table, peer: string, from: real, to: real)
    requires ValidConfig(c) && from <= to && ReadBefore(table, peer, from)
    ensures Budget(c, table, peer, to) <= Budget(c, table, peer, from) + Gain(c, to - from)
  {
    hide Gain;
    GainRises(c, 0.0, to - from);
    if peer in table {
      var last := table[peer].last;
      GainAdds(c, from - last, to - from);
      assert (from - last) + (to - from) == to - last;
    }
  }

  /** A request takes a token from its own peer's budget exactly when it is admitted, and none from others. */
  lemma StepSpends(c: Config, table: Table, r: Request, peer: string)
    requires ValidConfig(c) && r.born <= r.now && ReadBefore(table, peer, r.now)
    requires peer in table ==> peer in Room(c, table, r.peer)
    ensures Budget(c, After(c, table, r), peer, r.now)
         <= Budget(c, table, peer, r.now) - (if r.peer == peer && Allowed(c, table, r) then 1.0 else 0.0)
    ensures ReadBefore(After(c, table, r), peer, r.now)
  {
    hide Gain;
    GainRises(c, 0.0, r.now - r.born);
  }

  lemma {:induction false} AdmittedWithinBudget(
    c: Config, table: Table, rs: seq<Request>, peer: string, from: real, to: real)
    requires ValidConfig(c) && Timely(rs, from, to) && ReadBefore(table, peer, from)
    requires NeverDropped(c, table, rs, peer)
    requires Budget(c, table, peer, from) >= 0.0
    ensures Admitted(c, table, rs, peer) as real <= Budget(c, table, peer, from) + Gain(c, to - from)
    decreases |rs|
  {
    hide Budget, Allowed, After, Gain;
    if rs == [] {
      GainRises(c, 0.0, to - from);
    } else {
      var r := rs[0];
      var next := After(c, table, r);
      BudgetGrows(c, table, peer, from, r.now);
      LaterRead(table, peer, from, r.now);
      StepSpends(c, table, r, peer);
      BudgetStays(c, table, r, peer, from);
      AdmittedWithinBudget(c, next, rs[1..], peer, r.now, to);
      GainAdds(c, r.now - from, to - r.now);
      assert (r.now - from) + (to - r.now) == to - from;
    }
  }

  lemma LaterRead(table: Table, peer: string, from: real, now: real)
    requires ReadBefore(table, peer, from) && from <= now
    ensures ReadBefore(table, peer, now)
  {
  }

  /** The budget never goes below zero. */
  lemma BudgetStays(c: Config, table: Table, r: Request, peer: string, from: real)
    requires ValidConfig(c) && from <= r.born <= r.now && ReadBefore(table, peer, from)
    requires Budget(c, table, peer, from) >= 0.0 && (peer in table ==> peer in Room(c, table, r.peer))
    ensures Budget(c, After(c, table, r), peer, r.now) >= 0.0
  {
    hide Gain;
    if peer in table {
      GainRises(c, from - table[peer].last, r.now - table[peer].last);
    }
    GainRises(c, 0.0, r.now - r.born);
  }

  /** Between any two times of a run under a monotone clock, a peer whose bucket is not dropped is admitted at
      most capacity + (to - from) * rate times, whatever the table held at the start and whoever else calls. */
  lemma WindowBound(c: Config, table: Table, rs: seq<Request>, peer: string, from: real, to: real)
    requires ValidConfig(c) && Timely(rs, from, to) && ReadBefore(table, peer, from)
    requires peer in table ==> table[peer].tokens >= 0.0
    requires NeverDropped(c, table, rs, peer)
    ensures Admitted(c, table, rs, peer) as real <= c.capacity + (to - from) * c.rate
  {
    hide Admitted, Timely, NeverDropped, Budget;
    BudgetNotNegative(c, table, peer, from);
    AdmittedWithinBudget(c, table, rs, peer, from, to);
  }

  lemma BudgetNotNegative(c: Config, table: Table, peer: string, now: real)
    requires ValidConfig(c) && ReadBefore(table, peer, now) && (peer in table ==> table[peer].tokens >= 0.0)
    ensures Budget(c, table, peer, now) >= 0.0
  {
    hide Gain;
    if peer in table { GainRises(c, 0.0, now - table[peer].last); }
  }

  function AfterAll(c: Config, table: Table, rs: seq<Request>): Table
    decreases |rs|
  {
    if rs == [] then table else AfterAll(c, After(c, table, rs[0]), rs[1..])
  }

  /** Requests of other peers leave a peer's bucket alone, or drop it with the whole table. */
  lemma {:induction false} OthersKeepOrDrop(c: Config, table: Table, rs: seq<Request>, peer: string)
    requires forall i :: 0 <= i < |rs| ==> rs[i].peer != peer
    ensures peer in AfterAll(c, table, rs) ==> peer in table && AfterAll(c, table, rs)[peer] == table[peer]
    decreases |rs|
  {
    hide Refilled;
    if rs != [] {
      assert rs[0].peer != peer;
      OthersKeepOrDrop(c, After(c, table, rs[0]), rs[1..], peer);
    }
  }

  lemma FreshIsAllowed(c: Config, table: Table, r: Request)
    requires ValidConfig(c) && r.peer !in table
    ensures Allowed(c, table, r)
  {
    hide Gain;
    if r.now > r.born { GainRises(c, 0.0, r.now - r.born); } else { GainRises(c, 0.0, 0.0); }
  }

  /** An admitted request is told to wait for nothing, a refused one at least a second. A known peer's request leaves
      every other bucket alone; a new peer's drops them exactly when the table is full. */
  lemma RequestTells(c: Config, table: Table, r: Request)
    requires ValidConfig(c)
    ensures if Allowed(c, table, r) then RetryAfter(c, table, r) == 0 else RetryAfter(c, table, r) >= 1
    ensures r.peer in After(c, table, r)
    ensures forall peer :: peer in table && peer != r.peer ==>
              if r.peer !in table && |table| >= c.maxPeers then peer !in After(c, table, r)
              else peer in After(c, table, r) && After(c, table, r)[peer] == table[peer]
  {
    hide Refilled, BucketFor;
  }

  /** `n` requests of one peer at one moment. */
  function Burst(peer: string, t: real, n: nat): seq<Request> { seq(n, _ => Request(peer, t, t)) }

  /** Of a burst, as many are admitted as there are whole tokens. */
  lemma {:induction false} BurstFrom(c: Config, table: Table, peer: string, t: real, n: nat)
    requires ValidConfig(c) && peer in table && table[peer].last == t && 0.0 <= table[peer].tokens <= c.capacity
    ensures var whole := table[peer].tokens.Floor;
            Admitted(c, table, Burst(peer, t, n), peer) == if n < whole then n else whole
    decreases n
  {
    hide After, Allowed;
    if n > 0 {
      var r := Request(peer, t, t);
      assert Burst(peer, t, n)[0] == r && Burst(peer, t, n)[1..] == Burst(peer, t, n - 1);
      AtOnce(c, table, r);
      BurstFrom(c, After(c, table, r), peer, t, n - 1);
    }
  }

  lemma AtOnce(c: Config, table: Table, r: Request)
    requires ValidConfig(c) && r.peer in table && table[r.peer].last == r.now && table[r.peer].tokens <= c.capacity
    ensures Allowed(c, table, r) <==> table[r.peer].tokens >= 1.0
    ensures var b, x := table[r.peer], After(c, table, r);
            r.peer in x && x[r.peer] == Bucket(if b.tokens >= 1.0 then b.tokens - 1.0 else b.tokens, r.now)
  {
    assert Gain(c, 0.0) == 0.0;
  }

  /** A peer not seen before can send its whole capacity at once, and no more. */
  lemma FreshBurst(c: Config, table: Table, peer: string, t: real, n: nat)
    requires ValidConfig(c) && peer !in table
    ensures var whole := c.capacity.Floor;
            Admitted(c, table, Burst(peer, t, n), peer) == if n < whole then n else whole
  {
    hide After, Allowed;
    if n > 0 {
      var r := Request(peer, t, t);
      assert Burst(peer, t, n)[0] == r && Burst(peer, t, n)[1..] == Burst(peer, t, n - 1);
      FirstRequest(c, table, r);
      BurstFrom(c, After(c, table, r), peer, t, n - 1);
    }
  }

  lemma FirstRequest(c: Config, table: Table, r: Request)
    requires ValidConfig(c) && r.peer !in table && r.born == r.now
    ensures Allowed(c, table, r) && r.peer in After(c, table, r)
    ensures After(c, table, r)[r.peer] == Bucket(c.capacity - 1.0, r.now)
  {
    assert Gain(c, 0.0) == 0.0;
  }

  /** A refused peer's next call, whatever other peers do in between: it is admitted exactly when the missing part of
      a token is back by then, or its bucket was dropped with a full table. Waiting the seconds it was told is always
      enough, and they are less than a second more than the least that works. */
  lemma RetryAfterIsHonest(c: Config, table: Table, r: Request, rs: seq<Request>, again: Request)
    requires ValidConfig(c) && !Allowed(c, table, r) && again.peer == r.peer && r.now <= again.now
    requires forall i :: 0 <= i < |rs| ==> rs[i].peer != r.peer
    ensures var least := (1.0 - Refilled(c, BucketFor(c, table, r), r.now)) / c.rate;
            var later := AfterAll(c, After(c, table, r), rs);
            && least < RetryAfter(c, table, r) as real <= least + 1.0
            && (Allowed(c, later, again) <==> again.now - r.now >= least || r.peer !in later)
            && (again.now >= r.now + RetryAfter(c, table, r) as real ==> Allowed(c, later, again))
  {
    hide AfterAll, After, Allowed, RetryAfter, Refilled, BucketFor, Room;
    OthersKeepOrDrop(c, After(c, table, r), rs, r.peer);
    RefusedBucket(c, table, r);
    var later := AfterAll(c, After(c, table, r), rs);
    if r.peer in later { KeptBucket(c, later, again); } else { FreshIsAllowed(c, later, again); }
  }

  /** What a refusal leaves behind, and what it answers. */
  lemma RefusedBucket(c: Config, table: Table, r: Request)
    requires ValidConfig(c) && !Allowed(c, table, r)
    ensures var tokens := Refilled(c, BucketFor(c, table, r), r.now);
            var least := (1.0 - tokens) / c.rate;
            && tokens < 1.0 && r.peer in After(c, table, r) && After(c, table, r)[r.peer] == Bucket(tokens, r.now)
            && least < RetryAfter(c, table, r) as real <= least + 1.0
  {
    hide Refilled, BucketFor, Room;
    Quotient(1.0 - Refilled(c, BucketFor(c, table, r), r.now), c.rate, 0.0);
  }

  lemma KeptBucket(c: Config, table: Table, r: Request)
    requires ValidConfig(c) && r.peer in table && table[r.peer].tokens < 1.0 && table[r.peer].last <= r.now
    ensures Allowed(c, table, r) <==> r.now - table[r.peer].last >= (1.0 - table[r.peer].tokens) / c.rate
  {
    Quotient(1.0 - table[r.peer].tokens, c.rate, r.now - table[r.peer].last);
  }

  lemma Quotient(a: real, rate: real, x: real)
    requires rate > 0.0 && a > 0.0
    ensures a / rate > 0.0
    ensures x * rate >= a <==> x >= a / rate
  {
    var q := a / rate;
    assert q * rate == a;
    if x >= q { assert (x - q) * rate >= 0.0; } else { assert (q - x) * rate > 0.0; }
  }

  function Cap(c: Config): nat { if c.maxPeers == 0 then 1 else c.maxPeers }

  lemma StepBounded(c: Config, table: Table, r: Request)
    requires |table| <= Cap(c)
    ensures |After(c, table, r)| <= Cap(c)
  {
    var room := Room(c, table, r.peer);
    var b := After(c, table, r)[r.peer];
    assert room[r.peer := b].Keys == room.Keys + {r.peer};
    if r.peer in room {
      assert room.Keys + {r.peer} == room.Keys;
    } else {
      assert |room.Keys + {r.peer}| == |room.Keys| + 1;
    }
  }

  /** Over any requests the table never outgrows its cap; a cap of none still keeps the bucket in hand. */
  lemma {:induction false} TableStaysBounded(c: Config, table: Table, rs: seq<Request>)
    requires |table| <= Cap(c)
    ensures |AfterAll(c, table, rs)| <= Cap(c)
    decreases |rs|
  {
    hide After, Cap;
    if rs != [] {
      StepBounded(c, table, rs[0]);
      TableStaysBounded(c, After(c, table, rs[0]), rs[1..]);
    }
  }
}
