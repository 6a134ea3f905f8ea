/** The asynchronous reverse-DNS cache: lookups that never block, background resolutions on a pool, and
    least-recently-used eviction. The resolver is foreign: a resolution ends with a name, with no name, or by an
    exception the code does not catch, and handing one to the pool may itself raise. */
module DnsCache {
  import opened Wrappers

  type Name = Option<string>

  datatype Entry = Entry(addr: string, name: Name)

  /** A use of an address: a lookup that hit, or a completed resolution with its result. */
  datatype Touch = Hit(addr: string) | Resolved(addr: string, name: Name)

  /** The ordered dict, oldest first; the in-flight set; resolutions asked for but not yet handed to the pool,
      running in it, and lost to an exception there or at the hand-over; the touch history. */
  datatype State = State(
    maxEntries: nat, cache: seq<Entry>, inflight: set<string>,
    asked: multiset<string>, running: multiset<string>, lost: multiset<string>, history: seq<Touch>)

  datatype Event =
    | Lookup(addr: string) | Submit(addr: string) | SubmitFails(addr: string)
    | Complete(addr: string, name: Name) | Escape(addr: string)

  function Initial(maxEntries: nat): State
  {
    State(maxEntries, [], {}, multiset{}, multiset{}, multiset{}, [])
  }

  // ------------------------------------------------------------------ the ordered dict

  function Find(cache: seq<Entry>, addr: string): (i: Option<nat>)
    ensures i.Some? ==> i.value < |cache| && cache[i.value].addr == addr
    ensures i.None? ==> forall k :: 0 <= k < |cache| ==> cache[k].addr != addr
  {
    if cache == [] then None
    else if cache[0].addr == addr then Some(0)
    else
      var i := Find(cache[1..], addr);
      if i.None? then None else Some(i.value + 1)
  }

  function Without(cache: seq<Entry>, addr: string): (r: seq<Entry>)
    ensures |r| <= |cache|
  {
    if cache == [] then [] else (if cache[0].addr == addr then [] else [cache[0]]) + Without(cache[1..], addr)
  }

  /** `while len > max: popitem(last=False)`. */
  function Last<T>(s: seq<T>, n: nat): seq<T> { if |s| <= n then s else s[|s| - n..] }

  function Store(cache: seq<Entry>, e: Entry, max: nat): seq<Entry> { Last(Without(cache, e.addr) + [e], max) }

  predicate Enabled(s: State, ev: Event)
  {
    match ev
    case Lookup(_) => true
    case Submit(a) => a in s.asked
    case SubmitFails(a) => a in s.asked
    case Complete(a, _) => a in s.running
    case Escape(a) => a in s.running
  }

  /** The locked sections and the hand-over to the pool between them, one at a time. */
  function Next(s: State, ev: Event): State
    requires Enabled(s, ev)
  {
    match ev
    case Lookup(a) =>
      var i := Find(s.cache, a);
      if i.Some? then
        s.(cache := Without(s.cache, a) + [s.cache[i.value]], history := s.history + [Hit(a)])
      else if a in s.inflight then s
      else s.(inflight := s.inflight + {a}, asked := s.asked + multiset{a})
    case Submit(a) => s.(asked := s.asked - multiset{a}, running := s.running + multiset{a})
    case SubmitFails(a) => s.(asked := s.asked - multiset{a}, lost := s.lost + multiset{a})
    case Complete(a, name) =>
      s.(cache := Store(s.cache, Entry(a, name), s.maxEntries), inflight := s.inflight - {a},
         running := s.running - multiset{a}, history := s.history + [Resolved(a, name)])
    case Escape(a) => s.(running := s.running - multiset{a}, lost := s.lost + multiset{a})
  }

  predicate Reaches(s: State, evs: seq<Event>, t: State)
    decreases |evs|
  {
    if evs == [] then s == t else Enabled(s, evs[0]) && Reaches(Next(s, evs[0]), evs[1..], t)
  }

  // ------------------------------------------------------------------ the reference: recency of touches

  /** Every touched address with its latest resolved name, in the order of its last touch. */
  function Recency(history: seq<Touch>): seq<Entry>
  {
    if history == [] then []
    else
      var before, last := Recency(history[..|history| - 1]), history[|history| - 1];
      var name := if last.Resolved? then last.name else NameIn(before, last.addr);
      Without(before, last.addr) + [Entry(last.addr, name)]
  }

  function NameIn(entries: seq<Entry>, addr: string): Name
  {
    var i := Find(entries, addr);
    if i.None? then None else entries[i.value].name
  }

  predicate DistinctAddrs(entries: seq<Entry>)
  {
    forall i, j :: 0 <= i < j < |entries| ==> entries[i].addr != entries[j].addr
  }

  /** The entry the last touch leaves at the end. */
  function LastEntry(history: seq<Touch>): Entry
    requires history != []
  {
    var last := history[|history| - 1];
    Entry(last.addr, if last.Resolved? then last.name else NameIn(Recency(history[..|history| - 1]), last.addr))
  }

  lemma {:induction false} RecencyDistinct(history: seq<Touch>)
    ensures DistinctAddrs(Recency(history))
  {
    hide DistinctAddrs, Without;
    if history == [] {
      NothingDistinct();
    } else {
      RecencyDistinct(history[..|history| - 1]);
      AppendDistinct(Recency(history[..|history| - 1]), LastEntry(history));
    }
  }

  lemma NothingDistinct()
    ensures DistinctAddrs([])
  {
  }

  lemma AppendDistinct(entries: seq<Entry>, e: Entry)
    requires DistinctAddrs(entries)
    ensures DistinctAddrs(Without(entries, e.addr) + [e])
  {
    WithoutDistinct(entries, e.addr);
  }

  /** The recency list holds exactly the addresses touched. */
  lemma {:induction false} RecencyCovers(history: seq<Touch>, addr: string)
    ensures Find(Recency(history), addr).Some? <==> exists i :: 0 <= i < |history| && history[i].addr == addr
  {
    hide Without, Find;
    if history == [] {
      NothingFound(addr);
    } else {
      var h := history[..|history| - 1];
      RecencyCovers(h, addr);
      FindAppend(Recency(h), LastEntry(history).addr, LastEntry(history), addr);
      assert forall i :: 0 <= i < |h| ==> h[i] == history[i];
    }
  }

  lemma NothingFound(addr: string)
    ensures Find([], addr).None?
  {
  }

  /** The name held for an address is that of its last resolution in the history. */
  lemma {:induction false} RecencyNames(history: seq<Touch>, i: nat)
    requires i < |history| && history[i].Resolved?
    requires forall j :: i < j < |history| && history[j].addr == history[i].addr ==> history[j].Hit?
    ensures NameIn(Recency(history), history[i].addr) == history[i].name
  {
    hide Without, Find, NameIn;
    var h := history[..|history| - 1];
    FindAppend(Recency(h), LastEntry(history).addr, LastEntry(history), history[i].addr);
    if i < |h| {
      assert h[i] == history[i] && forall j :: i < j < |h| ==> h[j] == history[j];
      RecencyNames(h, i);
    }
  }

  lemma {:induction false} WithoutDistinct(entries: seq<Entry>, addr: string)
    requires DistinctAddrs(entries)
    ensures DistinctAddrs(Without(entries, addr)) && Find(Without(entries, addr), addr).None?
  {
    hide DistinctAddrs, Find;
    NothingFound(addr);
    NothingDistinct();
    if entries != [] {
      var e, tail := entries[0], entries[1..];
      var rest := Without(tail, addr);
      assert entries == [e] + tail;
      ConsDistinct(e, tail);
      WithoutDistinct(tail, addr);
      WithoutMembers(tail, addr);
      ConsDistinct(e, rest);
      FindCons(e, rest, addr);
      assert Without(entries, addr) == if e.addr == addr then rest else [e] + rest;
    }
  }

  lemma ConsDistinct(e: Entry, rest: seq<Entry>)
    ensures DistinctAddrs([e] + rest) <==> DistinctAddrs(rest) && forall x :: x in rest ==> x.addr != e.addr
  {
    var all := [e] + rest;
    assert forall i :: 0 <= i < |rest| ==> all[i + 1] == rest[i];
    if DistinctAddrs(all) {
      forall i, j | 0 <= i < j < |rest|
        ensures rest[i].addr != rest[j].addr
      {
        assert all[i + 1].addr != all[j + 1].addr;
      }
      forall x | x in rest
        ensures x.addr != e.addr
      {
        var k :| 0 <= k < |rest| && rest[k] == x;
        assert all[0].addr != all[k + 1].addr;
      }
    }
  }

  lemma {:induction false} WithoutMembers(entries: seq<Entry>, addr: string)
    ensures forall x :: x in Without(entries, addr) ==> x in entries
  {
    if entries != [] {
      WithoutMembers(entries[1..], addr);
    }
  }

  lemma {:induction false} FindAppend(entries: seq<Entry>, addr: string, e: Entry, x: string)
    requires e.addr == addr
    ensures Find(Without(entries, addr) + [e], x).Some? <==> x == addr || Find(entries, x).Some?
    ensures x == addr ==> NameIn(Without(entries, addr) + [e], x) == e.name
    ensures x != addr ==> NameIn(Without(entries, addr) + [e], x) == NameIn(entries, x)
  {
    hide Find, NameIn;
    var r := Without(entries, addr) + [e];
    if entries == [] {
      assert r == [e] + [];
      FindCons(e, [], x);
      NothingFound(x);
      NothingNamed(x);
    } else {
      FindAppend(entries[1..], addr, e, x);
      var rest := Without(entries[1..], addr) + [e];
      assert entries == [entries[0]] + entries[1..];
      FindCons(entries[0], entries[1..], x);
      FindCons(entries[0], rest, x);
      if entries[0].addr == addr {
        assert r == rest;
      } else {
        assert r == [entries[0]] + rest;
      }
    }
  }

  lemma FindCons(e: Entry, rest: seq<Entry>, x: string)
    ensures Find([e] + rest, x).Some? <==> e.addr == x || Find(rest, x).Some?
    ensures NameIn([e] + rest, x) == if e.addr == x then e.name else NameIn(rest, x)
  {
    assert ([e] + rest)[1..] == rest;
  }

  lemma NothingNamed(x: string)
    ensures NameIn([], x) == None
  {
  }

  // ------------------------------------------------------------------ eviction keeps the most recent

  lemma {:induction false} WithoutAppend(a: seq<Entry>, b: seq<Entry>, addr: string)
    ensures Without(a + b, addr) == Without(a, addr) + Without(b, addr)
  {
    hide Without;
    if a == [] {
      assert a + b == b;
      WithoutNothing(addr);
      assert [] + Without(b, addr) == Without(b, addr);
    } else {
      WithoutAppend(a[1..], b, addr);
      assert a == [a[0]] + a[1..] && a + b == [a[0]] + (a[1..] + b);
      WithoutCons(a[0], a[1..], addr);
      WithoutCons(a[0], a[1..] + b, addr);
      var head := if a[0].addr == addr then [] else [a[0]];
      assert head + (Without(a[1..], addr) + Without(b, addr)) == head + Without(a[1..], addr) + Without(b, addr);
    }
  }

  lemma WithoutNothing(addr: string)
    ensures Without([], addr) == []
  {
  }

  lemma WithoutCons(e: Entry, rest: seq<Entry>, addr: string)
    ensures Without([e] + rest, addr) == (if e.addr == addr then [] else [e]) + Without(rest, addr)
  {
    assert ([e] + rest)[1..] == rest;
  }

  lemma {:induction false} WithoutAbsent(a: seq<Entry>, addr: string)
    requires forall k :: 0 <= k < |a| ==> a[k].addr != addr
    ensures Without(a, addr) == a
  {
    if a != [] { WithoutAbsent(a[1..], addr); }
  }

  lemma {:induction false} WithoutPresent(a: seq<Entry>, addr: string)
    requires DistinctAddrs(a) && Find(a, addr).Some?
    ensures |Without(a, addr)| == |a| - 1
  {
    if a[0].addr == addr {
      WithoutAbsent(a[1..], addr);
    } else {
      WithoutPresent(a[1..], addr);
    }
  }

  /** Touching an address and keeping the last `n` only needs the last `n` kept before. */
  lemma LastTouched(d: seq<Entry>, e: Entry, n: nat)
    requires DistinctAddrs(d)
    ensures Last(Without(d, e.addr) + [e], n) == Last(Without(Last(d, n), e.addr) + [e], n)
  {
    hide Find, Without, DistinctAddrs;
    if |d| > n {
      var p, l := d[..|d| - n], d[|d| - n..];
      assert d == p + l;
      WithoutAppend(p, l, e.addr);
      var w := Without(l, e.addr) + [e];
      assert Without(d, e.addr) + [e] == Without(p, e.addr) + w;
      TailLoses(p, l, e.addr);
      LastOfAppend(Without(p, e.addr), w, n);
    }
  }

  lemma LastOfAppend(a: seq<Entry>, b: seq<Entry>, n: nat)
    ensures |b| >= n ==> Last(a + b, n) == Last(b, n)
  {
    if |b| >= n { assert (a + b)[|a| + |b| - n..] == b[|b| - n..]; }
  }

  /** An address is in one part only, so dropping it costs the second part one entry at most. */
  lemma TailLoses(p: seq<Entry>, l: seq<Entry>, addr: string)
    requires DistinctAddrs(p + l)
    ensures |Without(l, addr)| >= |l| - 1
  {
    hide Find, Without;
    assert forall i :: 0 <= i < |l| ==> (p + l)[|p| + i] == l[i];
    if Find(l, addr).Some? { WithoutPresent(l, addr); } else { WithoutAbsent(l, addr); }
  }

  // ------------------------------------------------------------------ the invariant

  predicate Inv(s: State)
  {
    && s.cache == Last(Recency(s.history), s.maxEntries)
    && DistinctAddrs(Recency(s.history))
    && multiset(s.inflight) == s.asked + s.running + s.lost
    && (forall a :: a in s.inflight ==> Find(s.cache, a).None?)
  }

  lemma LastDistinct(d: seq<Entry>, n: nat)
    requires DistinctAddrs(d)
    ensures DistinctAddrs(Last(d, n))
  {
  }

  lemma {:induction false} FindInLast(d: seq<Entry>, n: nat, addr: string)
    requires DistinctAddrs(d) && Find(Last(d, n), addr).Some?
    ensures Last(d, n)[Find(Last(d, n), addr).value] == Entry(addr, NameIn(d, addr))
  {
    var l := Last(d, n);
    var i := Find(l, addr).value;
    assert l[i] == d[|d| - |l| + i];
  }

  lemma HitKeeps(s: State, addr: string)
    requires Inv(s) && Find(s.cache, addr).Some?
    ensures Inv(Next(s, Lookup(addr)))
  {
    var d := Recency(s.history);
    var e := s.cache[Find(s.cache, addr).value];
    var h := s.history + [Hit(addr)];
    FindInLast(d, s.maxEntries, addr);
    assert h[..|h| - 1] == s.history;
    LastTouched(d, e, s.maxEntries);
    WithoutDistinct(d, addr);
    LastDistinct(d, s.maxEntries);
    WithoutPresent(s.cache, addr);
    RecencyDistinct(h);
    forall a | a in s.inflight ensures Find(Without(s.cache, addr) + [e], a).None? {
      FindAppend(s.cache, addr, e, a);
    }
  }

  lemma CompleteKeeps(s: State, addr: string, name: Name)
    requires Inv(s) && addr in s.running
    ensures Inv(Next(s, Complete(addr, name)))
  {
    hide Without, Find, DistinctAddrs, Recency;
    var e := Entry(addr, name);
    var h := s.history + [Resolved(addr, name)];
    RecencyResolved(s.history, addr, name);
    LastTouched(Recency(s.history), e, s.maxEntries);
    RecencyDistinct(h);
    assert addr in s.inflight by { assert multiset(s.inflight)[addr] >= s.running[addr]; }
    assert multiset(s.inflight - {addr}) == multiset(s.inflight) - multiset{addr};
    forall a | a in s.inflight - {addr} ensures Find(Store(s.cache, e, s.maxEntries), a).None? {
      StoreFinds(s.cache, e, s.maxEntries, a);
    }
  }

  lemma RecencyResolved(history: seq<Touch>, addr: string, name: Name)
    ensures Recency(history + [Resolved(addr, name)]) == Without(Recency(history), addr) + [Entry(addr, name)]
  {
    var h := history + [Resolved(addr, name)];
    assert h[..|h| - 1] == history;
  }

  lemma StoreFinds(cache: seq<Entry>, e: Entry, max: nat, a: string)
    requires a != e.addr && Find(cache, a).None?
    ensures Find(Store(cache, e, max), a).None?
  {
    hide Without, Find, NameIn;
    var c := Without(cache, e.addr) + [e];
    FindAppend(cache, e.addr, e, a);
    AbsentInLast(c, max, a);
  }

  lemma AbsentInLast(c: seq<Entry>, n: nat, a: string)
    requires Find(c, a).None?
    ensures Find(Last(c, n), a).None?
  {
    hide Find;
    FindDrop(c, if |c| <= n then 0 else |c| - n, a);
    assert c[0..] == c;
  }

  lemma {:induction false} FindDrop(c: seq<Entry>, k: nat, a: string)
    requires Find(c, a).None? && k <= |c|
    ensures Find(c[k..], a).None?
  {
    if k == 0 {
      assert c[0..] == c;
    } else {
      FindDrop(c[1..], k - 1, a);
      assert c[1..][k - 1..] == c[k..];
    }
  }

  lemma InvNext(s: State, ev: Event)
    requires Inv(s) && Enabled(s, ev)
    ensures Inv(Next(s, ev))
  {
    match ev
    case Lookup(a) => if Find(s.cache, a).Some? { HitKeeps(s, a); } else { MissKeeps(s, a); }
    case Submit(a) => MoveKeeps(s, ev);
    case SubmitFails(a) => MoveKeeps(s, ev);
    case Complete(a, name) => CompleteKeeps(s, a, name);
    case Escape(a) => MoveKeeps(s, ev);
  }

  lemma MissKeeps(s: State, a: string)
    requires Inv(s) && Find(s.cache, a).None?
    ensures Inv(Next(s, Lookup(a)))
  {
    hide Recency, DistinctAddrs, Find, Last;
    if a !in s.inflight {
      assert multiset(s.inflight + {a}) == multiset(s.inflight) + multiset{a};
    }
  }

  /** Starting or losing a resolution moves it from one bag to the next. */
  lemma MoveKeeps(s: State, ev: Event)
    requires Inv(s) && (ev.Submit? || ev.SubmitFails? || ev.Escape?) && Enabled(s, ev)
    ensures Inv(Next(s, ev))
  {
    hide Recency, DistinctAddrs, Find, Last, Store, Without;
    var t := Next(s, ev);
    assert t.asked + t.running + t.lost == s.asked + s.running + s.lost;
  }

  lemma {:induction false} KeepsFrom(s: State, evs: seq<Event>, t: State)
    requires Inv(s) && Reaches(s, evs, t)
    ensures Inv(t) && t.maxEntries == s.maxEntries
    decreases |evs|
  {
    hide Inv;
    if evs != [] {
      InvNext(s, evs[0]);
      KeepsFrom(Next(s, evs[0]), evs[1..], t);
    }
  }

  /** Under every interleaving of lookups and resolutions: the cache is the last `maxEntries` distinct addresses
      of the touch history in order of last use, each with its latest resolved name; no address is both cached
      and in flight; and no address has two resolutions asked for, running or lost. */
  lemma CacheIsRecency(maxEntries: nat, evs: seq<Event>, s: State)
    requires Reaches(Initial(maxEntries), evs, s)
    ensures s.cache == Last(Recency(s.history), maxEntries)
    ensures forall a :: a in s.inflight ==> Find(s.cache, a).None?
    ensures forall a :: (s.asked + s.running + s.lost)[a] <= 1
    ensures forall a :: a in s.asked + s.running + s.lost <==> a in s.inflight
  {
    KeepsFrom(Initial(maxEntries), evs, s);
    forall a ensures (s.asked + s.running + s.lost)[a] <= 1 {
      assert multiset(s.inflight)[a] <= 1;
    }
  }

  /** An address whose resolution was lost to an uncaught exception stays in flight, and is never asked for again, in
      any continuation. */
  lemma {:induction false} LostStaysLost(s: State, evs: seq<Event>, t: State, addr: string)
    requires Inv(s) && addr in s.lost && Reaches(s, evs, t)
    ensures addr in t.lost && addr !in t.asked && addr !in t.running && addr in t.inflight
    decreases |evs|
  {
    assert addr in s.inflight && s.asked[addr] + s.running[addr] + s.lost[addr] <= 1 by {
      assert multiset(s.inflight)[addr] == (s.asked + s.running + s.lost)[addr];
    }
    if evs != [] {
      InvNext(s, evs[0]);
      LostStaysLost(Next(s, evs[0]), evs[1..], t, addr);
    }
  }

  /** Any other address in flight can still be resolved. */
  lemma CanBeFreed(s: State, addr: string) returns (evs: seq<Event>, t: State)
    requires Inv(s) && addr in s.inflight && addr !in s.lost
    ensures Reaches(s, evs, t) && addr !in t.inflight && |evs| <= 2
  {
    hide Store, Recency, Last, Find, DistinctAddrs;
    assert addr in s.asked || addr in s.running by {
      assert multiset(s.inflight)[addr] == (s.asked + s.running + s.lost)[addr];
    }
    var u := s;
    if addr in s.running {
      evs := [Complete(addr, None)];
    } else {
      u := Next(s, Submit(addr));
      evs := [Submit(addr), Complete(addr, None)];
      assert evs[1..] == [Complete(addr, None)];
    }
    t := Next(u, Complete(addr, None));
    OneStep(u, Complete(addr, None));
  }

  lemma OneStep(s: State, ev: Event)
    requires Enabled(s, ev)
    ensures Reaches(s, [ev], Next(s, ev))
  {
    assert [ev][1..] == [];
  }

  /** The address is in flight in every state any continuation reaches. */
  ghost predicate Stuck(s: State, addr: string) { forall evs, t :: Reaches(s, evs, t) ==> addr in t.inflight }

  /** An address in flight is stuck there exactly when its resolution was lost: it, or its hand-over to
      the pool, ended by an exception nothing catches. */
  lemma StuckExactly(s: State, addr: string)
    requires Inv(s) && addr in s.inflight
    ensures Stuck(s, addr) <==> addr in s.lost
  {
    hide Inv, Reaches;
    if addr in s.lost {
      forall evs, t | Reaches(s, evs, t)
        ensures addr in t.inflight
      {
        LostStaysLost(s, evs, t, addr);
      }
    } else {
      var evs, t := CanBeFreed(s, addr);
    }
  }

  // ------------------------------------------------------------------ the cache object

  class ReverseDnsCache {
    const maxEntries: nat
    var cache: seq<Entry>
    var inflight: set<string>

    ghost function View(asked: multiset<string>, running: multiset<string>, lost: multiset<string>,
                        history: seq<Touch>): State
      reads this
    {
      State(maxEntries, cache, inflight, asked, running, lost, history)
    }

    constructor (maxEntries: nat)
      ensures View(multiset{}, multiset{}, multiset{}, []) == Initial(maxEntries)
    {
      this.maxEntries, cache, inflight := maxEntries, [], {};
    }

    /** The locked section of `lookup`; `submit` says that a resolution is then handed to the pool. */
    method LookupAddr(addr: string) returns (name: Name, submit: bool)
      modifies this
      ensures name == NameIn(old(cache), addr)
      ensures forall asked, running, lost, history ::
                var t := Next(old(View(asked, running, lost, history)), Lookup(addr));
                View(t.asked, t.running, t.lost, t.history) == t && (submit <==> t.asked != asked)
    {
      var i := Find(cache, addr);
      if i.Some? {
        var e := cache[i.value];
        cache := Without(cache, addr) + [e];
        return e.name, false;
      }
      if addr in inflight { return None, false; }
      inflight := inflight + {addr};
      assert forall asked: multiset<string> :: (asked + multiset{addr})[addr] != asked[addr];
      return None, true;
    }

    /** The locked section at the end of `_resolve`. */
    method StoreResolved(addr: string, name: Name)
      modifies this
      ensures cache == Store(old(cache), Entry(addr, name), maxEntries) && inflight == old(inflight) - {addr}
    {
      cache := Without(cache, addr) + [Entry(addr, name)];
      ghost var stored := cache;
      while |cache| > maxEntries
        invariant |cache| <= |stored| && cache == stored[|stored| - |cache|..]
        invariant (|cache| >= maxEntries || cache == stored) && inflight == old(inflight)
      {
        cache := cache[1..];
      }
      inflight := inflight - {addr};
    }
  }
}
