/** The threat engine's lifecycle: findings become stable threats, and threats go quiet, are acknowledged and come
    back. Times are microseconds. */
module ThreatEngine {
  import opened Wrappers

  datatype Status = Active | Acknowledged | Resolved

  /** The columns of a stored threat that the lifecycle works on. */
  datatype Row = Row(
    detector: string, severity: string, status: Status, first: int, last: int, occurrences: int, note: Option<string>)

  /** A finding, under the id its threat has. */
  datatype Finding = Finding(id: string, severity: string, observed: int, count: int)

  /** A finding with the detector that made it. */
  datatype Firing = Firing(detector: string, f: Finding)

  datatype Event = Event(id: string, detector: string, severity: string, ts: int)

  type Table = map<string, Row>

  datatype State = State(threats: Table, events: seq<Event>)

  const DEFAULT_COOLDOWN := 1_800_000_000

  const LISTED: nat := 1000

  function Max(a: int, b: int): int { if a >= b then a else b }

  // ------------------------------------------------------------------ one pass, as values

  function Upserted(threats: Table, x: Firing): Row
  {
    if x.f.id !in threats then Row(x.detector, x.f.severity, Active, x.f.observed, x.f.observed, x.f.count, None)
    else
      var r := threats[x.f.id];
      r.(severity := x.f.severity, status := if r.status.Resolved? then Active else r.status,
         last := Max(x.f.observed, r.last), occurrences := r.occurrences + x.f.count)
  }

  function EventOf(x: Firing): Event { Event(x.f.id, x.detector, x.f.severity, x.f.observed) }

  function Fire(s: State, x: Firing): State
  {
    State(s.threats[x.f.id := Upserted(s.threats, x)], s.events + [EventOf(x)])
  }

  function FireAll(s: State, xs: seq<Firing>): State
  {
    if xs == [] then s else Fire(FireAll(s, xs[..|xs| - 1]), xs[|xs| - 1])
  }

  function Touched(xs: seq<Firing>): set<string> { set i | 0 <= i < |xs| :: xs[i].f.id }

  function CooldownOf(cooldowns: map<string, int>, detector: string): int
  {
    if detector in cooldowns then cooldowns[detector] else DEFAULT_COOLDOWN
  }

  predicate Stale(cooldowns: map<string, int>, r: Row, now: int) { now - r.last > CooldownOf(cooldowns, r.detector) }

  function Sweep(threats: Table, touched: set<string>, now: int, listed: seq<string>, cooldowns: map<string, int>)
    : Table
  {
    map id | id in threats ::
      if id in listed && id !in touched && Stale(cooldowns, threats[id], now)
      then threats[id].(status := Resolved) else threats[id]
  }

  function AfterPass(s: State, xs: seq<Firing>, now: int, listed: seq<string>, cooldowns: map<string, int>): State
  {
    var t := FireAll(s, xs);
    t.(threats := Sweep(t.threats, Touched(xs), now, listed, cooldowns))
  }

  function WithStatus(threats: Table, st: Status): set<string> { set id | id in threats && threats[id].status == st }

  /** What a list query returns: the most recently seen rows of a status, at most `LISTED` of them, in any order
      among equal times. */
  ghost predicate Listing(threats: Table, st: Status, ids: seq<string>)
  {
    && (forall i, j :: 0 <= i < j < |ids| ==> ids[i] != ids[j])
    && (forall i :: 0 <= i < |ids| ==> ids[i] in WithStatus(threats, st))
    && |ids| == (if |WithStatus(threats, st)| < LISTED then |WithStatus(threats, st)| else LISTED)
    && (forall i, b :: 0 <= i < |ids| && b in WithStatus(threats, st) && b !in ids ==>
          threats[b].last <= threats[ids[i]].last)
  }

  // ------------------------------------------------------------------ the store and the engine

  class ThreatStore {
    var threats: Table
    var events: seq<Event>

    constructor ()
      ensures Snapshot() == State(map[], [])
    {
      threats, events := map[], [];
    }

    function Snapshot(): State
      reads this
    {
      State(threats, events)
    }

    /** `upsert_threat`: a conflict keeps the detector, the first sighting and the note. */
    method UpsertThreat(id: string, row: Row)
      modifies this`threats
      ensures threats == old(threats)[id := if id in old(threats)
                then row.(detector := old(threats)[id].detector, first := old(threats)[id].first,
                          note := old(threats)[id].note)
                else row]
    {
      if id in threats {
        var r := threats[id];
        threats := threats[id := r.(severity := row.severity, status := row.status, last := row.last,
                                    occurrences := row.occurrences)];
      } else {
        threats := threats[id := row];
      }
    }

    method RecordEvent(id: string, detector: string, severity: string, ts: int)
      modifies this`events
      ensures events == old(events) + [Event(id, detector, severity, ts)]
    {
      events := events + [Event(id, detector, severity, ts)];
    }

    method SetStatus(id: string, st: Status)
      modifies this`threats
      ensures threats ==
              if id in old(threats) then old(threats)[id := old(threats)[id].(status := st)] else old(threats)
    {
      if id in threats { threats := threats[id := threats[id].(status := st)]; }
    }

    method SetAcknowledged(id: string, acknowledged: bool, note: Option<string>)
      modifies this`threats
      ensures threats == Acked(old(threats), id, acknowledged, note)
    {
      if id in threats {
        threats := threats[id := threats[id].(status := if acknowledged then Acknowledged else Active,
                                              note := if acknowledged then note else None)];
      }
    }
  }

  function Acked(threats: Table, id: string, acknowledged: bool, note: Option<string>): Table
  {
    if id !in threats then threats
    else threats[id := threats[id].(status := if acknowledged then Acknowledged else Active,
                                    note := if acknowledged then note else None)]
  }

  /** A detector's switch and its counters. */
  datatype Runtime = Runtime(detector: string, enabled: bool, firedCount: nat, lastFired: Option<int>)

  function FiringsOf(detector: string, found: seq<Finding>): (xs: seq<Firing>)
    ensures |xs| == |found| && forall i :: 0 <= i < |xs| ==> xs[i] == Firing(detector, found[i])
  {
    seq(|found|, i requires 0 <= i < |found| => Firing(detector, found[i]))
  }

  /** The firings of a pass: enabled detectors in order, each with what it found. */
  function Firings(runtimes: seq<Runtime>, found: seq<seq<Finding>>): seq<Firing>
    requires |found| == |runtimes|
  {
    if runtimes == [] then []
    else
      var n := |runtimes| - 1;
      var before := Firings(runtimes[..n], found[..n]);
      if runtimes[n].enabled then before + FiringsOf(runtimes[n].detector, found[n]) else before
  }

  function Booked(r: Runtime, found: seq<Finding>, now: int): Runtime
  {
    if r.enabled && found != [] then r.(firedCount := r.firedCount + |found|, lastFired := Some(now)) else r
  }

  class Engine {
    const store: ThreatStore
    const cooldowns: map<string, int>
    var runtimes: seq<Runtime>

    constructor (store: ThreatStore, cooldowns: map<string, int>, runtimes: seq<Runtime>)
      ensures this.store == store && this.cooldowns == cooldowns && this.runtimes == runtimes
    {
      this.store, this.cooldowns, this.runtimes := store, cooldowns, runtimes;
    }

    method UpsertFinding(x: Firing)
      modifies store
      ensures store.Snapshot() == Fire(old(store.Snapshot()), x)
    {
      var f := x.f;
      if f.id !in store.threats {
        store.UpsertThreat(f.id, Row(x.detector, f.severity, Active, f.observed, f.observed, f.count, None));
      } else {
        var existing := store.threats[f.id];
        var status := existing.status;
        if status == Resolved { status := Active; }
        store.UpsertThreat(f.id, Row(x.detector, f.severity, status, existing.first, Max(f.observed, existing.last),
                                     existing.occurrences + f.count, existing.note));
      }
      store.RecordEvent(f.id, x.detector, f.severity, f.observed);
    }

    /** The inner loop of a pass: one detector's findings. */
    method UpsertFindings(detector: string, found: seq<Finding>, touched: set<string>) returns (now: set<string>)
      modifies store
      ensures store.Snapshot() == FireAll(old(store.Snapshot()), FiringsOf(detector, found))
      ensures now == touched + Touched(FiringsOf(detector, found))
    {
      hide Fire;
      ghost var xs := FiringsOf(detector, found);
      now := touched;
      for j := 0 to |found|
        invariant store.Snapshot() == FireAll(old(store.Snapshot()), xs[..j])
        invariant now == touched + Touched(xs[..j])
      {
        assert xs[..j + 1] == xs[..j] + [xs[j]] && xs[..j + 1][..j] == xs[..j];
        TouchedSnoc(xs[..j], xs[j]);
        UpsertFinding(Firing(detector, found[j]));
        now := now + {found[j].id};
      }
      assert xs[..|found|] == xs;
    }

    method ApplyCooldowns(now: int, touched: set<string>, active: seq<string>, acked: seq<string>)
      requires Listing(store.threats, Active, active) && Listing(store.threats, Acknowledged, acked)
      modifies store`threats
      ensures store.threats == Sweep(old(store.threats), touched, now, active + acked, cooldowns)
    {
      hide Stale;
      var before := store.threats;
      var listed := active + acked;
      assert forall i :: 0 <= i < |listed| ==> listed[i] in before;
      assert store.threats == Sweep(before, touched, now, listed[..0], cooldowns);
      for k := 0 to |listed|
        invariant store.threats == Sweep(before, touched, now, listed[..k], cooldowns)
      {
        SweepNext(before, touched, now, listed, k, cooldowns);
        if listed[k] in touched { continue; }
        if Stale(cooldowns, before[listed[k]], now) { store.SetStatus(listed[k], Resolved); }
      }
      assert listed[..|listed|] == listed;
    }

    /** `run_once`; `found` is what each detector returns, and the listings are the two queries of the sweep. */
    method RunOnce(now: int, found: seq<seq<Finding>>, active: seq<string>, acked: seq<string>)
      requires |found| == |runtimes|
      requires var t := FireAll(store.Snapshot(), Firings(runtimes, found)).threats;
               Listing(t, Active, active) && Listing(t, Acknowledged, acked)
      modifies this`runtimes, store
      ensures store.Snapshot() ==
              AfterPass(old(store.Snapshot()), Firings(old(runtimes), found), now, active + acked, cooldowns)
      ensures |runtimes| == |found|
      ensures forall i :: 0 <= i < |found| ==>
                runtimes[i] == if !old(runtimes)[i].enabled || found[i] == [] then old(runtimes)[i]
                               else old(runtimes)[i].(firedCount := old(runtimes)[i].firedCount + |found[i]|,
                                                      lastFired := Some(now))
    {
      hide Fire, FireAll, Touched, Firings, FiringsOf, Booked, Listing, Sweep;
      ghost var was, rs := store.Snapshot(), runtimes;
      NothingFired(was);
      var touched: set<string> := {};
      for i := 0 to |runtimes|
        invariant |runtimes| == |rs| && (forall k :: i <= k < |rs| ==> runtimes[k] == rs[k])
        invariant forall k :: 0 <= k < i ==> runtimes[k] == Booked(rs[k], found[k], now)
        invariant store.Snapshot() == FireAll(was, Firings(rs[..i], found[..i]))
        invariant touched == Touched(Firings(rs[..i], found[..i]))
      {
        FiringsNext(rs, found, i);
        BookedIs(rs[i], found[i], now);
        var r := runtimes[i];
        if !r.enabled { continue; }
        if found[i] != [] {
          runtimes := runtimes[i := r.(firedCount := r.firedCount + |found[i]|, lastFired := Some(now))];
        }
        FireAppend(was, Firings(rs[..i], found[..i]), FiringsOf(r.detector, found[i]));
        touched := UpsertFindings(r.detector, found[i], touched);
      }
      assert rs[..|rs|] == rs && found[..|rs|] == found;
      forall i | 0 <= i < |rs| { BookedIs(rs[i], found[i], now); }
      ApplyCooldowns(now, touched, active, acked);
    }

    /** `acknowledge`; false when there is no such threat. */
    method Acknowledge(id: string, note: Option<string>) returns (found: bool)
      modifies store`threats
      ensures found == (id in old(store.threats)) && store.threats == Acked(old(store.threats), id, true, note)
    {
      if id !in store.threats { return false; }
      store.SetAcknowledged(id, true, note);
      return true;
    }

    method Unacknowledge(id: string) returns (found: bool)
      modifies store`threats
      ensures found == (id in old(store.threats)) && store.threats == Acked(old(store.threats), id, false, None)
    {
      if id !in store.threats { return false; }
      store.SetAcknowledged(id, false, None);
      return true;
    }
  }

  lemma SweepNext(threats: Table, touched: set<string>, now: int, listed: seq<string>, k: nat,
                  cooldowns: map<string, int>)
    requires k < |listed| && listed[k] in threats
    ensures var before := Sweep(threats, touched, now, listed[..k], cooldowns);
            var id := listed[k];
            Sweep(threats, touched, now, listed[..k + 1], cooldowns) ==
            if id !in touched && Stale(cooldowns, threats[id], now) then before[id := before[id].(status := Resolved)]
            else before
  {
    hide Stale;
    forall id
      ensures id in listed[..k + 1] <==> id in listed[..k] || id == listed[k]
    {
      assert listed[..k + 1] == listed[..k] + [listed[k]];
    }
  }

  /** Exactly the findings of enabled detectors fire, each under its detector. */
  lemma {:induction false} FiringsExactly(runtimes: seq<Runtime>, found: seq<seq<Finding>>, x: Firing)
    requires |found| == |runtimes|
    ensures x in Firings(runtimes, found) <==>
            exists i :: 0 <= i < |runtimes| && runtimes[i].enabled
                        && runtimes[i].detector == x.detector && x.f in found[i]
  {
    if runtimes != [] {
      var n := |runtimes| - 1;
      FiringsExactly(runtimes[..n], found[..n], x);
      var xs := FiringsOf(runtimes[n].detector, found[n]);
      assert x in xs <==> runtimes[n].detector == x.detector && x.f in found[n] by {
        if x.f in found[n] {
          var j :| 0 <= j < |found[n]| && found[n][j] == x.f;
          assert xs[j] == Firing(runtimes[n].detector, x.f);
        }
      }
    }
  }

  /** Acknowledging sets status and note of a threat that exists, unacknowledging makes it active and drops the note;
      nothing else changes. */
  lemma AckedIs(threats: Table, id: string, note: Option<string>)
    ensures var yes, no := Acked(threats, id, true, note), Acked(threats, id, false, note);
            && yes.Keys == no.Keys == threats.Keys
            && (forall other :: other in threats && other != id ==> yes[other] == no[other] == threats[other])
            && (id in threats ==>
                  && yes[id] == threats[id].(status := Status.Acknowledged, note := note)
                  && no[id] == threats[id].(status := Active, note := None))
  {
  }

  lemma FiringsNext(runtimes: seq<Runtime>, found: seq<seq<Finding>>, i: nat)
    requires |found| == |runtimes| && i < |runtimes|
    ensures Firings(runtimes[..i + 1], found[..i + 1]) ==
            if runtimes[i].enabled then Firings(runtimes[..i], found[..i]) + FiringsOf(runtimes[i].detector, found[i])
            else Firings(runtimes[..i], found[..i])
  {
    assert runtimes[..i + 1][..i] == runtimes[..i] && found[..i + 1][..i] == found[..i];
  }

  lemma NothingFired(s: State)
    ensures Firings([], []) == [] && FireAll(s, []) == s && Touched([]) == {}
  {
  }

  lemma BookedIs(r: Runtime, found: seq<Finding>, now: int)
    ensures Booked(r, found, now) ==
            if r.enabled && found != [] then r.(firedCount := r.firedCount + |found|, lastFired := Some(now)) else r
  {
  }

  lemma FireAppend(s: State, xs: seq<Firing>, ys: seq<Firing>)
    ensures FireAll(s, xs + ys) == FireAll(FireAll(s, xs), ys) && Touched(xs + ys) == Touched(xs) + Touched(ys)
  {
    FireAllAppend(s, xs, ys);
    TouchedAppend(xs, ys);
  }

  lemma {:induction false} FireAllAppend(s: State, xs: seq<Firing>, ys: seq<Firing>)
    ensures FireAll(s, xs + ys) == FireAll(FireAll(s, xs), ys)
  {
    hide Fire;
    if ys == [] {
      assert xs + ys == xs;
    } else {
      FireAllAppend(s, xs, ys[..|ys| - 1]);
      assert (xs + ys)[..|xs + ys| - 1] == xs + ys[..|ys| - 1];
    }
  }

  lemma {:induction false} TouchedAppend(xs: seq<Firing>, ys: seq<Firing>)
    ensures Touched(xs + ys) == Touched(xs) + Touched(ys)
  {
    hide Touched;
    if ys == [] {
      assert xs + ys == xs;
      NoneTouched();
    } else {
      var init, y := ys[..|ys| - 1], ys[|ys| - 1];
      TouchedAppend(xs, init);
      assert xs + ys == xs + init + [y] && ys == init + [y];
      TouchedSnoc(xs + init, y);
      TouchedSnoc(init, y);
    }
  }

  lemma NoneTouched()
    ensures Touched([]) == {}
  {
  }

  lemma TouchedSnoc(xs: seq<Firing>, x: Firing)
    ensures Touched(xs + [x]) == Touched(xs) + {x.f.id}
  {
    forall id | id in Touched(xs) + {x.f.id}
      ensures id in Touched(xs + [x])
    {
      if id in Touched(xs) {
        var i :| 0 <= i < |xs| && xs[i].f.id == id;
        assert (xs + [x])[i].f.id == id;
      } else {
        assert (xs + [x])[|xs|].f.id == id;
      }
    }
  }

  // ------------------------------------------------------------------ the table as a ledger of findings

  /** The findings for one threat, oldest first. */
  function Of(fed: seq<Firing>, id: string): seq<Firing>
  {
    if fed == [] then []
    else
      var x := fed[|fed| - 1];
      var before := Of(fed[..|fed| - 1], id);
      if x.f.id == id then before + [x] else before
  }

  function SumCounts(xs: seq<Firing>): int
  {
    if xs == [] then 0 else SumCounts(xs[..|xs| - 1]) + xs[|xs| - 1].f.count
  }

  /** `m` is the latest observation of `xs`. */
  ghost predicate IsLatest(xs: seq<Firing>, m: int)
  {
    (exists i :: 0 <= i < |xs| && xs[i].f.observed == m) && forall i :: 0 <= i < |xs| ==> xs[i].f.observed <= m
  }

  /** What a row says of its findings, whatever its status went through. */
  ghost predicate RowAgrees(r: Row, xs: seq<Firing>)
  {
    && xs != []
    && r.detector == xs[0].detector && r.first == xs[0].f.observed
    && r.severity == xs[|xs| - 1].f.severity
    && IsLatest(xs, r.last)
    && r.occurrences == SumCounts(xs)
  }

  ghost predicate RowOk(threats: Table, fed: seq<Firing>, id: string)
  {
    (id in threats <==> Of(fed, id) != []) && (id in threats ==> RowAgrees(threats[id], Of(fed, id)))
  }

  function EventsOf(fed: seq<Firing>): seq<Event>
  {
    if fed == [] then []
    else
      var x := fed[|fed| - 1];
      EventsOf(fed[..|fed| - 1]) + [Event(x.f.id, x.detector, x.f.severity, x.f.observed)]
  }

  ghost predicate LedgerOk(s: State, fed: seq<Firing>)
  {
    s.events == EventsOf(fed) && forall id :: RowOk(s.threats, fed, id)
  }

  lemma AgreesNext(threats: Table, xs: seq<Firing>, x: Firing)
    requires x.f.id in threats <==> xs != []
    requires x.f.id in threats ==> RowAgrees(threats[x.f.id], xs)
    ensures RowAgrees(Upserted(threats, x), xs + [x])
  {
    var ys, r := xs + [x], Upserted(threats, x);
    assert ys[..|ys| - 1] == xs;
    assert IsLatest(ys, r.last) by {
      if xs != [] {
        var i :| 0 <= i < |xs| && xs[i].f.observed == threats[x.f.id].last;
        assert ys[i] == xs[i];
      }
      assert ys[|xs|] == x;
    }
  }

  lemma FireKeepsLedger(s: State, fed: seq<Firing>, x: Firing)
    requires LedgerOk(s, fed)
    ensures LedgerOk(Fire(s, x), fed + [x])
  {
    hide Upserted, RowAgrees;
    assert (fed + [x])[..|fed|] == fed;
    forall id
      ensures RowOk(Fire(s, x).threats, fed + [x], id)
    {
      assert RowOk(s.threats, fed, id);
      if id == x.f.id { AgreesNext(s.threats, Of(fed, id), x); }
    }
  }

  lemma {:induction false} FireAllKeepsLedger(s: State, fed: seq<Firing>, xs: seq<Firing>)
    requires LedgerOk(s, fed)
    ensures LedgerOk(FireAll(s, xs), fed + xs)
  {
    hide Fire, LedgerOk;
    if xs == [] {
      assert fed + xs == fed;
    } else {
      var init, x := xs[..|xs| - 1], xs[|xs| - 1];
      FireAllKeepsLedger(s, fed, init);
      FireKeepsLedger(FireAll(s, init), fed + init, x);
      assert fed + init + [x] == fed + xs;
    }
  }

  /** Same rows but for status and note. */
  ghost predicate SameSightings(a: Table, b: Table)
  {
    a.Keys == b.Keys && forall id :: id in a ==> b[id].(status := a[id].status, note := a[id].note) == a[id]
  }

  lemma StatusIsNoSighting(s: State, t: State, fed: seq<Firing>)
    requires LedgerOk(s, fed) && SameSightings(s.threats, t.threats) && s.events == t.events
    ensures LedgerOk(t, fed)
  {
    hide IsLatest, SumCounts;
    forall id
      ensures RowOk(t.threats, fed, id)
    {
      assert RowOk(s.threats, fed, id);
      assert id in s.threats <==> id in t.threats;
    }
  }

  // ------------------------------------------------------------------ runs

  datatype Step =
    | Pass(xs: seq<Firing>, now: int, active: seq<string>, acked: seq<string>, cooldowns: map<string, int>)
    | Acknowledge(id: string, note: Option<string>)
    | Unacknowledge(id: string)

  ghost predicate Enabled(s: State, step: Step)
  {
    step.Pass? ==>
      var t := FireAll(s, step.xs).threats;
      Listing(t, Active, step.active) && Listing(t, Status.Acknowledged, step.acked)
  }

  function Next(s: State, step: Step): State
  {
    match step
    case Pass(xs, now, active, acked, cooldowns) => AfterPass(s, xs, now, active + acked, cooldowns)
    case Acknowledge(id, note) => s.(threats := Acked(s.threats, id, true, note))
    case Unacknowledge(id) => s.(threats := Acked(s.threats, id, false, None))
  }

  function FedBy(step: Step): seq<Firing> { if step.Pass? then step.xs else [] }

  function Fed(steps: seq<Step>): seq<Firing>
    decreases |steps|
  {
    if steps == [] then [] else FedBy(steps[0]) + Fed(steps[1..])
  }

  ghost predicate Reaches(s: State, steps: seq<Step>, t: State)
    decreases |steps|
  {
    if steps == [] then s == t else Enabled(s, steps[0]) && Reaches(Next(s, steps[0]), steps[1..], t)
  }

  lemma NextKeepsLedger(s: State, fed: seq<Firing>, step: Step)
    requires LedgerOk(s, fed)
    ensures LedgerOk(Next(s, step), fed + FedBy(step))
  {
    hide LedgerOk, FireAll;
    assert fed + [] == fed;
    match step {
      case Pass(xs, now, active, acked, cooldowns) =>
        FireAllKeepsLedger(s, fed, xs);
        StatusIsNoSighting(FireAll(s, xs), Next(s, step), fed + xs);
      case Acknowledge(id, note) => StatusIsNoSighting(s, Next(s, step), fed);
      case Unacknowledge(id) => StatusIsNoSighting(s, Next(s, step), fed);
    }
  }

  /** Over every run of passes, acknowledgements and cooldowns: a threat exists exactly when it had a finding; its
      occurrences are the sum of its findings' counts; its first sighting is that of its first finding and its last
      the latest observed; and the event log holds each finding once, in order. */
  lemma {:induction false} LedgerIsKept(s: State, fed: seq<Firing>, steps: seq<Step>, t: State)
    requires LedgerOk(s, fed) && Reaches(s, steps, t)
    ensures LedgerOk(t, fed + Fed(steps))
    decreases |steps|
  {
    hide LedgerOk, Next, Enabled, FedBy;
    if steps == [] {
      assert fed + Fed(steps) == fed;
    } else {
      NextKeepsLedger(s, fed, steps[0]);
      LedgerIsKept(Next(s, steps[0]), fed + FedBy(steps[0]), steps[1..], t);
      assert fed + FedBy(steps[0]) + Fed(steps[1..]) == fed + Fed(steps);
    }
  }

  /** From an empty store on, with nothing else assumed. */
  lemma EveryLedgerIsKept(steps: seq<Step>, t: State)
    requires Reaches(State(map[], []), steps, t)
    ensures LedgerOk(t, Fed(steps))
  {
    EmptyLedger();
    LedgerIsKept(State(map[], []), [], steps, t);
    assert [] + Fed(steps) == Fed(steps);
  }

  lemma EmptyLedger()
    ensures LedgerOk(State(map[], []), [])
  {
  }

  function EventCount(events: seq<Event>, id: string): nat
  {
    if events == [] then 0
    else EventCount(events[..|events| - 1], id) + if events[|events| - 1].id == id then 1 else 0
  }

  /** A threat has as many event rows as findings. */
  lemma {:induction false} EventsAreFindings(fed: seq<Firing>, id: string)
    ensures EventCount(EventsOf(fed), id) == |Of(fed, id)|
  {
    if fed != [] {
      var init := fed[..|fed| - 1];
      EventsAreFindings(init, id);
      assert (EventsOf(init) + [EventOf(fed[|fed| - 1])])[..|EventsOf(init)|] == EventsOf(init);
    }
  }

  lemma {:induction false} OfAppend(fed: seq<Firing>, more: seq<Firing>, id: string)
    ensures Of(fed + more, id) == Of(fed, id) + Of(more, id)
  {
    if more == [] {
      assert fed + more == fed;
    } else {
      assert (fed + more)[..|fed + more| - 1] == fed + more[..|more| - 1];
      OfAppend(fed, more[..|more| - 1], id);
    }
  }

  /** A threat is never lost, its first sighting and its detector never change, its last sighting never goes
      back. */
  lemma SightingsOnlyGrow(s: State, fed: seq<Firing>, steps: seq<Step>, t: State, id: string)
    requires LedgerOk(s, fed) && Reaches(s, steps, t) && id in s.threats
    ensures id in t.threats
    ensures t.threats[id].first == s.threats[id].first && t.threats[id].detector == s.threats[id].detector
    ensures t.threats[id].last >= s.threats[id].last
  {
    hide Reaches, SumCounts, Of;
    LedgerIsKept(s, fed, steps, t);
    OfAppend(fed, Fed(steps), id);
    assert RowOk(s.threats, fed, id) && RowOk(t.threats, fed + Fed(steps), id);
    var xs, ys := Of(fed, id), Of(fed + Fed(steps), id);
    var i :| 0 <= i < |xs| && xs[i].f.observed == s.threats[id].last;
    assert ys[i] == xs[i];
  }

  // ------------------------------------------------------------------ status

  /** The status of a threat that fired: active, unless it was acknowledged. */
  function Refired(threats: Table, id: string): Status
  {
    if id in threats && threats[id].status.Acknowledged? then Status.Acknowledged else Active
  }

  /** Firing alone: a fired threat is active, unless it was acknowledged; the others keep their rows. */
  lemma {:induction false} FiredStatus(s: State, xs: seq<Firing>, id: string)
    ensures var t := FireAll(s, xs).threats;
            if id in Touched(xs)
            then id in t && t[id].status == Refired(s.threats, id)
            else (id in t <==> id in s.threats) && (id in t ==> t[id] == s.threats[id])
  {
    if xs != [] {
      var init, x := xs[..|xs| - 1], xs[|xs| - 1];
      FiredStatus(s, init, id);
      TouchedSnoc(init, x);
      assert xs == init + [x];
    }
  }

  /** What a pass makes of a threat's status. A re-fire activates everything but an acknowledged threat; what did
      not fire is resolved exactly when it was listed open and its cooldown is over. */
  lemma PassStatus(s: State, xs: seq<Firing>, now: int, active: seq<string>, acked: seq<string>,
                   cooldowns: map<string, int>, id: string)
    requires Enabled(s, Pass(xs, now, active, acked, cooldowns))
    requires id in AfterPass(s, xs, now, active + acked, cooldowns).threats
    ensures var t := AfterPass(s, xs, now, active + acked, cooldowns).threats[id];
            if id in Touched(xs)
            then t.status == Refired(s.threats, id)
            else
              && id in s.threats && t.note == s.threats[id].note
              && var r := s.threats[id];
                 var cooldown := if r.detector in cooldowns then cooldowns[r.detector] else 1_800_000_000;
                 t.status == if id in active + acked && now - r.last > cooldown then Resolved else r.status
  {
    hide FireAll, Touched, Stale, Listing;
    FiredStatus(s, xs, id);
    if id in s.threats { StaleIs(cooldowns, s.threats[id], now); }
  }

  /** Half an hour for a detector that is not registered. */
  lemma StaleIs(cooldowns: map<string, int>, r: Row, now: int)
    ensures Stale(cooldowns, r, now) <==>
            now - r.last > if r.detector in cooldowns then cooldowns[r.detector] else 1_800_000_000
  {
  }

  /** Along a run, `id` is never seen resolved and never unacknowledged. */
  ghost predicate Undisturbed(s: State, steps: seq<Step>, id: string)
    decreases |steps|
  {
    && (id in s.threats ==> !s.threats[id].status.Resolved?)
    && (steps == [] || (steps[0] != Unacknowledge(id) && Undisturbed(Next(s, steps[0]), steps[1..], id)))
  }

  /** Detection never undoes an acknowledgement: unless it is unacknowledged or cools down, a threat stays
      acknowledged however often it fires. */
  lemma {:induction false} AcknowledgementHolds(s: State, steps: seq<Step>, t: State, id: string)
    requires Reaches(s, steps, t) && Undisturbed(s, steps, id)
    requires id in s.threats && s.threats[id].status.Acknowledged?
    ensures id in t.threats && t.threats[id].status.Acknowledged?
    decreases |steps|
  {
    hide Enabled, AfterPass;
    if steps != [] {
      StepKeepsAcknowledged(s, steps[0], id);
      AcknowledgementHolds(Next(s, steps[0]), steps[1..], t, id);
    }
  }

  lemma StepKeepsAcknowledged(s: State, step: Step, id: string)
    requires Enabled(s, step) && step != Unacknowledge(id)
    requires id in s.threats && s.threats[id].status.Acknowledged?
    ensures id in Next(s, step).threats
    ensures Next(s, step).threats[id].status.Acknowledged? || Next(s, step).threats[id].status.Resolved?
  {
    hide FireAll, Touched, Stale, Listing;
    if step.Pass? { FiredStatus(s, step.xs, id); }
  }

  // ------------------------------------------------------------------ what the sweep reaches

  lemma {:induction false} DistinctSize(ids: seq<string>)
    requires forall i, j :: 0 <= i < j < |ids| ==> ids[i] != ids[j]
    ensures |set id | id in ids| == |ids|
  {
    if ids != [] {
      var init := ids[..|ids| - 1];
      DistinctSize(init);
      assert (set id | id in ids) == (set id | id in init) + {ids[|ids| - 1]} by {
        assert ids == init + [ids[|ids| - 1]];
      }
    }
  }

  /** The query lists every row of a status when there are at most 1000. */
  lemma ListsAll(threats: Table, st: Status, ids: seq<string>)
    requires Listing(threats, st, ids) && |WithStatus(threats, st)| <= LISTED
    ensures forall id :: id in threats && threats[id].status == st ==> id in ids
  {
    var all, listed := WithStatus(threats, st), set id | id in ids;
    DistinctSize(ids);
    assert all == listed + (all - listed);
    assert |all - listed| == 0;
    forall id | id in threats && threats[id].status == st
      ensures id in ids
    {
      assert id in all;
    }
  }

  /** The other rows of a status seen no earlier than `id`, and those seen later. */
  function AsRecent(threats: Table, st: Status, id: string): set<string>
    requires id in threats
  {
    set b | b in threats && threats[b].status == st && b != id && threats[b].last >= threats[id].last
  }

  function Newer(threats: Table, st: Status, id: string): set<string>
    requires id in threats
  {
    set b | b in threats && threats[b].status == st && threats[b].last > threats[id].last
  }

  /** Whatever order a query gives equal times, it lists a row when fewer than 1000 others are as recent, and leaves
      it out when 1000 are newer. */
  lemma ListedByRank(threats: Table, st: Status, ids: seq<string>, id: string)
    requires Listing(threats, st, ids) && id in WithStatus(threats, st)
    ensures |AsRecent(threats, st, id)| < LISTED ==> id in ids
    ensures |Newer(threats, st, id)| >= LISTED ==> id !in ids
  {
    hide Listing, AsRecent, Newer;
    if id in ids { ListedHasFewNewer(threats, st, ids, id); } else { UnlistedHasManyAsRecent(threats, st, ids, id); }
  }

  lemma UnlistedHasManyAsRecent(threats: Table, st: Status, ids: seq<string>, id: string)
    requires Listing(threats, st, ids) && id in WithStatus(threats, st) && id !in ids
    ensures |AsRecent(threats, st, id)| >= LISTED
  {
    var all, listed := WithStatus(threats, st), set x | x in ids;
    DistinctSize(ids);
    forall x | x in listed
      ensures x in all - {id} && x in AsRecent(threats, st, id)
    {
      var k :| 0 <= k < |ids| && ids[k] == x;
    }
    SubsetSize(listed, all - {id});
    SubsetSize(listed, AsRecent(threats, st, id));
  }

  lemma ListedHasFewNewer(threats: Table, st: Status, ids: seq<string>, id: string)
    requires Listing(threats, st, ids) && id in ids && id in threats
    ensures |Newer(threats, st, id)| < LISTED
  {
    var newer, listed := Newer(threats, st, id), set x | x in ids;
    DistinctSize(ids);
    var at :| 0 <= at < |ids| && ids[at] == id;
    forall x | x in newer
      ensures x in listed
    {
      assert x in WithStatus(threats, st);
    }
    SubsetSize(newer + {id}, listed);
  }

  lemma SubsetSize(a: set<string>, b: set<string>)
    requires a <= b
    ensures |a| <= |b|
  {
    assert b == a + (b - a);
  }

  /** What decides a threat that was open before a pass, did not fire in it and is past its cooldown: the pass resolves
      it when fewer than 1000 rows of its status are as recent, and leaves it open when 1000 are newer, in every such
      pass. When no row of its status was last seen at the same moment, the two are exact opposites. */
  lemma RankDecides(s: State, xs: seq<Firing>, now: int, active: seq<string>, acked: seq<string>,
                    cooldowns: map<string, int>, id: string)
    requires Enabled(s, Pass(xs, now, active, acked, cooldowns))
    requires id in s.threats && !s.threats[id].status.Resolved?
    requires id !in Touched(xs)
    requires now - s.threats[id].last >
             if s.threats[id].detector in cooldowns then cooldowns[s.threats[id].detector] else 1_800_000_000
    ensures var fired, t := FireAll(s, xs).threats, AfterPass(s, xs, now, active + acked, cooldowns).threats;
            var st := s.threats[id].status;
            && id in t && id in fired
            && (|AsRecent(fired, st, id)| < LISTED ==> t[id].status.Resolved?)
            && (|Newer(fired, st, id)| >= LISTED ==> t[id] == s.threats[id])
            && (AsRecent(fired, st, id) == Newer(fired, st, id) ==>
                  (t[id].status.Resolved? <==> |Newer(fired, st, id)| < LISTED))
  {
    hide FireAll, Touched, Stale, AsRecent, Newer;
    FiredStatus(s, xs, id);
    StaleIs(cooldowns, s.threats[id], now);
    var fired := FireAll(s, xs).threats;
    assert fired[id] == s.threats[id];
    if s.threats[id].status.Active? {
      ListedElsewhere(fired, Status.Acknowledged, acked, id);
      ListedByRank(fired, Active, active, id);
    } else {
      ListedElsewhere(fired, Active, active, id);
      ListedByRank(fired, Status.Acknowledged, acked, id);
    }
  }

  lemma ListedElsewhere(threats: Table, st: Status, ids: seq<string>, id: string)
    requires Listing(threats, st, ids) && id in threats && threats[id].status != st
    ensures id !in ids
  {
  }

  /** With at most 1000 rows a status, no threat that did not fire stays open beyond its cooldown. */
  lemma NoneStaysStale(s: State, xs: seq<Firing>, now: int, active: seq<string>, acked: seq<string>,
                       cooldowns: map<string, int>, id: string)
    requires Enabled(s, Pass(xs, now, active, acked, cooldowns))
    requires |WithStatus(FireAll(s, xs).threats, Active)| <= LISTED
    requires |WithStatus(FireAll(s, xs).threats, Status.Acknowledged)| <= LISTED
    requires id in s.threats && id !in Touched(xs)
    requires now - s.threats[id].last >
             if s.threats[id].detector in cooldowns then cooldowns[s.threats[id].detector] else 1_800_000_000
    ensures id in AfterPass(s, xs, now, active + acked, cooldowns).threats
    ensures AfterPass(s, xs, now, active + acked, cooldowns).threats[id].status.Resolved?
  {
    hide FireAll, Touched, Stale, Listing, WithStatus;
    FiredStatus(s, xs, id);
    StaleIs(cooldowns, s.threats[id], now);
    ListsAll(FireAll(s, xs).threats, Active, active);
    ListsAll(FireAll(s, xs).threats, Status.Acknowledged, acked);
  }

  /** The law of the cooldown, told from the findings of a whole run: with at most 1000 rows a status, a pass resolves
      an open threat it has no finding for exactly when every finding there ever was for it, the latest included, was
      observed longer ago than the cooldown of the detector that first found it; otherwise its status stays. */
  lemma CooldownFromFindings(steps: seq<Step>, s: State, pass: Step, id: string)
    requires Reaches(State(map[], []), steps, s) && pass.Pass? && Enabled(s, pass)
    requires |WithStatus(FireAll(s, pass.xs).threats, Active)| <= LISTED
    requires |WithStatus(FireAll(s, pass.xs).threats, Status.Acknowledged)| <= LISTED
    requires id in s.threats && !s.threats[id].status.Resolved?
    requires forall i :: 0 <= i < |pass.xs| ==> pass.xs[i].f.id != id
    ensures Of(Fed(steps), id) != []
    ensures var mine, t := Of(Fed(steps), id), Next(s, pass).threats;
            var detector := mine[0].detector;
            var cooldown := if detector in pass.cooldowns then pass.cooldowns[detector] else 1_800_000_000;
            && id in t
            && t[id].status == if forall i :: 0 <= i < |mine| ==> pass.now - mine[i].f.observed > cooldown then Resolved
                               else s.threats[id].status
  {
    hide FireAll, Stale, Listing, WithStatus, Of, SumCounts, Reaches;
    EveryLedgerIsKept(steps, s);
    assert RowOk(s.threats, Fed(steps), id);
    var mine := Of(Fed(steps), id);
    var i :| 0 <= i < |mine| && mine[i].f.observed == s.threats[id].last;
    FiredStatus(s, pass.xs, id);
    PassStatus(s, pass.xs, pass.now, pass.active, pass.acked, pass.cooldowns, id);
    ListsAll(FireAll(s, pass.xs).threats, Active, pass.active);
    ListsAll(FireAll(s, pass.xs).threats, Status.Acknowledged, pass.acked);
  }

  predicate AllActiveStale(threats: Table, touched: set<string>, now: int, cooldowns: map<string, int>)
  {
    forall id :: id in threats && threats[id].status.Active? ==>
      && id !in touched
      && now - threats[id].last >
         if threats[id].detector in cooldowns then cooldowns[threats[id].detector] else 1_800_000_000
  }

  lemma ActiveAfterSweep(threats: Table, touched: set<string>, now: int, active: seq<string>, acked: seq<string>,
                         cooldowns: map<string, int>)
    requires Listing(threats, Status.Acknowledged, acked) && AllActiveStale(threats, touched, now, cooldowns)
    ensures WithStatus(Sweep(threats, touched, now, active + acked, cooldowns), Active) ==
            WithStatus(threats, Active) - set id | id in active
  {
    hide Stale;
    forall id | id in threats
      ensures Stale(cooldowns, threats[id], now) <==>
              now - threats[id].last >
              if threats[id].detector in cooldowns then cooldowns[threats[id].detector] else 1_800_000_000
    {
      StaleIs(cooldowns, threats[id], now);
    }
    assert forall k :: 0 <= k < |acked| ==> acked[k] in threats && threats[acked[k]].status.Acknowledged?;
  }

  /** So when every active row is stale and untouched, a sweep resolves 1000 of them, the most recently seen, and leaves
      the rest open. */
  lemma SweepLeavesOldest(threats: Table, touched: set<string>, now: int, active: seq<string>, acked: seq<string>,
                          cooldowns: map<string, int>)
    requires Listing(threats, Active, active) && Listing(threats, Status.Acknowledged, acked)
    requires AllActiveStale(threats, touched, now, cooldowns)
    ensures var n := |WithStatus(threats, Active)|;
            |WithStatus(Sweep(threats, touched, now, active + acked, cooldowns), Active)| ==
            if n <= LISTED then 0 else n - LISTED
    ensures var open := WithStatus(Sweep(threats, touched, now, active + acked, cooldowns), Active);
            forall left, k :: left in open && 0 <= k < |active| ==> threats[left].last <= threats[active[k]].last
  {
    hide Sweep, AllActiveStale, WithStatus;
    ActiveAfterSweep(threats, touched, now, active, acked, cooldowns);
    DistinctSize(active);
    var all, listed := WithStatus(threats, Active), set id | id in active;
    assert all == listed + (all - listed);
    InTable(threats);
  }

  lemma InTable(threats: Table)
    ensures forall st, id :: id in WithStatus(threats, st) ==> id in threats
  {
  }
}
