/** Scheduled baselines: when one is captured, what it is compared with, and what is pruned. Times are in
    milliseconds. */
module Baselines {
  import opened Wrappers
  import opened BaselineDiff

  datatype Origin = Manual | Scheduled

  datatype Baseline = Baseline(id: nat, origin: Origin, at: int, snap: Snapshot)

  datatype Schedule = Schedule(enabled: bool, hours: int, last: Option<int>, failed: bool)

  /** The two tables; `nextId` stands for the fresh ids. */
  datatype Store = Store(baselines: seq<Baseline>, nextId: nat, schedule: Schedule)

  const HOUR := 3_600_000
  const RETENTION := 90 * 24 * HOUR

  predicate Allowed(hours: int) { hours == 6 || hours == 12 || hours == 24 || hours == 48 || hours == 168 }

  predicate Due(s: Schedule, now: int) { s.enabled && (s.last.Some? ==> now >= s.last.value + s.hours * HOUR) }

  function Marked(s: Schedule, at: int): Schedule
  {
    if s.last.None? || s.last.value <= at then s.(last := Some(at), failed := false) else s
  }

  function Inserted(st: Store, origin: Origin, at: int, snap: Snapshot): Store
  {
    Store(st.baselines + [Baseline(st.nextId, origin, at, snap)], st.nextId + 1,
          if origin.Scheduled? then Marked(st.schedule, at) else st.schedule)
  }

  /** The scheduled baseline captured last. */
  function MostRecent(bs: seq<Baseline>): Option<Baseline>
  {
    if bs == [] then None
    else
      var best, b := MostRecent(bs[..|bs| - 1]), bs[|bs| - 1];
      if b.origin.Scheduled? && (best.None? || best.value.at <= b.at) then Some(b) else best
  }

  function Lookup(bs: seq<Baseline>, id: nat): Option<Baseline>
  {
    if bs == [] then None else if bs[0].id == id then Some(bs[0]) else Lookup(bs[1..], id)
  }

  predicate Expired(b: Baseline, cutoff: int) { b.origin.Scheduled? && b.at < cutoff }

  function Pruned(bs: seq<Baseline>, cutoff: int): seq<Baseline>
  {
    if bs == [] then []
    else
      var kept, b := Pruned(bs[..|bs| - 1], cutoff), bs[|bs| - 1];
      if Expired(b, cutoff) then kept else kept + [b]
  }

  /** What a run meets: the snapshot, or None when a provider raises, and which of the later steps raise. */
  datatype World = World(
    snapshot: Option<Snapshot>, insertFails: bool, dispatchFails: bool, pruneFails: bool, recordFails: bool)

  datatype Capture = NotDue | Failed | Done(id: nat, previous: Option<nat>)

  /** A run's result. */
  datatype Report = Report(captured: bool, alerted: bool, failed: bool)

  class BaselineStore {
    var baselines: seq<Baseline>
    var nextId: nat
    var schedule: Schedule

    constructor ()
      ensures Value() == Store([], 0, Schedule(false, 24, None, false))
    {
      baselines, nextId, schedule := [], 0, Schedule(false, 24, None, false);
    }

    function Value(): Store
      reads this
    {
      Store(baselines, nextId, schedule)
    }

    /** `insert_baseline`: a scheduled row and the schedule's success mark are written together or not at all. */
    method InsertBaseline(origin: Origin, at: int, snap: Snapshot, fails: bool) returns (id: Option<nat>)
      modifies this
      ensures Value() == if fails then old(Value()) else Inserted(old(Value()), origin, at, snap)
      ensures id == if fails then None else Some(old(nextId))
    {
      var bs, n, s := baselines, nextId, schedule;
      baselines := baselines + [Baseline(nextId, origin, at, snap)];
      nextId := nextId + 1;
      if origin == Scheduled && (schedule.last.None? || schedule.last.value <= at) {
        schedule := schedule.(last := Some(at), failed := false);
      }
      if fails {
        baselines, nextId, schedule := bs, n, s;
        return None;
      }
      return Some(n);
    }

    method SaveSchedule(enabled: bool, hours: int) returns (ok: bool)
      modifies this`schedule
      ensures ok == (hours in {6, 12, 24, 48, 168})
      ensures schedule == if ok then old(schedule).(enabled := enabled, hours := hours) else old(schedule)
    {
      if !Allowed(hours) { return false; }
      schedule := schedule.(enabled := enabled, hours := hours);
      return true;
    }

    method MarkScheduleError()
      modifies this`schedule
      ensures schedule == old(schedule).(failed := true)
    {
      schedule := schedule.(failed := true);
    }

    method DeleteScheduledBefore(cutoff: int)
      modifies this`baselines
      ensures baselines == Pruned(old(baselines), cutoff)
    {
      var kept: seq<Baseline> := [];
      for i := 0 to |baselines|
        invariant baselines == old(baselines) && kept == Pruned(baselines[..i], cutoff)
      {
        assert baselines[..i + 1][..i] == baselines[..i];
        if !(baselines[i].origin == Scheduled && baselines[i].at < cutoff) { kept := kept + [baselines[i]]; }
      }
      assert baselines[..|baselines|] == baselines;
      baselines := kept;
    }

    /** `capture_scheduled_if_due`, all of it under one lock. */
    method CaptureScheduledIfDue(now: int, snapshot: Option<Snapshot>, insertFails: bool) returns (c: Capture)
      modifies this
      ensures Value() == if Due(old(schedule), now) && snapshot.Some? && !insertFails
                         then Inserted(old(Value()), Scheduled, now, snapshot.value) else old(Value())
      ensures c == if !Due(old(schedule), now) then NotDue else if snapshot.None? || insertFails then Failed
                   else Done(old(nextId), PreviousId(old(baselines)))
    {
      if !schedule.enabled { return NotDue; }
      if schedule.last.Some? && now < schedule.last.value + schedule.hours * HOUR { return NotDue; }
      var previous := PreviousId(baselines);
      if snapshot.None? { return Failed; }
      var id := InsertBaseline(Scheduled, now, snapshot.value, insertFails);
      if id.None? { return Failed; }
      return Done(id.value, previous);
    }
  }

  function PreviousId(bs: seq<Baseline>): Option<nat>
  {
    var b := MostRecent(bs);
    if b.Some? then Some(b.value.id) else None
  }

  /** The monitor with its store. */
  datatype Monitor = Monitor(store: Store, retry: Option<int>, woken: bool)

  predicate Skips(m: Monitor, now: int) { m.retry.Some? && now < m.retry.value && !m.woken }

  predicate Captures(m: Monitor, now: int, w: World)
  {
    !Skips(m, now) && Due(m.store.schedule, now) && w.snapshot.Some? && !w.insertFails
  }

  /** The two records of a comparison are found and differ materially. */
  predicate Alerts(bs: seq<Baseline>, previous: Option<nat>, id: nat)
  {
    && previous.Some?
    && Lookup(bs, previous.value).Some? && Lookup(bs, id).Some?
    && Material(DiffOf(Lookup(bs, previous.value).value.snap, Lookup(bs, id).value.snap))
  }

  /** The `except` branch of a run. */
  function Errored(m: Monitor, now: int, w: World): Monitor
  {
    if w.recordFails then m
    else m.(store := m.store.(schedule := m.store.schedule.(failed := true)),
            retry := Some(now + m.store.schedule.hours * HOUR))
  }

  /** The store after a capture, as the comparison sees it, and the monitor after it. */
  function AfterCapture(m: Monitor, now: int, w: World, st: Store): (Monitor, Report)
  {
    var alerting := Alerts(st.baselines, PreviousId(m.store.baselines), m.store.nextId);
    var pruned := if w.pruneFails then st else st.(baselines := Pruned(st.baselines, now - RETENTION));
    var done := Monitor(pruned, None, false);
    if (alerting && w.dispatchFails) || w.pruneFails then (Errored(done, now, w), Report(false, false, true))
    else (done, Report(true, alerting, false))
  }

  function AfterRun(m: Monitor, now: int, w: World): (Monitor, Report)
  {
    if Skips(m, now) then (m, Report(false, false, false))
    else
      var m1 := m.(woken := false);
      if !Due(m.store.schedule, now) then (m1, Report(false, false, false))
      else if w.snapshot.None? || w.insertFails then (Errored(m1, now, w), Report(false, false, true))
      else AfterCapture(m, now, w, Inserted(m.store, Scheduled, now, w.snapshot.value))
  }

  /** The monitor holds back: a retry time lies ahead and nobody woke it. */
  predicate HoldsBack(m: Monitor, now: int) { !m.woken && m.retry.Some? && m.retry.value > now }

  /** Never captured, or at least the interval ago. */
  predicate IntervalOver(s: Schedule, now: int) { s.last.None? || now - s.last.value >= s.hours * 3_600_000 }

  /** Every run, told by what it meets: holding back, or not due, it changes nothing but a wake that it uses up.
      Otherwise it captures, unless the snapshot or the insert fails, and a capture adds one row, marks the schedule
      and drops a retry. It reports an error exactly when something failed; that is then recorded with a retry one
      interval later, if it can be. */
  lemma RunTells(m: Monitor, now: int, w: World)
    requires m.store.schedule.hours > 0
    ensures var (t, r) := AfterRun(m, now, w);
            var sc := m.store.schedule;
            var idle := HoldsBack(m, now) || !sc.enabled || !IntervalOver(sc, now);
            var captured := !idle && w.snapshot.Some? && !w.insertFails;
            && !t.woken
            && (idle ==> r == Report(false, false, false) && t.store == m.store && t.retry == m.retry)
            && (r.captured <==> captured && !r.failed) && (r.alerted ==> r.captured) && (captured || idle || r.failed)
            && (!captured ==> t.store.baselines == m.store.baselines && t.store.nextId == m.store.nextId
                              && t.store.schedule.last == sc.last)
            && (captured ==>
                  var rows := m.store.baselines + [Baseline(m.store.nextId, Scheduled, now, w.snapshot.value)];
                  && t.store.baselines == (if w.pruneFails then rows else Pruned(rows, now - 90 * 24 * 3_600_000))
                  && t.store.nextId == m.store.nextId + 1 && t.store.schedule.last == Some(now))
            && t.store.schedule.enabled == sc.enabled && t.store.schedule.hours == sc.hours
            && (!idle && r.failed && !w.recordFails ==>
                  t.store.schedule.failed && t.retry == Some(now + sc.hours * 3_600_000))
            && (!idle && !(r.failed && !w.recordFails) ==>
                  if captured then !t.store.schedule.failed && t.retry.None?
                  else t.store.schedule.failed == sc.failed && t.retry == m.retry)
            && (captured && w.pruneFails ==> r.failed)
            && (captured && !w.pruneFails && !w.dispatchFails ==> !r.failed)
  {
    hide Alerts, Pruned;
  }

  /** `_seconds_until_next_run`: how long the monitor sleeps. */
  function Delay(m: Monitor, now: int): int
  {
    var interval := m.store.schedule.hours * HOUR;
    var wanted := if m.retry.Some? then m.retry.value - now
                  else if m.store.schedule.last.Some? then m.store.schedule.last.value + interval - now
                  else interval;
    if !m.store.schedule.enabled then interval
    else if wanted < 0 then 0
    else if wanted > interval then interval
    else wanted
  }

  /** The monitor never sleeps longer than an interval, and wakes when there is something to do: a pending retry is
      then reached exactly when it was less than an interval away, and otherwise a capture is then due exactly
      unless the last one lies in the future. Before that moment it would have found nothing to do. */
  lemma SleepsUntilDue(m: Monitor, now: int)
    requires m.store.schedule.enabled && Allowed(m.store.schedule.hours) && !m.woken
    ensures 0 <= Delay(m, now) <= m.store.schedule.hours * HOUR
    ensures m.retry.Some? ==> (!Skips(m, now + Delay(m, now)) <==> m.retry.value - now <= m.store.schedule.hours * HOUR)
    ensures m.retry.None? ==> (Due(m.store.schedule, now + Delay(m, now)) <==>
                               m.store.schedule.last.None? || m.store.schedule.last.value <= now)
    ensures forall t :: now <= t < now + Delay(m, now) && (m.retry.Some? || m.store.schedule.last.Some?) ==>
              Skips(m, t) || (m.retry.None? && !Due(m.store.schedule, t))
  {
  }

  class BaselineMonitor {
    const store: BaselineStore
    var retryNotBefore: Option<int>
    var retryWake: bool

    constructor (s: BaselineStore)
      ensures store == s && retryNotBefore == None && !retryWake
    {
      store, retryNotBefore, retryWake := s, None, false;
    }

    function Value(): Monitor
      reads this, store
    {
      Monitor(store.Value(), retryNotBefore, retryWake)
    }

    method Wake()
      modifies this`retryWake
      ensures retryWake
    {
      retryWake := true;
    }

    /** `run_once`. */
    method RunOnce(now: int, w: World) returns (r: Report)
      modifies this, store
      ensures (Value(), r) == AfterRun(old(Value()), now, w)
    {
      hide Due, Inserted, MostRecent, Lookup, Pruned, DiffOf, Material;
      if retryNotBefore.Some? && now < retryNotBefore.value {
        if !retryWake { return Report(false, false, false); }
      }
      retryWake := false;
      var c := store.CaptureScheduledIfDue(now, w.snapshot, w.insertFails);
      if c.NotDue? { return Report(false, false, false); }
      var failed, alerted := c.Failed?, false;
      if c.Done? {
        retryNotBefore := None;
        if c.previous.Some? {
          var a, b := Lookup(store.baselines, c.previous.value), Lookup(store.baselines, c.id);
          if a.Some? && b.Some? && Material(DiffOf(a.value.snap, b.value.snap)) {
            if w.dispatchFails { failed := true; } else { alerted := true; }
          }
        }
        if w.pruneFails { failed := true; } else { store.DeleteScheduledBefore(now - RETENTION); }
        if !failed { return Report(true, alerted, false); }
      }
      if !w.recordFails {
        store.MarkScheduleError();
        retryNotBefore := Some(now + store.schedule.hours * HOUR);
      }
      return Report(false, false, true);
    }
  }
}
