/** What holds of scheduled baselines over whole runs of the monitor. */
module BaselineLedger {
  import opened Wrappers
  import opened BaselineDiff
  import opened Baselines

  /** A scheduled capture that was made: the interval then in force, what it was compared with, and whether that
      comparison called for an alert. */
  datatype Made = Made(b: Baseline, hours: int, previous: Option<nat>, alerting: bool)

  /** The monitor, and every scheduled capture made so far, pruned or not. */
  datatype State = State(m: Monitor, made: seq<Made>)

  datatype Step =
    | Run(now: int, w: World)
    | Create(at: int, snap: Snapshot)
    | SaveSchedule(enabled: bool, hours: int)
    | Wake

  function Next(s: State, step: Step): State
  {
    match step
    case Run(now, w) =>
      State(AfterRun(s.m, now, w).0, if Captures(s.m, now, w) then s.made + [MadeBy(s.m, now, w)] else s.made)
    case Create(at, snap) => s.(m := s.m.(store := Inserted(s.m.store, Manual, at, snap)))
    case SaveSchedule(enabled, hours) =>
      var sc := s.m.store.schedule.(enabled := enabled, hours := hours);
      if Allowed(hours) then s.(m := s.m.(store := s.m.store.(schedule := sc))) else s
    case Wake => s.(m := s.m.(woken := true))
  }

  function MadeBy(m: Monitor, now: int, w: World): Made
    requires Captures(m, now, w)
  {
    var st := Inserted(m.store, Scheduled, now, w.snapshot.value);
    Made(Baseline(m.store.nextId, Scheduled, now, w.snapshot.value), m.store.schedule.hours,
         PreviousId(m.store.baselines), Alerts(st.baselines, PreviousId(m.store.baselines), m.store.nextId))
  }

  // ------------------------------------------------------------------ the scheduled rows of a table

  function ScheduledOf(bs: seq<Baseline>): seq<Baseline>
  {
    if bs == [] then []
    else
      var before, b := ScheduledOf(bs[..|bs| - 1]), bs[|bs| - 1];
      if b.origin.Scheduled? then before + [b] else before
  }

  function ManualsOf(bs: seq<Baseline>): seq<Baseline>
  {
    if bs == [] then []
    else
      var before, b := ManualsOf(bs[..|bs| - 1]), bs[|bs| - 1];
      if b.origin.Manual? then before + [b] else before
  }

  predicate Rising(bs: seq<Baseline>) { forall i, j :: 0 <= i < j < |bs| ==> bs[i].at < bs[j].at }

  lemma AddRow(bs: seq<Baseline>, b: Baseline)
    ensures ScheduledOf(bs + [b]) == if b.origin.Scheduled? then ScheduledOf(bs) + [b] else ScheduledOf(bs)
    ensures ManualsOf(bs + [b]) == if b.origin.Manual? then ManualsOf(bs) + [b] else ManualsOf(bs)
  {
    assert (bs + [b])[..|bs|] == bs;
  }

  lemma {:induction false} MostRecentIsLast(bs: seq<Baseline>)
    requires Rising(ScheduledOf(bs))
    ensures MostRecent(bs) == if ScheduledOf(bs) == [] then None else Some(ScheduledOf(bs)[|ScheduledOf(bs)| - 1])
  {
    if bs != [] {
      var init, b := bs[..|bs| - 1], bs[|bs| - 1];
      var before := ScheduledOf(init);
      assert bs == init + [b];
      AddRow(init, b);
      assert Rising(before) by {
        forall i, j | 0 <= i < j < |before|
          ensures before[i].at < before[j].at
        {
          assert ScheduledOf(bs)[i] == before[i] && ScheduledOf(bs)[j] == before[j];
        }
      }
      MostRecentIsLast(init);
      if b.origin.Scheduled? && before != [] {
        assert ScheduledOf(bs)[|before| - 1] == before[|before| - 1] && ScheduledOf(bs)[|before|] == b;
      }
    }
  }

  /** The first `k` of these rows, and no others, are older than the cutoff. */
  predicate OldUpTo(bs: seq<Baseline>, cutoff: int, k: nat)
  {
    k <= |bs| && forall i :: 0 <= i < |bs| ==> (bs[i].at < cutoff <==> i < k)
  }

  lemma OldSnoc(bs: seq<Baseline>, b: Baseline, cutoff: int, k: nat)
    requires Rising(bs + [b]) && OldUpTo(bs, cutoff, k)
    ensures b.at < cutoff ==> k == |bs| && OldUpTo(bs + [b], cutoff, k + 1)
    ensures b.at >= cutoff ==> OldUpTo(bs + [b], cutoff, k)
  {
    assert !(k < |bs| && bs[k].at < cutoff);
    if b.at < cutoff { AllBefore(bs, b, cutoff); }
  }

  /** Pruning keeps every manual row, and of the scheduled rows all but some oldest ones. */
  lemma {:induction false} PruneTrims(bs: seq<Baseline>, cutoff: int) returns (k: nat)
    requires Rising(ScheduledOf(bs))
    ensures ManualsOf(Pruned(bs, cutoff)) == ManualsOf(bs)
    ensures OldUpTo(ScheduledOf(bs), cutoff, k) && ScheduledOf(Pruned(bs, cutoff)) == ScheduledOf(bs)[k..]
  {
    hide ScheduledOf, ManualsOf, Rising, OldUpTo, Pruned;
    NoRows(cutoff);
    k := 0;
    if bs != [] {
      var init, b := bs[..|bs| - 1], bs[|bs| - 1];
      assert bs == init + [b];
      AddRow(init, b);
      PruneRow(init, b, cutoff);
      RisingPrefix(ScheduledOf(init), ScheduledOf(bs));
      k := PruneTrims(init, cutoff);
      AddRow(Pruned(init, cutoff), b);
      OldWithin(ScheduledOf(init), cutoff, k);
      if b.origin.Scheduled? {
        OldSnoc(ScheduledOf(init), b, cutoff, k);
        DropSnoc(ScheduledOf(init), b, k);
        if b.at < cutoff { k := k + 1; }
      }
    }
  }

  lemma OldWithin(bs: seq<Baseline>, cutoff: int, k: nat)
    requires OldUpTo(bs, cutoff, k)
    ensures k <= |bs|
  {
  }

  lemma DropSnoc(bs: seq<Baseline>, b: Baseline, k: nat)
    requires k <= |bs|
    ensures (bs + [b])[k..] == bs[k..] + [b] && (bs + [b])[|bs| + 1..] == [] && bs[|bs|..] == []
  {
  }

  lemma NoRows(cutoff: int)
    ensures Pruned([], cutoff) == [] && ScheduledOf([]) == [] && ManualsOf([]) == [] && OldUpTo([], cutoff, 0)
  {
  }

  lemma PruneRow(bs: seq<Baseline>, b: Baseline, cutoff: int)
    ensures Pruned(bs + [b], cutoff) ==
            if b.origin.Scheduled? && b.at < cutoff then Pruned(bs, cutoff) else Pruned(bs, cutoff) + [b]
  {
    assert (bs + [b])[..|bs|] == bs;
  }

  lemma AllBefore(bs: seq<Baseline>, b: Baseline, cutoff: int)
    requires Rising(bs + [b]) && b.at < cutoff
    ensures forall i :: 0 <= i < |bs| ==> bs[i].at < cutoff
  {
    var all := bs + [b];
    forall i | 0 <= i < |bs|
      ensures bs[i].at < cutoff
    {
      assert all[i].at < all[|bs|].at;
    }
  }

  lemma RisingPrefix(a: seq<Baseline>, b: seq<Baseline>)
    requires Rising(b) && a <= b
    ensures Rising(a)
  {
  }

  // ------------------------------------------------------------------ ids

  /** Ids rise through the table and stay under `bound`. */
  predicate IdsRise(bs: seq<Baseline>, bound: nat)
  {
    && (forall i, j :: 0 <= i < j < |bs| ==> bs[i].id < bs[j].id)
    && (forall i :: 0 <= i < |bs| ==> bs[i].id < bound)
  }

  predicate Fresh(st: Store) { IdsRise(st.baselines, st.nextId) }

  lemma {:induction false} LookupFinds(bs: seq<Baseline>, i: nat, bound: nat)
    requires i < |bs| && IdsRise(bs, bound)
    ensures Lookup(bs, bs[i].id) == Some(bs[i])
  {
    if i > 0 { LookupFinds(bs[1..], i - 1, bound); }
  }

  lemma {:induction false} ScheduledIsIn(bs: seq<Baseline>, k: nat) returns (i: nat)
    requires k < |ScheduledOf(bs)|
    ensures i < |bs| && bs[i] == ScheduledOf(bs)[k]
  {
    var init, b := bs[..|bs| - 1], bs[|bs| - 1];
    if k < |ScheduledOf(init)| { i := ScheduledIsIn(init, k); } else { i := |bs| - 1; }
  }

  lemma IdsStep(bs: seq<Baseline>, b: Baseline, bound: nat)
    requires IdsRise(bs, b.id) && b.id < bound
    ensures IdsRise(bs, bound) && IdsRise(bs + [b], bound)
  {
  }

  lemma {:induction false} PrunedStaysFresh(bs: seq<Baseline>, cutoff: int, bound: nat)
    requires IdsRise(bs, bound)
    ensures IdsRise(Pruned(bs, cutoff), bound)
  {
    hide Expired;
    if bs != [] {
      var init, b := bs[..|bs| - 1], bs[|bs| - 1];
      PrunedStaysFresh(init, cutoff, b.id);
      IdsStep(Pruned(init, cutoff), b, bound);
    }
  }

  // ------------------------------------------------------------------ the invariant

  function Rows(made: seq<Made>): (r: seq<Baseline>)
    ensures |r| == |made| && forall i :: 0 <= i < |r| ==> r[i] == made[i].b
  {
    seq(|made|, i requires 0 <= i < |made| => made[i].b)
  }

  /** Each capture comes at least the interval then in force after the one before, is compared with that one and no
      other, and calls for an alert exactly when the two differ materially. */
  predicate Linked(made: seq<Made>)
  {
    && (made != [] ==> made[0].previous == None && !made[0].alerting)
    && (forall i :: 0 <= i < |made| ==> Allowed(made[i].hours) && made[i].b.origin.Scheduled?)
    && (forall i :: 0 < i < |made| ==>
          && made[i].b.at >= made[i - 1].b.at + made[i].hours * HOUR
          && made[i].previous == Some(made[i - 1].b.id)
          && made[i].alerting == Material(DiffOf(made[i - 1].b.snap, made[i].b.snap)))
  }

  /** The scheduled rows stored are the latest of those made, the newest always among them. */
  ghost predicate Stored(bs: seq<Baseline>, made: seq<Made>)
  {
    exists k :: 0 <= k <= |made| && (made != [] ==> k < |made|) && ScheduledOf(bs) == Rows(made)[k..]
  }

  /** The success time of the schedule is that of the newest capture. */
  predicate InStep(last: Option<int>, made: seq<Made>)
  {
    last == if made == [] then None else Some(made[|made| - 1].b.at)
  }

  ghost predicate Inv(s: State)
  {
    && Linked(s.made) && Stored(s.m.store.baselines, s.made) && InStep(s.m.store.schedule.last, s.made)
    && Fresh(s.m.store) && Allowed(s.m.store.schedule.hours)
  }

  lemma LinkedStep(made: seq<Made>, i: nat)
    requires Linked(made) && 0 < i < |made|
    ensures made[i - 1].b.at < made[i].b.at
  {
  }

  lemma {:induction false} LinkedOrder(made: seq<Made>, i: nat, j: nat)
    requires Linked(made) && i < j < |made|
    ensures made[i].b.at < made[j].b.at
  {
    hide Linked;
    LinkedStep(made, j);
    if i < j - 1 { LinkedOrder(made, i, j - 1); }
  }

  lemma LinkedRises(made: seq<Made>)
    requires Linked(made)
    ensures Rising(Rows(made))
  {
    hide Linked;
    forall i, j | 0 <= i < j < |made|
      ensures made[i].b.at < made[j].b.at
    {
      LinkedOrder(made, i, j);
    }
  }

  lemma StoredRises(bs: seq<Baseline>, made: seq<Made>)
    requires Linked(made) && Stored(bs, made)
    ensures Rising(ScheduledOf(bs))
    ensures MostRecent(bs) == if made == [] then None else Some(made[|made| - 1].b)
  {
    hide Linked, MostRecent, ScheduledOf;
    LinkedRises(made);
    MostRecentIsLast(bs);
    if made != [] { NewestIsStored(bs, made); }
  }

  lemma NewestIsStored(bs: seq<Baseline>, made: seq<Made>)
    requires Stored(bs, made) && made != []
    ensures ScheduledOf(bs) != [] && ScheduledOf(bs)[|ScheduledOf(bs)| - 1] == made[|made| - 1].b
  {
    hide ScheduledOf;
  }

  /** At a comparison the predecessor and the new row are both found. */
  lemma BothAreFound(m: Monitor, made: seq<Made>, now: int, snap: Snapshot)
    requires Linked(made) && Stored(m.store.baselines, made) && Fresh(m.store) && made != []
    ensures var bs, last := Inserted(m.store, Scheduled, now, snap).baselines, made[|made| - 1].b;
            Lookup(bs, last.id) == Some(last)
            && Lookup(bs, m.store.nextId) == Some(Baseline(m.store.nextId, Scheduled, now, snap))
  {
    hide Linked, Rows, ScheduledOf, IdsRise, Lookup;
    NewestIsStored(m.store.baselines, made);
    var bs, rows := Inserted(m.store, Scheduled, now, snap).baselines, ScheduledOf(m.store.baselines);
    var i := ScheduledIsIn(m.store.baselines, |rows| - 1);
    assert bs[i] == m.store.baselines[i];
    IdsStep(m.store.baselines, bs[|bs| - 1], m.store.nextId + 1);
    LookupFinds(bs, i, m.store.nextId + 1);
    LookupFinds(bs, |bs| - 1, m.store.nextId + 1);
  }

  /** What one more capture must be. */
  predicate Follows(made: seq<Made>, x: Made)
  {
    && Allowed(x.hours) && x.b.origin.Scheduled?
    && if made == [] then x.previous == None && !x.alerting
       else
         var last := made[|made| - 1].b;
         && x.b.at >= last.at + x.hours * HOUR
         && x.previous == Some(last.id)
         && x.alerting == Material(DiffOf(last.snap, x.b.snap))
  }

  lemma LinkedSnoc(made: seq<Made>, x: Made)
    requires Linked(made) && Follows(made, x)
    ensures Linked(made + [x])
  {
    hide Material, DiffOf, Allowed;
    var all := made + [x];
    assert forall i :: 0 <= i < |made| ==> all[i] == made[i];
    assert all[|made|] == x;
  }

  lemma CaptureLinks(s: State, now: int, w: World)
    requires Inv(s) && Captures(s.m, now, w)
    ensures Linked(s.made + [MadeBy(s.m, now, w)])
  {
    hide Linked, Stored, Fresh, Inserted, DiffOf, Material, MostRecent, Lookup, Skips;
    StoredRises(s.m.store.baselines, s.made);
    if s.made != [] { BothAreFound(s.m, s.made, now, w.snapshot.value); }
    LinkedSnoc(s.made, MadeBy(s.m, now, w));
  }

  /** A success mark is never refused: the due check already put the capture after the last one. */
  lemma MarkFollows(s: State, now: int, w: World)
    requires Inv(s) && Captures(s.m, now, w)
    ensures Marked(s.m.store.schedule, now).last == Some(now)
    ensures Marked(s.m.store.schedule, now).hours == s.m.store.schedule.hours
  {
  }

  lemma RowsSnoc(made: seq<Made>, x: Made)
    ensures Rows(made + [x]) == Rows(made) + [x.b]
  {
  }

  lemma CaptureStores(bs: seq<Baseline>, made: seq<Made>, x: Made)
    requires Stored(bs, made) && x.b.origin.Scheduled?
    ensures Stored(bs + [x.b], made + [x])
  {
    hide Rows, ScheduledOf;
    var k :| 0 <= k <= |made| && (made != [] ==> k < |made|) && ScheduledOf(bs) == Rows(made)[k..];
    AddRow(bs, x.b);
    RowsSnoc(made, x);
    assert (Rows(made) + [x.b])[k..] == Rows(made)[k..] + [x.b];
  }

  lemma ManualStores(bs: seq<Baseline>, made: seq<Made>, b: Baseline)
    requires Stored(bs, made) && b.origin.Manual?
    ensures Stored(bs + [b], made)
  {
    AddRow(bs, b);
  }

  lemma PruneStores(bs: seq<Baseline>, made: seq<Made>, cutoff: int)
    requires Linked(made) && Stored(bs, made) && made != [] && made[|made| - 1].b.at >= cutoff
    ensures Stored(Pruned(bs, cutoff), made) && ManualsOf(Pruned(bs, cutoff)) == ManualsOf(bs)
  {
    hide Linked, Rows, ScheduledOf, ManualsOf, Rising, MostRecent, Pruned;
    StoredRises(bs, made);
    var k :| 0 <= k <= |made| && (made != [] ==> k < |made|) && ScheduledOf(bs) == Rows(made)[k..];
    var j := PruneTrims(bs, cutoff);
    DropTwice(Rows(made), k, j);
    LastOfDrop(Rows(made), k);
    assert j <= |made| - 1 - k;
  }

  lemma DropTwice(s: seq<Baseline>, k: nat, j: nat)
    requires k + j <= |s|
    ensures s[k..][j..] == s[k + j..]
  {
  }

  lemma LastOfDrop(s: seq<Baseline>, k: nat)
    requires k < |s|
    ensures s[k..][|s| - 1 - k] == s[|s| - 1]
  {
  }

  lemma InsertStaysFresh(st: Store, origin: Origin, at: int, snap: Snapshot)
    requires Fresh(st)
    ensures Fresh(Inserted(st, origin, at, snap))
  {
  }

  /** A run that captures: the table, the mark and the new record move together. */
  lemma CaptureKeeps(s: State, now: int, w: World)
    requires Inv(s) && Captures(s.m, now, w)
    ensures Inv(Next(s, Run(now, w)))
  {
    hide Linked, Stored, Fresh, MostRecent, Lookup, DiffOf, Material, Pruned, Marked, Rows, Alerts;
    var x := MadeBy(s.m, now, w);
    var st := Inserted(s.m.store, Scheduled, now, w.snapshot.value);
    CaptureLinks(s, now, w);
    CaptureStores(s.m.store.baselines, s.made, x);
    MarkFollows(s, now, w);
    InsertStaysFresh(s.m.store, Scheduled, now, w.snapshot.value);
    PruneStores(st.baselines, s.made + [x], now - RETENTION);
    FreshRows(st, now - RETENTION);
  }

  lemma FreshRows(st: Store, cutoff: int)
    requires Fresh(st)
    ensures Fresh(st.(baselines := Pruned(st.baselines, cutoff)))
    ensures forall sc ::
              Fresh(st.(schedule := sc)) && Fresh(st.(baselines := Pruned(st.baselines, cutoff), schedule := sc))
  {
    PrunedStaysFresh(st.baselines, cutoff, st.nextId);
  }

  lemma InvNext(s: State, step: Step)
    requires Inv(s)
    ensures Inv(Next(s, step))
  {
    hide Linked, Stored, Fresh, Pruned, AfterCapture, MadeBy, Inserted;
    match step {
      case Run(now, w) =>
        if Captures(s.m, now, w) { CaptureKeeps(s, now, w); } else { FreshRows(s.m.store, 0); }
      case Create(at, snap) =>
        InsertStaysFresh(s.m.store, Manual, at, snap);
        ManualInsert(s.m.store, at, snap);
        ManualStores(s.m.store.baselines, s.made, Baseline(s.m.store.nextId, Manual, at, snap));
      case SaveSchedule(enabled, hours) => FreshRows(s.m.store, 0);
      case Wake =>
    }
  }

  lemma ManualInsert(st: Store, at: int, snap: Snapshot)
    ensures Inserted(st, Manual, at, snap) ==
            Store(st.baselines + [Baseline(st.nextId, Manual, at, snap)], st.nextId + 1, st.schedule)
  {
  }

  function After(s: State, steps: seq<Step>): State
    decreases |steps|
  {
    if steps == [] then s else After(Next(s, steps[0]), steps[1..])
  }

  function Start(): State { State(Monitor(Store([], 0, Schedule(false, 24, None, false)), None, false), []) }

  /** Over every run, with any clock and any failures: captures keep their distance, each is compared with the one just
      before it, the newest is always stored, and the success time is always its. */
  lemma {:induction false} EveryRunKeeps(s: State, steps: seq<Step>)
    requires Inv(s)
    ensures Inv(After(s, steps))
    decreases |steps|
  {
    hide Inv, Next;
    if steps != [] {
      InvNext(s, steps[0]);
      EveryRunKeeps(Next(s, steps[0]), steps[1..]);
    }
  }

  /** So in every state a run from an empty store reaches. */
  lemma EveryRunIsFine(steps: seq<Step>)
    ensures Inv(After(Start(), steps))
  {
    StartIsFine();
    EveryRunKeeps(Start(), steps);
  }

  lemma StartIsFine()
    ensures Inv(Start())
  {
    assert Rows([])[0..] == [];
  }

  /** No step removes a manual baseline. */
  lemma ManualsOnlyGrow(s: State, step: Step)
    requires Inv(s)
    ensures ManualsOf(s.m.store.baselines) <= ManualsOf(Next(s, step).m.store.baselines)
  {
    hide Linked, Fresh, MostRecent, Lookup, Pruned, Marked, Alerts, Stored, Rows;
    match step {
      case Run(now, w) =>
        if Captures(s.m, now, w) {
          CaptureKeepsManuals(s, now, w);
        }
      case Create(at, snap) => AddRow(s.m.store.baselines, Baseline(s.m.store.nextId, Manual, at, snap));
      case SaveSchedule(enabled, hours) =>
      case Wake =>
    }
  }

  lemma CaptureKeepsManuals(s: State, now: int, w: World)
    requires Inv(s) && Captures(s.m, now, w)
    ensures var all := s.m.store.baselines + [MadeBy(s.m, now, w).b];
            ManualsOf(all) == ManualsOf(s.m.store.baselines) == ManualsOf(Pruned(all, now - RETENTION))
  {
    hide Linked, Fresh, MostRecent, Lookup, Pruned, Marked, Alerts, Stored, Rows, ManualsOf, ScheduledOf;
    var x := MadeBy(s.m, now, w);
    CaptureLinks(s, now, w);
    CaptureStores(s.m.store.baselines, s.made, x);
    AddRow(s.m.store.baselines, x.b);
    PruneStores(s.m.store.baselines + [x.b], s.made + [x], now - RETENTION);
  }

  /** A run reports a capture exactly when it made one and nothing after it failed; so a run whose alert or pruning
      fails reports none, although the baseline is stored. It reports an alert exactly when it sent one. */
  lemma ReportTellsCapture(s: State, now: int, w: World)
    ensures var made, r := Next(s, Run(now, w)).made, AfterRun(s.m, now, w).1;
            && (r.captured <==> |made| > |s.made| && !w.pruneFails && !(made[|s.made|].alerting && w.dispatchFails))
            && (r.alerted <==> r.captured && made[|s.made|].alerting)
            && (|made| > |s.made| && !r.captured ==> r.failed)
  {
    hide Inserted, Due, Pruned, PreviousId, Alerts;
  }

  /** After a failure nothing is captured before the retry time, unless the monitor is woken. */
  lemma {:induction false} RetryHolds(s: State, steps: seq<Step>, retry: int)
    requires s.m.retry == Some(retry) && !s.m.woken
    requires forall i :: 0 <= i < |steps| ==> !steps[i].Wake? && (steps[i].Run? ==> steps[i].now < retry)
    ensures After(s, steps).made == s.made && After(s, steps).m.retry == Some(retry)
    decreases |steps|
  {
    hide Due, Inserted, AfterCapture, MadeBy;
    if steps != [] {
      assert !steps[0].Wake?;
      RetryHolds(Next(s, steps[0]), steps[1..], retry);
    }
  }
}
