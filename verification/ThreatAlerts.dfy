/** Each detected threat becomes an alert once: the dispatcher between the threat engine and the alert service. */
module ThreatAlerts {
  import opened Wrappers
  import opened AlertDispatch

  datatype Threat = Threat(id: string, severity: string, title: string, status: string)

  const SEED_LIMIT: nat := 500

  function AlertFor(t: Threat): Alert { Alert(t.severity, "threat", t.id, t.title) }

  predicate IsThreat(e: Entry) { e.alert.source == "threat" && e.alert.sourceId != "" }

  /** Rows `shown` are a choice of the `limit` newest; among equal times any may be left out. */
  ghost predicate Newest(history: seq<Entry>, shown: set<nat>, limit: nat)
  {
    && |shown| == (if |history| < limit then |history| else limit)
    && (forall i :: i in shown ==> i < |history|)
    && (forall i, j :: i in shown && 0 <= j < |history| && j !in shown ==> history[j].ts <= history[i].ts)
  }

  /** The threat ids among the rows shown. */
  function SeedOf(history: seq<Entry>, shown: set<nat>): set<string>
  {
    set i | i in shown && i < |history| && IsThreat(history[i]) :: history[i].alert.sourceId
  }

  /** A pass under way. */
  datatype Progress = Progress(history: seq<Entry>, alerted: set<string>, sent: nat)

  /** One threat of a pass: skipped when it has no id, was alerted before or is resolved; marked only when a row
      was written. */
  function Visit(c: Config, p: Progress, t: Threat, w: World): Progress
    requires Fits(c, w)
  {
    if t.id == "" || t.id in p.alerted || t.status == "resolved" then p
    else if OutcomeOf(c, AlertFor(t), w).Recorded? then
      Progress(HistoryAfter(c, p.history, AlertFor(t), w), p.alerted + {t.id}, p.sent + 1)
    else p
  }

  predicate FitsEach(c: Config, threats: seq<Threat>, worlds: seq<World>)
  {
    |worlds| == |threats| && forall i :: 0 <= i < |worlds| ==> Fits(c, worlds[i])
  }

  function VisitAll(c: Config, p: Progress, threats: seq<Threat>, worlds: seq<World>): Progress
    requires FitsEach(c, threats, worlds)
  {
    if threats == [] then p
    else
      var n := |threats| - 1;
      Visit(c, VisitAll(c, p, threats[..n], worlds[..n]), threats[n], worlds[n])
  }

  /** What a pass starts from: the ids kept in memory, else those of the history rows shown, else nothing when
      the history cannot be read. */
  function Seeded(alerted: Option<set<string>>, history: seq<Entry>, shown: set<nat>, readable: bool): set<string>
  {
    if alerted.Some? then alerted.value else if readable then SeedOf(history, shown) else {}
  }

  class ThreatAlertDispatcher {
    const alerts: AlertService
    var alerted: Option<set<string>>

    constructor (service: AlertService)
      ensures alerts == service && alerted == None
    {
      alerts, alerted := service, None;
    }

    method Seed(shown: set<nat>, readable: bool)
      modifies this
      ensures alerted == Some(Seeded(old(alerted), alerts.history, shown, readable))
    {
      if alerted.Some? { return; }
      alerted := Some(if readable then SeedOf(alerts.history, shown) else {});
    }

    /** `dispatch_new`, with one world a threat. */
    method DispatchNew(threats: seq<Threat>, worlds: seq<World>, shown: set<nat>, readable: bool) returns (sent: nat)
      requires FitsEach(alerts.config, threats, worlds)
      modifies this, alerts`history, alerts`lastStatus
      ensures !alerts.config.enabled ==> sent == 0 && alerted == old(alerted) && alerts.history == old(alerts.history)
      ensures alerts.config.enabled ==>
                var seen := Seeded(old(alerted), old(alerts.history), shown, readable);
                var start := Progress(old(alerts.history), seen, 0);
                && alerted.Some?
                && VisitAll(alerts.config, start, threats, worlds) == Progress(alerts.history, alerted.value, sent)
    {
      hide OutcomeOf, HistoryAfter, SeedOf, LastStatus, EntryOf;
      if !alerts.config.enabled { return 0; }
      Seed(shown, readable);
      ghost var start := Progress(alerts.history, alerted.value, 0);
      var marked := alerted.value;
      sent := 0;
      for i := 0 to |threats|
        invariant FitsEach(alerts.config, threats, worlds) && alerts.config == old(alerts.config)
        invariant VisitAll(alerts.config, start, threats[..i], worlds[..i]) == Progress(alerts.history, marked, sent)
      {
        var t := threats[i];
        VisitNext(alerts.config, start, threats, worlds, i);
        if t.id == "" || t.id in marked || t.status == "resolved" { continue; }
        OnlyRecordedGrows(alerts.config, alerts.history, AlertFor(t), worlds[i]);
        var outcome := alerts.Dispatch(AlertFor(t), worlds[i]);
        if outcome != Recorded { continue; }
        marked := marked + {t.id};
        sent := sent + 1;
      }
      assert threats[..|threats|] == threats && worlds[..|worlds|] == worlds;
      alerted := Some(marked);
    }
  }

  lemma VisitNext(c: Config, p: Progress, threats: seq<Threat>, worlds: seq<World>, i: nat)
    requires FitsEach(c, threats, worlds) && i < |threats|
    ensures VisitAll(c, p, threats[..i + 1], worlds[..i + 1]) ==
            Visit(c, VisitAll(c, p, threats[..i], worlds[..i]), threats[i], worlds[i])
  {
    assert threats[..i + 1][..i] == threats[..i] && worlds[..i + 1][..i] == worlds[..i];
  }

  lemma OnlyRecordedGrows(c: Config, history: seq<Entry>, a: Alert, w: World)
    requires Fits(c, w)
    ensures !OutcomeOf(c, a, w).Recorded? ==> HistoryAfter(c, history, a, w) == history
  {
  }

  // ------------------------------------------------------------------ runs

  /** The stored history and the in-memory set, which a restart loses. */
  datatype State = State(history: seq<Entry>, alerted: Option<set<string>>)

  datatype Step =
    | Pass(c: Config, threats: seq<Threat>, worlds: seq<World>, shown: set<nat>, readable: bool)
    | Restart
    | OtherAlert(c: Config, a: Alert, w: World)

  ghost predicate Enabled(s: State, step: Step)
  {
    match step
    case Pass(c, threats, worlds, shown, _) => FitsEach(c, threats, worlds) && Newest(s.history, shown, SEED_LIMIT)
    case Restart => true
    case OtherAlert(c, a, w) => Fits(c, w) && a.source != "threat"
  }

  function AfterPass(s: State, c: Config, threats: seq<Threat>, worlds: seq<World>, seed: set<string>): State
    requires FitsEach(c, threats, worlds)
  {
    if !c.enabled then s
    else
      var p := VisitAll(c, Progress(s.history, seed, 0), threats, worlds);
      State(p.history, Some(p.alerted))
  }

  ghost function Next(s: State, step: Step): State
    requires Enabled(s, step)
  {
    match step
    case Pass(c, threats, worlds, shown, readable) =>
      AfterPass(s, c, threats, worlds, Seeded(s.alerted, s.history, shown, readable))
    case Restart => s.(alerted := None)
    case OtherAlert(c, a, w) => s.(history := HistoryAfter(c, s.history, a, w))
  }

  /** Alerts recorded for one threat. */
  function Records(history: seq<Entry>, id: string): nat
  {
    if history == [] then 0
    else
      var e := history[|history| - 1];
      Records(history[..|history| - 1], id) + if IsThreat(e) && e.alert.sourceId == id then 1 else 0
  }

  predicate Holds(history: seq<Entry>, ids: set<string>)
  {
    forall i :: 0 <= i < |history| && IsThreat(history[i]) ==> history[i].alert.sourceId in ids
  }

  ghost predicate AtMostOnce(history: seq<Entry>) { forall id :: Records(history, id) <= 1 }

  ghost predicate Inv(s: State) { AtMostOnce(s.history) && (s.alerted.Some? ==> Holds(s.history, s.alerted.value)) }

  lemma {:induction false} Unrecorded(history: seq<Entry>, ids: set<string>, id: string)
    requires Holds(history, ids) && id !in ids
    ensures Records(history, id) == 0
  {
    if history != [] {
      assert Holds(history[..|history| - 1], ids);
      Unrecorded(history[..|history| - 1], ids, id);
    }
  }

  lemma RecordOne(history: seq<Entry>, e: Entry, id: string)
    ensures Records(history + [e], id) == Records(history, id) + if IsThreat(e) && e.alert.sourceId == id then 1 else 0
  {
    assert (history + [e])[..|history|] == history;
  }

  predicate Good(p: Progress) { Holds(p.history, p.alerted) }

  lemma VisitKeeps(c: Config, p: Progress, t: Threat, w: World)
    requires Fits(c, w) && Good(p) && AtMostOnce(p.history)
    ensures Good(Visit(c, p, t, w)) && AtMostOnce(Visit(c, p, t, w).history)
  {
    hide EntryOf, Records;
    if !(t.id == "" || t.id in p.alerted || t.status == "resolved") && OutcomeOf(c, AlertFor(t), w).Recorded? {
      var e := EntryOf(c, p.history, AlertFor(t), w);
      EntryTime(c, p.history, AlertFor(t), w);
      Unrecorded(p.history, p.alerted, t.id);
      forall id
        ensures Records(p.history + [e], id) <= 1
      {
        RecordOne(p.history, e, id);
      }
    }
  }

  lemma {:induction false} PassKeeps(c: Config, p: Progress, threats: seq<Threat>, worlds: seq<World>)
    requires FitsEach(c, threats, worlds) && Good(p) && AtMostOnce(p.history)
    ensures Good(VisitAll(c, p, threats, worlds)) && AtMostOnce(VisitAll(c, p, threats, worlds).history)
  {
    hide Visit, Good, AtMostOnce;
    if threats != [] {
      var n := |threats| - 1;
      PassKeeps(c, p, threats[..n], worlds[..n]);
      VisitKeeps(c, VisitAll(c, p, threats[..n], worlds[..n]), threats[n], worlds[n]);
    }
  }

  /** When a pass fills an empty memory, the rows it is shown name every threat alerted before. */
  ghost predicate SeedComplete(s: State, step: Step)
  {
    step.Pass? && step.c.enabled && s.alerted.None? ==>
      step.readable && Holds(s.history, SeedOf(s.history, step.shown))
  }

  lemma OtherKeeps(s: State, c: Config, a: Alert, w: World)
    requires Inv(s) && Fits(c, w) && a.source != "threat"
    ensures Inv(s.(history := HistoryAfter(c, s.history, a, w)))
  {
    hide EntryOf, Records;
    if OutcomeOf(c, a, w).Recorded? {
      var e := EntryOf(c, s.history, a, w);
      EntryTime(c, s.history, a, w);
      forall id
        ensures Records(s.history + [e], id) <= 1
      {
        RecordOne(s.history, e, id);
      }
    }
  }

  lemma InvNext(s: State, step: Step)
    requires Inv(s) && Enabled(s, step) && SeedComplete(s, step)
    ensures Inv(Next(s, step))
  {
    hide AtMostOnce, VisitAll, SeedOf, Newest;
    match step {
      case Pass(c, threats, worlds, shown, readable) =>
        if c.enabled {
          PassKeeps(c, Progress(s.history, Seeded(s.alerted, s.history, shown, readable), 0), threats, worlds);
        }
      case Restart =>
      case OtherAlert(c, a, w) => OtherKeeps(s, c, a, w);
    }
  }

  /** A run from `s` to `t`, every seeding of which is complete. */
  ghost predicate Reaches(s: State, steps: seq<Step>, t: State)
    decreases |steps|
  {
    if steps == [] then s == t
    else Enabled(s, steps[0]) && SeedComplete(s, steps[0]) && Reaches(Next(s, steps[0]), steps[1..], t)
  }

  /** Over passes, restarts, other alerts and every failure of the transports and of the store, a threat is
      recorded as an alert at most once. */
  lemma {:induction false} OnceEach(s: State, steps: seq<Step>, t: State)
    requires Inv(s) && Reaches(s, steps, t)
    ensures Inv(t) && forall id :: Records(t.history, id) <= 1
    decreases |steps|
  {
    hide Next, Enabled, SeedComplete, Records, Holds;
    if steps != [] {
      InvNext(s, steps[0]);
      OnceEach(Next(s, steps[0]), steps[1..], t);
    }
  }

  lemma FirstStart()
    ensures Inv(State([], None))
  {
  }

  // ------------------------------------------------------------------ when a seeding is complete

  function UpTo(n: nat): (all: set<nat>)
    ensures |all| == n && forall i: nat :: i in all <==> i < n
  {
    if n == 0 then {} else UpTo(n - 1) + {n - 1}
  }

  lemma FullSubset(a: set<nat>, b: set<nat>)
    requires a <= b && |a| == |b|
    ensures a == b
  {
    assert b == a + (b - a);
    assert |b - a| == 0;
  }

  /** A history of at most 500 rows is shown whole. */
  lemma SmallHistoryIsShown(history: seq<Entry>, shown: set<nat>)
    requires Newest(history, shown, SEED_LIMIT) && |history| <= SEED_LIMIT
    ensures Holds(history, SeedOf(history, shown))
  {
    FullSubset(shown, UpTo(|history|));
    forall i | 0 <= i < |history| && IsThreat(history[i])
      ensures history[i].alert.sourceId in SeedOf(history, shown)
    {
      assert i in shown;
    }
  }

  /** A run in which every seeding pass can read a history of at most 500 rows. */
  ghost predicate ReachesSmall(s: State, steps: seq<Step>, t: State)
    decreases |steps|
  {
    if steps == [] then s == t
    else
      var step := steps[0];
      && Enabled(s, step)
      && (step.Pass? && step.c.enabled && s.alerted.None? ==> step.readable && |s.history| <= SEED_LIMIT)
      && ReachesSmall(Next(s, step), steps[1..], t)
  }

  lemma {:induction false} SmallIsComplete(s: State, steps: seq<Step>, t: State)
    requires ReachesSmall(s, steps, t)
    ensures Reaches(s, steps, t)
    decreases |steps|
  {
    hide Next, Holds, SeedOf, Newest;
    if steps != [] {
      var step := steps[0];
      if step.Pass? && step.c.enabled && s.alerted.None? { SmallHistoryIsShown(s.history, step.shown); }
      SmallIsComplete(Next(s, step), steps[1..], t);
    }
  }

  /** From a fresh store, as long as history is readable and holds at most 500 rows whenever the dispatcher seeds
      itself, no threat is recorded twice, across any passes, restarts and failures. */
  lemma OnceWhileSmall(steps: seq<Step>, t: State)
    requires ReachesSmall(State([], None), steps, t)
    ensures forall id :: Records(t.history, id) <= 1
  {
    hide Reaches, ReachesSmall, Records;
    FirstStart();
    SmallIsComplete(State([], None), steps, t);
    OnceEach(State([], None), steps, t);
  }

  /** The pass has an open threat with this id whose dispatch writes a row. */
  predicate Recordable(c: Config, t: Threat, w: World, id: string)
    requires Fits(c, w)
  {
    t.id == id && t.status != "resolved" && OutcomeOf(c, AlertFor(t), w).Recorded?
  }

  predicate AnyRecordable(c: Config, threats: seq<Threat>, worlds: seq<World>, id: string)
    requires FitsEach(c, threats, worlds)
  {
    exists k :: 0 <= k < |threats| && Recordable(c, threats[k], worlds[k], id)
  }

  lemma VisitRecords(c: Config, p: Progress, t: Threat, w: World, id: string)
    requires Fits(c, w) && id != ""
    ensures var q, first := Visit(c, p, t, w), id !in p.alerted && Recordable(c, t, w, id);
            && Records(q.history, id) == Records(p.history, id) + (if first then 1 else 0)
            && (id in q.alerted <==> id in p.alerted || first)
  {
    hide EntryOf, Records;
    var e := EntryOf(c, p.history, AlertFor(t), w);
    EntryTime(c, p.history, AlertFor(t), w);
    RecordOne(p.history, e, id);
  }

  lemma AnySnoc(c: Config, threats: seq<Threat>, worlds: seq<World>, id: string)
    requires FitsEach(c, threats, worlds) && threats != []
    ensures var n := |threats| - 1;
            AnyRecordable(c, threats, worlds, id) <==>
            AnyRecordable(c, threats[..n], worlds[..n], id) || Recordable(c, threats[n], worlds[n], id)
  {
    hide Recordable;
    var n := |threats| - 1;
    if k :| 0 <= k < n && Recordable(c, threats[k], worlds[k], id) {
      assert Recordable(c, threats[..n][k], worlds[..n][k], id);
    }
  }

  /** A pass adds one record for a threat that has none of its marks, if some entry of the pass can be recorded, and
      none otherwise. */
  lemma {:induction false} PassRecords(c: Config, p: Progress, threats: seq<Threat>, worlds: seq<World>, id: string)
    requires FitsEach(c, threats, worlds) && id != ""
    ensures var q, first := VisitAll(c, p, threats, worlds), id !in p.alerted && AnyRecordable(c, threats, worlds, id);
            && Records(q.history, id) == Records(p.history, id) + (if first then 1 else 0)
            && (id in q.alerted <==> id in p.alerted || first)
  {
    hide Visit, Records, Recordable, AnyRecordable;
    if threats == [] {
      NothingRecordable(c, id);
    } else {
      var n := |threats| - 1;
      PassRecords(c, p, threats[..n], worlds[..n], id);
      VisitRecords(c, VisitAll(c, p, threats[..n], worlds[..n]), threats[n], worlds[n], id);
      AnySnoc(c, threats, worlds, id);
    }
  }

  lemma NothingRecordable(c: Config, id: string)
    ensures FitsEach(c, [], []) && !AnyRecordable(c, [], [], id)
  {
  }

  /** And no further: on the first pass after a restart, whatever threats it brings, an id gets a new record exactly
      when the pass can record it and no row of it was shown; when the history cannot be read, every id it can record
      is recorded again. */
  lemma RestartRepeats(s: State, c: Config, threats: seq<Threat>, worlds: seq<World>, shown: set<nat>, readable: bool,
                       id: string)
    requires s.alerted.None? && c.enabled && FitsEach(c, threats, worlds)
    requires Newest(s.history, shown, SEED_LIMIT) && id != ""
    ensures Enabled(s, Pass(c, threats, worlds, shown, readable))
    ensures var t := Next(s, Pass(c, threats, worlds, shown, readable));
            var again := AnyRecordable(c, threats, worlds, id) && !(readable && id in SeedOf(s.history, shown));
            Records(t.history, id) == Records(s.history, id) + if again then 1 else 0
  {
    hide Records, SeedOf, Newest, VisitAll, AnyRecordable;
    PassRecords(c, Progress(s.history, Seeded(None, s.history, shown, readable), 0), threats, worlds, id);
  }

  /** Whatever a pass writes tells of one of its threats that is not resolved: its severity, id and title. */
  lemma {:induction false} NewRowsTell(c: Config, p: Progress, threats: seq<Threat>, worlds: seq<World>, k: nat)
    requires FitsEach(c, threats, worlds)
    ensures var q := VisitAll(c, p, threats, worlds);
            && p.history <= q.history
            && (|p.history| <= k < |q.history| ==>
                  exists i :: 0 <= i < |threats| && threats[i].status != "resolved" && threats[i].id != ""
                              && q.history[k].alert
                              == Alert(threats[i].severity, "threat", threats[i].id, threats[i].title)
                              && q.history[k].ts == worlds[i].now)
  {
    hide Limited, Results, IsQuiet;
    if threats != [] {
      var n := |threats| - 1;
      NewRowsTell(c, p, threats[..n], worlds[..n], k);
    }
  }

  /** Every alert a pass counts as sent is one more row. */
  lemma {:induction false} SentIsGrowth(c: Config, p: Progress, threats: seq<Threat>, worlds: seq<World>)
    requires FitsEach(c, threats, worlds)
    ensures var q := VisitAll(c, p, threats, worlds);
            |q.history| - |p.history| == q.sent - p.sent && p.history <= q.history
  {
    hide EntryOf, OutcomeOf;
    if threats != [] {
      var n := |threats| - 1;
      SentIsGrowth(c, p, threats[..n], worlds[..n]);
    }
  }
}
