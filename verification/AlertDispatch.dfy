/** Alert throttling: which alerts are sent, suppressed or rate-limited. */
module AlertDispatch {
  import opened Wrappers

  datatype Kind = Desktop | Webhook | Slack

  /** What a transport reported. */
  datatype Report = Delivered | Failed | Unavailable

  datatype Status = Attempted(report: Report) | RateLimited | Suppressed

  datatype Channel = Channel(id: string, kind: Kind, enabled: bool, url: Option<string>)

  datatype QuietHours = QuietHours(start: string, end: string)

  datatype Config = Config(
    enabled: bool, minSeverity: string, channels: seq<Channel>, rateLimit: int, quiet: Option<QuietHours>)

  datatype Alert = Alert(severity: string, source: string, sourceId: string, title: string)

  /** What one dispatch meets: the UTC clock in milliseconds, the local "HH:MM", the transport's report for each
      channel, and whether the history insert raises. */
  datatype World = World(now: int, clock: string, reports: seq<Report>, storeFails: bool)

  /** A row of the alert history; each result names its channel. */
  datatype Entry = Entry(ts: int, alert: Alert, results: seq<(string, Status)>)

  datatype Outcome = Ignored | Recorded | Raised

  const HOUR := 3_600_000

  function Rank(severity: string): nat
  {
    if severity == "critical" then 4 else if severity == "high" then 3 else if severity == "medium" then 2
    else if severity == "low" then 1 else 0
  }

  predicate Eligible(c: Config, severity: string) { c.enabled && Rank(severity) >= Rank(c.minSeverity) }

  /** String order, by code point. */
  predicate Less(a: string, b: string)
  {
    b != [] && (a == [] || a[0] < b[0] || (a[0] == b[0] && Less(a[1..], b[1..])))
  }

  predicate IsQuiet(quiet: Option<QuietHours>, clock: string)
  {
    quiet.Some? &&
      var start, end := quiet.value.start, quiet.value.end;
      if !Less(end, start) then !Less(clock, start) && Less(clock, end) else !Less(clock, start) || Less(clock, end)
  }

  /** Entries at or after `since`, whatever became of them. */
  function CountSince(history: seq<Entry>, since: int): nat
  {
    if history == [] then 0
    else CountSince(history[..|history| - 1], since) + if history[|history| - 1].ts >= since then 1 else 0
  }

  predicate Limited(c: Config, history: seq<Entry>, now: int)
  {
    c.rateLimit > 0 && CountSince(history, now - HOUR) >= c.rateLimit
  }

  predicate Reachable(ch: Channel)
  {
    ch.enabled && (ch.kind.Desktop? || (ch.url.Some? && ch.url.value != ""))
  }

  function ChannelResult(ch: Channel, quiet: bool, limited: bool, report: Report): seq<(string, Status)>
  {
    if !ch.enabled then []
    else if quiet then [(ch.id, Suppressed)]
    else if limited then [(ch.id, RateLimited)]
    else if Reachable(ch) then [(ch.id, Attempted(report))]
    else []
  }

  function Results(channels: seq<Channel>, quiet: bool, limited: bool, reports: seq<Report>): seq<(string, Status)>
    requires |reports| == |channels|
  {
    if channels == [] then []
    else
      var n := |channels| - 1;
      Results(channels[..n], quiet, limited, reports[..n]) + ChannelResult(channels[n], quiet, limited, reports[n])
  }

  /** The last-attempt column: only real attempts are written to it. */
  function LastStatus(was: map<string, Report>, results: seq<(string, Status)>): map<string, Report>
  {
    if results == [] then was
    else
      var (id, status) := results[|results| - 1];
      var before := LastStatus(was, results[..|results| - 1]);
      if status.Attempted? then before[id := status.report] else before
  }

  lemma ResultsSnoc(channels: seq<Channel>, quiet: bool, limited: bool, reports: seq<Report>, i: nat)
    requires |reports| == |channels| && i < |channels|
    ensures Results(channels[..i + 1], quiet, limited, reports[..i + 1]) ==
            Results(channels[..i], quiet, limited, reports[..i])
            + ChannelResult(channels[i], quiet, limited, reports[i])
  {
    assert channels[..i + 1][..i] == channels[..i] && reports[..i + 1][..i] == reports[..i];
  }

  lemma NoResults(quiet: bool, limited: bool, was: map<string, Report>)
    ensures Results([], quiet, limited, []) == [] && LastStatus(was, []) == was
  {
  }

  lemma LastStatusSnoc(was: map<string, Report>, results: seq<(string, Status)>, id: string, status: Status)
    ensures LastStatus(was, results + [(id, status)]) ==
            if status.Attempted? then LastStatus(was, results)[id := status.report] else LastStatus(was, results)
  {
    assert (results + [(id, status)])[..|results|] == results;
  }

  predicate Fits(c: Config, w: World) { |w.reports| == |c.channels| }

  function EntryOf(c: Config, history: seq<Entry>, a: Alert, w: World): Entry
    requires Fits(c, w)
  {
    Entry(w.now, a, Results(c.channels, IsQuiet(c.quiet, w.clock), Limited(c, history, w.now), w.reports))
  }

  function OutcomeOf(c: Config, a: Alert, w: World): Outcome
  {
    if !Eligible(c, a.severity) then Ignored else if w.storeFails then Raised else Recorded
  }

  function HistoryAfter(c: Config, history: seq<Entry>, a: Alert, w: World): seq<Entry>
    requires Fits(c, w)
  {
    if OutcomeOf(c, a, w).Recorded? then history + [EntryOf(c, history, a, w)] else history
  }

  class AlertService {
    var config: Config
    var history: seq<Entry>
    var lastStatus: map<string, Report>

    constructor (c: Config, stored: seq<Entry>)
      ensures config == c && history == stored && lastStatus == map[]
    {
      config, history, lastStatus := c, stored, map[];
    }

    /** `dispatch`. */
    method Dispatch(a: Alert, w: World) returns (outcome: Outcome)
      requires Fits(config, w)
      modifies this`history, this`lastStatus
      ensures outcome == OutcomeOf(config, a, w)
      ensures history == HistoryAfter(config, old(history), a, w)
      ensures lastStatus == if outcome.Ignored? then old(lastStatus)
                            else LastStatus(old(lastStatus), EntryOf(config, old(history), a, w).results)
    {
      hide Rank, IsQuiet, CountSince, Results, LastStatus, Less;
      if !config.enabled || Rank(a.severity) < Rank(config.minSeverity) { return Ignored; }
      var quiet := IsQuiet(config.quiet, w.clock);
      var limited := false;
      if config.rateLimit > 0 { limited := CountSince(history, w.now - HOUR) >= config.rateLimit; }
      var results: seq<(string, Status)> := [];
      NoResults(quiet, limited, lastStatus);
      for i := 0 to |config.channels|
        invariant history == old(history) && Fits(config, w)
        invariant results == Results(config.channels[..i], quiet, limited, w.reports[..i])
        invariant lastStatus == LastStatus(old(lastStatus), results)
      {
        var ch := config.channels[i];
        ResultsSnoc(config.channels, quiet, limited, w.reports, i);
        if !ch.enabled { continue; }
        var status: Status;
        if quiet {
          status := Suppressed;
        } else if limited {
          status := RateLimited;
        } else if ch.kind == Desktop || (ch.url.Some? && ch.url.value != "") {
          status := Attempted(w.reports[i]);
          lastStatus := lastStatus[ch.id := w.reports[i]];
        } else {
          continue;
        }
        LastStatusSnoc(old(lastStatus), results, ch.id, status);
        results := results + [(ch.id, status)];
      }
      assert config.channels[..|config.channels|] == config.channels && w.reports[..|w.reports|] == w.reports;
      if w.storeFails { return Raised; }
      history := history + [Entry(w.now, a, results)];
      return Recorded;
    }
  }

  // ------------------------------------------------------------------ which alerts are eligible

  const LEVELS := ["info", "low", "medium", "high", "critical"]

  /** An alert is eligible exactly when alerting is on and its severity stands at or behind the configured minimum; any
      other text counts as "info". */
  lemma EligibleExactly(c: Config, severity: string)
    ensures Eligible(c, severity) <==>
            c.enabled && (c.minSeverity !in LEVELS[1..]
                          || exists i, j :: 1 <= i <= j < 5 && LEVELS[i] == c.minSeverity && LEVELS[j] == severity)
  {
    assert LEVELS[1..] == ["low", "medium", "high", "critical"];
    LevelRanks();
    if c.minSeverity in LEVELS[1..] && Rank(severity) >= Rank(c.minSeverity) {
      var i, j := Rank(c.minSeverity), Rank(severity);
      assert LEVELS[i] == c.minSeverity && LEVELS[j] == severity;
    }
  }

  lemma LevelRanks()
    ensures forall i :: 0 <= i < 5 ==> Rank(LEVELS[i]) == i
    ensures forall s :: s !in LEVELS ==> Rank(s) == 0
  {
    assert LEVELS[0] == "info" && LEVELS[1] == "low" && LEVELS[2] == "medium" && LEVELS[3] == "high";
    assert LEVELS[4] == "critical";
  }

  // ------------------------------------------------------------------ what was sent

  predicate AnyAttempted(results: seq<(string, Status)>) { exists i :: 0 <= i < |results| && results[i].1.Attempted? }

  predicate AnyReachable(channels: seq<Channel>) { exists i :: 0 <= i < |channels| && Reachable(channels[i]) }

  /** Some transport was used for it. */
  predicate Sent(e: Entry) { AnyAttempted(e.results) }

  lemma AttemptedInAppend(s: seq<(string, Status)>, t: seq<(string, Status)>)
    requires |t| <= 1
    ensures AnyAttempted(s + t) <==> AnyAttempted(s) || (t != [] && t[0].1.Attempted?)
  {
    if i :| 0 <= i < |s| && s[i].1.Attempted? { assert (s + t)[i].1.Attempted?; }
    if t != [] && t[0].1.Attempted? { assert (s + t)[|s|].1.Attempted?; }
  }

  lemma ReachableInAppend(s: seq<Channel>, ch: Channel)
    ensures AnyReachable(s + [ch]) <==> AnyReachable(s) || Reachable(ch)
  {
    hide Reachable;
    if i :| 0 <= i < |s| && Reachable(s[i]) { assert Reachable((s + [ch])[i]); }
    if Reachable(ch) { assert Reachable((s + [ch])[|s|]); }
  }

  lemma {:induction false} ResultsAttempted(channels: seq<Channel>, quiet: bool, limited: bool, reports: seq<Report>)
    requires |reports| == |channels|
    ensures AnyAttempted(Results(channels, quiet, limited, reports)) <==> !quiet && !limited && AnyReachable(channels)
  {
    hide AnyAttempted, AnyReachable, Reachable;
    if channels == [] {
      NothingAny();
    } else {
      var n := |channels| - 1;
      ResultsAttempted(channels[..n], quiet, limited, reports[..n]);
      AttemptedInAppend(Results(channels[..n], quiet, limited, reports[..n]),
                        ChannelResult(channels[n], quiet, limited, reports[n]));
      ReachableInAppend(channels[..n], channels[n]);
      ReachableIsEnabled(channels[n]);
      assert channels[..n] + [channels[n]] == channels;
    }
  }

  lemma NothingAny()
    ensures !AnyAttempted([]) && !AnyReachable([])
  {
  }

  lemma ReachableIsEnabled(ch: Channel)
    ensures Reachable(ch) ==> ch.enabled
  {
  }

  /** An eligible alert is sent exactly when it is outside quiet hours, fewer alerts than the limit were recorded
      in the hour up to now, and some enabled channel can be reached. */
  lemma SentExactly(c: Config, history: seq<Entry>, a: Alert, w: World)
    requires Fits(c, w)
    ensures Sent(EntryOf(c, history, a, w)) <==>
            !IsQuiet(c.quiet, w.clock) && !Limited(c, history, w.now) && AnyReachable(c.channels)
    ensures AnyReachable(c.channels) <==>
            exists i :: 0 <= i < |c.channels| && c.channels[i].enabled
                        && (c.channels[i].kind.Desktop? || (c.channels[i].url.Some? && c.channels[i].url.value != ""))
  {
    ResultsAttempted(c.channels, IsQuiet(c.quiet, w.clock), Limited(c, history, w.now), w.reports);
    assert forall i :: 0 <= i < |c.channels| ==>
             (Reachable(c.channels[i]) <==>
              c.channels[i].enabled
              && (c.channels[i].kind.Desktop? || (c.channels[i].url.Some? && c.channels[i].url.value != "")));
  }

  /** What a history row says of one channel: an enabled one is listed as suppressed in quiet hours, else as limited
      over the limit, else, if it has somewhere to send to, with its transport's report; any other is not listed. */
  predicate Listed(ch: Channel, quiet: bool, limited: bool, report: Report, id: string, status: Status)
  {
    && ch.enabled && ch.id == id
    && status == (if quiet then Suppressed else if limited then RateLimited else Attempted(report))
    && (quiet || limited || ch.kind.Desktop? || (ch.url.Some? && ch.url.value != ""))
  }

  lemma ListedIs(ch: Channel, quiet: bool, limited: bool, report: Report, id: string, status: Status)
    ensures (id, status) in ChannelResult(ch, quiet, limited, report) <==>
            Listed(ch, quiet, limited, report, id, status)
  {
  }

  /** And of all of them, nothing else. */
  lemma {:induction false} ResultsTell(channels: seq<Channel>, quiet: bool, limited: bool, reports: seq<Report>,
                                       id: string, status: Status)
    requires |reports| == |channels|
    ensures (id, status) in Results(channels, quiet, limited, reports) <==>
            exists i :: 0 <= i < |channels| && Listed(channels[i], quiet, limited, reports[i], id, status)
  {
    hide ChannelResult, Listed;
    if channels != [] {
      var n := |channels| - 1;
      ResultsTell(channels[..n], quiet, limited, reports[..n], id, status);
      ListedIs(channels[n], quiet, limited, reports[n], id, status);
    }
  }

  /** The last-attempt column tells, for each channel, the report of its last attempt among the results, and is
      untouched without one. */
  lemma {:induction false} LastStatusTells(was: map<string, Report>, results: seq<(string, Status)>, id: string, k: nat)
    requires k <= |results| && (k < |results| ==> results[k].0 == id && results[k].1.Attempted?)
    requires forall i :: k < i < |results| ==> results[i].0 != id || !results[i].1.Attempted?
    requires k == |results| ==> forall i :: 0 <= i < |results| ==> results[i].0 != id || !results[i].1.Attempted?
    ensures var now := LastStatus(was, results);
            if k < |results| then id in now && now[id] == results[k].1.report
            else (id in now <==> id in was) && (id in was ==> now[id] == was[id])
  {
    if results != [] {
      var n := |results| - 1;
      if k != n { LastStatusTells(was, results[..n], id, if k < n then k else n); }
    }
  }

  /** One dispatch of a run, under the configuration of its time. */
  datatype Call = Call(c: Config, a: Alert, w: World)

  predicate FitsAll(calls: seq<Call>) { forall i :: 0 <= i < |calls| ==> Fits(calls[i].c, calls[i].w) }

  function Run(calls: seq<Call>): seq<Entry>
    requires FitsAll(calls)
  {
    if calls == [] then []
    else
      var call := calls[|calls| - 1];
      HistoryAfter(call.c, Run(calls[..|calls| - 1]), call.a, call.w)
  }

  /** The calls that left a row. */
  function RecordedCalls(calls: seq<Call>): seq<Call>
  {
    if calls == [] then []
    else
      var call := calls[|calls| - 1];
      RecordedCalls(calls[..|calls| - 1]) + if OutcomeOf(call.c, call.a, call.w).Recorded? then [call] else []
  }

  /** Sent entries of the closed window from `a` to `b`. */
  function SentBetween(history: seq<Entry>, a: int, b: int): nat
  {
    if history == [] then 0
    else
      var e := history[|history| - 1];
      SentBetween(history[..|history| - 1], a, b) + if a <= e.ts <= b && Sent(e) then 1 else 0
  }

  lemma {:induction false} SentAreCounted(history: seq<Entry>, a: int, b: int, since: int)
    requires since <= a
    ensures SentBetween(history, a, b) <= CountSince(history, since)
  {
    hide Sent;
    if history != [] { SentAreCounted(history[..|history| - 1], a, b, since); }
  }

  /** A window of an hour, anywhere, holds at most `limit` sent alerts; quiet hours, channels and the rest of the
      configuration may change from call to call, and the clock may even step back. */
  lemma {:induction false} HourlyLimit(calls: seq<Call>, limit: int, from: int)
    requires FitsAll(calls) && limit > 0 && forall i :: 0 <= i < |calls| ==> calls[i].c.rateLimit == limit
    ensures SentBetween(Run(calls), from, from + HOUR) <= limit
  {
    hide Sent, EntryOf, CountSince, IsQuiet, OutcomeOf;
    if calls != [] {
      var call := calls[|calls| - 1];
      var before := Run(calls[..|calls| - 1]);
      HourlyLimit(calls[..|calls| - 1], limit, from);
      if OutcomeOf(call.c, call.a, call.w).Recorded? {
        var e := EntryOf(call.c, before, call.a, call.w);
        EntryTime(call.c, before, call.a, call.w);
        SentExactly(call.c, before, call.a, call.w);
        assert (before + [e])[..|before|] == before;
        if from <= e.ts <= from + HOUR { SentAreCounted(before, from, from + HOUR, e.ts - HOUR); }
      }
    }
  }

  lemma EntryTime(c: Config, history: seq<Entry>, a: Alert, w: World)
    requires Fits(c, w)
    ensures EntryOf(c, history, a, w).ts == w.now && EntryOf(c, history, a, w).alert == a
  {
  }

  /** History holds one row for every recorded call, in order, and none of those made in quiet hours was sent. */
  lemma {:induction false} QuietIsKept(calls: seq<Call>)
    requires FitsAll(calls)
    ensures var history, made := Run(calls), RecordedCalls(calls);
            |history| == |made| && forall i :: 0 <= i < |made| ==>
              history[i].ts == made[i].w.now && history[i].alert == made[i].a
              && (IsQuiet(made[i].c.quiet, made[i].w.clock) ==> !Sent(history[i]))
  {
    hide Sent, EntryOf, IsQuiet;
    if calls != [] {
      var call := calls[|calls| - 1];
      QuietIsKept(calls[..|calls| - 1]);
      EntryTime(call.c, Run(calls[..|calls| - 1]), call.a, call.w);
      SentExactly(call.c, Run(calls[..|calls| - 1]), call.a, call.w);
    }
  }

  // ------------------------------------------------------------------ a limiter that feeds itself

  /** The history after `n` equal alerts, one every `gap` milliseconds. */
  function Steady(c: Config, a: Alert, w: World, gap: nat, n: nat): seq<Entry>
    requires Fits(c, w)
  {
    if n == 0 then [] else HistoryAfter(c, Steady(c, a, w, gap, n - 1), a, w.(now := (n - 1) * gap))
  }

  lemma {:induction false} CountIsBounded(history: seq<Entry>, since: int, k: nat)
    requires k <= |history| && forall i :: |history| - k <= i < |history| ==> history[i].ts >= since
    ensures k <= CountSince(history, since) <= |history|
  {
    if history != [] {
      var init := history[..|history| - 1];
      CountIsBounded(init, since, if k == 0 then 0 else k - 1);
    }
  }

  lemma Multiples(i: nat, n: nat, limit: nat, gap: nat)
    requires limit * gap <= HOUR && n - limit <= i
    ensures i * gap >= n * gap - HOUR
  {
    assert (i - (n - limit)) * gap >= 0;
    assert i * gap - n * gap + limit * gap == (i - (n - limit)) * gap;
  }

  /** The limit counts every recorded alert, sent or not. So when `limit` alerts or more are raised an hour, the
      first `limit` are sent and then none is, ever: the refused alerts keep the hour full. */
  lemma {:induction false} SteadyAlertsStarve(c: Config, a: Alert, w: World, gap: nat, n: nat)
    requires Fits(c, w) && OutcomeOf(c, a, w).Recorded? && !IsQuiet(c.quiet, w.clock) && AnyReachable(c.channels)
    requires c.rateLimit > 0 && c.rateLimit * gap <= HOUR
    ensures |Steady(c, a, w, gap, n)| == n
    ensures forall i :: 0 <= i < n ==>
              Steady(c, a, w, gap, n)[i].ts == i * gap && (Sent(Steady(c, a, w, gap, n)[i]) <==> i < c.rateLimit)
  {
    hide Sent, IsQuiet, EntryOf, AnyReachable, CountSince, Eligible;
    if n > 0 {
      SteadyAlertsStarve(c, a, w, gap, n - 1);
      var before, at := Steady(c, a, w, gap, n - 1), w.(now := (n - 1) * gap);
      SentExactly(c, before, a, at);
      EntryTime(c, before, a, at);
      var k := if n - 1 < c.rateLimit then n - 1 else c.rateLimit;
      forall i | n - 1 - k <= i < n - 1
        ensures before[i].ts >= at.now - HOUR
      {
        if n - 1 < c.rateLimit {
          SmallMultiple(n - 1, c.rateLimit, gap);
        } else {
          Multiples(i, n - 1, c.rateLimit, gap);
        }
      }
      CountIsBounded(before, at.now - HOUR, k);
    }
  }

  lemma SmallMultiple(n: nat, limit: nat, gap: nat)
    requires n <= limit && limit * gap <= HOUR
    ensures n * gap <= HOUR
  {
    assert (limit - n) * gap >= 0;
    assert limit * gap == n * gap + (limit - n) * gap;
  }

  lemma {:induction false} CountAtMost(history: seq<Entry>, since: int, k: nat)
    requires forall i :: 0 <= i < |history| - k ==> history[i].ts < since
    ensures CountSince(history, since) <= k
  {
    if history != [] {
      var n := |history| - 1;
      if k == 0 {
        assert history[n].ts < since;
        CountAtMost(history[..n], since, 0);
      } else {
        CountAtMost(history[..n], since, k - 1);
      }
    }
  }

  lemma OldMultiples(i: nat, n: nat, limit: nat, gap: nat)
    requires limit * gap > HOUR && limit <= n - i
    ensures i * gap < n * gap - HOUR
  {
    assert (n - i - limit) * gap >= 0;
    assert n * gap - i * gap == limit * gap + (n - i - limit) * gap;
  }

  /** Slower than that, every one of the same alerts is sent. */
  lemma {:induction false} SlowAlertsAreSent(c: Config, a: Alert, w: World, gap: nat, n: nat)
    requires Fits(c, w) && OutcomeOf(c, a, w).Recorded? && !IsQuiet(c.quiet, w.clock) && AnyReachable(c.channels)
    requires c.rateLimit > 0 && c.rateLimit * gap > HOUR
    ensures |Steady(c, a, w, gap, n)| == n
    ensures forall i :: 0 <= i < n ==> Steady(c, a, w, gap, n)[i].ts == i * gap && Sent(Steady(c, a, w, gap, n)[i])
  {
    hide Sent, IsQuiet, EntryOf, AnyReachable, CountSince, Eligible;
    if n > 0 {
      SlowAlertsAreSent(c, a, w, gap, n - 1);
      var before, at := Steady(c, a, w, gap, n - 1), w.(now := (n - 1) * gap);
      SentExactly(c, before, a, at);
      EntryTime(c, before, a, at);
      forall i | 0 <= i < n - 1 - (c.rateLimit - 1)
        ensures before[i].ts < at.now - HOUR
      {
        OldMultiples(i, n - 1, c.rateLimit, gap);
      }
      CountAtMost(before, at.now - HOUR, c.rateLimit - 1);
    }
  }

  ghost predicate AllSent(c: Config, a: Alert, w: World, gap: nat)
    requires Fits(c, w)
  {
    forall n: nat :: AllSentIn(Steady(c, a, w, gap, n))
  }

  predicate AllSentIn(history: seq<Entry>) { forall i :: 0 <= i < |history| ==> Sent(history[i]) }

  /** A steady stream of one alert is never limited exactly when fewer than the limit fall into any hour, counted with
      both its ends. */
  lemma NeverLimitedExactly(c: Config, a: Alert, w: World, gap: nat)
    requires Fits(c, w) && OutcomeOf(c, a, w).Recorded? && !IsQuiet(c.quiet, w.clock) && AnyReachable(c.channels)
    requires c.rateLimit > 0
    ensures AllSent(c, a, w, gap) <==> c.rateLimit * gap > HOUR
  {
    hide Sent, IsQuiet, AnyReachable, Steady, Eligible;
    if c.rateLimit * gap > HOUR {
      forall n: nat
        ensures AllSentIn(Steady(c, a, w, gap, n))
      {
        SlowAlertsAreSent(c, a, w, gap, n);
      }
    } else {
      var n := c.rateLimit + 1;
      SteadyAlertsStarve(c, a, w, gap, n);
      assert !Sent(Steady(c, a, w, gap, n)[c.rateLimit]);
      assert !AllSentIn(Steady(c, a, w, gap, n));
    }
  }

  // ------------------------------------------------------------------ sends that leave no row

  /** A dispatch that uses a transport, whether or not its row is then written. */
  predicate Sends(call: Call, history: seq<Entry>)
    requires Fits(call.c, call.w)
  {
    Eligible(call.c, call.a.severity) && Sent(EntryOf(call.c, history, call.a, call.w))
  }

  /** Dispatches of the closed window from `a` to `b` that used a transport. */
  function SendsBetween(calls: seq<Call>, a: int, b: int): nat
    requires FitsAll(calls)
  {
    if calls == [] then 0
    else
      var init, call := calls[..|calls| - 1], calls[|calls| - 1];
      SendsBetween(init, a, b) + if a <= call.w.now <= b && Sends(call, Run(init)) then 1 else 0
  }

  /** Those of the window whose history insert raised. */
  function RaisedBetween(calls: seq<Call>, a: int, b: int): nat
  {
    if calls == [] then 0
    else
      var call := calls[|calls| - 1];
      RaisedBetween(calls[..|calls| - 1], a, b)
      + if a <= call.w.now <= b && OutcomeOf(call.c, call.a, call.w).Raised? then 1 else 0
  }

  lemma {:induction false} SendsAreRowsOrRaised(calls: seq<Call>, a: int, b: int)
    requires FitsAll(calls)
    ensures SendsBetween(calls, a, b) <= SentBetween(Run(calls), a, b) + RaisedBetween(calls, a, b)
  {
    hide Sent, EntryOf, Eligible, Rank;
    if calls != [] {
      var init, call := calls[..|calls| - 1], calls[|calls| - 1];
      SendsAreRowsOrRaised(init, a, b);
      EntryTime(call.c, Run(init), call.a, call.w);
      var e := EntryOf(call.c, Run(init), call.a, call.w);
      assert (Run(init) + [e])[..|Run(init)|] == Run(init);
    }
  }

  /** Every use of a transport counted, a window of an hour holds at most the limit and one more for each history
      insert of the window that raised; none raised, the limit holds of the sends themselves. */
  lemma HourlySends(calls: seq<Call>, limit: int, from: int)
    requires FitsAll(calls) && limit > 0 && forall i :: 0 <= i < |calls| ==> calls[i].c.rateLimit == limit
    ensures SendsBetween(calls, from, from + HOUR) <= limit + RaisedBetween(calls, from, from + HOUR)
  {
    HourlyLimit(calls, limit, from);
    SendsAreRowsOrRaised(calls, from, from + HOUR);
  }

  /** `n` equal dispatches at one time. */
  function Repeated(call: Call, n: nat): seq<Call> { seq(n, _ => call) }

  /** And no fewer: while the history cannot be written, every dispatch of a reachable alert is sent, however many
      there are. */
  lemma {:induction false} UnrecordedSendsEscape(call: Call, n: nat)
    requires Fits(call.c, call.w) && Eligible(call.c, call.a.severity) && call.w.storeFails
    requires !IsQuiet(call.c.quiet, call.w.clock) && AnyReachable(call.c.channels)
    ensures Run(Repeated(call, n)) == []
    ensures SendsBetween(Repeated(call, n), call.w.now, call.w.now + HOUR) == n
    ensures RaisedBetween(Repeated(call, n), call.w.now, call.w.now + HOUR) == n
  {
    hide Sent, EntryOf, Eligible, IsQuiet, AnyReachable;
    if n > 0 {
      UnrecordedSendsEscape(call, n - 1);
      assert Repeated(call, n)[..n - 1] == Repeated(call, n - 1);
      SentExactly(call.c, [], call.a, call.w);
    }
  }

  // ------------------------------------------------------------------ quiet hours as minutes of the day

  function Digit(n: nat): char
    requires n < 10
  {
    '0' + n as char
  }

  function Digits(a: nat, b: nat, c: nat, d: nat): string
    requires a < 10 && b < 10 && c < 10 && d < 10
  {
    [Digit(a), Digit(b), ':', Digit(c), Digit(d)]
  }

  /** "HH:MM". */
  function Clock(m: nat): string
    requires m < 1440
  {
    Digits(m / 60 / 10, m / 60 % 10, m % 60 / 10, m % 60 % 10)
  }

  lemma LessHead(a: char, s: string, b: char, t: string)
    ensures Less([a] + s, [b] + t) <==> a < b || (a == b && Less(s, t))
  {
    assert ([a] + s)[1..] == s && ([b] + t)[1..] == t;
  }

  lemma {:induction false} LessLast(s: string, a: char, t: string, b: char)
    requires |s| == |t|
    ensures Less(s + [a], t + [b]) <==> Less(s, t) || (s == t && a < b)
  {
    if s == [] {
      assert s + [a] == [a] + [] && t + [b] == [b] + [];
      LessHead(a, [], b, []);
    } else {
      assert s + [a] == [s[0]] + (s[1..] + [a]) && t + [b] == [t[0]] + (t[1..] + [b]);
      assert s == [s[0]] + s[1..] && t == [t[0]] + t[1..];
      LessHead(s[0], s[1..] + [a], t[0], t[1..] + [b]);
      LessHead(s[0], s[1..], t[0], t[1..]);
      LessLast(s[1..], a, t[1..], b);
    }
  }

  /** The first `k` characters compare as the times `x` and `y`. */
  predicate OrderedAt(a: string, b: string, k: nat, x: nat, y: nat)
    requires k <= |a| && k <= |b|
  {
    (Less(a[..k], b[..k]) <==> x < y) && (a[..k] == b[..k] <==> x == y)
  }

  lemma OrderStep(a: string, b: string, k: nat, x: nat, y: nat, x': nat, y': nat)
    requires k < |a| && k < |b| && OrderedAt(a, b, k, x, y)
    requires (x' < y' <==> x < y || (x == y && a[k] < b[k])) && (x' == y' <==> x == y && a[k] == b[k])
    ensures OrderedAt(a, b, k + 1, x', y')
  {
    hide Less;
    assert a[..k + 1] == a[..k] + [a[k]] && b[..k + 1] == b[..k] + [b[k]];
    LessLast(a[..k], a[k], b[..k], b[k]);
    assert a[..k + 1] == b[..k + 1] ==> a[..k] == a[..k + 1][..k] == b[..k];
  }

  lemma EmptyOrder(a: string, b: string)
    ensures OrderedAt(a, b, 0, 0, 0)
  {
  }

  lemma DigitOrder(x: nat, y: nat)
    requires x < 10 && y < 10
    ensures (Digit(x) < Digit(y) <==> x < y) && (Digit(x) == Digit(y) <==> x == y)
  {
  }

  lemma DigitsOrder(a: nat, b: nat, c: nat, d: nat, a': nat, b': nat, c': nat, d': nat)
    requires a < 10 && b < 10 && c < 6 && d < 10 && a' < 10 && b' < 10 && c' < 6 && d' < 10
    ensures Less(Digits(a, b, c, d), Digits(a', b', c', d')) <==>
            600 * a + 60 * b + 10 * c + d < 600 * a' + 60 * b' + 10 * c' + d'
  {
    hide Less, OrderedAt, Digit;
    var s, t := Digits(a, b, c, d), Digits(a', b', c', d');
    DigitOrder(a, a');
    DigitOrder(b, b');
    DigitOrder(c, c');
    DigitOrder(d, d');
    EmptyOrder(s, t);
    OrderStep(s, t, 0, 0, 0, a, a');
    OrderStep(s, t, 1, a, a', 10 * a + b, 10 * a' + b');
    OrderStep(s, t, 2, 10 * a + b, 10 * a' + b', 10 * a + b, 10 * a' + b');
    OrderStep(s, t, 3, 10 * a + b, 10 * a' + b', 60 * a + 6 * b + c, 60 * a' + 6 * b' + c');
    OrderStep(s, t, 4, 60 * a + 6 * b + c, 60 * a' + 6 * b' + c',
              600 * a + 60 * b + 10 * c + d, 600 * a' + 60 * b' + 10 * c' + d');
    WholeOrder(s, t, 600 * a + 60 * b + 10 * c + d, 600 * a' + 60 * b' + 10 * c' + d');
  }

  lemma TwoDigits(m: nat)
    requires m < 100
    ensures m / 10 < 10 && 10 * (m / 10) + m % 10 == m
  {
  }

  /** Text order is time order. */
  lemma ClockOrder(m: nat, n: nat)
    requires m < 1440 && n < 1440
    ensures Less(Clock(m), Clock(n)) <==> m < n
  {
    hide Less, Digits;
    var h, k, h', k' := m / 60, m % 60, n / 60, n % 60;
    TwoDigits(h);
    TwoDigits(k);
    TwoDigits(h');
    TwoDigits(k');
    DigitsOrder(h / 10, h % 10, k / 10, k % 10, h' / 10, h' % 10, k' / 10, k' % 10);
  }

  lemma WholeOrder(a: string, b: string, x: nat, y: nat)
    requires |a| == |b| && OrderedAt(a, b, |a|, x, y)
    ensures Less(a, b) <==> x < y
  {
    assert a[..|a|] == a && b[..|b|] == b;
  }

  /** Quiet hours are the part of the day from their start to their end going forward, past midnight if need be;
      equal ends leave no quiet time. */
  lemma QuietIsCircular(start: nat, end: nat, now: nat)
    requires start < 1440 && end < 1440 && now < 1440
    ensures IsQuiet(Some(QuietHours(Clock(start), Clock(end))), Clock(now)) <==>
            (now - start) % 1440 < (end - start) % 1440
  {
    hide Less, Clock;
    ClockOrder(end, start);
    ClockOrder(now, start);
    ClockOrder(now, end);
  }
}
