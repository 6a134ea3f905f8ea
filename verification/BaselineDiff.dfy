/** What changed between two baselines. */
module BaselineDiff {
  import opened Wrappers

  /** What a baseline holds. */
  datatype Snapshot = Snapshot(
    checks: map<string, string>, peers: set<string>, listeners: set<(int, string)>,
    posture: int, threats: Option<int>, overall: int)

  datatype Change = Change(was: string, now: string)

  datatype Diff = Diff(
    fixed: map<string, Change>, regressed: map<string, Change>, inconclusive: map<string, Change>, steady: nat,
    added: map<string, string>, removed: map<string, string>,
    newPeers: set<string>, newListeners: set<(int, string)>, removedListeners: set<(int, string)>,
    posture: int, threats: int, overall: int)

  datatype Kind = Unchanged | Fixed | Regressed | Inconclusive

  function Badness(status: string): Option<nat>
  {
    if status == "pass" then Some(0)
    else if status == "warn" then Some(1)
    else if status == "fail" then Some(2)
    else None
  }

  function KindOf(was: string, now: string): Kind
  {
    if was == now then Unchanged
    else if Badness(was).None? || Badness(now).None? then Inconclusive
    else if Badness(now).value < Badness(was).value then Fixed
    else Regressed
  }

  function Changes(a: map<string, string>, b: map<string, string>, kind: Kind): map<string, Change>
  {
    map id | id in a && id in b && KindOf(a[id], b[id]) == kind :: Change(a[id], b[id])
  }

  function Only(a: map<string, string>, b: map<string, string>): map<string, string>
  {
    map id | id in a && id !in b :: a[id]
  }

  function DiffOf(a: Snapshot, b: Snapshot): Diff
  {
    Diff(Changes(a.checks, b.checks, Fixed), Changes(a.checks, b.checks, Regressed),
         Changes(a.checks, b.checks, Inconclusive), |Changes(a.checks, b.checks, Unchanged)|,
         Only(b.checks, a.checks), Only(a.checks, b.checks),
         b.peers - a.peers, b.listeners - a.listeners, a.listeners - b.listeners,
         b.posture - a.posture,
         if a.threats.Some? && b.threats.Some? then b.threats.value - a.threats.value else 0,
         b.overall - a.overall)
  }

  function Restrict(m: map<string, string>, ids: set<string>): map<string, string>
  {
    map id | id in m && id in ids :: m[id]
  }

  /** Common checks sorted by what became of them. */
  datatype Tally = Tally(
    fixed: map<string, Change>, regressed: map<string, Change>, inconclusive: map<string, Change>, steady: nat)

  function TallyOf(a: map<string, string>, b: map<string, string>): Tally
  {
    Tally(Changes(a, b, Fixed), Changes(a, b, Regressed), Changes(a, b, Inconclusive), |Changes(a, b, Unchanged)|)
  }

  /** The loop of `diff_baselines`, which takes the common ids in some order. */
  method SortChecks(a: map<string, string>, b: map<string, string>) returns (t: Tally)
    ensures t == TallyOf(a, b)
  {
    hide KindOf, Badness, TallyOf, Restrict;
    var common := a.Keys * b.Keys;
    t := Tally(map[], map[], map[], 0);
    var left := common;
    NoneYet(a, b);
    assert common - left == {};
    while left != {}
      invariant left <= common
      invariant t == TallyOf(Restrict(a, common - left), b)
      decreases left
    {
      var id :| id in left;
      OneMore(a, b, common - left, id);
      assert common - (left - {id}) == (common - left) + {id};
      left := left - {id};
      KindIs(a[id], b[id]);
      if a[id] == b[id] {
        t := t.(steady := t.steady + 1);
      } else if Badness(a[id]).None? || Badness(b[id]).None? {
        t := t.(inconclusive := t.inconclusive[id := Change(a[id], b[id])]);
      } else if Badness(b[id]).value < Badness(a[id]).value {
        t := t.(fixed := t.fixed[id := Change(a[id], b[id])]);
      } else {
        t := t.(regressed := t.regressed[id := Change(a[id], b[id])]);
      }
    }
    assert common - left == common;
    CommonIsEnough(a, b);
  }

  /** `diff_baselines` on the two records found. */
  method DiffBaselines(a: Snapshot, b: Snapshot) returns (d: Diff)
    ensures d == DiffOf(a, b)
  {
    hide Changes, Only;
    var t := SortChecks(a.checks, b.checks);
    d := Diff(t.fixed, t.regressed, t.inconclusive, t.steady, Only(b.checks, a.checks), Only(a.checks, b.checks),
              b.peers - a.peers, b.listeners - a.listeners, a.listeners - b.listeners, b.posture - a.posture,
              if a.threats.Some? && b.threats.Some? then b.threats.value - a.threats.value else 0,
              b.overall - a.overall);
  }

  lemma KindIs(was: string, now: string)
    ensures KindOf(was, now) == if was == now then Unchanged
                                else if Badness(was).None? || Badness(now).None? then Inconclusive
                                else if Badness(now).value < Badness(was).value then Fixed else Regressed
  {
  }

  lemma NoneYet(a: map<string, string>, b: map<string, string>)
    ensures TallyOf(Restrict(a, {}), b) == Tally(map[], map[], map[], 0)
  {
  }

  lemma OneChange(a: map<string, string>, b: map<string, string>, done: set<string>, id: string, kind: Kind)
    requires id in a && id in b && id !in done
    ensures Changes(Restrict(a, done + {id}), b, kind) ==
            if KindOf(a[id], b[id]) == kind then Changes(Restrict(a, done), b, kind)[id := Change(a[id], b[id])]
            else Changes(Restrict(a, done), b, kind)
    ensures id !in Changes(Restrict(a, done), b, kind)
  {
    hide KindOf;
  }

  lemma OneMore(a: map<string, string>, b: map<string, string>, done: set<string>, id: string)
    requires id in a && id in b && id !in done
    ensures var t, c := TallyOf(Restrict(a, done), b), Change(a[id], b[id]);
            TallyOf(Restrict(a, done + {id}), b) ==
            match KindOf(a[id], b[id])
            case Unchanged => t.(steady := t.steady + 1)
            case Fixed => t.(fixed := t.fixed[id := c])
            case Regressed => t.(regressed := t.regressed[id := c])
            case Inconclusive => t.(inconclusive := t.inconclusive[id := c])
  {
    hide KindOf, Changes, Restrict;
    OneChange(a, b, done, id, Unchanged);
    OneChange(a, b, done, id, Fixed);
    OneChange(a, b, done, id, Regressed);
    OneChange(a, b, done, id, Inconclusive);
  }

  lemma CommonIsEnough(a: map<string, string>, b: map<string, string>)
    ensures TallyOf(Restrict(a, a.Keys * b.Keys), b) == TallyOf(a, b)
  {
    hide KindOf;
    assert forall kind :: Changes(Restrict(a, a.Keys * b.Keys), b, kind) == Changes(a, b, kind);
  }

  // ------------------------------------------------------------------ properties

  function Flipped(changes: map<string, Change>): map<string, Change>
  {
    map id | id in changes :: Change(changes[id].now, changes[id].was)
  }

  lemma KindFlips(was: string, now: string)
    ensures KindOf(now, was) == match KindOf(was, now)
                                case Fixed => Regressed
                                case Regressed => Fixed
                                case other => other
  {
  }

  lemma ChangesFlip(a: map<string, string>, b: map<string, string>)
    ensures Changes(b, a, Fixed) == Flipped(Changes(a, b, Regressed))
    ensures Changes(b, a, Regressed) == Flipped(Changes(a, b, Fixed))
    ensures Changes(b, a, Inconclusive) == Flipped(Changes(a, b, Inconclusive))
  {
    hide KindOf;
    forall id | id in a && id in b
      ensures KindOf(b[id], a[id]) ==
              match KindOf(a[id], b[id]) case Fixed => Regressed case Regressed => Fixed case other => other
    {
      KindFlips(a[id], b[id]);
    }
  }

  /** Read backwards, what was fixed has regressed, what was added is removed, and the scores change sign. */
  lemma DiffReverses(a: Snapshot, b: Snapshot)
    ensures var d, r := DiffOf(a, b), DiffOf(b, a);
            && r.fixed == Flipped(d.regressed) && r.regressed == Flipped(d.fixed)
            && r.inconclusive == Flipped(d.inconclusive) && r.steady == d.steady
            && r.added == d.removed && r.removed == d.added
            && r.newListeners == d.removedListeners && r.removedListeners == d.newListeners
            && r.posture == -d.posture && r.threats == -d.threats && r.overall == -d.overall
  {
    hide Changes, Flipped, Only;
    ChangesFlip(a.checks, b.checks);
    SameIsSame(a.checks, b.checks);
  }

  lemma SameIsSame(a: map<string, string>, b: map<string, string>)
    ensures Changes(a, b, Unchanged) == Changes(b, a, Unchanged)
  {
    hide Badness;
    forall id | id in a && id in b
      ensures KindOf(a[id], b[id]) == Unchanged <==> a[id] == b[id]
      ensures KindOf(b[id], a[id]) == Unchanged <==> a[id] == b[id]
    {
    }
  }

  /** Earlier checks with a diff played over them. */
  function Rebuilt(a: map<string, string>, d: Diff): map<string, string>
  {
    map id | id in (a.Keys - d.removed.Keys) + d.added.Keys ::
      if id in d.added then d.added[id] else if id in d.fixed then d.fixed[id].now
      else if id in d.regressed then d.regressed[id].now
      else if id in d.inconclusive then d.inconclusive[id].now
      else if id in a then a[id] else ""
  }

  lemma ReportedAs(a: map<string, string>, b: map<string, string>, id: string)
    requires id in a && id in b
    ensures forall kind :: id in Changes(a, b, kind) <==> KindOf(a[id], b[id]) == kind
    ensures forall kind :: id in Changes(a, b, kind) ==> Changes(a, b, kind)[id].now == b[id]
    ensures KindOf(a[id], b[id]) == Unchanged ==> a[id] == b[id]
  {
    hide Badness;
  }

  lemma ReportedNowhere(a: map<string, string>, b: map<string, string>, id: string)
    requires id !in a
    ensures forall kind :: id !in Changes(a, b, kind)
  {
  }

  lemma ChecksRebuilt(a: Snapshot, b: Snapshot)
    ensures b.checks == Rebuilt(a.checks, DiffOf(a, b))
  {
    hide Changes, KindOf;
    var d := DiffOf(a, b);
    assert (a.checks.Keys - d.removed.Keys) + d.added.Keys == b.checks.Keys;
    forall id | id in b.checks
      ensures Rebuilt(a.checks, d)[id] == b.checks[id]
    {
      if id in a.checks { ReportedAs(a.checks, b.checks, id); } else { ReportedNowhere(a.checks, b.checks, id); }
    }
  }

  /** The later checks, listeners and scores can be rebuilt from the earlier ones and the diff: nothing is unreported,
      and exactly the peers not known before are new. */
  lemma DiffIsComplete(a: Snapshot, b: Snapshot)
    ensures b.checks == Rebuilt(a.checks, DiffOf(a, b))
    ensures b.listeners == a.listeners - DiffOf(a, b).removedListeners + DiffOf(a, b).newListeners
    ensures DiffOf(a, b).newPeers !! a.peers && DiffOf(a, b).newPeers <= b.peers <= a.peers + DiffOf(a, b).newPeers
    ensures b.posture == a.posture + DiffOf(a, b).posture && b.overall == a.overall + DiffOf(a, b).overall
    ensures if a.threats.Some? && b.threats.Some? then b.threats.value == a.threats.value + DiffOf(a, b).threats
            else DiffOf(a, b).threats == 0
  {
    hide Rebuilt, Changes, Only;
    ChecksRebuilt(a, b);
  }

  /** What is reported, by the two statuses of a common check: better is fixed, worse is regressed, and a change from or
      to any other status is inconclusive. */
  lemma ReportedByStatus(a: Snapshot, b: Snapshot, id: string)
    requires id in a.checks && id in b.checks
    ensures var d, was, now := DiffOf(a, b), a.checks[id], b.checks[id];
            && (id in d.fixed <==> (was, now) in {("fail", "warn"), ("fail", "pass"), ("warn", "pass")})
            && (id in d.regressed <==> (was, now) in {("pass", "warn"), ("pass", "fail"), ("warn", "fail")})
            && (id in d.inconclusive <==>
                  was != now && !(was in {"pass", "warn", "fail"} && now in {"pass", "warn", "fail"}))
  {
    hide KindOf;
    KindByStatus(a.checks[id], b.checks[id]);
  }

  lemma KindByStatus(was: string, now: string)
    ensures KindOf(was, now) == Fixed <==> (was, now) in {("fail", "warn"), ("fail", "pass"), ("warn", "pass")}
    ensures KindOf(was, now) == Regressed <==> (was, now) in {("pass", "warn"), ("pass", "fail"), ("warn", "fail")}
    ensures KindOf(was, now) == Inconclusive <==>
              was != now && !(was in {"pass", "warn", "fail"} && now in {"pass", "warn", "fail"})
  {
  }

  lemma FourParts(all: set<string>, s: set<string>, t: set<string>, u: set<string>, v: set<string>)
    requires s !! t !! u !! v && all == s + t + u + v
    ensures |all| == |s| + |t| + |u| + |v|
  {
    assert |s + t| == |s| + |t|;
    assert |s + t + u| == |s + t| + |u|;
  }

  lemma KeysOfChanges(a: map<string, string>, b: map<string, string>)
    ensures var f, r := Changes(a, b, Fixed).Keys, Changes(a, b, Regressed).Keys;
            var i, s := Changes(a, b, Inconclusive).Keys,
                              Changes(a, b, Unchanged).Keys;
            f !! r !! i !! s && a.Keys * b.Keys == f + r + i + s
  {
    hide KindOf;
  }

  /** Every check the two have in common is reported in exactly one way. */
  lemma ChecksArePartitioned(a: Snapshot, b: Snapshot)
    ensures var d := DiffOf(a, b);
            && d.fixed.Keys !! d.regressed.Keys !! d.inconclusive.Keys
            && |d.fixed| + |d.regressed| + |d.inconclusive| + d.steady == |a.checks.Keys * b.checks.Keys|
  {
    hide Changes;
    var d, same := DiffOf(a, b), Changes(a.checks, b.checks, Unchanged);
    KeysOfChanges(a.checks, b.checks);
    FourParts(a.checks.Keys * b.checks.Keys, d.fixed.Keys, d.regressed.Keys, d.inconclusive.Keys, same.Keys);
    assert |same| == |same.Keys| && |d.fixed| == |d.fixed.Keys|;
  }

  /** What the monitor alerts on. */
  predicate Material(d: Diff) { d.regressed != map[] || d.overall < 0 || d.newListeners != {} }

  predicate Worse(was: string, now: string)
  {
    (was == "pass" && (now == "warn" || now == "fail")) || (was == "warn" && now == "fail")
  }

  ghost predicate SomeWorse(a: map<string, string>, b: map<string, string>)
  {
    exists id :: id in a && id in b && Worse(a[id], b[id])
  }

  lemma WorseIsRegressed(was: string, now: string)
    ensures KindOf(was, now) == Regressed <==> Worse(was, now)
  {
  }

  lemma RegressedExactly(a: map<string, string>, b: map<string, string>)
    ensures Changes(a, b, Regressed) != map[] <==> SomeWorse(a, b)
  {
    hide KindOf, Worse;
    forall id | id in a && id in b
      ensures id in Changes(a, b, Regressed) <==> Worse(a[id], b[id])
    {
      WorseIsRegressed(a[id], b[id]);
    }
    if Changes(a, b, Regressed) != map[] {
      var id :| id in Changes(a, b, Regressed);
      assert Worse(a[id], b[id]);
    }
  }

  /** A diff is worth an alert exactly when a check moved to a worse of pass, warn and fail, the overall score fell,
      or a listener is new. */
  lemma MaterialExactly(a: Snapshot, b: Snapshot)
    ensures Material(DiffOf(a, b)) <==>
            SomeWorse(a.checks, b.checks) || b.overall < a.overall || !(b.listeners <= a.listeners)
  {
    hide Changes, SomeWorse, Only;
    RegressedExactly(a.checks, b.checks);
    NewIsBeyond(a.listeners, b.listeners);
  }

  lemma NewIsBeyond(a: set<(int, string)>, b: set<(int, string)>)
    ensures b - a != {} <==> !(b <= a)
  {
    if b <= a { assert b - a == {}; } else { var x :| x in b && x !in a; assert x in b - a; }
  }
}
