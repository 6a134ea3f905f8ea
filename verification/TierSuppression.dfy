/** Timing-based detectors are switched off on the polling tier and on again on a real one, but only when the tier
    changes, so that a user's own switch is respected in between. */
module TierSuppression {
  import opened Wrappers

  const POLLING := "polling"

  /** A pass reads the capture mode, None while it is not settled or cannot be read; on a return to a real tier the
      list of detectors may not be available. */
  datatype Step = Pass(mode: Option<string>, listFails: bool) | Switch(detector: string, on: bool)

  /** The detectors' switches, the last settled mode, and the timing detectors that were suppressed. */
  datatype State = State(on: map<string, bool>, last: Option<string>, suppressed: seq<string>)

  function SetAll(on: map<string, bool>, ids: seq<string>, value: bool): map<string, bool>
  {
    map d | d in on :: if d in ids then value else on[d]
  }

  function Known(on: map<string, bool>, ids: seq<string>): seq<string>
  {
    if ids == [] then []
    else
      var before, d := Known(on, ids[..|ids| - 1]), ids[|ids| - 1];
      if d in on then before + [d] else before
  }

  predicate Transition(s: State, mode: Option<string>) { mode.Some? && mode != s.last }

  function Next(timing: seq<string>, s: State, step: Step): State
  {
    match step
    case Switch(d, v) => if d in s.on then s.(on := s.on[d := v]) else s
    case Pass(mode, listFails) =>
      if !Transition(s, mode) then s
      else if mode == Some(POLLING) then State(SetAll(s.on, timing, false), mode, Known(s.on, timing))
      else State(if listFails then s.on else SetAll(s.on, timing, true), mode, [])
  }

  class ThreatScheduler {
    const timing: seq<string>
    var on: map<string, bool>
    var lastCaptureMode: Option<string>
    var suppressed: seq<string>

    constructor (timing: seq<string>, on: map<string, bool>)
      ensures this.timing == timing && Value() == State(on, None, [])
    {
      this.timing, this.on, lastCaptureMode, suppressed := timing, on, None, [];
    }

    function Value(): State
      reads this
    {
      State(on, lastCaptureMode, suppressed)
    }

    /** `apply_tier_suppression`. */
    method ApplyTierSuppression(mode: Option<string>, listFails: bool)
      modifies this
      ensures Value() == Next(timing, old(Value()), Pass(mode, listFails))
    {
      if mode.None? || mode == lastCaptureMode { return; }
      lastCaptureMode := mode;
      if mode.value != POLLING {
        suppressed := [];
        if !listFails { var _ := SwitchAll(true); }
        return;
      }
      suppressed := SwitchAll(false);
    }

    /** Patches every timing detector the engine knows, and returns those. */
    method SwitchAll(value: bool) returns (known: seq<string>)
      modifies this`on
      ensures on == SetAll(old(on), timing, value) && known == Known(old(on), timing)
    {
      hide SetAll, Known;
      known := [];
      NoneSwitched(on, value);
      for i := 0 to |timing|
        invariant on == SetAll(old(on), timing[..i], value) && known == Known(old(on), timing[..i])
      {
        OneSwitched(old(on), timing, i, value);
        if timing[i] in on {
          on := on[timing[i] := value];
          known := known + [timing[i]];
        }
      }
      assert timing[..|timing|] == timing;
    }
  }

  lemma NoneSwitched(on: map<string, bool>, value: bool)
    ensures SetAll(on, [], value) == on && Known(on, []) == []
  {
  }

  lemma OneSwitched(on: map<string, bool>, ids: seq<string>, i: nat, value: bool)
    requires i < |ids|
    ensures SetAll(on, ids[..i], value).Keys == on.Keys
    ensures SetAll(on, ids[..i + 1], value) ==
            if ids[i] in on then SetAll(on, ids[..i], value)[ids[i] := value] else SetAll(on, ids[..i], value)
    ensures Known(on, ids[..i + 1]) == if ids[i] in on then Known(on, ids[..i]) + [ids[i]] else Known(on, ids[..i])
  {
    assert ids[..i + 1][..i] == ids[..i] && ids[..i + 1] == ids[..i] + [ids[i]];
  }

  /** A user's switch sets the detector it names, if there is one, and nothing else. */
  lemma SwitchTells(timing: seq<string>, s: State, d: string, value: bool)
    ensures var t := Next(timing, s, Switch(d, value));
            && t.on.Keys == s.on.Keys && t.last == s.last && t.suppressed == s.suppressed
            && forall x :: x in s.on ==> t.on[x] == if x == d then value else s.on[x]
  {
  }

  /** A pass touches no other than the timing detectors; on a change to the polling tier the ones it knows are listed as
      suppressed, on a change to any other tier none is. */
  lemma PassTells(timing: seq<string>, s: State, mode: Option<string>, listFails: bool)
    ensures var t := Next(timing, s, Pass(mode, listFails));
            && t.on.Keys == s.on.Keys && (forall d :: d in s.on && d !in timing ==> t.on[d] == s.on[d])
            && t.last == (if mode.Some? then mode else s.last)
            && forall d :: d in t.suppressed <==>
                 if mode.None? || mode == s.last then d in s.suppressed
                 else mode == Some("polling") && d in timing && d in s.on
  {
    forall d
      ensures d in Known(s.on, timing) <==> d in timing && d in s.on
    {
      KnownAre(s.on, timing, d);
    }
  }

  lemma {:induction false} KnownAre(on: map<string, bool>, ids: seq<string>, d: string)
    ensures d in Known(on, ids) <==> d in ids && d in on
  {
    if ids != [] { KnownAre(on, ids[..|ids| - 1], d); }
  }

  function After(timing: seq<string>, s: State, steps: seq<Step>): State
  {
    if steps == [] then s else Next(timing, After(timing, s, steps[..|steps| - 1]), steps[|steps| - 1])
  }

  /** In the rest of a run the mode stays what it is, or is unsettled, and nobody switches `d` by hand. */
  predicate Calm(steps: seq<Step>, mode: string, d: string)
  {
    forall i :: 0 <= i < |steps| ==>
      match steps[i] case Switch(x, _) => x != d case Pass(m, _) => m.None? || m == Some(mode)
  }

  /** From a change of tier on, for as long as the tier stays and no one touches it, a timing detector is off on
      the polling tier and on on any other, provided the detectors could be listed at a return to a real tier. */
  lemma {:induction false} TierDecides(timing: seq<string>, s: State, mode: string, listFails: bool, rest: seq<Step>,
                                       d: string)
    requires d in timing && d in s.on && Transition(s, Some(mode)) && Calm(rest, mode, d)
    ensures var t := After(timing, s, [Pass(Some(mode), listFails)] + rest);
            && t.last == Some(mode) && d in t.on
            && t.on[d] == if mode == POLLING then false else if listFails then s.on[d] else true
  {
    var first := Pass(Some(mode), listFails);
    var steps := [first] + rest;
    if rest == [] {
      assert steps[..0] == [] && steps == [first];
      assert After(timing, s, [first]) == Next(timing, After(timing, s, []), first);
    } else {
      var init := rest[..|rest| - 1];
      assert steps[..|steps| - 1] == [first] + init && steps[|steps| - 1] == rest[|rest| - 1];
      TierDecides(timing, s, mode, listFails, init, d);
    }
  }

  /** Passes that see no change of tier change nothing, so they never undo a user's switch. */
  lemma {:induction false} PassesRespectTheUser(timing: seq<string>, s: State, steps: seq<Step>)
    requires s.last.Some?
    requires forall i :: 0 <= i < |steps| ==> steps[i].Pass? && (steps[i].mode.None? || steps[i].mode == s.last)
    ensures After(timing, s, steps) == s
  {
    if steps != [] { PassesRespectTheUser(timing, s, steps[..|steps| - 1]); }
  }
}
