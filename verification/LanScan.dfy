/** The LAN scan job: one worker connects to each host and port in turn, and may be cancelled at any moment. */
module LanScan {
  import opened Wrappers
  import opened LanScanRules

  datatype Status = Running | Completed | Cancelled | Failed

  datatype Answer = Open | Closed | Raises

  /** A host with its open ports. */
  datatype HostResult = HostResult(host: nat, open: seq<int>)

  /** The connector's answer for each host and port. */
  type Connector = (nat, int) -> Answer

  /** The worker reads the cancel flag at numbered moments, on a schedule that does not depend on what it finds: before
      each host, before each port, in the wait after each attempt, after each host, and once at the end. The flag is
      set from moment `at` on, if at all. */
  datatype Cancel = Never | From(at: nat)

  predicate IsSet(c: Cancel, moment: nat) { c.From? && c.at <= moment }

  /** The moments read before each of a host's `n` ports, when the one before the host was `start`; the waits lie
      between them. */
  function PortMoments(start: nat, n: nat): (r: seq<nat>)
    ensures |r| == n && forall i :: 0 <= i < n ==> r[i] == start + 1 + 2 * i
  {
    seq(n, i requires 0 <= i < n => start + 1 + 2 * i)
  }

  /** Moments gone when `h` hosts are through. */
  function Base(h: nat, n: nat): nat { if h == 0 then 0 else Base(h - 1, n) + 2 * n + 2 }

  /** The moment read just before each attempt of a scan. */
  function Schedule(h: nat, n: nat): seq<nat>
  {
    if h == 0 then [] else Schedule(h - 1, n) + PortMoments(Base(h - 1, n) + 1, n)
  }

  /** The flag was still unset at the first `k` of these moments. */
  predicate Unset(c: Cancel, moments: seq<nat>, k: nat)
  {
    k <= |moments| && forall i :: 0 <= i < k ==> !IsSet(c, moments[i])
  }

  /** A worker that made `k` attempts looked at the flag before each, and stopped short only where it was set, or after
      an error. */
  predicate Obeys(c: Cancel, moments: seq<nat>, k: nat, raised: bool)
  {
    Unset(c, moments, k) && (!raised && k < |moments| ==> IsSet(c, moments[k]))
  }

  // ------------------------------------------------------------------ what a scan should do

  function Row(host: nat, ports: seq<int>): (r: seq<(nat, int)>)
    ensures |r| == |ports| && forall i :: 0 <= i < |r| ==> r[i] == (host, ports[i])
  {
    seq(|ports|, i requires 0 <= i < |ports| => (host, ports[i]))
  }

  /** All attempts of a scan in order: hosts, then the ports of each. */
  function Pairs(hosts: seq<nat>, ports: seq<int>): seq<(nat, int)>
  {
    if hosts == [] then [] else Pairs(hosts[..|hosts| - 1], ports) + Row(hosts[|hosts| - 1], ports)
  }

  /** The ports among these that answer. */
  function OpenAt(connect: Connector, host: nat, ports: seq<int>): seq<int>
  {
    if ports == [] then []
    else
      var before := OpenAt(connect, host, ports[..|ports| - 1]);
      if connect(host, ports[|ports| - 1]).Open? then before + [ports[|ports| - 1]] else before
  }

  /** A host's entry, if any of the ports is open. */
  function Entry(host: nat, open: seq<int>): seq<HostResult> { if open == [] then [] else [HostResult(host, open)] }

  /** The results of hosts scanned whole. */
  function Found(connect: Connector, hosts: seq<nat>, ports: seq<int>): seq<HostResult>
  {
    if hosts == [] then []
    else
      var n := |hosts| - 1;
      Found(connect, hosts[..n], ports) + Entry(hosts[n], OpenAt(connect, hosts[n], ports))
  }

  /** The attempts that were answered. */
  function Answered(connect: Connector, attempts: seq<(nat, int)>): seq<(nat, int)>
  {
    if attempts == [] then []
    else
      var a, before := attempts[|attempts| - 1], Answered(connect, attempts[..|attempts| - 1]);
      if connect(a.0, a.1).Open? then before + [a] else before
  }

  function Flatten(results: seq<HostResult>): seq<(nat, int)>
  {
    if results == [] then []
    else
      var r := results[|results| - 1];
      Flatten(results[..|results| - 1]) + Row(r.host, r.open)
  }

  predicate Raised(connect: Connector, attempts: seq<(nat, int)>, i: nat)
    requires i < |attempts|
  {
    connect(attempts[i].0, attempts[i].1).Raises?
  }

  /** Only the last attempt may have raised, and did so exactly when `raised`. */
  predicate RaisedLast(connect: Connector, attempts: seq<(nat, int)>, raised: bool)
  {
    && (raised ==> attempts != [])
    && forall i :: 0 <= i < |attempts| ==> (Raised(connect, attempts, i) <==> raised && i == |attempts| - 1)
  }

  // ------------------------------------------------------------------ the worker

  class Job {
    const ports: seq<int>
    const total: nat
    var status: Status
    var scanned: nat
    var results: seq<HostResult>

    constructor (ports: seq<int>, hosts: seq<nat>)
      ensures this.ports == ports && total == |hosts| * |ports|
      ensures status == Running && scanned == 0 && results == []
    {
      this.ports, total := ports, |hosts| * |ports|;
      status, scanned, results := Running, 0, [];
    }

    /** One host: the ports attempted before a cancel or an error, and those open. */
    method ScanHost(host: nat, connect: Connector, cancel: Cancel, start: nat)
      returns (tried: seq<int>, open: seq<int>, moment: nat, raised: bool)
      modifies this`scanned
      ensures tried <= ports && start <= moment <= start + 2 * |ports|
      ensures Obeys(cancel, PortMoments(start, |ports|), |tried|, raised)
      ensures !raised && moment < start + 2 * |ports| ==> IsSet(cancel, moment)
      ensures RaisedLast(connect, Row(host, tried), raised)
      ensures scanned == old(scanned) + |tried| - if raised then 1 else 0
      ensures !raised ==> open == OpenAt(connect, host, tried)
      ensures !raised && tried != ports ==> IsSet(cancel, moment)
    {
      hide IsSet, RaisedLast, PortMoments;
      ghost var moments := PortMoments(start, |ports|);
      NothingYet(connect, ports);
      assert Row(host, []) == [];
      open, moment, raised, tried := [], start, false, [];
      for i := 0 to |ports|
        invariant moment == start + 2 * i && !raised && tried == ports[..i] && scanned == old(scanned) + i
        invariant Unset(cancel, moments, i)
        invariant open == OpenAt(connect, host, tried)
        invariant RaisedLast(connect, Row(host, tried), false)
      {
        moment := moment + 1;
        if IsSet(cancel, moment) { return; }
        var answer := connect(host, ports[i]);
        RaisedRow(connect, host, tried, ports[i]);
        assert ports[..i + 1] == tried + [ports[i]] && ports[..i + 1][..i] == tried;
        tried := ports[..i + 1];
        if answer == Raises {
          raised := true;
          return;
        }
        scanned := scanned + 1;
        if answer == Open { open := open + [ports[i]]; }
        moment := moment + 1;
        SetStays(cancel, moment, moment + 1);
        if IsSet(cancel, moment) { return; }
      }
      assert ports[..|ports|] == ports;
    }

    /** `_run`; `attempts` is every connect made, one that raised included. */
    method Run(hosts: seq<nat>, connect: Connector, cancel: Cancel) returns (attempts: seq<(nat, int)>)
      requires status == Running && scanned == 0 && results == [] && total == |hosts| * |ports|
      modifies this
      ensures status != Running
      ensures attempts <= Pairs(hosts, ports)
      ensures RaisedLast(connect, attempts, status == Failed)
      ensures scanned == |attempts| - if status == Failed then 1 else 0
      ensures Obeys(cancel, Schedule(|hosts|, |ports|), |attempts|, status == Failed)
      ensures status != Failed ==> (status == Cancelled <==> IsSet(cancel, Base(|hosts|, |ports|) + 1))
      ensures status == Completed ==> attempts == Pairs(hosts, ports) && scanned == total
      ensures status == Completed ==> results == Found(connect, hosts, ports)
      ensures status != Failed ==> Flatten(results) == Answered(connect, attempts)
      ensures status == Failed ==> WholeHosts(connect, hosts, ports, attempts, results)
    {
      hide Obeys, Unset, Schedule, Base, PortMoments, IsSet, Pairs, Found, OpenAt, Row, Flatten, Answered;
      hide RaisedLast, WholeHosts, Entry;
      attempts := [];
      var moment := 0;
      var h := 0;
      ghost var cut := false;
      NothingYet(connect, ports);
      NoMoments(cancel, |ports|);
      while h < |hosts|
        invariant 0 <= h <= |hosts| && status == Running && !cut
        invariant attempts == Pairs(hosts[..h], ports) && scanned == |attempts| == |Schedule(h, |ports|)|
        invariant moment == Base(h, |ports|) && Unset(cancel, Schedule(h, |ports|), |attempts|)
        invariant results == Found(connect, hosts[..h], ports)
        invariant RaisedLast(connect, attempts, false)
        invariant Flatten(results) == Answered(connect, attempts)
      {
        moment := moment + 1;
        if IsSet(cancel, moment) {
          cut := true;
          PairsPrefix(hosts, ports, h, []);
          CutObeys(h, |hosts|, |ports|, cancel, moment);
          break;
        }
        var tried, open, now, raised := ScanHost(hosts[h], connect, cancel, moment);
        PairsPrefix(hosts, ports, h, tried);
        RaisedAppend(connect, attempts, Row(hosts[h], tried), raised);
        if raised {
          StoppedShort(connect, hosts, ports, h, tried);
          HostObeys(h, |hosts|, |ports|, cancel, |tried|, true);
          attempts := attempts + Row(hosts[h], tried);
          status := Failed;
          return;
        }
        AnsweredAppend(connect, attempts, hosts[h], tried, results);
        attempts := attempts + Row(hosts[h], tried);
        EntryIs(results, hosts[h], open);
        if open != [] { results := results + [HostResult(hosts[h], open)]; }
        HostObeys(h, |hosts|, |ports|, cancel, |tried|, false);
        NextBase(h, |hosts|, |ports|);
        SetStays(cancel, now, now + 1);
        moment := now + 1;
        if IsSet(cancel, moment) {
          cut := true;
          SetStays(cancel, moment, Base(|hosts|, |ports|) + 1);
          if tried == ports { CutObeys(h + 1, |hosts|, |ports|, cancel, moment); }
          break;
        }
        NextHost(connect, hosts, ports, h);
        h := h + 1;
      }
      assert hosts[..|hosts|] == hosts;
      PairsLength(hosts, ports);
      BaseGrows(h, |hosts|, |ports|);
      if !cut { WholeObeys(|hosts|, |ports|, cancel); }
      SetStays(cancel, moment, moment + 1);
      SetStays(cancel, moment, Base(|hosts|, |ports|) + 1);
      status := if IsSet(cancel, moment + 1) then Cancelled else Completed;
    }
  }

  /** After an error the results are those of the hosts finished before: what the last host answered is dropped. */
  ghost predicate WholeHosts(connect: Connector, hosts: seq<nat>, ports: seq<int>, attempts: seq<(nat, int)>,
                             results: seq<HostResult>)
  {
    exists h, tried: seq<int> ::
      && 0 <= h < |hosts| && tried <= ports && tried != []
      && attempts == Pairs(hosts[..h], ports) + Row(hosts[h], tried)
      && results == Found(connect, hosts[..h], ports)
  }

  lemma StoppedShort(connect: Connector, hosts: seq<nat>, ports: seq<int>, h: nat, tried: seq<int>)
    requires h < |hosts| && tried <= ports && RaisedLast(connect, Row(hosts[h], tried), true)
    ensures WholeHosts(connect, hosts, ports, Pairs(hosts[..h], ports) + Row(hosts[h], tried),
                       Found(connect, hosts[..h], ports))
  {
    hide Pairs, Found;
    assert tried != [];
  }

  lemma SetStays(c: Cancel, a: nat, b: nat)
    requires a <= b
    ensures IsSet(c, a) ==> IsSet(c, b)
  {
  }

  // ------------------------------------------------------------------ the schedule

  lemma NoMoments(c: Cancel, n: nat)
    ensures Schedule(0, n) == [] && Base(0, n) == 0 && Unset(c, Schedule(0, n), 0)
  {
  }

  lemma {:induction false} BaseGrows(h: nat, k: nat, n: nat)
    requires h <= k
    ensures Base(h, n) <= Base(k, n)
  {
    if h < k { BaseGrows(h, k - 1, n); }
  }

  lemma NextBase(h: nat, k: nat, n: nat)
    requires h < k
    ensures Base(h + 1, n) == Base(h, n) + 2 * n + 2 <= Base(k, n)
  {
    BaseGrows(h + 1, k, n);
  }

  lemma {:induction false} SchedulePrefix(h: nat, k: nat, n: nat)
    requires h <= k
    ensures Schedule(h, n) <= Schedule(k, n)
  {
    if h < k { SchedulePrefix(h, k - 1, n); }
  }

  /** Where the moments of host `h` stand in a longer schedule. */
  lemma HostMoments(h: nat, k: nat, n: nat)
    requires h < k
    ensures Schedule(h, n) + PortMoments(Base(h, n) + 1, n) == Schedule(h + 1, n) <= Schedule(k, n)
  {
    SchedulePrefix(h + 1, k, n);
  }

  lemma HostObeys(h: nat, k: nat, n: nat, c: Cancel, tried: nat, raised: bool)
    requires h < k && Unset(c, Schedule(h, n), |Schedule(h, n)|)
    requires Obeys(c, PortMoments(Base(h, n) + 1, n), tried, raised)
    ensures |Schedule(h, n)| + tried <= |Schedule(k, n)|
    ensures raised || tried < n ==> Obeys(c, Schedule(k, n), |Schedule(h, n)| + tried, raised)
    ensures tried == n ==>
              |Schedule(h + 1, n)| == |Schedule(h, n)| + n && Unset(c, Schedule(h + 1, n), |Schedule(h, n)| + n)
  {
    hide IsSet, Schedule, Base, PortMoments, Obeys, Unset;
    HostMoments(h, k, n);
    var a, b := Schedule(h, n), PortMoments(Base(h, n) + 1, n);
    ObeysAppend(c, a, b, Schedule(k, n), tried, raised);
    if tried == n { UnsetAppend(c, a, b, a + b, n, raised); }
  }

  lemma UnsetAppend(c: Cancel, a: seq<nat>, b: seq<nat>, all: seq<nat>, k: nat, raised: bool)
    requires a + b <= all && Unset(c, a, |a|) && Obeys(c, b, k, raised)
    ensures Unset(c, all, |a| + k)
  {
    hide IsSet;
    forall i | 0 <= i < |a| + k
      ensures !IsSet(c, all[i])
    {
      assert all[i] == (a + b)[i] == if i < |a| then a[i] else b[i - |a|];
    }
  }

  lemma ObeysAppend(c: Cancel, a: seq<nat>, b: seq<nat>, all: seq<nat>, k: nat, raised: bool)
    requires a + b <= all && Unset(c, a, |a|) && Obeys(c, b, k, raised)
    ensures |a| + k <= |a + b| && (raised || k < |b| ==> Obeys(c, all, |a| + k, raised))
  {
    hide IsSet;
    UnsetAppend(c, a, b, all, k, raised);
    if k < |b| { assert all[|a| + k] == (a + b)[|a| + k] == b[k]; }
  }

  /** Once set, the flag stops the scan between hosts. */
  lemma CutObeys(h: nat, k: nat, n: nat, c: Cancel, moment: nat)
    requires h <= k && Unset(c, Schedule(h, n), |Schedule(h, n)|)
    requires IsSet(c, moment) && moment <= Base(h, n) + 1
    ensures Obeys(c, Schedule(k, n), |Schedule(h, n)|, false) && IsSet(c, Base(k, n) + 1)
  {
    hide Schedule, Base;
    SchedulePrefix(h, k, n);
    BaseGrows(h, k, n);
    if |Schedule(h, n)| < |Schedule(k, n)| {
      NextScheduled(h, k, n);
    } else {
      assert Schedule(h, n) == Schedule(k, n);
    }
  }

  lemma {:induction false} NextScheduled(h: nat, k: nat, n: nat)
    requires h <= k && |Schedule(h, n)| < |Schedule(k, n)|
    ensures Schedule(k, n)[|Schedule(h, n)|] > Base(h, n) + 1
  {
    if |Schedule(h, n)| < |Schedule(k - 1, n)| {
      NextScheduled(h, k - 1, n);
    } else {
      SchedulePrefix(h, k - 1, n);
      BaseGrows(h, k - 1, n);
    }
  }

  lemma WholeObeys(h: nat, n: nat, c: Cancel)
    requires Unset(c, Schedule(h, n), |Schedule(h, n)|)
    ensures Obeys(c, Schedule(h, n), |Schedule(h, n)|, false)
  {
  }

  lemma {:induction false} ScheduleRises(h: nat, n: nat, i: nat, j: nat)
    requires i < j < |Schedule(h, n)|
    ensures Schedule(h, n)[i] + 1 < Schedule(h, n)[j] <= Base(h, n)
  {
    var before := Schedule(h - 1, n);
    if j < |before| {
      ScheduleRises(h - 1, n, i, j);
    } else if i < |before| {
      ScheduleEnds(h - 1, n, i);
    }
  }

  lemma {:induction false} ScheduleEnds(h: nat, n: nat, i: nat)
    requires i < |Schedule(h, n)|
    ensures Schedule(h, n)[i] < Base(h, n)
  {
    if i < |Schedule(h - 1, n)| { ScheduleEnds(h - 1, n, i); }
  }

  /** A flag set at moment `at`: every attempt began before, every attempt but the last was over before, and unless an
      attempt raised, the number of attempts is exactly that of the scheduled moments before it. */
  lemma CancelStopsAtOnce(h: nat, n: nat, at: nat, k: nat, raised: bool)
    requires Obeys(From(at), Schedule(h, n), k, raised)
    ensures forall i :: 0 <= i < k ==> Schedule(h, n)[i] < at && (i < k - 1 ==> Schedule(h, n)[i] + 1 < at)
    ensures !raised ==> forall i :: k <= i < |Schedule(h, n)| ==> at <= Schedule(h, n)[i]
  {
    hide Schedule, Base;
    var all := Schedule(h, n);
    forall i | 0 <= i < k
      ensures all[i] < at && (i < k - 1 ==> all[i] + 1 < at)
    {
      if i < k - 1 { ScheduleRises(h, n, i, k - 1); }
    }
    if !raised {
      forall i | k <= i < |all|
        ensures at <= all[i]
      {
        if k < i { ScheduleRises(h, n, k, i); }
      }
    }
  }

  lemma NothingYet(connect: Connector, ports: seq<int>)
    ensures Pairs([], ports) == [] && Found(connect, [], ports) == []
    ensures Flatten([]) == [] && Answered(connect, []) == []
    ensures RaisedLast(connect, [], false)
  {
  }

  lemma EntryIs(results: seq<HostResult>, host: nat, open: seq<int>)
    ensures results + Entry(host, open) == if open == [] then results else results + [HostResult(host, open)]
  {
  }

  lemma NextHost(connect: Connector, hosts: seq<nat>, ports: seq<int>, h: nat)
    requires h < |hosts|
    ensures Pairs(hosts[..h + 1], ports) == Pairs(hosts[..h], ports) + Row(hosts[h], ports)
    ensures Found(connect, hosts[..h + 1], ports) ==
            Found(connect, hosts[..h], ports) + Entry(hosts[h], OpenAt(connect, hosts[h], ports))
  {
    assert hosts[..h + 1][..h] == hosts[..h];
  }

  lemma {:induction false} PairsGrow(hosts: seq<nat>, ports: seq<int>, h: nat)
    requires h <= |hosts|
    ensures Pairs(hosts[..h], ports) <= Pairs(hosts, ports)
  {
    if h == |hosts| {
      assert hosts[..h] == hosts;
    } else {
      var init := hosts[..|hosts| - 1];
      PairsGrow(init, ports, h);
      assert init[..h] == hosts[..h];
    }
  }

  /** Whole hosts and the first ports of the next are the start of the scan. */
  lemma PairsPrefix(hosts: seq<nat>, ports: seq<int>, h: nat, tried: seq<int>)
    requires h < |hosts| && tried <= ports
    ensures Pairs(hosts[..h], ports) + Row(hosts[h], tried) <= Pairs(hosts, ports)
    ensures Pairs(hosts[..h], ports) <= Pairs(hosts, ports)
  {
    PairsGrow(hosts, ports, h + 1);
    PairsGrow(hosts, ports, h);
    assert hosts[..h + 1][..h] == hosts[..h];
    assert Row(hosts[h], tried) <= Row(hosts[h], ports);
  }

  lemma {:induction false} PairsLength(hosts: seq<nat>, ports: seq<int>)
    ensures |Pairs(hosts, ports)| == |hosts| * |ports|
  {
    if hosts != [] {
      PairsLength(hosts[..|hosts| - 1], ports);
      assert (|hosts| - 1) * |ports| + |ports| == |hosts| * |ports|;
    }
  }

  lemma RaisedRow(connect: Connector, host: nat, tried: seq<int>, p: int)
    requires RaisedLast(connect, Row(host, tried), false)
    ensures RaisedLast(connect, Row(host, tried + [p]), connect(host, p).Raises?)
  {
    assert RaisedLast(connect, [(host, p)], connect(host, p).Raises?);
    RaisedAppend(connect, Row(host, tried), [(host, p)], connect(host, p).Raises?);
    assert Row(host, tried + [p]) == Row(host, tried) + [(host, p)];
  }

  lemma RaisedAppend(connect: Connector, a: seq<(nat, int)>, b: seq<(nat, int)>, raised: bool)
    requires RaisedLast(connect, a, false) && RaisedLast(connect, b, raised)
    ensures RaisedLast(connect, a + b, raised)
  {
    forall i | 0 <= i < |a + b|
      ensures Raised(connect, a + b, i) <==> raised && i == |a + b| - 1
    {
      if i < |a| { assert Raised(connect, a + b, i) == Raised(connect, a, i); }
      else { assert Raised(connect, a + b, i) == Raised(connect, b, i - |a|); }
    }
  }

  lemma {:induction false} AnsweredRow(connect: Connector, attempts: seq<(nat, int)>, host: nat, tried: seq<int>)
    ensures Answered(connect, attempts + Row(host, tried)) ==
            Answered(connect, attempts) + Row(host, OpenAt(connect, host, tried))
  {
    if tried == [] {
      assert attempts + Row(host, tried) == attempts;
    } else {
      var init, p := tried[..|tried| - 1], tried[|tried| - 1];
      var open := OpenAt(connect, host, init);
      AnsweredRow(connect, attempts, host, init);
      var all := attempts + Row(host, tried);
      assert all[..|all| - 1] == attempts + Row(host, init) && all[|all| - 1] == (host, p);
      assert Row(host, open + [p]) == Row(host, open) + [(host, p)];
    }
  }

  lemma AnsweredAppend(connect: Connector, attempts: seq<(nat, int)>, host: nat, tried: seq<int>,
                       results: seq<HostResult>)
    requires Flatten(results) == Answered(connect, attempts)
    ensures Flatten(results + Entry(host, OpenAt(connect, host, tried))) ==
            Answered(connect, attempts + Row(host, tried))
  {
    hide OpenAt, Answered;
    var open := OpenAt(connect, host, tried);
    AnsweredRow(connect, attempts, host, tried);
    if open == [] {
      assert results + [] == results && Row(host, open) == [];
    } else {
      assert (results + [HostResult(host, open)])[..|results|] == results;
    }
  }

  lemma {:induction false} OpenAtExactly(connect: Connector, host: nat, ports: seq<int>)
    ensures forall p :: p in OpenAt(connect, host, ports) <==> p in ports && connect(host, p).Open?
  {
    if ports != [] {
      OpenAtExactly(connect, host, ports[..|ports| - 1]);
      assert ports == ports[..|ports| - 1] + [ports[|ports| - 1]];
    }
  }

  lemma SomeOpen(connect: Connector, host: nat, ports: seq<int>)
    ensures OpenAt(connect, host, ports) != [] <==> exists p :: p in ports && connect(host, p).Open?
  {
    hide OpenAt;
    var open := OpenAt(connect, host, ports);
    OpenAtExactly(connect, host, ports);
    if open != [] {
      var p := open[0];
      assert p in open;
      assert p in ports && connect(host, p).Open?;
    }
    if p :| p in ports && connect(host, p).Open? {
      assert p in open;
      assert open != [];
    }
  }

  /** The results of a completed scan name a host exactly when it was scanned and one of its ports is open, with
      exactly its open ports. */
  lemma {:induction false} FoundExactly(connect: Connector, hosts: seq<nat>, ports: seq<int>)
    ensures forall r :: r in Found(connect, hosts, ports) <==>
              && r.host in hosts && r.open == OpenAt(connect, r.host, ports)
              && exists p :: p in ports && connect(r.host, p).Open?
  {
    hide OpenAt;
    if hosts != [] {
      var init, host := hosts[..|hosts| - 1], hosts[|hosts| - 1];
      FoundExactly(connect, init, ports);
      assert hosts == init + [host];
      var open := OpenAt(connect, host, ports);
      SomeOpen(connect, host, ports);
      assert forall r :: r in Entry(host, open) <==> r.host == host && r.open == open && open != [];
    }
  }
}
