/** The scan service: requests, workers and cancels come between one another in any order. */
module LanScanService {
  import opened Wrappers
  import opened LanScanRules
  import opened LanScan

  /** A job with its network and ports, the interfaces listed when it was accepted, how many connects its worker
      made, and its cancel flag. */
  datatype JobState = JobState(
    net: Net, ports: seq<int>, interfaces: seq<Interface>, status: Status, attempts: nat, cancelled: bool)

  /** Every job ever started, the current one last, and every connect made, with its job. */
  datatype State = State(jobs: seq<JobState>, log: seq<(nat, nat, int)>)

  datatype Step =
    | Start(s: Subnet, ports: seq<int>, rate: int, interfaces: seq<Interface>)
    | Cancel(job: nat)
    | Attempt(job: nat)
    | End(job: nat, status: Status)

  function PlanOf(j: JobState): seq<(nat, int)> { Pairs(Hosts(j.net), j.ports) }

  /** A start is refused while the current job runs. */
  predicate MayStart(s: State) { s.jobs == [] || !s.jobs[|s.jobs| - 1].status.Running? }

  /** What may happen. A cancel reaches the current job only. A worker may work as long as its job runs, also
      for a while after the flag is set; it ends completed after all its connects and with the flag unset,
      cancelled with the flag set, and failed after a connect. */
  predicate Enabled(s: State, step: Step)
  {
    match step
    case Start(_, _, _, _) => true
    case Cancel(i) => true
    case Attempt(i) => i < |s.jobs| && s.jobs[i].status.Running? && s.jobs[i].attempts < |PlanOf(s.jobs[i])|
    case End(i, status) =>
      && i < |s.jobs| && s.jobs[i].status.Running?
      && match status
         case Running => false
         case Completed => !s.jobs[i].cancelled && s.jobs[i].attempts == |PlanOf(s.jobs[i])|
         case Cancelled => s.jobs[i].cancelled
         case Failed => s.jobs[i].attempts > 0
  }

  function Next(s: State, step: Step): State
    requires Enabled(s, step)
  {
    match step
    case Start(subnet, ports, rate, interfaces) =>
      var r := Validate(subnet, ports, rate, interfaces);
      if MayStart(s) && r.Ok? then s.(jobs := s.jobs + [JobState(r.value, ports, interfaces, Running, 0, false)]) else s
    case Cancel(i) =>
      if i + 1 == |s.jobs| then s.(jobs := s.jobs[i := s.jobs[i].(cancelled := true)]) else s
    case Attempt(i) =>
      var a := PlanOf(s.jobs[i])[s.jobs[i].attempts];
      State(s.jobs[i := s.jobs[i].(attempts := s.jobs[i].attempts + 1)], s.log + [(i, a.0, a.1)])
    case End(i, status) => s.(jobs := s.jobs[i := s.jobs[i].(status := status)])
  }

  /** The connects of one job, in order. */
  function LogOf(log: seq<(nat, nat, int)>, job: nat): seq<(nat, int)>
  {
    if log == [] then []
    else
      var before, e := LogOf(log[..|log| - 1], job), log[|log| - 1];
      if e.0 == job then before + [(e.1, e.2)] else before
  }

  /** Only the current job may be running; each job's connects are the start of its own plan; and a plan has only
      private hosts on the machine's own links. */
  ghost predicate JobOk(j: JobState)
  {
    && j.attempts <= |PlanOf(j)|
    && (j.status.Completed? ==> j.attempts == |PlanOf(j)|)
    && (j.status.Cancelled? ==> j.cancelled)
    && (forall k :: 0 <= k < |Hosts(j.net)| ==> Local(Hosts(j.net)[k], j.interfaces))
  }

  ghost predicate Inv(s: State)
  {
    && (forall i :: 0 <= i < |s.jobs| - 1 ==> !s.jobs[i].status.Running?)
    && (forall i :: 0 <= i < |s.jobs| ==> JobOk(s.jobs[i]))
    && (forall i :: 0 <= i < |s.jobs| ==> LogOf(s.log, i) == PlanOf(s.jobs[i])[..s.jobs[i].attempts])
    && (forall k :: 0 <= k < |s.log| ==> s.log[k].0 < |s.jobs| && Local(s.log[k].1, s.jobs[s.log[k].0].interfaces))
  }

  lemma {:induction false} NoLogYet(log: seq<(nat, nat, int)>, job: nat)
    requires forall k :: 0 <= k < |log| ==> log[k].0 != job
    ensures LogOf(log, job) == []
  {
    if log != [] { NoLogYet(log[..|log| - 1], job); }
  }

  lemma {:induction false} PlanHosts(hosts: seq<nat>, ports: seq<int>, k: nat)
    requires k < |Pairs(hosts, ports)|
    ensures Pairs(hosts, ports)[k].0 in hosts && Pairs(hosts, ports)[k].1 in ports
  {
    var init, host := hosts[..|hosts| - 1], hosts[|hosts| - 1];
    assert hosts == init + [host];
    if k < |Pairs(init, ports)| { PlanHosts(init, ports, k); }
  }

  lemma StartKeeps(s: State, subnet: Subnet, ports: seq<int>, rate: int, interfaces: seq<Interface>)
    requires Inv(s)
    ensures Inv(Next(s, Start(subnet, ports, rate, interfaces)))
  {
    hide Validate, Local, Hosts, Pairs;
    var r := Validate(subnet, ports, rate, interfaces);
    if MayStart(s) && r.Ok? {
      AcceptedHostsAreLocal(subnet, ports, rate, interfaces);
      NoLogYet(s.log, |s.jobs|);
    }
  }

  lemma AttemptKeeps(s: State, i: nat)
    requires Inv(s) && Enabled(s, Attempt(i))
    ensures Inv(Next(s, Attempt(i)))
  {
    hide Local, Hosts, Pairs;
    var j := s.jobs[i];
    var a := PlanOf(j)[j.attempts];
    PlanHosts(Hosts(j.net), j.ports, j.attempts);
    var log := s.log + [(i, a.0, a.1)];
    assert log[..|log| - 1] == s.log;
    assert PlanOf(j)[..j.attempts + 1] == PlanOf(j)[..j.attempts] + [a];
    assert Local(a.0, j.interfaces);
  }

  lemma InvNext(s: State, step: Step)
    requires Inv(s) && Enabled(s, step)
    ensures Inv(Next(s, step))
  {
    hide Local, Hosts, Pairs, Validate, LogOf;
    match step {
      case Start(subnet, ports, rate, interfaces) => StartKeeps(s, subnet, ports, rate, interfaces);
      case Cancel(i) =>
      case Attempt(i) => AttemptKeeps(s, i);
      case End(i, status) =>
    }
  }

  ghost predicate Reaches(s: State, steps: seq<Step>, t: State)
    decreases |steps|
  {
    if steps == [] then s == t else Enabled(s, steps[0]) && Reaches(Next(s, steps[0]), steps[1..], t)
  }

  /** In every run at most one job runs, the newest; every connect ever made went to a private address on one
      of the links its job was accepted for; and each job's connects are, in order, the first of its hosts
      and ports. */
  lemma {:induction false} EveryRunKeeps(s: State, steps: seq<Step>, t: State)
    requires Inv(s) && Reaches(s, steps, t)
    ensures Inv(t)
    ensures forall i :: 0 <= i < |t.jobs| - 1 ==> !t.jobs[i].status.Running?
    decreases |steps|
  {
    hide Next, Enabled, JobOk, Local, LogOf, PlanOf;
    if steps != [] {
      InvNext(s, steps[0]);
      EveryRunKeeps(Next(s, steps[0]), steps[1..], t);
    }
  }

  /** So from a service without jobs. */
  lemma EveryRunIsFine(steps: seq<Step>, t: State)
    requires Reaches(State([], []), steps, t)
    ensures Inv(t) && forall i :: 0 <= i < |t.jobs| - 1 ==> !t.jobs[i].status.Running?
  {
    StartIsFine();
    EveryRunKeeps(State([], []), steps, t);
  }

  /** A job leaves the running state once: from then on its status, its connects and its plan never change. */
  lemma {:induction false} EndedForGood(s: State, steps: seq<Step>, t: State, i: nat)
    requires Reaches(s, steps, t) && i < |s.jobs| && !s.jobs[i].status.Running?
    ensures i < |t.jobs| && t.jobs[i] == s.jobs[i].(cancelled := t.jobs[i].cancelled)
    ensures LogOf(t.log, i) == LogOf(s.log, i)
    decreases |steps|
  {
    hide PlanOf, Validate;
    if steps != [] {
      EndedStep(s, steps[0], i);
      EndedForGood(Next(s, steps[0]), steps[1..], t, i);
    }
  }

  lemma EndedStep(s: State, step: Step, i: nat)
    requires Enabled(s, step) && i < |s.jobs| && !s.jobs[i].status.Running?
    ensures i < |Next(s, step).jobs|
    ensures Next(s, step).jobs[i] == s.jobs[i].(cancelled := Next(s, step).jobs[i].cancelled)
    ensures LogOf(Next(s, step).log, i) == LogOf(s.log, i)
  {
    hide PlanOf, Validate;
    if step.Attempt? { assert Next(s, step).log[..|s.log|] == s.log; }
  }

  lemma StartIsFine()
    ensures Inv(State([], []))
  {
  }

  // ------------------------------------------------------------------ the worker is a run of the machine

  function AttemptSteps(job: nat, n: nat): seq<Step> { seq(n, _ => Attempt(job)) }

  /** A job's state after `n` more attempts of its worker. */
  function Worked(j: JobState, n: nat): JobState { j.(attempts := j.attempts + n) }

  lemma {:induction false} AttemptsRun(s: State, job: nat, n: nat) returns (t: State)
    requires job < |s.jobs| && s.jobs[job].status.Running? && s.jobs[job].attempts + n <= |PlanOf(s.jobs[job])|
    ensures Reaches(s, AttemptSteps(job, n), t)
    ensures t.jobs == s.jobs[job := Worked(s.jobs[job], n)]
    ensures LogOf(t.log, job) == LogOf(s.log, job) + PlanOf(s.jobs[job])[s.jobs[job].attempts..s.jobs[job].attempts + n]
    decreases n
  {
    hide PlanOf, Next, Enabled, LogOf;
    if n == 0 {
      t := s;
    } else {
      var j := s.jobs[job];
      var u := AttemptRuns(s, job);
      SamePlan(j);
      t := AttemptsRun(u, job, n - 1);
      var steps := AttemptSteps(job, n);
      assert steps[0] == Attempt(job) && steps[1..] == AttemptSteps(job, n - 1);
      var plan := PlanOf(j);
      assert plan[j.attempts..j.attempts + n] == [plan[j.attempts]] + plan[j.attempts + 1..j.attempts + n];
    }
  }

  lemma AttemptRuns(s: State, job: nat) returns (u: State)
    requires job < |s.jobs| && s.jobs[job].status.Running? && s.jobs[job].attempts < |PlanOf(s.jobs[job])|
    ensures Enabled(s, Attempt(job)) && u == Next(s, Attempt(job))
    ensures u.jobs == s.jobs[job := Worked(s.jobs[job], 1)]
    ensures LogOf(u.log, job) == LogOf(s.log, job) + [PlanOf(s.jobs[job])[s.jobs[job].attempts]]
  {
    hide PlanOf;
    u := Next(s, Attempt(job));
    assert u.log[..|s.log|] == s.log;
  }

  lemma SamePlan(j: JobState)
    ensures forall k :: PlanOf(j.(attempts := k)) == PlanOf(j)
  {
  }

  lemma {:induction false} ReachesAppend(s: State, a: seq<Step>, t: State, b: seq<Step>, u: State)
    requires Reaches(s, a, t) && Reaches(t, b, u)
    ensures Reaches(s, a + b, u)
    decreases |a|
  {
    hide Next, Enabled;
    if a == [] {
      assert a + b == b;
    } else {
      ReachesAppend(Next(s, a[0]), a[1..], t, b, u);
      assert (a + b)[1..] == a[1..] + b;
    }
  }

  /** What `LanScan.Job.Run` promises of its connects and its last status, for the cancel flag it read. */
  predicate RunResult(connect: Connector, j: JobState, cancel: LanScan.Cancel, attempts: seq<(nat, int)>,
                      status: Status)
  {
    var h, n := |Hosts(j.net)|, |j.ports|;
    && status != Running && attempts <= PlanOf(j)
    && RaisedLast(connect, attempts, status == Failed)
    && Obeys(cancel, Schedule(h, n), |attempts|, status == Failed)
    && (status != Failed ==> (status == Cancelled <==> IsSet(cancel, Base(h, n) + 1)))
    && (status == Completed ==> attempts == PlanOf(j))
  }

  /** The worker as the service starts it, on a job just accepted. */
  method Work(net: Net, ports: seq<int>, interfaces: seq<Interface>, connect: Connector, cancel: LanScan.Cancel)
    returns (attempts: seq<(nat, int)>, status: Status)
    ensures RunResult(connect, JobState(net, ports, interfaces, Running, 0, false), cancel, attempts, status)
  {
    var job := new Job(ports, Hosts(net));
    attempts := job.Run(Hosts(net), connect, cancel);
    status := job.status;
  }

  /** Whatever a worker does from the state its job was started in is a run of the machine: its connects as attempts,
      the cancel if the flag was set, and the end with its status. So the machine's laws hold of it. */
  lemma WorkerIsARun(s: State, connect: Connector, cancel: LanScan.Cancel, attempts: seq<(nat, int)>, status: Status)
    returns (steps: seq<Step>, t: State)
    requires s.jobs != []
    requires var j := s.jobs[|s.jobs| - 1];
             j.status.Running? && j.attempts == 0 && !j.cancelled && LogOf(s.log, |s.jobs| - 1) == []
             && RunResult(connect, j, cancel, attempts, status)
    ensures Reaches(s, steps, t) && |t.jobs| == |s.jobs|
    ensures var job := |s.jobs| - 1;
            && t.jobs[job].status == status && LogOf(t.log, job) == attempts
            && t.jobs[job].attempts == |attempts| && t.jobs[job].cancelled == status.Cancelled?
  {
    hide PlanOf, Obeys, Schedule, Base;
    var job := |s.jobs| - 1;
    var j := s.jobs[job];
    var mid := AttemptsRun(s, job, |attempts|);
    assert PlanOf(j)[0..|attempts|] == attempts;
    SamePlan(j);
    var ready := mid;
    var tail: seq<Step> := [End(job, status)];
    if status.Cancelled? {
      ready := Next(mid, Step.Cancel(job));
      tail := [Step.Cancel(job), End(job, status)];
      CancelKeepsPlan(mid.jobs[job]);
    }
    t := Next(ready, End(job, status));
    assert Reaches(ready, [End(job, status)], t) by { assert [End(job, status)][1..] == []; }
    if status.Cancelled? { assert tail[1..] == [End(job, status)]; }
    ReachesAppend(s, AttemptSteps(job, |attempts|), mid, tail, t);
    steps := AttemptSteps(job, |attempts|) + tail;
  }

  lemma CancelKeepsPlan(j: JobState)
    ensures PlanOf(j.(cancelled := true)) == PlanOf(j)
  {
  }
}
