/** The live-data manager: one real websocket with reconnection, a mock feed to fall back to, and the backend-mode
    store whose listener calls back into the manager. The browser is the environment: it decides when timers
    fire, when an attempt to connect succeeds or fails, and when sockets open and close. */
module LiveSocket {
  import opened Wrappers

  datatype Mode = Real | ForcedMock | FallbackMock | Unknown

  datatype Shown = Connecting | Open | Reconnecting

  /** A browser socket: handshaking, open, closed (or told to close, which stops it from ever opening). */
  datatype Phase = Pending | Live | Gone

  const MAX_REAL_ATTEMPTS := 3

  /** The manager's fields, the mode store, and the timers and sockets the browser still holds. A timer field is
      true while the timer is armed. `handshakes` counts armed mock-handshake timeouts, `mockFeed` is the
      subscription to mock frames. */
  datatype State = State(
    forced: bool, started: bool, listening: bool,
    ws: Option<nat>, usingMock: bool, connectingReal: bool, attempts: nat,
    reconnectTimer: bool, mockRetryTimer: bool, handshakes: nat, mockFeed: bool, ticker: bool,
    mode: Mode, shown: Shown,
    sockets: map<nat, Phase>, nextId: nat)

  function Initial(forced: bool): State
  {
    State(forced, false, false, None, false, false, 0, false, false, 0, false, false,
          if forced then ForcedMock else Unknown, Connecting, map[], 0)
  }

  // ------------------------------------------------------------------ the handlers as functions

  function DetachMock(s: State): (t: State)
    ensures t.forced == s.forced
  {
    s.(usingMock := false, mockFeed := false, mockRetryTimer := false, ticker := false)
  }

  function ConnectReal(s: State): (t: State)
    ensures t.forced == s.forced
  {
    if s.connectingReal || s.ws.Some? then s
    else if s.usingMock then s.(connectingReal := true)
    else s.(connectingReal := true, shown := if s.attempts == 0 then Connecting else Reconnecting)
  }

  function ResumeReal(s: State): (t: State)
    ensures t.forced == s.forced
  {
    if !s.usingMock then s else ConnectReal(DetachMock(s).(attempts := 0, shown := Reconnecting))
  }

  /** `setBackendMode` with its listeners called at once. */
  function SetMode(s: State, next: Mode): (r: State)
    ensures r.forced == s.forced
    ensures next != Real || !s.usingMock ==> r == s.(mode := next)
  {
    if s.mode == next then s
    else
      var t := s.(mode := next);
      if t.listening && t.mode == Real && t.usingMock then ResumeReal(t) else t
  }

  function CloseCurrent(s: State): (t: State)
    ensures t.forced == s.forced
  {
    if s.ws.None? then s else s.(sockets := s.sockets[s.ws.value := Gone], ws := None)
  }

  function ConnectMock(s: State): (t: State)
    ensures t.forced == s.forced
  {
    var t := SetMode(CloseCurrent(s).(usingMock := true), if s.forced then ForcedMock else FallbackMock);
    t.(ticker := true, shown := Connecting, handshakes := t.handshakes + 1,
       mockRetryTimer := t.mockRetryTimer || !t.forced)
  }

  function HandleRealFailure(s: State): (t: State)
    ensures t.forced == s.forced
  {
    var t := s.(ws := None, attempts := s.attempts + 1);
    if t.usingMock then t
    else if t.attempts >= MAX_REAL_ATTEMPTS && t.mode != Real then ConnectMock(t)
    else t.(shown := Reconnecting, reconnectTimer := true)
  }

  function Start(s: State): (t: State)
    ensures t.forced == s.forced
  {
    if s.started then s
    else
      var t := s.(started := true, listening := s.listening || !s.forced);
      if t.forced || t.mode == FallbackMock then ConnectMock(t) else ConnectReal(t)
  }

  function HandshakeDone(s: State): (t: State)
    requires s.handshakes > 0
    ensures t.forced == s.forced
  {
    var t := s.(handshakes := s.handshakes - 1);
    if t.usingMock then t.(shown := Open, mockFeed := true) else t
  }

  function SocketMade(s: State): (t: State)
    ensures t.forced == s.forced
  {
    s.(ws := Some(s.nextId), connectingReal := false, sockets := s.sockets[s.nextId := Pending], nextId := s.nextId + 1)
  }

  function SocketOpens(s: State, id: nat): (t: State)
    ensures t.forced == s.forced
  {
    SetMode(DetachMock(s.(sockets := s.sockets[id := Live], attempts := 0)), Real).(shown := Open)
  }

  function SocketCloses(s: State, id: nat): (t: State)
    ensures t.forced == s.forced
  {
    var t := s.(sockets := s.sockets[id := Gone]);
    if t.ws != Some(id) then t else HandleRealFailure(t)
  }

  // ------------------------------------------------------------------ runs

  /** `ModeSet` is the REST layer reporting what it reached; `ConnectFails` covers a refused token and a socket
      that cannot be constructed. */
  datatype Event =
    | StartCall | ModeSet(mode: Mode) | HandshakeTimeout | MockRetryTick | ReconnectTick
    | ConnectFails | ConnectMakesSocket | Opens(id: nat) | Closes(id: nat)

  predicate Enabled(s: State, ev: Event)
  {
    match ev
    case StartCall => true
    case ModeSet(m) => !s.forced && m in {Real, FallbackMock}
    case HandshakeTimeout => s.handshakes > 0
    case MockRetryTick => s.mockRetryTimer
    case ReconnectTick => s.reconnectTimer
    case ConnectFails => s.connectingReal
    case ConnectMakesSocket => s.connectingReal
    case Opens(id) => id in s.sockets && s.sockets[id] == Pending
    case Closes(id) => id in s.sockets && s.sockets[id] != Gone
  }

  function Next(s: State, ev: Event): State
    requires Enabled(s, ev)
  {
    match ev
    case StartCall => Start(s)
    case ModeSet(m) => SetMode(s, m)
    case HandshakeTimeout => HandshakeDone(s)
    case MockRetryTick => ConnectReal(s)
    case ReconnectTick => ConnectReal(s.(reconnectTimer := false))
    case ConnectFails => HandleRealFailure(s.(connectingReal := false))
    case ConnectMakesSocket => SocketMade(s)
    case Opens(id) => SocketOpens(s, id)
    case Closes(id) => SocketCloses(s, id)
  }

  lemma OpensIs(s: State, id: nat)
    requires Enabled(s, Opens(id))
    ensures Next(s, Opens(id)) == SocketOpens(s, id)
  {
  }

  /** `t` is reached from `s` by these events, each possible when it happens. */
  predicate Reaches(s: State, evs: seq<Event>, t: State)
    decreases |evs|
  {
    if evs == [] then s == t else Enabled(s, evs[0]) && Reaches(Next(s, evs[0]), evs[1..], t)
  }

  function Count(b: bool): nat { if b then 1 else 0 }

  predicate RealOpen(s: State) { s.ws.Some? && s.ws.value in s.sockets && s.sockets[s.ws.value] == Live }

  /** What holds between events. */
  predicate Inv(s: State)
  {
    // Sockets: whatever is not closed is the current one.
    && (forall id :: id in s.sockets ==> id < s.nextId && (s.sockets[id] != Gone <==> s.ws == Some(id)))
    && (s.ws.Some? ==> s.ws.value in s.sockets)
    // The mock feed belongs to mock mode, and mock mode never claims the real backend.
    && (s.mockFeed ==> s.usingMock)
    && (s.usingMock ==> s.started && s.mode != Real && !RealOpen(s))
    && (RealOpen(s) ==> s.shown == Open && s.attempts == 0)
    && (s.mockRetryTimer <==> s.usingMock && !s.forced)
    // Exactly one way forward to a real socket outside mock mode, at most one attempt in it.
    && (s.started && !s.usingMock ==> Count(s.ws.Some?) + Count(s.connectingReal) + Count(s.reconnectTimer) == 1)
    && (s.usingMock ==> Count(s.ws.Some?) + Count(s.connectingReal) <= 1 && !s.reconnectTimer)
    && (s.listening <==> s.started && !s.forced)
    && (!s.started ==> s.ws.None? && !s.connectingReal && !s.reconnectTimer && s.handshakes == 0)
    && (s.forced ==> s.mode == ForcedMock && s.sockets == map[] && !s.connectingReal && !s.reconnectTimer)
    && (s.forced && s.started ==> s.usingMock)
  }

  lemma InvNext(s: State, ev: Event)
    requires Inv(s) && Enabled(s, ev)
    ensures Inv(Next(s, ev))
  {
    hide Inv, Start, SetMode, HandshakeDone, ConnectReal, HandleRealFailure, SocketMade, SocketOpens, SocketCloses;
    match ev
    case StartCall => StartKeeps(s);
    case ModeSet(m) => ModeKeeps(s, m);
    case HandshakeTimeout => TimersKeep(s);
    case MockRetryTick => TimersKeep(s);
    case ReconnectTick => TimersKeep(s);
    case ConnectFails => AttemptKeeps(s);
    case ConnectMakesSocket => AttemptKeeps(s);
    case Opens(id) => OpenKeeps(s, id);
    case Closes(id) => CloseKeeps(s, id);
  }

  lemma ModeKeeps(s: State, m: Mode)
    requires Inv(s) && !s.forced && m in {Real, FallbackMock}
    ensures Inv(SetMode(s, m))
  {
  }

  lemma TimersKeep(s: State)
    requires Inv(s)
    ensures s.handshakes > 0 ==> Inv(HandshakeDone(s))
    ensures s.mockRetryTimer ==> Inv(ConnectReal(s))
    ensures s.reconnectTimer ==> Inv(ConnectReal(s.(reconnectTimer := false)))
  {
  }

  lemma AttemptKeeps(s: State)
    requires Inv(s) && s.connectingReal
    ensures Inv(SocketMade(s)) && Inv(HandleRealFailure(s.(connectingReal := false)))
  {
    hide HandleRealFailure;
    FailureKeeps(s.(connectingReal := false));
  }

  lemma OpenKeeps(s: State, id: nat)
    requires Inv(s) && id in s.sockets && s.sockets[id] == Pending
    ensures Inv(SocketOpens(s, id))
  {
  }

  lemma CloseKeeps(s: State, id: nat)
    requires Inv(s) && id in s.sockets && s.sockets[id] != Gone
    ensures Inv(SocketCloses(s, id))
  {
    hide HandleRealFailure;
    FailureKeeps(s.(sockets := s.sockets[id := Gone]));
  }

  lemma StartKeeps(s: State)
    requires Inv(s)
    ensures Inv(Start(s))
  {
  }

  /** A failure of the current socket or attempt, once the browser has dropped it. */
  lemma FailureKeeps(s: State)
    requires s.started && !s.forced && s.listening && !s.connectingReal && !s.reconnectTimer && !RealOpen(s)
    requires forall id :: id in s.sockets ==> id < s.nextId && s.sockets[id] == Gone
    requires (s.mockFeed ==> s.usingMock) && (s.usingMock ==> s.mode != Real) && (s.mockRetryTimer <==> s.usingMock)
    ensures Inv(HandleRealFailure(s))
  {
  }

  /** The invariant holds in every run. */
  lemma {:induction false} EveryRunKeeps(forced: bool, evs: seq<Event>, s: State)
    requires Reaches(Initial(forced), evs, s)
    ensures Inv(s)
  {
    KeepsFrom(Initial(forced), evs, s);
  }

  lemma {:induction false} KeepsFrom(s: State, evs: seq<Event>, t: State)
    requires Inv(s) && Reaches(s, evs, t)
    ensures Inv(t)
    decreases |evs|
  {
    hide Inv, Next;
    if evs != [] {
      InvNext(s, evs[0]);
      KeepsFrom(Next(s, evs[0]), evs[1..], t);
    }
  }

  /** In every run: an open real socket and a mock feed never coexist and no mock frame is delivered under the
      mode "real"; at most one socket is not closed; fallback mock mode always has its retry timer; and a started
      manager off the mocks has exactly one of a socket, an attempt in flight and an armed reconnect timer. */
  lemma FailoverIsSafe(forced: bool, evs: seq<Event>, s: State)
    requires Reaches(Initial(forced), evs, s)
    ensures RealOpen(s) ==> !s.mockFeed && !s.usingMock && s.shown == Open
    ensures s.mockFeed ==> s.mode != Real
    ensures forall i, j :: i in s.sockets && j in s.sockets && s.sockets[i] != Gone && s.sockets[j] != Gone ==> i == j
    ensures s.usingMock && !s.forced ==> s.mockRetryTimer
    ensures s.started && !s.usingMock ==> Count(s.ws.Some?) + Count(s.connectingReal) + Count(s.reconnectTimer) == 1
  {
    EveryRunKeeps(forced, evs, s);
  }

  lemma ReachableFacts(evs: seq<Event>, s: State)
    requires Reaches(Initial(false), evs, s)
    ensures Inv(s) && !s.forced
  {
    EveryRunKeeps(false, evs, s);
    ForcedStays(Initial(false), evs, s);
  }

  lemma NextForced(s: State, ev: Event)
    requires Enabled(s, ev)
    ensures Next(s, ev).forced == s.forced
  {
    hide Start, SetMode, HandshakeDone, ConnectReal, HandleRealFailure, SocketMade, SocketOpens, SocketCloses;
  }

  lemma {:induction false} ForcedStays(s: State, evs: seq<Event>, t: State)
    requires Reaches(s, evs, t)
    ensures t.forced == s.forced
    decreases |evs|
  {
    hide Next, Enabled;
    if evs != [] {
      NextForced(s, evs[0]);
      ForcedStays(Next(s, evs[0]), evs[1..], t);
    }
  }

  predicate Recovered(s: State, way: seq<Event>, t: State)
  {
    && |way| <= 3 && Reaches(s, way, t) && RealOpen(t) && !t.usingMock && !t.mockFeed
    && forall i :: 0 <= i < |way| ==>
         way[i].MockRetryTick? || way[i].ReconnectTick? || way[i].ConnectMakesSocket? || way[i].Opens?
  }

  /** A pending socket only has to open. */
  lemma OpensFrom(s: State) returns (way: seq<Event>, t: State)
    requires Inv(s) && s.ws.Some? && !RealOpen(s)
    ensures |way| == 1 && Recovered(s, way, t)
  {
    way := [Opens(s.ws.value)];
    t := Next(s, way[0]);
    assert Reaches(t, way[1..], t);
  }

  lemma ConnectsFrom(s: State) returns (way: seq<Event>, t: State)
    requires Inv(s) && s.connectingReal && s.ws.None?
    ensures |way| == 2 && Recovered(s, way, t)
  {
    InvNext(s, ConnectMakesSocket);
    var rest, end := OpensFrom(Next(s, ConnectMakesSocket));
    way, t := [ConnectMakesSocket] + rest, end;
    assert way[1..] == rest;
  }

  /** Mock mode is no one-way door: from every reachable state of an unforced, started manager, at most three
      browser events (a timer, a successful connect, an open) bring an open real socket and end the mock feed. */
  lemma CanAlwaysRecover(evs: seq<Event>, s: State) returns (way: seq<Event>, t: State)
    requires Reaches(Initial(false), evs, s) && s.started
    ensures Recovered(s, way, t)
  {
    hide Reaches, Next, Recovered;
    ReachableFacts(evs, s);
    if RealOpen(s) {
      way, t := [], s;
      NoWay(s);
    } else if s.ws.Some? {
      way, t := OpensFrom(s);
    } else if s.connectingReal {
      way, t := ConnectsFrom(s);
    } else {
      var tick := if s.usingMock then MockRetryTick else ReconnectTick;
      InvNext(s, tick);
      TickConnects(s, tick);
      var rest, end := ConnectsFrom(Next(s, tick));
      way, t := [tick] + rest, end;
      ConsWay(s, tick, rest, end);
    }
  }

  lemma NoWay(s: State)
    requires Inv(s) && RealOpen(s)
    ensures Recovered(s, [], s)
  {
  }

  lemma TickConnects(s: State, tick: Event)
    requires Inv(s) && s.started && !s.forced && s.ws.None? && !s.connectingReal
    requires tick == if s.usingMock then MockRetryTick else ReconnectTick
    ensures Enabled(s, tick) && Next(s, tick).connectingReal && Next(s, tick).ws.None?
  {
  }

  lemma ConsWay(s: State, tick: Event, rest: seq<Event>, t: State)
    requires Enabled(s, tick) && (tick.MockRetryTick? || tick.ReconnectTick?)
    requires |rest| == 2 && Recovered(Next(s, tick), rest, t)
    ensures Recovered(s, [tick] + rest, t)
  {
    hide Next, Enabled;
    assert ([tick] + rest)[1..] == rest;
  }

  // ------------------------------------------------------------------ what the user sees

  /** The mock ticker runs exactly in mock mode; "open" is shown exactly while frames come in, from an open socket or
      the mock feed; mock mode shows "connecting" until a handshake still to come; and after a failure "reconnecting"
      is shown until something opens. */
  predicate Display(s: State)
  {
    && (s.ticker <==> s.usingMock)
    && (s.shown == Open <==> RealOpen(s) || s.mockFeed)
    && (s.usingMock && !s.mockFeed ==> s.shown == Connecting && s.handshakes > 0)
    && (s.started && !s.usingMock && !RealOpen(s) && s.attempts > 0 ==> s.shown == Reconnecting)
    && (!s.started ==> s.shown == Connecting && s.attempts == 0)
  }

  lemma DisplayNext(s: State, ev: Event)
    requires Inv(s) && Display(s) && Enabled(s, ev)
    ensures Display(Next(s, ev))
  {
    match ev
    case StartCall =>
    case ModeSet(m) =>
    case HandshakeTimeout =>
    case MockRetryTick =>
    case ReconnectTick =>
    case ConnectFails =>
    case ConnectMakesSocket =>
    case Opens(id) =>
    case Closes(id) =>
  }

  lemma {:induction false} DisplayHolds(s: State, evs: seq<Event>, t: State)
    requires Inv(s) && Display(s) && Reaches(s, evs, t)
    ensures Display(t)
    decreases |evs|
  {
    hide Inv, Display, Next, Enabled;
    if evs != [] {
      InvNext(s, evs[0]);
      DisplayNext(s, evs[0]);
      DisplayHolds(Next(s, evs[0]), evs[1..], t);
    }
  }

  /** In every run what is shown tells what is there. */
  lemma DisplayIsTrue(forced: bool, evs: seq<Event>, s: State)
    requires Reaches(Initial(forced), evs, s)
    ensures Display(s)
  {
    DisplayHolds(Initial(forced), evs, s);
  }

  // ------------------------------------------------------------------ when mock mode begins and ends

  /** A start goes to the mocks exactly when they are forced or REST has already fallen back, and towards the real
      socket otherwise. */
  lemma StartTells(s: State)
    requires Inv(s) && Display(s) && !s.started
    ensures var t := Next(s, StartCall);
            && t.started && t.shown == Connecting && (t.listening <==> !s.forced)
            && (t.usingMock <==> s.forced || s.mode == FallbackMock)
            && (t.connectingReal <==> !t.usingMock) && t.handshakes == (if t.usingMock then 1 else 0)
            && (t.usingMock ==> t.mode == (if s.forced then ForcedMock else FallbackMock))
  {
  }

  predicate Fails(s: State, ev: Event) { ev == ConnectFails || (ev.Closes? && s.ws == Some(ev.id)) }

  /** A failed attempt or a closed socket counts once. The third in a row goes over to the mocks, unless REST reaches
      the real backend; any other waits for the next attempt. In mock mode a failure changes nothing that is shown. */
  lemma FailureTells(s: State, ev: Event)
    requires Inv(s) && Enabled(s, ev) && Fails(s, ev)
    ensures var t := Next(s, ev);
            && t.attempts == s.attempts + 1 && t.ws.None? && (ev == ConnectFails ==> !t.connectingReal)
            && (s.usingMock ==> t.usingMock && t.shown == s.shown && t.mockFeed == s.mockFeed
                                && t.handshakes == s.handshakes && t.mode == s.mode)
            && (!s.usingMock ==> (t.usingMock <==> s.attempts + 1 >= 3 && s.mode != Real))
            && (!s.usingMock && t.usingMock ==> t.mode == FallbackMock && t.handshakes == s.handshakes + 1)
            && (!t.usingMock ==> t.reconnectTimer && t.shown == Reconnecting && t.mode == s.mode)
  {
    hide HandleRealFailure;
    HandlingTells(s.(connectingReal := false));
    if ev.Closes? { HandlingTells(s.(sockets := s.sockets[ev.id := Gone])); }
    UnforcedWhileTrying(s, ev);
  }

  lemma UnforcedWhileTrying(s: State, ev: Event)
    requires Inv(s) && Enabled(s, ev) && Fails(s, ev)
    ensures !s.forced
  {
  }

  lemma HandlingTells(s: State)
    ensures var t := HandleRealFailure(s);
            && t.attempts == s.attempts + 1 && t.ws.None? && t.connectingReal == s.connectingReal
            && (s.usingMock ==> t.usingMock && t.shown == s.shown && t.mockFeed == s.mockFeed
                                && t.handshakes == s.handshakes && t.mode == s.mode)
            && (!s.usingMock ==> (t.usingMock <==> s.attempts + 1 >= 3 && s.mode != Real))
            && (!s.usingMock && t.usingMock ==>
                  t.mode == (if s.forced then ForcedMock else FallbackMock) && t.handshakes == s.handshakes + 1)
            && (!t.usingMock ==> t.reconnectTimer && t.shown == Reconnecting && t.mode == s.mode)
  {
    hide ConnectMock;
    MockTells(s.(ws := None, attempts := s.attempts + 1));
  }

  lemma MockTells(s: State)
    ensures var t := ConnectMock(s);
            && t.usingMock && t.ws.None? && t.attempts == s.attempts && t.connectingReal == s.connectingReal
            && t.mode == (if s.forced then ForcedMock else FallbackMock) && t.handshakes == s.handshakes + 1
  {
    hide SetMode, CloseCurrent;
    SocketDropped(s);
  }

  lemma SocketDropped(s: State)
    ensures var t := CloseCurrent(s);
            && t.ws.None? && t.attempts == s.attempts && t.connectingReal == s.connectingReal
            && t.handshakes == s.handshakes
  {
    if s.ws.Some? {
      var sockets := s.sockets[s.ws.value := Gone];
      assert CloseCurrent(s) == s.(sockets := sockets, ws := None);
    }
  }

  /** REST reaching the real backend ends mock mode at once: the attempts start over, and a fresh one is made unless one
      is under way. */
  lemma RealModeTells(s: State)
    requires Inv(s) && s.usingMock && !s.forced
    ensures var t := Next(s, ModeSet(Real));
            && !t.usingMock && !t.mockFeed && !t.ticker && !t.mockRetryTimer && t.mode == Real && t.attempts == 0
            && t.ws == s.ws && t.sockets == s.sockets && t.connectingReal == (s.connectingReal || s.ws.None?)
            && t.shown == (if s.connectingReal || s.ws.Some? then Reconnecting else Connecting)
  {
  }

  /** An opening socket ends mock mode too, and tells REST. */
  lemma OpenTells(s: State, id: nat)
    requires Inv(s) && Enabled(s, Opens(id))
    ensures var t := Next(s, Opens(id));
            && RealOpen(t) && t.ws == Some(id) && !t.usingMock && !t.mockFeed && !t.ticker && !t.mockRetryTimer
            && t.mode == Real && t.shown == Open && t.attempts == 0
  {
  }

  lemma HandshakeTells(s: State)
    requires Enabled(s, HandshakeTimeout)
    ensures var t := Next(s, HandshakeTimeout);
            && t.handshakes + 1 == s.handshakes && t.mockFeed == (s.usingMock || s.mockFeed)
            && (s.usingMock ==> t.shown == Open) && (!s.usingMock ==> t.shown == s.shown)
  {
  }

  /** Attempts refused one after the other, each after the back-off of the one before. */
  function Refusals(n: nat): seq<Event>
  {
    if n == 0 then [] else [ConnectFails, ReconnectTick] + Refusals(n - 1)
  }

  /** While REST reaches the real backend, however many attempts are refused, the manager keeps trying. */
  lemma {:induction false} RealNeverFallsBack(s: State, n: nat) returns (t: State)
    requires Inv(s) && s.started && !s.usingMock && s.connectingReal && s.mode == Real
    ensures Reaches(s, Refusals(n), t)
    ensures !t.usingMock && t.connectingReal && t.mode == Real && t.attempts == s.attempts + n
    decreases n
  {
    if n == 0 {
      t := s;
    } else {
      var next := RefusedOnce(s);
      t := RealNeverFallsBack(next, n - 1);
      TwoSteps(s, next, Refusals(n - 1), t);
    }
  }

  lemma RefusedOnce(s: State) returns (next: State)
    requires Inv(s) && s.started && !s.usingMock && s.connectingReal && (s.mode == Real || s.attempts < 2)
    ensures Inv(next) && next.started && !next.usingMock && next.connectingReal && next.mode == s.mode
    ensures next.attempts == s.attempts + 1
    ensures Enabled(s, ConnectFails) && Enabled(Next(s, ConnectFails), ReconnectTick)
    ensures next == Next(Next(s, ConnectFails), ReconnectTick)
  {
    hide Next;
    InvNext(s, ConnectFails);
    FailureTells(s, ConnectFails);
    var u := Next(s, ConnectFails);
    next := Next(u, ReconnectTick);
    InvNext(u, ReconnectTick);
    TicksAgain(u);
  }

  lemma TicksAgain(u: State)
    requires Inv(u) && u.started && !u.usingMock && u.reconnectTimer
    ensures var t := Next(u, ReconnectTick);
            t.started && !t.usingMock && t.connectingReal && t.mode == u.mode && t.attempts == u.attempts
  {
  }

  lemma TwoSteps(s: State, next: State, rest: seq<Event>, t: State)
    requires Enabled(s, ConnectFails) && Enabled(Next(s, ConnectFails), ReconnectTick)
    requires next == Next(Next(s, ConnectFails), ReconnectTick) && Reaches(next, rest, t)
    ensures Reaches(s, [ConnectFails, ReconnectTick] + rest, t)
  {
    hide Next, Enabled;
    var evs := [ConnectFails, ReconnectTick] + rest;
    assert evs[1..] == [ReconnectTick] + rest && evs[1..][1..] == rest;
  }

  /** Otherwise the third refusal in a row brings the mocks, and not before. */
  lemma ThirdRefusalFallsBack(s: State) returns (u: State, t: State)
    requires Inv(s) && s.started && !s.usingMock && s.connectingReal && s.attempts == 0 && s.mode != Real
    ensures Reaches(s, Refusals(2), u) && !u.usingMock
    ensures Reaches(u, [ConnectFails], t) && t.usingMock && t.mode == FallbackMock
  {
    hide Next;
    var a := RefusedOnce(s);
    u := RefusedOnce(a);
    assert Refusals(1) == [ConnectFails, ReconnectTick] + [];
    TwoSteps(a, u, [], u);
    TwoSteps(s, a, Refusals(1), u);
    FailureTells(u, ConnectFails);
    t := Next(u, ConnectFails);
    assert [ConnectFails][1..] == [];
  }

  // ------------------------------------------------------------------ the manager

  /** The manager's fields with the mode store and the browser's timers and sockets it works on. Every handler
      is proved to do what its function above says. */
  class LiveSocketManager {
    const forced: bool
    var started: bool
    var listening: bool
    var ws: Option<nat>
    var usingMock: bool
    var connectingReal: bool
    var attempts: nat
    var reconnectTimer: bool
    var mockRetryTimer: bool
    var handshakes: nat
    var mockFeed: bool
    var ticker: bool
    var mode: Mode
    var shown: Shown
    var sockets: map<nat, Phase>
    var nextId: nat

    ghost function View(): State
      reads this
    {
      State(forced, started, listening, ws, usingMock, connectingReal, attempts, reconnectTimer, mockRetryTimer,
            handshakes, mockFeed, ticker, mode, shown, sockets, nextId)
    }

    constructor (forceMocks: bool)
      ensures View() == Initial(forceMocks)
    {
      forced, started, listening, ws, usingMock, connectingReal := forceMocks, false, false, None, false, false;
      attempts, reconnectTimer, mockRetryTimer, handshakes := 0, false, false, 0;
      mockFeed, ticker, mode := false, false, if forceMocks then ForcedMock else Unknown;
      shown, sockets, nextId := Connecting, map[], 0;
    }

    method Begin()
      modifies this
      ensures View() == Next(old(View()), StartCall)
    {
      hide ConnectMock, ConnectReal;
      if started { return; }
      started := true;
      if !forced { listening := true; }
      if forced || mode == FallbackMock { FallToMock(); } else { Connect(); }
    }

    method SetBackendMode(next: Mode)
      modifies this
      ensures View() == SetMode(old(View()), next)
    {
      if mode == next { return; }
      mode := next;
      if listening && mode == Real && usingMock { Resume(); }
    }

    method CloseSocket()
      modifies this
      ensures View() == CloseCurrent(old(View()))
    {
      if ws.Some? {
        sockets := sockets[ws.value := Gone];
        ws := None;
      }
    }

    /** The rest of `connectMock`, once the mode is set. */
    method StartMockFeed()
      modifies this
      ensures View() == old(View()).(ticker := true, shown := Connecting, handshakes := old(handshakes) + 1,
                                     mockRetryTimer := old(mockRetryTimer) || !forced)
    {
      ticker := true;
      shown := Connecting;
      handshakes := handshakes + 1;
      if !forced && !mockRetryTimer { mockRetryTimer := true; }
    }

    method FallToMock()
      modifies this
      ensures View() == ConnectMock(old(View()))
    {
      hide SetMode, CloseCurrent;
      CloseSocket();
      usingMock := true;
      SetBackendMode(if forced then ForcedMock else FallbackMock);
      StartMockFeed();
    }

    method Detach()
      modifies this
      ensures View() == DetachMock(old(View()))
    {
      usingMock := false;
      mockFeed := false;
      if mockRetryTimer { mockRetryTimer := false; }
      ticker := false;
    }

    method Resume()
      modifies this
      ensures View() == ResumeReal(old(View()))
    {
      hide DetachMock, ConnectReal;
      if !usingMock { return; }
      Detach();
      attempts := 0;
      shown := Reconnecting;
      Connect();
    }

    /** `connectReal` up to its `await`. */
    method Connect()
      modifies this
      ensures View() == ConnectReal(old(View()))
    {
      if connectingReal || ws.Some? { return; }
      connectingReal := true;
      if !usingMock { shown := if attempts == 0 then Connecting else Reconnecting; }
    }

    method CountFailure()
      modifies this
      ensures View() == old(View()).(ws := None, attempts := old(attempts) + 1)
    {
      ws := None;
      attempts := attempts + 1;
    }

    method HandleFailure()
      modifies this
      ensures View() == HandleRealFailure(old(View()))
    {
      hide ConnectMock;
      CountFailure();
      if usingMock { return; }
      if attempts >= MAX_REAL_ATTEMPTS && mode != Real {
        FallToMock();
        return;
      }
      ArmReconnect();
    }

    method ArmReconnect()
      modifies this
      ensures View() == old(View()).(shown := Reconnecting, reconnectTimer := true)
    {
      shown := Reconnecting;
      reconnectTimer := true;
    }

    method OnHandshakeTimeout()
      requires handshakes > 0
      modifies this
      ensures View() == Next(old(View()), HandshakeTimeout)
    {
      handshakes := handshakes - 1;
      if !usingMock { return; }
      shown := Open;
      mockFeed := true;
    }

    method OnMockRetry()
      requires mockRetryTimer
      modifies this
      ensures View() == Next(old(View()), MockRetryTick)
    {
      Connect();
    }

    method OnReconnectTimer()
      requires reconnectTimer
      modifies this
      ensures View() == Next(old(View()), ReconnectTick)
    {
      reconnectTimer := false;
      Connect();
    }

    method OnConnectFailed()
      requires connectingReal
      modifies this
      ensures View() == Next(old(View()), ConnectFails)
    {
      connectingReal := false;
      HandleFailure();
    }

    /** The rest of `connectReal` once the token is there and the socket exists. */
    method OnSocketMade()
      requires connectingReal
      modifies this
      ensures View() == Next(old(View()), ConnectMakesSocket)
    {
      sockets := sockets[nextId := Pending];
      ws := Some(nextId);
      nextId := nextId + 1;
      connectingReal := false;
    }

    method OnOpen(id: nat)
      requires id in sockets && sockets[id] == Pending
      modifies this
      ensures View() == Next(old(View()), Opens(id))
    {
      hide SetMode, DetachMock, Next, Enabled;
      OpensIs(View(), id);
      MarkOpen(id);
      Detach();
      SetBackendMode(Real);
      shown := Open;
    }

    method MarkOpen(id: nat)
      modifies this
      ensures View() == old(View()).(sockets := old(sockets)[id := Live], attempts := 0)
    {
      sockets := sockets[id := Live];
      attempts := 0;
    }

    method OnClose(id: nat)
      requires id in sockets && sockets[id] != Gone
      modifies this
      ensures View() == Next(old(View()), Closes(id))
    {
      sockets := sockets[id := Gone];
      if ws != Some(id) { return; }
      HandleFailure();
    }
  }
}
