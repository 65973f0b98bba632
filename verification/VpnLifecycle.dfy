/** The shared enable flag of `vpn.c` and the threads that read and write it, as interleaved steps.
    The command thread, every client thread and every monitor thread move one access at a time. */
module VpnLifecycle {

  /** `openvpn_start`: running, returned from `openvpn_client`, past its write to the flag. */
  datatype Client = Running | Exiting | Gone

  /** `openvpn_check_connection_task`: still looping, or left because the flag was off. */
  datatype Monitor = Checking | Ended

  /** Where the command thread is inside `msgprocess`. */
  datatype Command = Waiting | Accepted | SpawnClient | SpawnMonitor | Stopping

  /** `starts` numbers the STARTs that set the flag; `stopped` records a STOP since the last one. */
  datatype State = State(
    enabled: bool, command: Command, starts: nat, stopped: bool,
    clients: map<nat, Client>, monitors: map<nat, Monitor>)

  const INIT: State := State(false, Waiting, 0, false, map[], map[])

  datatype Event =
    | Start | SetEnable | ClientCreated(ok: bool) | MonitorCreated(ok: bool)
    | Stop | SetDisable | Restart
    | ClientReturns(id: nat) | ClientDisables(id: nat) | MonitorLooks(id: nat)

  predicate Possible(s: State, e: Event) {
    match e
    case Start | Stop | Restart => s.command == Waiting
    case SetEnable => s.command == Accepted
    case ClientCreated(_) => s.command == SpawnClient
    case MonitorCreated(_) => s.command == SpawnMonitor
    case SetDisable => s.command == Stopping
    case ClientReturns(id) => id in s.clients && s.clients[id] == Running
    case ClientDisables(id) => id in s.clients && s.clients[id] == Exiting
    case MonitorLooks(id) => id in s.monitors && s.monitors[id] == Checking
  }

  function Next(s: State, e: Event): State
    requires Possible(s, e)
  {
    match e
    case Start => if s.enabled then s else s.(command := Accepted)
    case SetEnable => s.(enabled := true, command := SpawnClient, starts := s.starts + 1, stopped := false)
    case ClientCreated(ok) =>
      if ok then s.(clients := s.clients[s.starts := Running], command := SpawnMonitor) else s.(command := Waiting)
    case MonitorCreated(ok) =>
      (if ok then s.(monitors := s.monitors[s.starts := Checking]) else s).(command := Waiting)
    case Stop => if s.enabled then s.(command := Stopping) else s
    case SetDisable => s.(enabled := false, command := Waiting, stopped := true)
    case Restart => s
    case ClientReturns(id) => s.(clients := s.clients[id := Exiting])
    case ClientDisables(id) => s.(enabled := false, clients := s.clients[id := Gone])
    case MonitorLooks(id) => if s.enabled then s else s.(monitors := s.monitors[id := Ended])
  }

  ghost predicate IsRun(s: State, events: seq<Event>, s': State)
    decreases |events|
  {
    if events == [] then s' == s
    else Possible(s, events[0]) && IsRun(Next(s, events[0]), events[1..], s')
  }

  // ----- what the events do to the flag and the threads -----

  /** A RESTART, a START while the flag is on and a STOP while it is off leave everything as it is. */
  lemma RefusedCommands(s: State)
    requires s.command == Waiting
    ensures Next(s, Restart) == s
    ensures s.enabled ==> Next(s, Start) == s
    ensures !s.enabled ==> Next(s, Stop) == s
  {
  }

  predicate WritesFlag(e: Event) {
    e == SetEnable || e == SetDisable || e.ClientDisables?
  }

  /** The event at `k` is the last that writes the flag. */
  predicate LastWrite(events: seq<Event>, k: nat) {
    k < |events| && WritesFlag(events[k]) && forall e :: e in events[k + 1..] ==> !WritesFlag(e)
  }

  lemma FlagStep(s: State, e: Event)
    requires Possible(s, e)
    ensures Next(s, e).enabled <==> if WritesFlag(e) then e == SetEnable else s.enabled
    ensures Next(s, e).stopped <==> e == SetDisable || (s.stopped && e != SetEnable)
    ensures Next(s, e).starts == s.starts + if e == SetEnable then 1 else 0
  {
  }

  /** The flag is what the last write to it says: on behind a START that set it, off behind a STOP or a
      client's exit, and untouched by everything else. */
  lemma {:induction false} FlagIsLastWrite(s: State, events: seq<Event>, s': State)
    requires IsRun(s, events, s')
    ensures (forall e :: e in events ==> !WritesFlag(e)) ==> s'.enabled == s.enabled
    ensures forall k: nat :: LastWrite(events, k) ==> (s'.enabled <==> events[k] == SetEnable)
    decreases |events|
  {
    hide WritesFlag;
    if events == [] {
    } else {
      var later := events[1..];
      FlagStep(s, events[0]);
      FlagIsLastWrite(Next(s, events[0]), later, s');
      forall k: nat | LastWrite(events, k) ensures s'.enabled <==> events[k] == SetEnable {
        assert events[k + 1..] == later[k..];
        if k > 0 {
          assert LastWrite(later, k - 1);
        }
      }
      assert events == [events[0]] + later;
    }
  }

  /** So a flag that is on stays on unless a STOP or a client's exit is among the events. */
  lemma FlagStaysOn(s: State, events: seq<Event>, s': State)
    requires IsRun(s, events, s') && s.enabled
    requires SetDisable !in events && forall e :: e in events ==> !e.ClientDisables?
    ensures s'.enabled
    decreases |events|
  {
    if events != [] {
      assert events[0] in events;
      FlagStep(s, events[0]);
      FlagStaysOn(Next(s, events[0]), events[1..], s');
    }
  }

  /** Where the command thread goes; the other threads' steps leave it where it is. */
  lemma CommandStep(s: State, e: Event)
    requires Possible(s, e)
    ensures var c := Next(s, e).command;
            && (e == Start && !s.enabled ==> c == Accepted)
            && (e == SetEnable ==> c == SpawnClient)
            && (e == ClientCreated(true) ==> c == SpawnMonitor)
            && (e == Stop && s.enabled ==> c == Stopping)
            && (e in {SetDisable, ClientCreated(false), MonitorCreated(true), MonitorCreated(false)} ==> c == Waiting)
            && (e.ClientReturns? || e.ClientDisables? || e.MonitorLooks? ==> c == s.command)
  {
  }

  /** Threads come from successful creations only, a client moves only by its own steps, and a monitor
      ends only by looking at the flag and finding it off. */
  lemma ThreadStep(s: State, e: Event)
    requires Possible(s, e)
    ensures var n := Next(s, e);
            && (forall i :: i in n.clients <==> i in s.clients || (e == ClientCreated(true) && i == s.starts))
            && (forall i :: i in n.monitors <==> i in s.monitors || (e == MonitorCreated(true) && i == s.starts))
            && (e == ClientCreated(true) ==> n.clients[s.starts] == Running)
            && (e == MonitorCreated(true) ==> n.monitors[s.starts] == Checking)
            && (forall i :: i in s.clients && !(e == ClientCreated(true) && i == s.starts) ==>
                  n.clients[i] == if e == ClientReturns(i) then Exiting else if e == ClientDisables(i) then Gone
                                  else s.clients[i])
            && (forall i :: i in s.monitors && !(e == MonitorCreated(true) && i == s.starts) ==>
                  n.monitors[i] == if e == MonitorLooks(i) && !s.enabled then Ended else s.monitors[i])
  {
  }

  // ----- every run -----

  ghost predicate Inv(s: State) {
    && (forall i :: i in s.clients || i in s.monitors ==> 1 <= i <= s.starts)
    && (s.command == Accepted ==> !s.enabled)
    && (s.command in {SpawnClient, SpawnMonitor} ==> s.starts >= 1)
    && (s.command == SpawnClient ==> s.starts !in s.clients && s.starts !in s.monitors)
    && (s.command == SpawnMonitor ==> s.starts in s.clients && s.starts !in s.monitors)
    && (s.enabled ==> !s.stopped)
    && (s.enabled && s.starts in s.clients ==> s.clients[s.starts] != Gone)
    && (s.enabled && s.starts in s.monitors ==> s.monitors[s.starts] == Checking)
  }

  lemma InvStep(s: State, e: Event)
    requires Inv(s) && Possible(s, e)
    ensures Inv(Next(s, e))
  {
  }

  lemma {:induction false} InvRun(s: State, events: seq<Event>, s': State)
    requires Inv(s) && IsRun(s, events, s')
    ensures Inv(s')
    decreases |events|
  {
    if events == [] {
    } else {
      InvStep(s, events[0]);
      InvRun(Next(s, events[0]), events[1..], s');
    }
  }

  lemma NewClientIsNew(s: State)
    requires Inv(s) && s.command == SpawnClient
    ensures s.starts !in s.clients
  {
  }

  /** What has become of a client is what its own events say, whatever happens around it. */
  lemma {:induction false} ClientFollowsEvents(s: State, events: seq<Event>, s': State, id: nat)
    requires Inv(s) && IsRun(s, events, s') && id in s.clients
    ensures id in s'.clients
    ensures s'.clients[id] == Running <==> s.clients[id] == Running && ClientReturns(id) !in events
    ensures s'.clients[id] == Gone <==> s.clients[id] == Gone || ClientDisables(id) in events
    decreases |events|
  {
    hide Inv;
    if events == [] {
    } else {
      var n := Next(s, events[0]);
      assert events == [events[0]] + events[1..];
      InvStep(s, events[0]);
      if s.command == SpawnClient {
        NewClientIsNew(s);
      }
      ThreadStep(s, events[0]);
      ClientFollowsEvents(n, events[1..], s', id);
    }
  }

  /** The last START has run to its end, and both threads were created. */
  predicate Settled(s: State) {
    s.command !in {SpawnClient, SpawnMonitor} && s.starts in s.clients && s.starts in s.monitors
  }

  /** While the flag is on, the session of the last START has both its threads. */
  lemma EnabledMeansAlive(events: seq<Event>, s: State)
    requires IsRun(INIT, events, s)
    requires s.enabled && Settled(s)
    ensures s.clients[s.starts] != Gone && s.monitors[s.starts] == Checking
  {
    InvRun(INIT, events, s);
  }

  // ----- runs in which sessions do not overlap -----

  function LiveClients(s: State): set<nat> {
    set i | i in s.clients && s.clients[i] != Gone
  }

  function LiveMonitors(s: State): set<nat> {
    set i | i in s.monitors && s.monitors[i] == Checking
  }

  /** Every thread started so far has ended. */
  predicate Quiet(s: State) {
    LiveClients(s) == {} && LiveMonitors(s) == {}
  }

  /** A run in which every START that finds the flag off finds no thread alive either. */
  ghost predicate IsOrderlyRun(s: State, events: seq<Event>, s': State)
    decreases |events|
  {
    if events == [] then s' == s
    else
      && Possible(s, events[0])
      && (events[0] == Start && !s.enabled ==> Quiet(s))
      && IsOrderlyRun(Next(s, events[0]), events[1..], s')
  }

  ghost predicate OneSession(s: State) {
    && Inv(s)
    && LiveClients(s) <= {s.starts} && LiveMonitors(s) <= {s.starts}
    && (s.command == Accepted ==> Quiet(s))
    && (s.command == SpawnClient ==> s.enabled)
    && (!s.enabled && !s.stopped && s.starts in s.clients ==> s.clients[s.starts] == Gone)
  }

  lemma OneSessionStep(s: State, e: Event)
    requires OneSession(s) && Possible(s, e)
    requires e == Start && !s.enabled ==> Quiet(s)
    ensures OneSession(Next(s, e))
  {
    InvStep(s, e);
    var n := Next(s, e);
    if e.ClientDisables? {
      assert e.id in LiveClients(s);
    }
    forall i | i in LiveClients(n) ensures i == n.starts {
      assert i in LiveClients(s) || i == n.starts;
    }
    forall i | i in LiveMonitors(n) ensures i == n.starts {
      assert i in LiveMonitors(s) || i == n.starts;
    }
  }

  lemma {:induction false} OneSessionRun(s: State, events: seq<Event>, s': State)
    requires OneSession(s) && IsOrderlyRun(s, events, s')
    ensures OneSession(s')
    decreases |events|
  {
    if events == [] {
    } else {
      OneSessionStep(s, events[0]);
      OneSessionRun(Next(s, events[0]), events[1..], s');
    }
  }

  lemma LiveOnesExist(s: State)
    ensures forall i :: i in LiveClients(s) ==> i in s.clients
    ensures forall i :: i in LiveMonitors(s) ==> i in s.monitors
  {
  }

  /** In an orderly run there is never more than one client and one monitor; while the flag is on
      there is exactly one of each just when the last START has created both, as a settled one has;
      and the flag goes off only through a STOP or through that client's own exit. */
  lemma OrderlyRunsHaveOneSession(events: seq<Event>, s: State)
    requires IsOrderlyRun(INIT, events, s)
    ensures LiveClients(s) <= {s.starts} && LiveMonitors(s) <= {s.starts}
    ensures s.enabled ==>
              (LiveClients(s) == {s.starts} && LiveMonitors(s) == {s.starts}
               <==> s.starts in s.clients && s.starts in s.monitors)
    ensures Settled(s) && !s.enabled && s.clients[s.starts] != Gone ==> s.stopped
  {
    assert LiveClients(INIT) == {} && LiveMonitors(INIT) == {};
    OneSessionRun(INIT, events, s);
    LiveOnesExist(s);
  }

  // ----- a START that fails half-way -----

  /** The flag is on, and no client is left that could take it back. */
  predicate Stuck(s: State) {
    s.enabled && s.command == Waiting && LiveClients(s) == {}
  }

  lemma NoLiveClients(s: State)
    requires LiveClients(s) == {}
    ensures forall i :: i in s.clients ==> s.clients[i] == Gone
  {
    assert forall i :: i in s.clients && s.clients[i] != Gone ==> i in LiveClients(s);
  }

  lemma StuckStep(s: State, e: Event)
    requires Stuck(s) && Possible(s, e) && e != Stop
    ensures Next(s, e) == s
  {
    NoLiveClients(s);
  }

  /** Nothing but a STOP changes anything then: a further START is refused. */
  lemma {:induction false} StuckUntilStop(s: State, events: seq<Event>, s': State)
    requires Stuck(s) && IsRun(s, events, s') && Stop !in events
    ensures s' == s
    decreases |events|
  {
    if events == [] {
    } else {
      assert events[0] in events;
      StuckStep(s, events[0]);
      StuckUntilStop(s, events[1..], s');
    }
  }

  /** Such a state is reached exactly by a START whose client could not be created while no earlier
      client was alive: the flag has been set before. */
  lemma StuckExactlyWhen(s: State, e: Event)
    requires Inv(s) && Possible(s, e) && !Stuck(s)
    ensures Stuck(Next(s, e)) <==> e == ClientCreated(false) && s.enabled && LiveClients(s) == {}
  {
    var n := Next(s, e);
    assert n.clients == s.clients ==> LiveClients(n) == LiveClients(s);
    assert e.MonitorCreated? && s.enabled ==> s.starts in LiveClients(s);
    assert e == ClientCreated(true) ==> s.starts in LiveClients(n);
    assert e.ClientReturns? ==> e.id in LiveClients(n);
  }

  /** The first START may already do it. */
  lemma FailedClientLeavesFlagOn()
    ensures exists s :: IsRun(INIT, [Start, SetEnable, ClientCreated(false)], s) && Stuck(s)
  {
    var s := State(true, Waiting, 1, false, map[], map[]);
    assert IsRun(Next(Next(INIT, Start), SetEnable), [ClientCreated(false)], s) by {
      assert [ClientCreated(false)][1..] == [];
    }
    assert [SetEnable, ClientCreated(false)][1..] == [ClientCreated(false)];
    assert [Start, SetEnable, ClientCreated(false)][1..] == [SetEnable, ClientCreated(false)];
    assert IsRun(Next(INIT, Start), [SetEnable, ClientCreated(false)], s);
    assert IsRun(INIT, [Start, SetEnable, ClientCreated(false)], s);
  }

  // ----- runs in which they do -----

  const FULL_START: seq<Event> := [Start, SetEnable, ClientCreated(true), MonitorCreated(true)]

  function AfterStart(s: State): State {
    State(true, Waiting, s.starts + 1, false,
          s.clients[s.starts + 1 := Running], s.monitors[s.starts + 1 := Checking])
  }

  lemma OneStep(s: State, e: Event)
    requires Possible(s, e)
    ensures IsRun(s, [e], Next(s, e))
  {
    assert [e][1..] == [];
  }

  lemma {:induction false} RunAppend(s: State, a: seq<Event>, t: State, b: seq<Event>, u: State)
    requires IsRun(s, a, t) && IsRun(t, b, u)
    ensures IsRun(s, a + b, u)
    decreases |a|
  {
    if a == [] {
      assert a + b == b;
    } else {
      assert (a + b)[0] == a[0] && (a + b)[1..] == a[1..] + b;
      RunAppend(Next(s, a[0]), a[1..], t, b, u);
    }
  }

  lemma StartRuns(s: State)
    requires s.command == Waiting && !s.enabled
    ensures IsRun(s, FULL_START, AfterStart(s))
  {
    hide IsRun;
    var s1 := Next(s, Start);
    var s2 := Next(s1, SetEnable);
    var s3 := Next(s2, ClientCreated(true));
    OneStep(s, Start);
    OneStep(s1, SetEnable);
    OneStep(s2, ClientCreated(true));
    OneStep(s3, MonitorCreated(true));
    RunAppend(s, [Start], s1, [SetEnable], s2);
    RunAppend(s, [Start] + [SetEnable], s2, [ClientCreated(true)], s3);
    RunAppend(s, [Start] + [SetEnable] + [ClientCreated(true)], s3, [MonitorCreated(true)], AfterStart(s));
    assert FULL_START == [Start] + [SetEnable] + [ClientCreated(true)] + [MonitorCreated(true)];
  }

  /** An accepted START leaves exactly one client and one monitor just when it was orderly. */
  lemma StartIsCleanExactlyWhenQuiet(s: State)
    requires Inv(s) && s.command == Waiting && !s.enabled
    ensures IsRun(s, FULL_START, AfterStart(s))
    ensures var a := AfterStart(s);
            LiveClients(a) == {a.starts} && LiveMonitors(a) == {a.starts} <==> Quiet(s)
  {
    StartRuns(s);
    var a := AfterStart(s);
    assert LiveClients(a) == LiveClients(s) + {a.starts};
    assert LiveMonitors(a) == LiveMonitors(s) + {a.starts};
    assert a.starts !in LiveClients(s) && a.starts !in LiveMonitors(s);
  }

  const REST_OF_START: seq<Event> := [SetEnable, ClientCreated(true), MonitorCreated(true)]

  lemma RestOfStart(s: State)
    requires s.command == Waiting && !s.enabled
    ensures IsOrderlyRun(Next(s, Start), REST_OF_START, AfterStart(s))
  {
    var s1 := Next(s, Start);
    var s2 := Next(s1, SetEnable);
    var s3 := Next(s2, ClientCreated(true));
    assert [MonitorCreated(true)][1..] == [];
    assert [ClientCreated(true), MonitorCreated(true)][1..] == [MonitorCreated(true)];
    assert [SetEnable, ClientCreated(true), MonitorCreated(true)][1..] == [ClientCreated(true), MonitorCreated(true)];
    assert IsOrderlyRun(s3, [MonitorCreated(true)], AfterStart(s));
    assert IsOrderlyRun(s2, [ClientCreated(true), MonitorCreated(true)], AfterStart(s));
  }

  predicate OneAtMost(s: State) {
    LiveClients(s) <= {s.starts} && LiveMonitors(s) <= {s.starts}
  }

  lemma QuietStartStaysSingle(s: State, events: seq<Event>, s': State)
    requires Inv(s) && s.command == Waiting && !s.enabled && Quiet(s)
    requires IsOrderlyRun(Next(s, Start), events, s')
    ensures OneAtMost(s')
  {
    var s0 := Next(s, Start);
    InvStep(s, Start);
    assert LiveClients(s0) == LiveClients(s) && LiveMonitors(s0) == LiveMonitors(s);
    NoLiveClients(s);
    OneSessionRun(s0, events, s');
  }

  lemma LoudStartOverlaps(s: State)
    requires Inv(s) && s.command == Waiting && !s.enabled && !Quiet(s)
    ensures !OneAtMost(AfterStart(s))
  {
    StartIsCleanExactlyWhenQuiet(s);
    var a := AfterStart(s);
    assert a.starts in LiveClients(a) && a.starts in LiveMonitors(a);
    assert LiveClients(a) <= {a.starts} ==> LiveClients(a) == {a.starts};
    assert LiveMonitors(a) <= {a.starts} ==> LiveMonitors(a) == {a.starts};
  }

  /** A START against every other thread: however the steps interleave from here on, as long as later
      STARTs are orderly there is never more than one session, exactly when all earlier threads had
      ended. */
  lemma OneSessionExactlyWhenQuiet(s: State)
    requires Inv(s) && s.command == Waiting && !s.enabled
    ensures (forall events, s' :: IsOrderlyRun(Next(s, Start), events, s') ==> OneAtMost(s')) <==> Quiet(s)
  {
    hide IsOrderlyRun, OneAtMost, Inv, Quiet;
    if Quiet(s) {
      forall events, s' | IsOrderlyRun(Next(s, Start), events, s') ensures OneAtMost(s') {
        QuietStartStaysSingle(s, events, s');
      }
    } else {
      RestOfStart(s);
      LoudStartOverlaps(s);
      var s0, a := Next(s, Start), AfterStart(s);
      assert IsOrderlyRun(s0, REST_OF_START, a) && !OneAtMost(a);
    }
  }

  /** A STOP runs through, too: the flag goes off and every thread is left to see it by itself. */
  lemma StopRuns(s: State)
    requires s.command == Waiting && s.enabled
    ensures IsRun(s, [Stop, SetDisable], s.(enabled := false, stopped := true))
  {
    assert [Stop, SetDisable][1..] == [SetDisable] && [SetDisable][1..] == [];
    OneStep(Next(s, Stop), SetDisable);
  }

  lemma Append(s: State, events: seq<Event>, t: State, e: Event) returns (longer: seq<Event>, u: State)
    requires IsRun(s, events, t) && Possible(t, e)
    ensures IsRun(s, longer, u) && u == Next(t, e)
  {
    longer, u := events + [e], Next(t, e);
    OneStep(t, e);
    RunAppend(s, events, t, [e], u);
  }

  /** START, STOP, START in quick succession: the first client, on its way out, switches off the
      flag of the second session, whose monitor then leaves while its client runs on. */
  lemma LateExitOrphansNewClient() returns (events: seq<Event>, s: State)
    ensures IsRun(INIT, events, s)
    ensures s.starts == 2 && Settled(s) && !s.stopped
    ensures !s.enabled && s.clients[2] == Running && s.monitors[2] == Ended
  {
    hide IsRun;
    StartRuns(INIT);
    events, s := FULL_START, AfterStart(INIT);
    events, s := Append(INIT, events, s, Stop);
    events, s := Append(INIT, events, s, SetDisable);
    StartRuns(s);
    RunAppend(INIT, events, s, FULL_START, AfterStart(s));
    events, s := events + FULL_START, AfterStart(s);
    events, s := Append(INIT, events, s, ClientReturns(1));
    events, s := Append(INIT, events, s, ClientDisables(1));
    events, s := Append(INIT, events, s, MonitorLooks(2));
  }
}
