/** The monitor loop of `vpn.c`: when lost pings make it restart the client. */
module VpnMonitor {

  /** What one pass of the loop finds: the stop flag, no tunnel or no server address, a ping
      without an answer, or an answered ping. */
  datatype Tick = Stopped | Skipped | PingFailed | PingOk

  function AddTick(t: Tick, later: seq<nat>): (r: seq<nat>)
    requires later != []
    ensures r != []
  {
    match t
    case PingOk => [0] + later
    case PingFailed => [later[0] + 1] + later[1..]
    case _ => later
  }

  /** The failed pings in each stretch between two answered ones; passes that are skipped neither
      count nor end a stretch. */
  function Stretches(ticks: seq<Tick>): (s: seq<nat>)
    ensures s != []
  {
    if ticks == [] then [0] else
    AddTick(ticks[0], Stretches(ticks[1..]))
  }

  function Thirds(failures: seq<nat>): nat {
    if failures == [] then 0 else failures[0] / 3 + Thirds(failures[1..])
  }

  /** The passes in front of the first that sees the stop flag. */
  function Active(ticks: seq<Tick>): seq<Tick> {
    if ticks == [] || ticks[0] == Stopped then [] else [ticks[0]] + Active(ticks[1..])
  }

  /** Restarts still to come when `lost` failures of the current stretch are already counted. */
  function Pending(lost: nat, ticks: seq<Tick>): nat {
    var s := Stretches(Active(ticks));
    (s[0] + lost) / 3 + Thirds(s[1..])
  }

  /** The counter at the end when it stands at `lost` now. */
  function Counter(lost: nat, ticks: seq<Tick>): (r: nat)
    ensures r <= 2
  {
    var s := Stretches(Active(ticks));
    if |s| == 1 then (s[0] + lost) % 3 else s[|s| - 1] % 3
  }

  lemma CounterStep(lost: nat, ticks: seq<Tick>)
    requires lost <= 2
    ensures ticks == [] || ticks[0] == Stopped ==> Counter(lost, ticks) == lost
    ensures ticks != [] && ticks[0] == Skipped ==> Counter(lost, ticks) == Counter(lost, ticks[1..])
    ensures ticks != [] && ticks[0] == PingOk ==> Counter(lost, ticks) == Counter(0, ticks[1..])
    ensures ticks != [] && ticks[0] == PingFailed ==>
              Counter(lost, ticks) == Counter(if lost == 2 then 0 else lost + 1, ticks[1..])
  {
    if ticks != [] && ticks[0] != Stopped {
      assert Active(ticks)[1..] == Active(ticks[1..]);
    }
  }

  lemma PendingStep(lost: nat, ticks: seq<Tick>)
    requires lost <= 2
    ensures ticks == [] || ticks[0] == Stopped ==> Pending(lost, ticks) == 0
    ensures ticks != [] && ticks[0] == Skipped ==> Pending(lost, ticks) == Pending(lost, ticks[1..])
    ensures ticks != [] && ticks[0] == PingOk ==> Pending(lost, ticks) == Pending(0, ticks[1..])
    ensures ticks != [] && ticks[0] == PingFailed ==>
              Pending(lost, ticks) == if lost == 2 then 1 + Pending(0, ticks[1..]) else Pending(lost + 1, ticks[1..])
  {
    if ticks != [] && ticks[0] != Stopped {
      assert Active(ticks)[1..] == Active(ticks[1..]);
    }
  }

  lemma PendingAtStart(ticks: seq<Tick>)
    ensures Pending(0, ticks) == Thirds(Stretches(Active(ticks)))
    ensures var s := Stretches(Active(ticks)); Counter(0, ticks) == s[|s| - 1] % 3
  {
  }

  /** Runs the loop over the passes; `lost` is the `unsigned char` that counts failed pings. */
  method CheckConnection(ticks: seq<Tick>) returns (restarts: nat, lost: nat)
    ensures restarts == Thirds(Stretches(Active(ticks)))
    ensures var s := Stretches(Active(ticks)); lost == s[|s| - 1] % 3
    ensures lost <= 2
  {
    hide Stretches, Active, Thirds, Counter;
    restarts := 0;
    lost := 0;
    var i := 0;
    PendingAtStart(ticks);
    assert ticks[0..] == ticks;
    while i < |ticks|
      invariant 0 <= i <= |ticks|
      invariant 0 <= lost <= 2
      invariant restarts + Pending(lost, ticks[i..]) == Thirds(Stretches(Active(ticks)))
      invariant var s := Stretches(Active(ticks)); Counter(lost, ticks[i..]) == s[|s| - 1] % 3
    {
      PendingStep(lost, ticks[i..]);
      CounterStep(lost, ticks[i..]);
      assert ticks[i..][1..] == ticks[i + 1..];
      if ticks[i] == Stopped {
        return;
      }
      if ticks[i] == PingFailed {
        lost := (lost + 1) % 256;
        if lost >= 3 {
          restarts := restarts + 1;
          lost := 0;
        }
      } else if ticks[i] == PingOk {
        lost := 0;
      }
      i := i + 1;
    }
    PendingStep(lost, ticks[i..]);
    CounterStep(lost, ticks[i..]);
  }

  lemma StretchesFirst(t: Tick, rest: seq<Tick>)
    ensures Stretches([t] + rest) == AddTick(t, Stretches(rest))
  {
    assert ([t] + rest)[1..] == rest;
  }

  /** Skipped passes can be left out of the account. */
  lemma {:induction false} SkippedDoNotCount(a: seq<Tick>, b: seq<Tick>)
    ensures Stretches(a + ([Skipped] + b)) == Stretches(a + b)
  {
    hide Stretches;
    if a == [] {
      assert a + ([Skipped] + b) == [Skipped] + b && a + b == b;
      StretchesFirst(Skipped, b);
    } else {
      var later := a[1..];
      assert a + ([Skipped] + b) == [a[0]] + (later + ([Skipped] + b));
      assert a + b == [a[0]] + (later + b);
      StretchesFirst(a[0], later + ([Skipped] + b));
      StretchesFirst(a[0], later + b);
      SkippedDoNotCount(later, b);
    }
  }

  lemma NoTicks()
    ensures Stretches([]) == [0]
  {
  }

  lemma AddTickAppend(t: Tick, a: seq<nat>, b: seq<nat>)
    requires a != [] && b != []
    ensures AddTick(t, a + b) == AddTick(t, a) + b
  {
  }

  lemma {:induction false} ThirdsAppend(a: seq<nat>, b: seq<nat>)
    ensures Thirds(a + b) == Thirds(a) + Thirds(b)
  {
    if a == [] {
      assert a + b == b;
    } else {
      assert (a + b)[1..] == a[1..] + b;
      ThirdsAppend(a[1..], b);
    }
  }

  /** An answered ping closes the account: what follows is counted afresh. */
  lemma {:induction false} AnswerClosesStretch(a: seq<Tick>, b: seq<Tick>)
    ensures Stretches(a + ([PingOk] + b)) == Stretches(a) + Stretches(b)
    ensures Thirds(Stretches(a + ([PingOk] + b))) == Thirds(Stretches(a)) + Thirds(Stretches(b))
  {
    hide Stretches, Thirds;
    ThirdsAppend(Stretches(a), Stretches(b));
    if a == [] {
      assert a + ([PingOk] + b) == [PingOk] + b;
      StretchesFirst(PingOk, b);
      NoTicks();
    } else {
      var later := a[1..];
      assert a == [a[0]] + later;
      assert a + ([PingOk] + b) == [a[0]] + (later + ([PingOk] + b));
      StretchesFirst(a[0], later);
      StretchesFirst(a[0], later + ([PingOk] + b));
      AnswerClosesStretch(later, b);
      AddTickAppend(a[0], Stretches(later), Stretches(b));
    }
  }

  /** Failures alone: a restart for every three, whatever stands behind the pass that sees the flag. */
  lemma {:induction false} EveryThirdFailure(n: nat, rest: seq<Tick>)
    ensures Stretches(seq(n, i => PingFailed)) == [n]
    ensures Thirds([n]) == n / 3
    ensures Active(seq(n, i => PingFailed) + ([Stopped] + rest)) == seq(n, i => PingFailed)
    ensures Active(seq(n, i => PingFailed)) == seq(n, i => PingFailed)
  {
    var ticks := seq(n, i => PingFailed);
    if n == 0 {
      assert ticks + ([Stopped] + rest) == [Stopped] + rest;
      assert ticks == [];
      NoTicks();
    } else {
      var later := seq(n - 1, i => PingFailed);
      assert ticks == [PingFailed] + later;
      assert (ticks + ([Stopped] + rest))[1..] == later + ([Stopped] + rest);
      assert ticks[1..] == later;
      EveryThirdFailure(n - 1, rest);
      StretchesFirst(PingFailed, later);
    }
  }

  /** Without the flag seen off every pass counts. */
  lemma {:induction false} NoneStopped(ticks: seq<Tick>)
    requires Stopped !in ticks
    ensures Active(ticks) == ticks
  {
    if ticks == [] {
    } else {
      NoneStopped(ticks[1..]);
    }
  }

  /** Two failures never restart, the third does. */
  lemma ThirdFailureRestarts()
    ensures Thirds(Stretches(Active([PingFailed, PingFailed]))) == 0
    ensures Thirds(Stretches(Active([PingFailed, PingFailed, PingFailed]))) == 1
    ensures Thirds(Stretches(Active([PingFailed, Skipped, PingFailed, PingOk, PingFailed, PingFailed]))) == 0
  {
    hide Stretches, Active;
    EveryThirdFailure(2, []);
    EveryThirdFailure(3, []);
    assert [PingFailed, PingFailed] == seq(2, i => PingFailed);
    assert [PingFailed, PingFailed, PingFailed] == seq(3, i => PingFailed);
    var ticks := [PingFailed, Skipped, PingFailed, PingOk, PingFailed, PingFailed];
    NoneStopped(ticks);
    assert ticks == [PingFailed, Skipped, PingFailed] + ([PingOk] + [PingFailed, PingFailed]);
    AnswerClosesStretch([PingFailed, Skipped, PingFailed], [PingFailed, PingFailed]);
    assert [PingFailed, Skipped, PingFailed] == [PingFailed] + ([Skipped] + [PingFailed]);
    SkippedDoNotCount([PingFailed], [PingFailed]);
    assert [PingFailed] + [PingFailed] == [PingFailed, PingFailed];
  }
}
