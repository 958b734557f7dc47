/** Whole runs of the timers (ke/timer.c): callers, running DPCs, the clock and the scan thread take steps in any order.
    What each step does, what every run keeps, and that an undisturbed scan pass serves every timer that is due. */
module TimerRuns {
  import opened Common
  import opened TimerLog
  import opened Timers

  /** What may happen next: a caller or a running DPC arms or cancels any timer, the clock ticks, or the scan thread
      takes its next step. */
  datatype Event = Set(timer: nat, dueTime: int, period: int, dpc: Option<nat>) | Stop(timer: nat) | Clock | Scan

  /** The scan thread: about to walk the list, about to take a fired timer, or running a DPC. */
  datatype Scanner = Polling | Draining | InDpc(timer: nat, dpc: Option<nat>)

  datatype Snap = Snap(now: nat, active: seq<nat>, fired: seq<nat>, timers: seq<Timer>, log: seq<Entry>, pc: Scanner)

  /** What arming timer `t` makes of `a`. */
  function AfterArm(a: Snap, e: Entry): Snap
    requires e.Armed? && e.timer < |a.timers|
  {
    a.(active := Unlinked(a.active, e.timer) + [e.timer], fired := Unlinked(a.fired, e.timer),
       timers := a.timers[e.timer := Timer(e.due, e.period, e.dpc, false)], log := a.log + [e])
  }

  /** The step from `a` to `b`: callers add their own entry; a walk moves exactly the expired timers; a fired timer is
      taken and logged; after its DPC it is armed again exactly when it is periodic and was not cancelled meanwhile. */
  ghost predicate Steps(a: Snap, event: Event, b: Snap) {
    match event
    case Set(t, dueTime, period, dpc) =>
      if t >= |a.timers| then b == a
      else b == AfterArm(a, Armed(t, DueTicks(a.now, dueTime), period, dpc, false, a.now))
    case Stop(t) =>
      if t >= |a.timers| then b == a
      else b == a.(active := Unlinked(a.active, t), fired := Unlinked(a.fired, t),
                   timers := a.timers[t := a.timers[t].(cancelled := true)], log := a.log + [Cancelled(t, a.now)])
    case Clock => b == a.(now := a.now + 1)
    case Scan => Scans(a, b)
  }

  ghost predicate Scans(a: Snap, b: Snap) {
    match a.pc
    case Polling =>
      && InRange(a.active, |a.timers|)
      && b == a.(active := Unexpired(a.timers, a.now, a.active), fired := Expired(a.timers, a.now, a.active),
                 pc := if Expired(a.timers, a.now, a.active) == [] then Polling else Draining)
    case Draining =>
      if a.fired == [] then b == a.(pc := Polling)
      else
        && a.fired[0] < |a.timers|
        && var t := a.fired[0];
           b == a.(fired := a.fired[1..], pc := InDpc(t, a.timers[t].dpc), log := a.log + [Fired(t, a.timers[t].dpc, a.now)])
    case InDpc(t, dpc) =>
      && t < |a.timers|
      && var x := a.timers[t];
         if x.period != 0 && !x.cancelled then
           b == AfterArm(a, Armed(t, NextDue(a.now, x.period), x.period, dpc, true, a.now)).(pc := Draining)
         else
           b == a.(timers := a.timers[t := x.(cancelled := false)], pc := Draining)
  }

  /** What every state keeps: the lists, the fields and a sound log agree. */
  ghost predicate Right(a: Snap) {
    && Good(a.active, a.fired, a.timers, a.now, a.log)
    && (a.pc == Polling ==> a.fired == [])
    && (a.pc.InDpc? ==> a.pc.timer < |a.timers| && LastArm(a.log, a.pc.timer).Some?)
  }

  ghost function SnapOf(q: TimerQueue, pc: Scanner): Snap
    reads q
  {
    Snap(q.now, q.active, q.fired, q.timers, q.log, pc)
  }

  /** A timer once armed has a latest arm for good. */
  lemma KeepsArm(log: seq<Entry>, pc: Scanner, e: Entry)
    requires pc.InDpc? ==> LastArm(log, pc.timer).Some?
    ensures pc.InDpc? ==> LastArm(log + [e], pc.timer).Some?
  {
    if pc.InDpc? { Append(log, e, pc.timer); }
  }

  method ScanOne(q: TimerQueue, before: Scanner) returns (pc: Scanner)
    requires Right(SnapOf(q, before))
    modifies q
    ensures Right(SnapOf(q, pc)) && Scans(old(SnapOf(q, before)), SnapOf(q, pc))
  {
    pc := before;
    match pc
    case Polling =>
      q.Collect();
      pc := if q.fired == [] then Polling else Draining;
    case Draining =>
      if q.fired == [] {
        pc := Polling;
      } else {
        var t, dpc, _ := q.TakeFired();
        pc := InDpc(t, dpc);
      }
    case InDpc(t, dpc) =>
      q.Rearm(t, dpc);
      pc := Draining;
  }

  /** Every event does exactly what Steps says. */
  method One(q: TimerQueue, before: Scanner, event: Event) returns (pc: Scanner)
    requires Right(SnapOf(q, before))
    modifies q
    ensures Right(SnapOf(q, pc)) && Steps(old(SnapOf(q, before)), event, SnapOf(q, pc))
  {
    pc := before;
    match event
    case Set(t, dueTime, period, dpc) =>
      if t < |q.timers| {
        KeepsArm(q.log, before, Armed(t, DueTicks(q.now, dueTime), period, dpc, false, q.now));
        hide Good;
        var _ := q.Arm(t, dueTime, period, dpc, false);
      }
    case Stop(t) =>
      if t < |q.timers| {
        KeepsArm(q.log, before, Cancelled(t, q.now));
        hide Good;
        var _ := q.Cancel(t);
      }
    case Clock => q.Tick();
    case Scan =>
      hide Good, Scans;
      pc := ScanOne(q, before);
  }

  // ---- Runs ---------------------------------------------------------------

  ghost function At(states: seq<Snap>, i: int): Snap {
    if 0 <= i < |states| then states[i] else Snap(0, [], [], [], [], Polling)
  }

  ghost predicate IsRun(states: seq<Snap>, events: seq<Event>) {
    && |states| == |events| + 1
    && (forall i :: 0 <= i < |states| ==> Right(states[i]))
    && (forall i {:trigger events[i]} :: 0 <= i < |events| ==> Steps(states[i], events[i], At(states, i + 1)))
  }

  lemma RunGrows(states: seq<Snap>, events: seq<Event>, n: nat, b: Snap)
    requires n < |events| && IsRun(states, events[..n]) && Right(b) && Steps(states[n], events[n], b)
    ensures IsRun(states + [b], events[..n + 1])
  {
    var ss := states + [b];
    forall i | 0 <= i <= n ensures Steps(ss[i], events[..n + 1][i], At(ss, i + 1)) {
      if i < n { assert Steps(states[i], events[..n][i], At(states, i + 1)); }
    }
  }

  /** Every run, with DPCs and callers free to arm or cancel any timer at any point: each step is as it must be, the log
      stays sound, and a timer is linked exactly while it is armed and has neither been cancelled nor fired since. */
  method Run(q: TimerQueue, events: seq<Event>) returns (pc: Scanner, ghost states: seq<Snap>)
    requires q.Valid() && q.fired == []
    modifies q
    ensures q.Valid() && Sound(q.log) && IsRun(states, events)
    ensures states[0] == old(SnapOf(q, Polling)) && states[|events|] == SnapOf(q, pc)
    ensures forall t :: 0 <= t < |q.timers| ==> (Pending(q.log, t).Some? <==> t in q.active || t in q.fired)
  {
    pc, states := Polling, [SnapOf(q, Polling)];
    for i := 0 to |events|
      invariant Right(SnapOf(q, pc)) && |states| == i + 1 && IsRun(states, events[..i])
      invariant states[0] == old(SnapOf(q, Polling)) && states[i] == SnapOf(q, pc)
    {
      hide IsRun, Right, Steps;
      pc := One(q, pc, events[i]);
      RunGrows(states, events, i, SnapOf(q, pc));
      states := states + [SnapOf(q, pc)];
    }
    assert events[..|events|] == events;
    forall t | 0 <= t < |q.timers| ensures Pending(q.log, t).Some? <==> t in q.active || t in q.fired {
      assert Agrees(q.timers[t], t, t in q.active || t in q.fired, q.log);
    }
  }

  /** The same from KeTimerInitSystem on. */
  method RunFromStart(n: nat, events: seq<Event>) returns (pc: Scanner, ghost states: seq<Snap>)
    ensures IsRun(states, events) && states[0].log == [] && states[0].active == [] && |states[0].timers| == n
    ensures states[0].now == 0 && states[0].pc == Polling && states[|events|].pc == pc
  {
    var q := new TimerQueue(n);
    hide IsRun;
    pc, states := Run(q, events);
  }

  // ---- A scan pass serves every timer that is due -------------------------

  /** What a pass adds to the log: each fired timer in turn, followed by its new arm if it is periodic. */
  ghost function PassLog(ts: seq<Timer>, now: nat, fs: seq<nat>): seq<Entry>
    requires InRange(fs, |ts|)
    decreases |fs|
  {
    if fs == [] then [] else Served(ts[fs[0]], fs[0], now) + PassLog(ts, now, fs[1..])
  }

  ghost function Served(x: Timer, t: nat, now: nat): seq<Entry> {
    [Fired(t, x.dpc, now)] + if x.period != 0 then [Armed(t, NextDue(now, x.period), x.period, x.dpc, true, now)] else []
  }

  lemma {:induction false} PassLogSame(ts: seq<Timer>, us: seq<Timer>, now: nat, fs: seq<nat>)
    requires InRange(fs, |ts|) && |us| == |ts| && forall i :: 0 <= i < |fs| ==> us[fs[i]] == ts[fs[i]]
    ensures PassLog(us, now, fs) == PassLog(ts, now, fs)
    decreases |fs|
  {
    if fs != [] { PassLogSame(ts, us, now, fs[1..]); }
  }

  /** Two undisturbed steps of the scan thread serve the first fired timer. */
  lemma ServesFirst(a: Snap, b: Snap, c: Snap)
    requires Right(a) && a.pc == Draining && a.fired != [] && Scans(a, b) && Scans(b, c)
    ensures c.pc == Draining && c.now == a.now && c.fired == a.fired[1..] && |c.timers| == |a.timers|
    ensures Distinct(a.fired) && InRange(a.fired, |a.timers|)
    ensures c.log == a.log + Served(a.timers[a.fired[0]], a.fired[0], a.now)
    ensures forall t :: 0 <= t < |a.timers| && t != a.fired[0] ==> c.timers[t] == a.timers[t]
  {
    var t := a.fired[0];
    assert Lists(a.active, a.fired, |a.timers|);
    assert !a.timers[t].cancelled && t !in a.fired[1..] by {
      assert t in a.fired && Agrees(a.timers[t], t, true, a.log);
    }
    hide Right, Lists;
    assert b == a.(fired := a.fired[1..], pc := InDpc(t, a.timers[t].dpc), log := a.log + [Fired(t, a.timers[t].dpc, a.now)]);
    if a.timers[t].period != 0 {
      AfterFiring(a.log, [Fired(t, a.timers[t].dpc, a.now)], c.log[|b.log|..]);
    } else {
      assert a.log + [Fired(t, a.timers[t].dpc, a.now)] == a.log + ([Fired(t, a.timers[t].dpc, a.now)] + []);
    }
  }

  lemma AfterFiring(log: seq<Entry>, x: seq<Entry>, y: seq<Entry>)
    ensures log + x + y == log + (x + y)
  {
  }

  lemma Drained(a: Snap, b: Snap)
    requires a.pc == Draining && a.fired == [] && Scans(a, b)
    ensures b == a.(pc := Polling) && InRange(a.fired, |a.timers|) && b.log == a.log + PassLog(a.timers, a.now, a.fired)
  {
    assert a.log + [] == a.log;
  }

  /** A stretch of the run in which only the scan thread moves. */
  ghost predicate OnlyScans(events: seq<Event>, i: nat, n: nat) {
    i + n <= |events| && forall j :: i <= j < i + n ==> events[j] == Scan
  }

  lemma ScanAt(states: seq<Snap>, events: seq<Event>, i: nat)
    requires IsRun(states, events) && i < |events| && events[i] == Scan
    ensures Right(states[i]) && Scans(states[i], states[i + 1]) && InRange(states[i].active, |states[i].timers|)
    ensures |states| == |events| + 1
  {
    assert Steps(states[i], events[i], At(states, i + 1));
  }

  lemma {:induction false} DrainsAll(states: seq<Snap>, events: seq<Event>, i: nat, n: nat)
    requires IsRun(states, events) && OnlyScans(events, i, 2 * n + 1)
    requires states[i].pc == Draining && |states[i].fired| == n
    ensures var a, b := states[i], states[i + 2 * n + 1];
            && InRange(a.fired, |a.timers|) && b.pc == Polling && b.now == a.now
            && b.log == a.log + PassLog(a.timers, a.now, a.fired)
    decreases n
  {
    hide IsRun, Scans, Right, Served, PassLog;
    ScanAt(states, events, i);
    if n == 0 {
      Drained(states[i], states[i + 1]);
    } else {
      ScanAt(states, events, i + 1);
      ServesFirst(states[i], states[i + 1], states[i + 2]);
      Chained(states[i], states[i + 2]);
      assert (i + 2) + 2 * (n - 1) + 1 == i + 2 * n + 1;
      DrainsAll(states, events, i + 2, n - 1);
    }
  }

  lemma Chained(a: Snap, c: Snap)
    requires a.fired != [] && InRange(a.fired, |a.timers|) && c.fired == a.fired[1..] && Distinct(a.fired)
    requires |c.timers| == |a.timers| && forall t :: 0 <= t < |a.timers| && t != a.fired[0] ==> c.timers[t] == a.timers[t]
    requires c.log == a.log + Served(a.timers[a.fired[0]], a.fired[0], a.now)
    ensures InRange(c.fired, |c.timers|)
    ensures c.log + PassLog(c.timers, a.now, c.fired) == a.log + PassLog(a.timers, a.now, a.fired)
  {
    PassLogSame(a.timers, c.timers, a.now, c.fired);
    var first, rest := Served(a.timers[a.fired[0]], a.fired[0], a.now), PassLog(a.timers, a.now, a.fired[1..]);
    assert a.log + first + rest == a.log + (first + rest);
  }

  lemma {:induction false} PendingUntouched(log: seq<Entry>, more: seq<Entry>, t: nat)
    requires forall e :: e in more ==> e.timer != t
    ensures Pending(log + more, t) == Pending(log, t)
    decreases |more|
  {
    if more == [] {
      assert log + more == log;
    } else {
      var k := |more| - 1;
      assert log + more == (log + more[..k]) + [more[k]];
      Append(log + more[..k], more[k], t);
      PendingUntouched(log, more[..k], t);
    }
  }

  lemma {:induction false} PassServes(log: seq<Entry>, ts: seq<Timer>, now: nat, fs: seq<nat>, t: nat)
    requires InRange(fs, |ts|) && Distinct(fs)
    ensures t in fs ==>
              && Fired(t, ts[t].dpc, now) in PassLog(ts, now, fs)
              && Pending(log + PassLog(ts, now, fs), t) ==
                 if ts[t].period != 0 then Some(Armed(t, NextDue(now, ts[t].period), ts[t].period, ts[t].dpc, true, now)) else None
    ensures t !in fs ==> forall e :: e in PassLog(ts, now, fs) ==> e.timer != t
    decreases |fs|
  {
    if fs != [] {
      var first, rest := Served(ts[fs[0]], fs[0], now), PassLog(ts, now, fs[1..]);
      assert fs == [fs[0]] + fs[1..];
      PassServes(log + first, ts, now, fs[1..], t);
      assert log + first + rest == log + (first + rest);
      if t == fs[0] {
        PendingUntouched(log + first, rest, t);
        assert (log + first)[..|log + first| - 1] == log + first[..|first| - 1];
        assert first[0] in first + rest;
      }
    }
  }

  /** In every run: when the scan thread starts a pass and nothing else happens until it is through, every timer that
      was due then has fired at that very tick, with its DPC, and every such timer with a positive period is pending
      again, due that many ticks later. */
  lemma DueTimersFire(states: seq<Snap>, events: seq<Event>, i: nat, n: nat, t: nat)
    requires IsRun(states, events) && n > 0 && OnlyScans(events, i, 2 * n + 2) && states[i].pc == Polling
    requires var a := states[i]; InRange(a.active, |a.timers|) && n == |Expired(a.timers, a.now, a.active)|
    requires t in states[i].active && t < |states[i].timers| && states[i].timers[t].due <= states[i].now
    ensures FiredInPass(states[i], t, states[i + 2 * n + 2])
  {
    var a := states[i];
    hide IsRun;
    ScanAt(states, events, i);
    StartsPass(a, states[i + 1], t);
    hide Scans, Right, Expired, Unexpired;
    assert (i + 1) + 2 * n + 1 == i + 2 * n + 2;
    DrainsAll(states, events, i + 1, n);
    PassResult(a, states[i + 1].fired, t, states[i + 2 * n + 2]);
  }

  lemma StartsPass(a: Snap, b: Snap, t: nat)
    requires Right(a) && a.pc == Polling && Scans(a, b) && t in a.active && t < |a.timers| && a.timers[t].due <= a.now
    requires InRange(a.active, |a.timers|) && Expired(a.timers, a.now, a.active) != []
    ensures b.fired == Expired(a.timers, a.now, a.active) && b.pc == Draining
    ensures b.timers == a.timers && b.now == a.now && b.log == a.log && Distinct(b.fired) && t in b.fired
  {
    assert Lists(a.active, a.fired, |a.timers|) && Agrees(a.timers[t], t, true, a.log);
    Split(a.timers, a.now, a.active);
  }

  lemma PassResult(a: Snap, due: seq<nat>, t: nat, b: Snap)
    requires InRange(due, |a.timers|) && Distinct(due) && t in due && b.pc == Polling && b.now == a.now
    requires b.log == a.log + PassLog(a.timers, a.now, due)
    ensures FiredInPass(a, t, b)
  {
    PassServes(a.log, a.timers, a.now, due, t);
    NextDueMeans(a.now, a.timers[t].period);
    assert b.log[|a.log|..] == PassLog(a.timers, a.now, due);
  }

  /** Timer `t`, due in `a`, has fired by `b` at the tick of `a`; its period says whether and for when it is pending. */
  ghost predicate FiredInPass(a: Snap, t: nat, b: Snap) {
    && t < |a.timers| && b.pc == Polling && b.now == a.now && a.log <= b.log
    && Fired(t, a.timers[t].dpc, a.now) in b.log[|a.log|..]
    && var x := a.timers[t];
       && (x.period > 0 ==> Pending(b.log, t) == Some(Armed(t, a.now + x.period, x.period, x.dpc, true, a.now)))
       && (x.period == 0 ==> Pending(b.log, t) == None)
  }
}
