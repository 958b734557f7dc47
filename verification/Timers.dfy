/** Timers (ke/timer.c): arming, cancelling and the scan thread that collects expired timers and runs their DPCs. */
module Timers {
  import opened Common
  import opened TimerLog

  /** The fields of KTIMER; `dpc` is None when there is no DPC or it has no routine. */
  datatype Timer = Timer(due: nat, period: int, dpc: Option<nat>, cancelled: bool)

  predicate InRange(list: seq<nat>, n: nat) { forall i :: 0 <= i < |list| ==> list[i] < n }

  predicate Late(x: Timer, now: nat) { now >= x.due && !x.cancelled }

  /** The timers of `list` that have expired at `now`, and those that have not, in list order. */
  function Expired(ts: seq<Timer>, now: nat, list: seq<nat>): seq<nat>
    requires InRange(list, |ts|)
  {
    if list == [] then []
    else
      var k := |list| - 1;
      Expired(ts, now, list[..k]) + if Late(ts[list[k]], now) then [list[k]] else []
  }

  function Unexpired(ts: seq<Timer>, now: nat, list: seq<nat>): seq<nat>
    requires InRange(list, |ts|)
  {
    if list == [] then []
    else
      var k := |list| - 1;
      Unexpired(ts, now, list[..k]) + if Late(ts[list[k]], now) then [] else [list[k]]
  }

  /** They split the list between them, each timer once. */
  lemma {:induction false} Split(ts: seq<Timer>, now: nat, list: seq<nat>)
    requires InRange(list, |ts|)
    ensures forall t :: t in Expired(ts, now, list) <==> t in list && Late(ts[t], now)
    ensures forall t :: t in Unexpired(ts, now, list) <==> t in list && !Late(ts[t], now)
    ensures Distinct(list) ==> Distinct(Expired(ts, now, list)) && Distinct(Unexpired(ts, now, list))
  {
    if list != [] {
      var k := |list| - 1;
      Split(ts, now, list[..k]);
      assert list == list[..k] + [list[k]];
      assert Distinct(list) ==> list[k] !in list[..k];
    }
  }

  lemma ExpiredNext(ts: seq<Timer>, now: nat, list: seq<nat>, k: nat)
    requires InRange(list, |ts|) && k < |list|
    ensures var late := Late(ts[list[k]], now);
            && Expired(ts, now, list[..k + 1]) == Expired(ts, now, list[..k]) + (if late then [list[k]] else [])
            && Unexpired(ts, now, list[..k + 1]) == Unexpired(ts, now, list[..k]) + (if late then [] else [list[k]])
  {
    assert list[..k + 1][..k] == list[..k];
  }

  lemma NextOf(kept: seq<nat>, rest: seq<nat>)
    requires rest != []
    ensures var w := kept + rest;
            && w[|kept|] == rest[0] && w[..|kept|] == kept && w[|kept| + 1..] == rest[1..]
            && w == kept + [rest[0]] + rest[1..]
  {
  }

  /** Collecting splits one list into two. */
  lemma CollectKeeps(list: seq<nat>, ts: seq<Timer>, now: nat)
    requires InRange(list, |ts|) && Distinct(list)
    ensures var a, f := Unexpired(ts, now, list), Expired(ts, now, list);
            && Lists(a, f, |ts|) && AllDue(f, ts, now)
            && forall t :: t in a || t in f <==> t in list
  {
    var a, f := Unexpired(ts, now, list), Expired(ts, now, list);
    Split(ts, now, list);
    forall i | 0 <= i < |a| ensures a[i] < |ts| {
      assert a[i] in a;
      var j :| 0 <= j < |list| && list[j] == a[i];
    }
    forall i | 0 <= i < |f| ensures f[i] < |ts| && ts[f[i]].due <= now {
      assert f[i] in f;
      var j :| 0 <= j < |list| && list[j] == f[i];
    }
  }

  /** The fields of `x` against what the log says of timer `t`: it is linked exactly while an arm is pending. */
  ghost predicate Agrees(x: Timer, t: nat, linked: bool, log: seq<Entry>) {
    && (linked <==> Pending(log, t).Some?)
    && (linked ==>
          var a := Pending(log, t).value;
          a.due == x.due && a.dpc == x.dpc && !x.cancelled)
    && x.period == (if LastArm(log, t).Some? then LastArm(log, t).value.period else 0)
  }

  /** Two lists without repetitions and without a common timer. */
  ghost predicate Lists(active: seq<nat>, fired: seq<nat>, n: nat) {
    && Distinct(active) && Distinct(fired) && InRange(active, n) && InRange(fired, n)
    && forall t :: t in active ==> t !in fired
  }

  ghost predicate AllDue(fired: seq<nat>, ts: seq<Timer>, now: nat)
    requires InRange(fired, |ts|)
  {
    forall i :: 0 <= i < |fired| ==> ts[fired[i]].due <= now
  }

  ghost predicate AllAgree(active: seq<nat>, fired: seq<nat>, ts: seq<Timer>, log: seq<Entry>) {
    forall t :: 0 <= t < |ts| ==> Agrees(ts[t], t, t in active || t in fired, log)
  }

  lemma UnlinkKeepsLists(active: seq<nat>, fired: seq<nat>, ts: seq<Timer>, now: nat, t: nat, x: Timer)
    requires Lists(active, fired, |ts|) && AllDue(fired, ts, now) && t < |ts|
    ensures var a, f := Unlinked(active, t), Unlinked(fired, t);
            && Lists(a, f, |ts|) && Lists(a + [t], f, |ts|)
            && AllDue(f, ts[t := x], now)
  {
    var a, f := Unlinked(active, t), Unlinked(fired, t);
    forall i | 0 <= i < |a| ensures a[i] < |ts| {
      assert a[i] in a;
      var j :| 0 <= j < |active| && active[j] == a[i];
    }
    forall i | 0 <= i < |f| ensures f[i] < |ts| && f[i] != t && ts[f[i]].due <= now {
      assert f[i] in f;
      var j :| 0 <= j < |fired| && fired[j] == f[i];
    }
  }

  /** After timer `t` alone was given fields `x`, links and a log entry `e` of its own. */
  lemma OthersAgree(active: seq<nat>, fired: seq<nat>, ts: seq<Timer>, log: seq<Entry>, t: nat, x: Timer, e: Entry,
                    a: seq<nat>, f: seq<nat>)
    requires AllAgree(active, fired, ts, log) && t < |ts| && e.timer == t
    requires forall u :: u != t ==> ((u in a || u in f) <==> (u in active || u in fired))
    requires Agrees(x, t, t in a || t in f, log + [e])
    ensures AllAgree(a, f, ts[t := x], log + [e])
  {
    forall u | 0 <= u < |ts| ensures Agrees(ts[t := x][u], u, u in a || u in f, log + [e]) {
      if u != t {
        Append(log, e, u);
        assert Agrees(ts[u], u, u in active || u in fired, log);
      }
    }
  }

  ghost predicate Good(active: seq<nat>, fired: seq<nat>, ts: seq<Timer>, now: nat, log: seq<Entry>) {
    && Lists(active, fired, |ts|) && AllDue(fired, ts, now) && AllAgree(active, fired, ts, log)
    && Sound(log) && Latest(log) <= now
  }

  lemma ArmKeeps(active: seq<nat>, fired: seq<nat>, ts: seq<Timer>, now: nat, log: seq<Entry>, e: Entry)
    requires Good(active, fired, ts, now, log) && e.Armed? && e.timer < |ts| && e.at == now && MayFollow(log, e)
    ensures var t, x := e.timer, Timer(e.due, e.period, e.dpc, false);
            Good(Unlinked(active, t) + [t], Unlinked(fired, t), ts[t := x], now, log + [e])
  {
    var t, x := e.timer, Timer(e.due, e.period, e.dpc, false);
    Append(log, e, t);
    UnlinkKeepsLists(active, fired, ts, now, t, x);
    OthersAgree(active, fired, ts, log, t, x, e, Unlinked(active, t) + [t], Unlinked(fired, t));
  }

  lemma FreeKeeps(active: seq<nat>, fired: seq<nat>, ts: seq<Timer>, now: nat, log: seq<Entry>, t: nat)
    requires Good(active, fired, ts, now, log) && t < |ts|
    ensures Good(active, fired, ts[t := ts[t].(cancelled := false)], now, log)
  {
    var us := ts[t := ts[t].(cancelled := false)];
    forall u | 0 <= u < |us| ensures Agrees(us[u], u, u in active || u in fired, log) {
      assert Agrees(ts[u], u, u in active || u in fired, log);
    }
  }

  class TimerQueue {
    /** KeTickCount, the active list, the list of timers collected for firing and the KTIMERs. */
    var now: nat
    var active: seq<nat>
    var fired: seq<nat>
    var timers: seq<Timer>
    ghost var log: seq<Entry>

    ghost predicate Valid()
      reads this
    {
      Good(active, fired, timers, now, log)
    }

    /** KeTimerInitSystem with `n` timers made by KeInitializeTimer. */
    constructor (n: nat)
      ensures Valid() && now == 0 && active == [] && fired == [] && log == [] && |timers| == n
    {
      now, active, fired, log := 0, [], [], [];
      timers := seq(n, _ => Timer(0, 0, None, false));
    }

    /** The clock interrupt. */
    method Tick()
      requires Valid()
      modifies this`now
      ensures Valid() && now == old(now) + 1
    {
      now := now + 1;
    }

    /** KeSetTimerEx; `again` marks the scan thread's own call. */
    method Arm(t: nat, dueTime: int, period: int, dpc: Option<nat>, ghost again: bool) returns (wasInserted: bool)
      requires Valid() && t < |timers|
      requires again ==> period == timers[t].period != 0 && LastArm(log, t).Some? && dueTime == -period * 10000
      modifies this`active, this`fired, this`timers, this`log
      ensures Valid() && timers == old(timers)[t := Timer(DueTicks(now, dueTime), period, dpc, false)]
      ensures wasInserted <==> old(Pending(log, t)).Some?
      ensures active == Unlinked(old(active), t) + [t] && fired == Unlinked(old(fired), t)
      ensures log == old(log) + [Armed(t, DueTicks(now, dueTime), period, dpc, again, now)]
    {
      wasInserted := t in active || t in fired;
      assert Agrees(timers[t], t, wasInserted, log);
      ghost var e := Armed(t, DueTicks(now, dueTime), period, dpc, again, now);
      assert MayFollow(log, e);
      ArmKeeps(active, fired, timers, now, log, e);
      hide Good, Pending, LastArm;
      if wasInserted {
        active, fired := Unlinked(active, t), Unlinked(fired, t);
      }
      timers := timers[t := Timer(DueTicks(now, dueTime), period, dpc, false)];
      active := active + [t];
      log := log + [e];
    }

    /** KeCancelTimer: true exactly when the timer was armed and had not fired. */
    method Cancel(t: nat) returns (wasInserted: bool)
      requires Valid() && t < |timers|
      modifies this`active, this`fired, this`timers, this`log
      ensures Valid() && timers == old(timers)[t := old(timers)[t].(cancelled := true)]
      ensures wasInserted <==> old(Pending(log, t)).Some?
      ensures active == Unlinked(old(active), t) && fired == Unlinked(old(fired), t)
      ensures log == old(log) + [Cancelled(t, now)]
    {
      wasInserted := t in active || t in fired;
      var x := timers[t].(cancelled := true);
      assert Agrees(timers[t], t, wasInserted, log);
      Append(log, Cancelled(t, now), t);
      UnlinkKeepsLists(active, fired, timers, now, t, x);
      OthersAgree(active, fired, timers, log, t, x, Cancelled(t, now), Unlinked(active, t), Unlinked(fired, t));
      if wasInserted {
        active, fired := Unlinked(active, t), Unlinked(fired, t);
      }
      timers := timers[t := x];
      log := log + [Cancelled(t, now)];
    }

    /** The walk under the lock: exactly the expired timers move to the fired list, in list order. */
    method Collect()
      requires Valid() && fired == []
      modifies this`active, this`fired
      ensures Valid()
      ensures fired == Expired(timers, now, old(active)) && active == Unexpired(timers, now, old(active))
    {
      CollectKeeps(active, timers, now);
      Walk();
    }

    method Walk()
      requires fired == [] && InRange(active, |timers|)
      modifies this`active, this`fired
      ensures fired == Expired(timers, now, old(active)) && active == Unexpired(timers, now, old(active))
    {
      var i := 0;
      ghost var all, k, kept, rest := active, 0, [], active;
      while i < |active|
        invariant 0 <= k <= |all| && i == |kept| && active == kept + rest && rest == all[k..]
        invariant kept == Unexpired(timers, now, all[..k]) && fired == Expired(timers, now, all[..k])
        decreases |rest|
      {
        ExpiredNext(timers, now, all, k);
        NextOf(kept, rest);
        assert rest[0] == all[k] && rest[1..] == all[k + 1..];
        if Late(timers[active[i]], now) {
          fired := fired + [active[i]];
          active := active[..i] + active[i + 1..];
        } else {
          kept := kept + [active[i]];
          i := i + 1;
        }
        rest, k := rest[1..], k + 1;
      }
      assert all[..k] == all;
    }

    /** Takes the first timer off the fired list; its DPC, if any, runs next. The Cancelled test of line 226 never
        fails, since cancelling unlinks. */
    method TakeFired() returns (t: nat, dpc: Option<nat>, runs: bool)
      requires Valid() && fired != []
      modifies this`fired, this`log
      ensures Valid() && t < |timers| && t == old(fired)[0] && fired == old(fired)[1..]
      ensures dpc == timers[t].dpc && (runs <==> dpc.Some?)
      ensures log == old(log) + [Fired(t, dpc, now)] && LastArm(log, t).Some?
    {
      t := fired[0];
      dpc := timers[t].dpc;
      runs := dpc.Some? && !timers[t].cancelled;
      assert Agrees(timers[t], t, true, log);
      PendingIsLastArm(log, t);
      Append(log, Fired(t, dpc, now), t);
      assert fired == [t] + fired[1..];
      OthersAgree(active, fired, timers, log, t, timers[t], Fired(t, dpc, now), active, fired[1..]);
      assert timers[t := timers[t]] == timers;
      fired := fired[1..];
      log := log + [Fired(t, dpc, now)];
    }

    /** After the DPC: a periodic timer that was not cancelled meanwhile is armed again, with the DPC it had before,
        whatever the DPC itself armed it with; otherwise FreeTimerSlot clears its Cancelled field. */
    method Rearm(t: nat, dpc: Option<nat>)
      requires Valid() && t < |timers| && LastArm(log, t).Some?
      modifies this`active, this`fired, this`timers, this`log
      ensures Valid()
      ensures var x := old(timers)[t];
              if x.period != 0 && !x.cancelled then
                && log == old(log) + [Armed(t, NextDue(now, x.period), x.period, dpc, true, now)]
                && timers == old(timers)[t := Timer(NextDue(now, x.period), x.period, dpc, false)]
                && active == Unlinked(old(active), t) + [t] && fired == Unlinked(old(fired), t)
              else
                && log == old(log) && timers == old(timers)[t := x.(cancelled := false)]
                && active == old(active) && fired == old(fired)
    {
      if timers[t].period != 0 && !timers[t].cancelled {
        var _ := Arm(t, -timers[t].period * 10000, timers[t].period, dpc, true);
      } else {
        FreeKeeps(active, fired, timers, now, log, t);
        timers := timers[t := timers[t].(cancelled := false)];
      }
    }
  }

  /** How one more entry changes what the log says of timer `t`. */
  lemma Append(log: seq<Entry>, e: Entry, t: nat)
    ensures Latest(log + [e]) == e.at
    ensures Pending(log + [e], t) == if e.timer != t then Pending(log, t) else if e.Armed? then Some(e) else None
    ensures LastArm(log + [e], t) == if e.timer == t && e.Armed? then Some(e) else LastArm(log, t)
    ensures Sound(log) && MayFollow(log, e) ==> Sound(log + [e])
  {
    assert (log + [e])[..|log|] == log;
  }

  /** A negative period gives no spacing: once the clock has passed its absolute tick, an expired timer fires twice at
      one and the same tick with nobody but the scan thread arming it. */
  method NegativePeriodFiresTwice(q: TimerQueue, t: nat)
    requires q.Valid() && q.fired == [] && q.active == [t] && t < |q.timers|
    requires q.timers[t].period < 0 && -q.timers[t].period <= q.now && q.timers[t].due <= q.now
    modifies q
    ensures q.Valid() && q.now == old(q.now)
    ensures var x := old(q.timers)[t];
            q.log == old(q.log) + [Fired(t, x.dpc, q.now), Armed(t, -x.period, x.period, x.dpc, true, q.now),
                                   Fired(t, x.dpc, q.now)]
  {
    NextDueMeans(q.now, q.timers[t].period);
    assert t in q.active;
    assert Agrees(q.timers[t], t, true, q.log);
    FireOnly(q, t);
    q.Rearm(t, q.timers[t].dpc);
    FireOnly(q, t);
  }

  /** A whole pass of the scan thread over a single expired timer, up to its DPC. */
  method FireOnly(q: TimerQueue, t: nat)
    requires q.Valid() && q.fired == [] && q.active == [t] && t < |q.timers| && q.timers[t].due <= q.now
    modifies q
    ensures q.Valid() && q.now == old(q.now) && q.timers == old(q.timers)
    ensures q.active == [] && q.fired == [] && LastArm(q.log, t).Some?
    ensures q.log == old(q.log) + [Fired(t, q.timers[t].dpc, q.now)]
  {
    assert t in q.active;
    assert Agrees(q.timers[t], t, true, q.log);
    assert [t][..0] == [] && Late(q.timers[t], q.now);
    assert Expired(q.timers, q.now, [t]) == [t] && Unexpired(q.timers, q.now, [t]) == [];
    q.Collect();
    var _, _, _ := q.TakeFired();
  }
}
