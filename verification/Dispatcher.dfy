/** Waits, events and mutexes (ke/dispatch.c) over the cooperative dispatcher (ps/psmgr.c): one processor, each
    routine atomic up to the point where it dispatches another thread. */
module Dispatcher {
  import opened Common
  import opened DispatchLog
  import ListEntry

  datatype State = Ready | Running | Waiting

  datatype Thread = Thread(state: State, waitObject: Option<nat>)

  /** The dispatcher header, and the owner of a mutex. */
  datatype Object = Object(kind: Kind, signaled: bool, waiters: seq<nat>, owner: Option<nat>)

  /** How a call of KeWaitForSingleObject went: satisfied at once, polled in vain, another thread dispatched, or the
      branch of line 47. */
  datatype Outcome = Satisfied | TimedOut | SwitchedAway | NotWoken

  datatype Machine = Machine(threads: seq<Thread>, ready: seq<nat>, objects: seq<Object>, current: nat)

  /** A thread is on a list exactly when its state says so, on at most one list, and once. */
  ghost predicate Linked(m: Machine) {
    && Distinct(m.ready) && InRange(m.ready, |m.threads|)
    && (forall t :: 0 <= t < |m.threads| ==> (t in m.ready <==> m.threads[t].state == Ready))
    && (forall t :: 0 <= t < |m.threads| ==> (t == m.current <==> m.threads[t].state == Running))
    && (forall o :: 0 <= o < |m.objects| ==> Distinct(m.objects[o].waiters) && InRange(m.objects[o].waiters, |m.threads|))
    && (forall t :: 0 <= t < |m.threads| && m.threads[t].state == Waiting ==>
          m.threads[t].waitObject.Some? && m.threads[t].waitObject.value < |m.objects|)
    && (forall t, o :: 0 <= t < |m.threads| && 0 <= o < |m.objects| ==> (t in m.objects[o].waiters <==> WaitsOn(m.threads[t], o)))
    && m.current < |m.threads|
  }

  predicate WaitsOn(t: Thread, o: nat) { t.state == Waiting && t.waitObject == Some(o) }

  predicate InRange(list: seq<nat>, n: nat) { forall i :: 0 <= i < |list| ==> list[i] < n }

  /** Nobody waits on a signaled object, and a mutex is signaled exactly while it has no owner. */
  ghost predicate Settled(x: Object) {
    && (x.signaled ==> x.waiters == [])
    && (x.kind.Mutant? ==> (x.signaled <==> x.owner == None))
  }

  ghost predicate AllSettled(objects: seq<Object>) {
    forall o :: 0 <= o < |objects| ==> Settled(objects[o])
  }

  function ViewOf(x: Object): View { View(x.signaled, x.waiters, x.owner) }

  /** The object after log entry `e`. */
  function Applied(x: Object, e: Entry): Object {
    var v := After(ViewOf(x), x.kind, e);
    Object(x.kind, v.charged, v.queue, v.owner)
  }

  /** Every object is what its history says. */
  ghost predicate History(objects: seq<Object>, kinds: seq<Kind>, log: seq<Entry>) {
    && |objects| == |kinds| && Sound(log, kinds)
    && forall o :: 0 <= o < |objects| ==> objects[o].kind == kinds[o] && ViewOf(objects[o]) == Replay(log, o, kinds[o])
  }

  lemma Record(objects: seq<Object>, kinds: seq<Kind>, log: seq<Entry>, e: Entry)
    requires History(objects, kinds, log) && e.o < |objects|
    requires MayFollow(ViewOf(objects[e.o]), objects[e.o].kind, e)
    ensures History(objects[e.o := Applied(objects[e.o], e)], kinds, log + [e])
  {
    assert (log + [e])[..|log|] == log;
  }

  /** Links depend on an object only through its waiters. */
  lemma SameWaiters(m: Machine, o: nat, x: Object)
    requires Linked(m) && o < |m.objects| && x.waiters == m.objects[o].waiters
    ensures Linked(m.(objects := m.objects[o := x]))
  {
    var r := m.(objects := m.objects[o := x]);
    forall t, p | 0 <= t < |m.threads| && 0 <= p < |m.objects|
      ensures t in r.objects[p].waiters <==> WaitsOn(r.threads[t], p)
    {
      assert t in m.objects[p].waiters <==> WaitsOn(m.threads[t], p);
    }
  }

  // ---- The three moves of a thread between lists --------------------------

  /** The first waiter of `o` becomes ready, behind those already ready. */
  function Woken(m: Machine, o: nat): Machine
    requires o < |m.objects| && m.objects[o].waiters != [] && m.objects[o].waiters[0] < |m.threads|
  {
    var t := m.objects[o].waiters[0];
    m.(threads := m.threads[t := Thread(Ready, None)],
       ready := m.ready + [t],
       objects := m.objects[o := m.objects[o].(waiters := m.objects[o].waiters[1..])])
  }

  lemma WakeKeepsLinks(m: Machine, o: nat)
    requires Linked(m) && o < |m.objects| && m.objects[o].waiters != []
    ensures Linked(Woken(m, o))
  {
    var ws := m.objects[o].waiters;
    var t := ws[0];
    assert ws == [t] + ws[1..];
    assert WaitsOn(m.threads[t], o);
  }

  /** KiDispatchNextThread: the first ready thread runs, and a caller still running goes to the end of the list. */
  function Dispatched(m: Machine): Machine
    requires InRange(m.ready, |m.threads|) && m.current < |m.threads|
  {
    if m.ready == [] then m
    else
      var n := m.ready[0];
      var threads := m.threads[n := m.threads[n].(state := Running)];
      if threads[m.current].state == Running then
        Machine(threads[m.current := threads[m.current].(state := Ready)], m.ready[1..] + [m.current], m.objects, n)
      else
        Machine(threads, m.ready[1..], m.objects, n)
  }

  lemma YieldKeepsLinks(m: Machine)
    requires Linked(m)
    ensures Linked(Dispatched(m))
  {
    if m.ready != [] {
      assert m.ready == [m.ready[0]] + m.ready[1..];
      assert m.current !in m.ready;
    }
  }

  /** The running thread and those ready behind it. */
  ghost function Ring(m: Machine): seq<nat> { [m.current] + m.ready }

  ghost function Yields(m: Machine, k: nat): Machine
    requires Linked(m)
    ensures Linked(Yields(m, k))
  {
    if k == 0 then m
    else
      YieldKeepsLinks(Yields(m, k - 1));
      Dispatched(Yields(m, k - 1))
  }

  /** A yield turns the ring by one and leaves everything else alone. */
  lemma YieldTurns(m: Machine)
    requires Linked(m)
    ensures Ring(Dispatched(m)) == Ring(m)[1..] + [Ring(m)[0]] && SameOtherwise(m, Dispatched(m))
  {
    if m.ready != [] {
      assert m.ready == [m.ready[0]] + m.ready[1..] && m.threads[m.ready[0]].state == Ready by { assert m.ready[0] in m.ready; }
    }
  }

  ghost predicate SameOtherwise(m: Machine, r: Machine) {
    && r.objects == m.objects && |r.threads| == |m.threads|
    && forall t :: 0 <= t < |m.threads| ==>
         r.threads[t].waitObject == m.threads[t].waitObject && (r.threads[t].state == Waiting <==> m.threads[t].state == Waiting)
  }

  lemma OtherwiseTwice(a: Machine, b: Machine, c: Machine)
    requires SameOtherwise(a, b) && SameOtherwise(b, c)
    ensures SameOtherwise(a, c)
  {
  }

  lemma {:induction false} YieldsTurn(m: Machine, k: nat)
    requires Linked(m) && k <= |m.ready| + 1
    ensures Ring(Yields(m, k)) == Ring(m)[k..] + Ring(m)[..k] && SameOtherwise(m, Yields(m, k))
  {
    var r := Ring(m);
    assert |r| == |m.ready| + 1;
    if k > 0 {
      YieldsTurn(m, k - 1);
      YieldTurns(Yields(m, k - 1));
      hide Linked, Dispatched, Ring;
      OtherwiseTwice(m, Yields(m, k - 1), Yields(m, k));
      hide SameOtherwise;
      Turned(r, k);
    } else {
      assert r[0..] + r[..0] == r;
    }
  }

  lemma Turned(r: seq<nat>, k: nat)
    requires 0 < k <= |r|
    ensures var q := r[k - 1..] + r[..k - 1]; q[1..] + [q[0]] == r[k..] + r[..k]
  {
  }

  /** The ring and the waiting threads determine the system. */
  lemma SameRing(m: Machine, r: Machine)
    requires Linked(m) && Linked(r) && Ring(r) == Ring(m) && SameOtherwise(m, r)
    ensures r == m
  {
    assert r.current == Ring(r)[0] && r.ready == Ring(r)[1..] && m.current == Ring(m)[0] && m.ready == Ring(m)[1..];
    forall t | 0 <= t < |m.threads| ensures r.threads[t] == m.threads[t] {
      assert t in r.ready <==> t in m.ready;
    }
  }

  /** Round robin: each ready thread runs after exactly as many yields as its place in the list, and after one full
      turn the system is back where it was. */
  lemma RoundRobin(m: Machine, k: nat)
    requires Linked(m) && k < |m.ready|
    ensures Yields(m, k + 1).current == m.ready[k]
    ensures Yields(m, |m.ready| + 1) == m
  {
    hide Linked, Yields;
    YieldsTurn(m, k + 1);
    assert Ring(Yields(m, k + 1))[0] == Ring(m)[k + 1];
    var n := |m.ready| + 1;
    YieldsTurn(m, n);
    assert Ring(m)[n..] + Ring(m)[..n] == Ring(m);
    SameRing(m, Yields(m, n));
  }

  /** The first half of KiWaitThread: the current thread joins the waiters of `o`. */
  function Enqueued(m: Machine, o: nat): Machine
    requires o < |m.objects| && m.current < |m.threads|
  {
    m.(threads := m.threads[m.current := Thread(Waiting, Some(o))],
       objects := m.objects[o := m.objects[o].(waiters := m.objects[o].waiters + [m.current])])
  }

  /** The branch of line 47, for a thread that finds itself still waiting on `o`. */
  function Rechecked(m: Machine, t: nat, o: nat): Machine
    requires o < |m.objects| && t < |m.threads|
  {
    if m.threads[t].state != Waiting then m
    else
      m.(threads := m.threads[t := m.threads[t].(state := Ready)],
         ready := m.ready + [t],
         objects := m.objects[o := m.objects[o].(waiters := Unlinked(m.objects[o].waiters, t))])
  }

  /** KiWaitThread, up to the moment another thread runs; the recheck follows at once when no other thread does. */
  function Suspended(m: Machine, o: nat): Machine
    requires o < |m.objects| && m.current < |m.threads| && InRange(m.ready, |m.threads|)
  {
    var d := Dispatched(Enqueued(m, o));
    if d.current == m.current then Rechecked(d, m.current, o) else d
  }

  /** The current thread has joined the waiters of `o` and the first ready thread runs; nothing else has changed. */
  ghost predicate HandsOver(m: Machine, o: nat, r: Machine)
    requires o < |m.objects| && m.current < |m.threads| && m.ready != [] && m.ready[0] < |m.threads|
  {
    && r.current == m.ready[0] && r.ready == m.ready[1..]
    && r.threads == m.threads[m.current := Thread(Waiting, Some(o))][r.current := m.threads[r.current].(state := Running)]
    && r.objects == m.objects[o := m.objects[o].(waiters := m.objects[o].waiters + [m.current])]
  }

  lemma SuspendHandsOver(m: Machine, o: nat)
    requires Linked(m) && o < |m.objects| && m.ready != []
    ensures m.ready[0] < |m.threads| && Suspended(m, o) == Dispatched(Enqueued(m, o)) && HandsOver(m, o, Suspended(m, o))
  {
    assert m.ready[0] in m.ready && m.ready[0] != m.current;
  }

  /** With a ready thread to switch to, every link is kept; and when the waiting thread runs again, its state is
      Running, so the branch of line 47 is not taken then either. */
  lemma SuspendKeepsLinks(m: Machine, o: nat)
    requires Linked(m) && o < |m.objects| && m.ready != []
    ensures Linked(Suspended(m, o)) && Suspended(m, o) == Dispatched(Enqueued(m, o))
    ensures HandsOver(m, o, Suspended(m, o))
  {
    SuspendHandsOver(m, o);
    var n, c := m.ready[0], m.current;
    assert m.ready == [n] + m.ready[1..] && n in m.ready;
    assert m.threads[c].state == Running && m.threads[n].state == Ready && c !in m.ready;
    assert c !in m.objects[o].waiters by { assert !WaitsOn(m.threads[c], o); }
    var ws := m.objects[o].waiters + [c];
    assert forall t :: t in ws <==> t == c || t in m.objects[o].waiters;
    var r := Suspended(m, o);
    hide Suspended, Dispatched, Enqueued;
    forall t, p | 0 <= t < |m.threads| && 0 <= p < |m.objects|
      ensures t in r.objects[p].waiters <==> WaitsOn(r.threads[t], p)
    {
      assert t in m.objects[p].waiters <==> WaitsOn(m.threads[t], p);
    }
  }

  /** With nobody to switch to, the thread goes on running, and on the ready list. */
  lemma SuspendAlone(m: Machine, o: nat)
    requires Linked(m) && o < |m.objects| && m.ready == []
    ensures Suspended(m, o) == m.(threads := m.threads[m.current := Thread(Ready, Some(o))], ready := [m.current])
    ensures !Linked(Suspended(m, o))
  {
    var ws, c := m.objects[o].waiters, m.current;
    assert c !in ws by { assert !WaitsOn(m.threads[c], o); }
    assert c < |m.threads|;
    hide Linked;
    var e := Enqueued(m, o);
    assert Dispatched(e) == e;
    JoinAndLeave(ws, c);
    var r := Rechecked(e, c, o);
    assert r.objects == m.objects && r.ready == [c];
    assert r.threads == m.threads[c := Thread(Ready, Some(o))];
    assert !Linked(r) by { StateIsWrong(r); }
  }

  lemma StateIsWrong(m: Machine)
    requires m.current < |m.threads| && m.threads[m.current].state != Running
    ensures !Linked(m)
  {
  }

  /** Then its state does not say so, and blocking once more inserts an entry that is still linked: after that the links
      from the ready list's head visit no sequence at all and return. */
  lemma BlockingAgainBreaks(m: Machine, o: nat, h: ListEntry.Heap, readyHead: nat, waitHead: nat, s: seq<nat>)
    requires Linked(m) && o < |m.objects| && m.ready == []
    requires var r := Suspended(m, o);
             && ListEntry.IsList(h, readyHead, r.ready) && ListEntry.IsList(h, waitHead, r.objects[o].waiters)
             && ListEntry.Separate(waitHead, r.objects[o].waiters, readyHead, r.ready)
    ensures !Linked(Suspended(m, o)) && h[waitHead].blink in h
    ensures !ListEntry.IsList(ListEntry.InsertTail(h, waitHead, m.current), readyHead, s)
  {
    SuspendAlone(m, o);
    var r := Suspended(m, o);
    assert r.threads[r.current].state == Ready && m.current in r.ready;
    ListEntry.InsertingMemberBreaks(h, waitHead, r.objects[o].waiters, readyHead, r.ready, m.current, s);
  }

  lemma JoinAndLeave(ws: seq<nat>, c: nat)
    requires c !in ws
    ensures Unlinked(ws + [c], c) == ws
  {
    assert (ws + [c])[..|ws|] == ws;
  }

  // ---- First ready, first run ---------------------------------------------

  /** How the running thread gives up the processor. */
  datatype Move = YieldNow | Blocks(o: nat)

  function Moved(m: Machine, move: Move): Machine
    requires InRange(m.ready, |m.threads|) && m.current < |m.threads| && (move.Blocks? ==> move.o < |m.objects|)
  {
    match move
    case YieldNow => Dispatched(m)
    case Blocks(o) => Dispatched(Enqueued(m, o))
  }

  /** The state after each of `moves`, all on existing objects and each with somebody ready. */
  ghost predicate MovesTo(m: Machine, moves: seq<Move>, r: Machine)
    decreases |moves|
  {
    if moves == [] then r == m
    else
      && Linked(m) && (moves[0].Blocks? ==> moves[0].o < |m.objects|)
      && MovesTo(Moved(m, moves[0]), moves[1..], r)
  }

  lemma MoveAdvances(m: Machine, move: Move)
    requires Linked(m) && m.ready != [] && (move.Blocks? ==> move.o < |m.objects|)
    ensures Linked(Moved(m, move)) && Moved(m, move).current == m.ready[0] && m.ready[1..] <= Moved(m, move).ready
    ensures |Moved(m, move).objects| == |m.objects|
  {
    if move.Blocks? {
      SuspendKeepsLinks(m, move.o);
    } else {
      YieldKeepsLinks(m);
    }
  }

  /** The thread at place k of the ready list runs after exactly k + 1 switches, whether the threads before it yield or
      block. */
  lemma {:induction false} FirstReadyFirstRun(m: Machine, moves: seq<Move>, r: Machine)
    requires Linked(m) && 0 < |moves| <= |m.ready| && MovesTo(m, moves, r)
    ensures r.current == m.ready[|moves| - 1]
    decreases |moves|
  {
    var m' := Moved(m, moves[0]);
    MoveAdvances(m, moves[0]);
    assert forall j :: 0 <= j < |m.ready| - 1 ==> m'.ready[j] == m.ready[1..][j] == m.ready[j + 1];
    if |moves| > 1 {
      FirstReadyFirstRun(m', moves[1..], r);
    } else {
      assert MovesTo(m', [], r);
    }
  }

  // ---- The routines -------------------------------------------------------

  /** Exactly the threads `woken` have become ready. */
  ghost predicate OnlyReadied(was: seq<Thread>, threads: seq<Thread>, woken: seq<nat>) {
    && |threads| == |was|
    && forall t :: 0 <= t < |was| ==> threads[t] == if t in woken then Thread(Ready, None) else was[t]
  }

  function Grants(o: nat, ws: seq<nat>): seq<Entry> { seq(|ws|, i requires 0 <= i < |ws| => Granted(o, ws[i])) }

  lemma ReadiedMore(was: seq<Thread>, mid: seq<Thread>, now: seq<Thread>, woken: seq<nat>, t: nat)
    requires OnlyReadied(was, mid, woken) && t < |mid| && now == mid[t := Thread(Ready, None)]
    ensures OnlyReadied(was, now, woken + [t])
  {
  }

  lemma NextWaiter(o: nat, all: seq<nat>, k: nat)
    requires k < |all|
    ensures all[..k + 1] == all[..k] + [all[k]] && all[k..][1..] == all[k + 1..] && all[k..][0] == all[k]
    ensures Grants(o, all[..k + 1]) == Grants(o, all[..k]) + [Granted(o, all[k])]
  {
  }

  /** The object after a satisfied wait by `t`: a notification event stays signaled. */
  function Consumed(x: Object, t: nat): Object {
    if x.kind.Notification? then x
    else if x.kind.Mutant? then x.(signaled := false, owner := Some(t))
    else x.(signaled := false)
  }

  class Kernel {
    var threads: seq<Thread>
    var ready: seq<nat>
    var objects: seq<Object>
    var current: nat
    ghost var log: seq<Entry>
    ghost const kinds: seq<Kind>

    ghost function Now(): Machine
      reads this
    {
      Machine(threads, ready, objects, current)
    }

    ghost predicate Valid()
      reads this
    {
      Linked(Now()) && History(objects, kinds, log) && AllSettled(objects)
    }

    /** Thread 0 runs, the others are ready, and the objects are as initialised. */
    constructor (n: nat, kinds: seq<Kind>)
      requires n > 0
      ensures Valid() && this.kinds == kinds && log == [] && current == 0 && |threads| == n
      ensures forall t :: 0 <= t < n ==> threads[t] == Thread(if t == 0 then Running else Ready, None)
      ensures |objects| == |kinds| && forall o :: 0 <= o < |kinds| ==>
                objects[o] == Object(kinds[o], kinds[o].Mutant? || kinds[o].initially, [], None)
      ensures |ready| == n - 1 && forall i :: 0 <= i < n - 1 ==> ready[i] == i + 1
    {
      threads := seq(n, i => Thread(if i == 0 then Running else Ready, None));
      ready := seq(n - 1, i => i + 1);
      objects := seq(|kinds|, i requires 0 <= i < |kinds| =>
                     Object(kinds[i], kinds[i].Mutant? || kinds[i].initially, [], None));
      current, log := 0, [];
      this.kinds := kinds;
      new;
      forall t | 0 < t < n ensures t in ready {
        assert ready[t - 1] == t;
      }
    }

    /** KiDispatchNextThread. */
    method DispatchNext()
      requires InRange(ready, |threads|) && current < |threads|
      modifies this`threads, this`ready, this`current
      ensures Now() == Dispatched(old(Now()))
      ensures old(ready) == [] ==> Now() == old(Now())
      ensures old(ready) != [] ==> current == old(ready)[0] && old(ready)[1..] <= ready
    {
      if ready == [] { return; }
      var last, next := current, ready[0];
      ready := ready[1..];
      threads := threads[next := threads[next].(state := Running)];
      if threads[last].state == Running {
        threads := threads[last := threads[last].(state := Ready)];
        ready := ready + [last];
      }
      current := next;
    }

    /** A voluntary yield. */
    method Yield()
      requires Valid()
      modifies this`threads, this`ready, this`current
      ensures Valid() && Now() == Dispatched(old(Now()))
    {
      YieldKeepsLinks(Now());
      DispatchNext();
    }

    /** KiWaitThread. */
    method Suspend(o: nat)
      requires Linked(Now()) && o < |objects|
      modifies this`threads, this`ready, this`current, this`objects
      ensures Now() == Suspended(old(Now()), o)
    {
      var t := current;
      threads := threads[t := Thread(Waiting, Some(o))];
      objects := objects[o := objects[o].(waiters := objects[o].waiters + [t])];
      DispatchNext();
      if current == t && threads[t].state == Waiting {
        threads := threads[t := threads[t].(state := Ready)];
        objects := objects[o := objects[o].(waiters := Unlinked(objects[o].waiters, t))];
        ready := ready + [t];
      }
    }

    /** KiWakeFirstWaiterUnsafe. */
    method WakeFirst(o: nat) returns (t: Option<nat>)
      requires Linked(Now()) && o < |objects|
      modifies this`threads, this`ready, this`objects
      ensures Linked(Now())
      ensures old(objects)[o].waiters == [] ==> t == None && Now() == old(Now())
      ensures old(objects)[o].waiters != [] ==>
                t == Some(old(objects)[o].waiters[0]) && Now() == Woken(old(Now()), o)
    {
      if objects[o].waiters == [] { return None; }
      WakeKeepsLinks(Now(), o);
      var first := objects[o].waiters[0];
      objects := objects[o := objects[o].(waiters := objects[o].waiters[1..])];
      threads := threads[first := Thread(Ready, None)];
      ready := ready + [first];
      t := Some(first);
    }

    /** KiWakeAllWaitersUnsafe: every waiter becomes ready, in the order of waiting. */
    method WakeAll(o: nat)
      requires Linked(Now()) && History(objects, kinds, log) && o < |objects|
      requires objects[o].kind.Notification? && objects[o].signaled
      modifies this`threads, this`ready, this`objects, this`log
      ensures Linked(Now()) && History(objects, kinds, log)
      ensures objects == old(objects)[o := old(objects)[o].(waiters := [])]
      ensures ready == old(ready) + old(objects)[o].waiters
      ensures OnlyReadied(old(threads), threads, old(objects)[o].waiters)
      ensures log == old(log) + Grants(o, old(objects)[o].waiters)
    {
      hide Linked, History;
      ghost var all, k, was := objects[o].waiters, 0, objects;
      assert was[o := was[o].(waiters := all)] == was && all[..0] == [];
      while objects[o].waiters != []
        invariant 0 <= k <= |all| && |objects| == |was|
        invariant Linked(Now()) && History(objects, kinds, log)
        invariant objects == was[o := was[o].(waiters := all[k..])]
        invariant ready == old(ready) + all[..k] && log == old(log) + Grants(o, all[..k])
        invariant OnlyReadied(old(threads), threads, all[..k])
        decreases |all| - k
      {
        NextWaiter(o, all, k);
        ghost var mid := threads;
        WakeOne(o);
        ReadiedMore(old(threads), mid, threads, all[..k], all[k]);
        k := k + 1;
      }
      assert all[..k] == all;
    }

    /** One round of the loop. */
    method WakeOne(o: nat)
      requires Linked(Now()) && History(objects, kinds, log) && o < |objects| && objects[o].waiters != []
      requires objects[o].kind.Notification? && objects[o].signaled
      modifies this`threads, this`ready, this`objects, this`log
      ensures Linked(Now()) && History(objects, kinds, log)
      ensures old(objects)[o].waiters[0] < old(|threads|)
      ensures Now() == Woken(old(Now()), o) && log == old(log) + [Granted(o, old(objects)[o].waiters[0])]
    {
      ghost var e := Granted(o, objects[o].waiters[0]);
      Record(objects, kinds, log, e);
      var _ := WakeFirst(o);
      log := log + [e];
    }

    /** KeSetEvent: a notification event stays signaled and wakes every waiter; a synchronization event wakes the
        first waiter and is then not signaled, or stays signaled when there is none. */
    method SetEvent(o: nat) returns (previous: bool)
      requires Valid() && o < |objects| && !objects[o].kind.Mutant?
      modifies this`threads, this`ready, this`objects, this`log
      ensures Valid() && previous == old(objects)[o].signaled
      ensures var x := old(objects)[o];
              var woken := if x.kind.Notification? || x.waiters == [] then x.waiters else [x.waiters[0]];
              && objects == old(objects)[o := x.(signaled := x.kind.Notification? || x.waiters == [],
                                                 waiters := x.waiters[|woken|..])]
              && ready == old(ready) + woken && OnlyReadied(old(threads), threads, woken)
              && log == old(log) + [Signal(o)] + Grants(o, woken)
    {
      hide Linked, History;
      previous := objects[o].signaled;
      ghost var x, was := objects[o], objects;
      Signalled(o);
      if objects[o].kind.Notification? {
        WakeAll(o);
        assert x.waiters[|x.waiters|..] == [];
      } else {
        PassSignal(o);
      }
      assert objects == was[o := objects[o]];
    }

    /** The synchronization event's half: a waiter takes the signal. */
    method PassSignal(o: nat)
      requires Linked(Now()) && History(objects, kinds, log) && o < |objects|
      requires objects[o].kind.Synchronization? && objects[o].signaled
      modifies this`threads, this`ready, this`objects, this`log
      ensures Linked(Now()) && History(objects, kinds, log)
      ensures var x := old(objects)[o];
              var woken := if x.waiters == [] then [] else [x.waiters[0]];
              && objects == old(objects)[o := x.(signaled := x.waiters == [], waiters := x.waiters[|woken|..])]
              && ready == old(ready) + woken && OnlyReadied(old(threads), threads, woken)
              && log == old(log) + Grants(o, woken)
    {
      ghost var x, was := objects[o], objects;
      if x.waiters != [] { Record(objects, kinds, log, Granted(o, x.waiters[0])); }
      var wakened := WakeFirst(o);
      hide Linked, History;
      if wakened == None {
        assert was[o := x] == was && Grants(o, []) == [];
        return;
      }
      SameWaiters(Now(), o, objects[o].(signaled := false));
      objects := objects[o := objects[o].(signaled := false)];
      log := log + [Granted(o, wakened.value)];
      assert Grants(o, [wakened.value]) == [Granted(o, wakened.value)];
      assert objects == was[o := Applied(x, Granted(o, wakened.value))];
    }

    /** SignalState becomes 1. */
    method Signalled(o: nat)
      requires Linked(Now()) && History(objects, kinds, log) && o < |objects| && !objects[o].kind.Mutant?
      modifies this`objects, this`log
      ensures Linked(Now()) && History(objects, kinds, log)
      ensures objects == old(objects)[o := old(objects)[o].(signaled := true)] && log == old(log) + [Signal(o)]
    {
      hide Linked, History;
      Record(objects, kinds, log, Signal(o));
      SameWaiters(Now(), o, objects[o].(signaled := true));
      objects := objects[o := objects[o].(signaled := true)];
      log := log + [Signal(o)];
    }

    /** KeResetEvent. */
    method ResetEvent(o: nat) returns (previous: bool)
      requires Valid() && o < |objects| && !objects[o].kind.Mutant?
      modifies this`objects, this`log
      ensures Valid() && previous == old(objects)[o].signaled
      ensures objects == old(objects)[o := old(objects)[o].(signaled := false)] && log == old(log) + [Reset(o)]
    {
      hide Linked, History;
      previous := objects[o].signaled;
      Record(objects, kinds, log, Reset(o));
      SameWaiters(Now(), o, objects[o].(signaled := false));
      objects := objects[o := objects[o].(signaled := false)];
      log := log + [Reset(o)];
    }

    /** KeReleaseMutex: only the owner releases, and ownership passes to the first waiter. */
    method ReleaseMutex(o: nat) returns (released: bool)
      requires Valid() && o < |objects| && objects[o].kind.Mutant?
      modifies this`threads, this`ready, this`objects, this`log
      ensures Valid()
      ensures released <==> old(objects)[o].owner == Some(current)
      ensures !released ==> Now() == old(Now()) && log == old(log)
      ensures released ==>
                var x := old(objects)[o];
                var woken := if x.waiters == [] then [] else [x.waiters[0]];
                && objects == old(objects)[o := x.(signaled := x.waiters == [], waiters := x.waiters[|woken|..],
                                                   owner := if x.waiters == [] then None else Some(x.waiters[0]))]
                && ready == old(ready) + woken && OnlyReadied(old(threads), threads, woken)
                && log == old(log) + [Released(o, current)] + Grants(o, woken)
    {
      released := objects[o].owner == Some(current);
      if !released { return; }
      hide Linked, History;
      var x := objects[o];
      Record(objects, kinds, log, Released(o, current));
      ghost var log1, free := log + [Released(o, current)], x.(signaled := true, owner := None);
      if x.waiters != [] {
        ghost var e := Granted(o, x.waiters[0]);
        Record(objects[o := free], kinds, log1, e);
        assert objects[o := free][o := Applied(free, e)] == objects[o := Applied(free, e)];
        HandOver(o);
        log := log1 + [e];
        assert Grants(o, [x.waiters[0]]) == [e];
      } else {
        SameWaiters(Now(), o, free);
        objects := objects[o := objects[o].(owner := None, signaled := true)];
        log := log1;
      }
    }

    /** The first waiter becomes ready and owns the mutex. */
    method HandOver(o: nat)
      requires Linked(Now()) && o < |objects| && objects[o].waiters != []
      modifies this`threads, this`ready, this`objects
      ensures Linked(Now())
      ensures var x := old(objects)[o];
              && objects == old(objects)[o := x.(signaled := false, waiters := x.waiters[1..], owner := Some(x.waiters[0]))]
              && ready == old(ready) + [x.waiters[0]]
              && OnlyReadied(old(threads), threads, [x.waiters[0]])
    {
      var t := WakeFirst(o);
      hide Linked;
      SameWaiters(Now(), o, objects[o].(owner := t, signaled := false));
      objects := objects[o := objects[o].(owner := t, signaled := false)];
    }

    /** KeWaitForSingleObject by the current thread; `poll` is a timeout of zero. The branch of line 47 is reached if
        and only if the thread has to block while the ready list is empty. */
    method Wait(o: nat, poll: bool) returns (r: Outcome)
      requires Valid() && o < |objects|
      modifies this
      ensures Valid() <==> r != NotWoken
      ensures r == Satisfied <==> old(objects)[o].signaled
      ensures r == TimedOut <==> !old(objects)[o].signaled && poll
      ensures r == NotWoken <==> !old(objects)[o].signaled && !poll && old(ready) == []
      ensures r == Satisfied ==>
                && Now() == old(Now()).(objects := old(objects)[o := Consumed(old(objects)[o], old(current))])
                && log == old(log) + [Granted(o, old(current))]
      ensures r == TimedOut ==> Now() == old(Now()) && log == old(log)
      ensures r == SwitchedAway ==>
                && old(ready)[0] < |old(threads)| && HandsOver(old(Now()), o, Now())
                && current == old(ready)[0] && ready == old(ready)[1..] && log == old(log) + [Blocked(o, old(current))]
      ensures r == NotWoken ==>
                Now() == old(Now()).(threads := old(threads)[old(current) := Thread(Ready, Some(o))],
                                     ready := [old(current)])
    {
      hide Linked, History, AllSettled, HandsOver;
      var x := objects[o];
      if x.signaled {
        Satisfy(o);
        return Satisfied;
      }
      if poll { return TimedOut; }
      if ready == [] {
        SuspendAlone(Now(), o);
        Suspend(o);
        r := NotWoken;
      } else {
        Block(o);
        r := SwitchedAway;
      }
    }

    /** The current thread consumes the signal. */
    method Satisfy(o: nat)
      requires Valid() && o < |objects| && objects[o].signaled
      modifies this`objects, this`log
      ensures Valid()
      ensures objects == old(objects)[o := Consumed(old(objects)[o], current)] && log == old(log) + [Granted(o, current)]
    {
      hide Linked, History;
      Record(objects, kinds, log, Granted(o, current));
      SameWaiters(Now(), o, Consumed(objects[o], current));
      objects := objects[o := Consumed(objects[o], current)];
      log := log + [Granted(o, current)];
    }

    /** The current thread waits and the first ready thread runs. */
    method Block(o: nat)
      requires Valid() && o < |objects| && !objects[o].signaled && ready != []
      modifies this`threads, this`ready, this`objects, this`current, this`log
      ensures Valid()
      ensures old(ready)[0] < |old(threads)| && HandsOver(old(Now()), o, Now())
      ensures current == old(ready)[0] && ready == old(ready)[1..] && log == old(log) + [Blocked(o, old(current))]
    {
      SuspendKeepsLinks(Now(), o);
      Record(objects, kinds, log, Blocked(o, current));
      log := log + [Blocked(o, current)];
      hide Linked, History;
      Suspend(o);
    }
  }
}
