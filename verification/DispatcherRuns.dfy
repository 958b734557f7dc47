/** Whole runs of the dispatcher (ke/dispatch.c): what each call of the running thread does to threads, lists, objects
    and log, over every run in which one thread never waits. */
module DispatcherRuns {
  import opened Common
  import opened DispatchLog
  import opened Dispatcher

  /** What the running thread does next. */
  datatype Action = DoWait(o: nat, poll: bool) | DoSet(o: nat) | DoReset(o: nat) | DoRelease(o: nat) | DoYield

  /** The action makes sense on the objects there are; the idle thread never waits. */
  predicate Allowed(a: Action, objects: seq<Object>, isIdle: bool) {
    match a
    case DoWait(o, _) => o < |objects| && !isIdle
    case DoSet(o) => o < |objects| && !objects[o].kind.Mutant?
    case DoReset(o) => o < |objects| && !objects[o].kind.Mutant?
    case DoRelease(o) => o < |objects| && objects[o].kind.Mutant?
    case DoYield => true
  }

  datatype Snap = Snap(m: Machine, log: seq<Entry>)

  /** Threads `woken` have left the waiters of `o`, whose fields are otherwise those of `x`, for the ready list. */
  ghost predicate Wakes(a: Machine, o: nat, x: Object, woken: seq<nat>, b: Machine)
    requires o < |a.objects|
  {
    && b.current == a.current && b.ready == a.ready + woken && OnlyReadied(a.threads, b.threads, woken)
    && b.objects == a.objects[o := x] && a.objects[o].waiters == woken + x.waiters
  }

  /** KeWaitForSingleObject. */
  ghost predicate Waits(a: Snap, o: nat, poll: bool, b: Snap, r: Option<Outcome>)
    requires o < |a.m.objects|
  {
    var x, t := a.m.objects[o], a.m.current;
    if x.signaled then
      && r == Some(Satisfied) && b.log == a.log + [Granted(o, t)]
      && b.m == a.m.(objects := a.m.objects[o := Consumed(x, t)])
    else if poll then
      r == Some(TimedOut) && b == a
    else
      && r == Some(SwitchedAway) && b.log == a.log + [Blocked(o, t)]
      && t < |a.m.threads| && a.m.ready != [] && a.m.ready[0] < |a.m.threads| && HandsOver(a.m, o, b.m)
  }

  /** KeSetEvent: every waiter of a notification event, the first of a synchronization event. */
  ghost predicate Sets(a: Snap, o: nat, b: Snap)
    requires o < |a.m.objects|
  {
    var x := a.m.objects[o];
    if x.kind.Notification? then
      && Wakes(a.m, o, x.(signaled := true, waiters := []), x.waiters, b.m)
      && b.log == a.log + [Signal(o)] + Grants(o, x.waiters)
    else if x.waiters == [] then
      b.m == a.m.(objects := a.m.objects[o := x.(signaled := true)]) && b.log == a.log + [Signal(o)]
    else
      && Wakes(a.m, o, x.(signaled := false, waiters := x.waiters[1..]), [x.waiters[0]], b.m)
      && b.log == a.log + [Signal(o), Granted(o, x.waiters[0])]
  }

  /** KeReleaseMutex: nothing unless the caller owns it; then the first waiter owns it, or nobody. */
  ghost predicate Releases(a: Snap, o: nat, b: Snap)
    requires o < |a.m.objects|
  {
    var x, t := a.m.objects[o], a.m.current;
    if x.owner != Some(t) then b == a
    else if x.waiters == [] then
      && b.m == a.m.(objects := a.m.objects[o := x.(signaled := true, owner := None)])
      && b.log == a.log + [Released(o, t)]
    else
      && Wakes(a.m, o, x.(signaled := false, waiters := x.waiters[1..], owner := Some(x.waiters[0])), [x.waiters[0]], b.m)
      && b.log == a.log + [Released(o, t), Granted(o, x.waiters[0])]
  }

  /** KiDispatchNextThread by a running thread. */
  ghost predicate PassesOn(a: Machine, b: Machine) {
    if a.ready == [] then b == a
    else
      && a.current < |a.threads| && a.ready[0] < |a.threads| && b.objects == a.objects
      && b.current == a.ready[0] && b.ready == a.ready[1..] + [a.current]
      && b.threads == a.threads[b.current := a.threads[b.current].(state := Running)]
                      [a.current := a.threads[a.current].(state := Ready)]
  }

  ghost predicate Acts(a: Snap, action: Action, idle: nat, b: Snap, r: Option<Outcome>) {
    if !Allowed(action, a.m.objects, a.m.current == idle) then b == a && r == None
    else
      match action
      case DoWait(o, poll) => Waits(a, o, poll, b, r)
      case DoSet(o) => r == None && Sets(a, o, b)
      case DoReset(o) =>
        && r == None && b.log == a.log + [Reset(o)]
        && b.m == a.m.(objects := a.m.objects[o := a.m.objects[o].(signaled := false)])
      case DoRelease(o) => r == None && Releases(a, o, b)
      case DoYield => r == None && b.log == a.log && PassesOn(a.m, b.m)
  }

  // ---- A thread that never waits ------------------------------------------

  /** A thread that never waits is always running or ready. */
  ghost predicate Awake(m: Machine, idle: nat) { idle < |m.threads| && m.threads[idle].state != Waiting }

  /** So when another thread runs there is someone to switch to. */
  lemma SomeoneIsReady(m: Machine, idle: nat)
    requires Linked(m) && Awake(m, idle) && m.current != idle
    ensures m.ready != []
  {
    assert idle in m.ready;
  }

  ghost function SnapOf(k: Kernel): Snap
    reads k
  {
    Snap(k.Now(), k.log)
  }

  method ActWait(k: Kernel, idle: nat, o: nat, poll: bool) returns (r: Outcome)
    requires k.Valid() && Awake(k.Now(), idle) && o < |k.objects| && k.current != idle
    modifies k
    ensures k.Valid() && Awake(k.Now(), idle) && Waits(old(SnapOf(k)), o, poll, SnapOf(k), Some(r)) && r != NotWoken
  {
    SomeoneIsReady(k.Now(), idle);
    assert k.current < |k.threads|;
    hide Linked, History, AllSettled;
    r := k.Wait(o, poll);
  }

  method ActSet(k: Kernel, idle: nat, o: nat)
    requires k.Valid() && Awake(k.Now(), idle) && o < |k.objects| && !k.objects[o].kind.Mutant?
    modifies k
    ensures k.Valid() && Awake(k.Now(), idle) && Sets(old(SnapOf(k)), o, SnapOf(k))
  {
    ghost var a := SnapOf(k);
    hide Linked, History, AllSettled, Sets;
    var _ := k.SetEvent(o);
    SetWakes(a, o, SnapOf(k));
  }

  /** The general form of KeSetEvent's effect, case by case. */
  lemma SetWakes(a: Snap, o: nat, b: Snap)
    requires o < |a.m.objects| && !a.m.objects[o].kind.Mutant? && b.m.current == a.m.current
    requires var x := a.m.objects[o];
             var woken := if x.kind.Notification? || x.waiters == [] then x.waiters else [x.waiters[0]];
             && b.m.objects == a.m.objects[o := x.(signaled := x.kind.Notification? || x.waiters == [],
                                                   waiters := x.waiters[|woken|..])]
             && b.m.ready == a.m.ready + woken && OnlyReadied(a.m.threads, b.m.threads, woken)
             && b.log == a.log + [Signal(o)] + Grants(o, woken)
    ensures Sets(a, o, b)
  {
    var x := a.m.objects[o];
    assert x.waiters[|x.waiters|..] == [] && Grants(o, []) == [];
    if x.waiters != [] {
      assert Grants(o, [x.waiters[0]]) == [Granted(o, x.waiters[0])] && x.waiters == [x.waiters[0]] + x.waiters[1..];
      assert a.log + [Signal(o)] + [Granted(o, x.waiters[0])] == a.log + [Signal(o), Granted(o, x.waiters[0])];
    } else {
      assert b.m.threads == a.m.threads && a.m.ready + [] == a.m.ready && a.log + [Signal(o)] + [] == a.log + [Signal(o)];
    }
  }

  method ActRelease(k: Kernel, idle: nat, o: nat)
    requires k.Valid() && Awake(k.Now(), idle) && o < |k.objects| && k.objects[o].kind.Mutant?
    modifies k
    ensures k.Valid() && Awake(k.Now(), idle) && Releases(old(SnapOf(k)), o, SnapOf(k))
  {
    ghost var x, was := k.objects[o], k.threads;
    hide Linked, History, AllSettled;
    var released := k.ReleaseMutex(o);
    assert released && x.waiters == [] ==> k.threads == was;
    assert Grants(o, []) == [] && x.waiters[0..] == x.waiters;
    if x.waiters != [] {
      assert Grants(o, [x.waiters[0]]) == [Granted(o, x.waiters[0])] && x.waiters == [x.waiters[0]] + x.waiters[1..];
    }
  }

  method ActYield(k: Kernel, idle: nat)
    requires k.Valid() && Awake(k.Now(), idle)
    modifies k
    ensures k.Valid() && Awake(k.Now(), idle) && PassesOn(old(k.Now()), k.Now()) && k.log == old(k.log)
  {
    assert k.ready != [] ==> k.ready[0] in k.ready;
    k.Yield();
  }

  /** Every action does exactly what Acts says. */
  method Act(k: Kernel, idle: nat, action: Action) returns (r: Option<Outcome>)
    requires k.Valid() && Awake(k.Now(), idle)
    modifies k
    ensures k.Valid() && Awake(k.Now(), idle) && Acts(old(SnapOf(k)), action, idle, SnapOf(k), r)
  {
    hide Linked, History, AllSettled, Waits, Sets, Releases, PassesOn;
    r := None;
    if !Allowed(action, k.objects, k.current == idle) { return; }
    match action
    case DoWait(o, poll) =>
      var w := ActWait(k, idle, o, poll);
      r := Some(w);
    case DoSet(o) => ActSet(k, idle, o);
    case DoReset(o) => var _ := k.ResetEvent(o);
    case DoRelease(o) => ActRelease(k, idle, o);
    case DoYield => ActYield(k, idle);
  }

  // ---- Runs ---------------------------------------------------------------

  ghost function At(states: seq<Snap>, i: int): Snap {
    if 0 <= i < |states| then states[i] else Snap(Machine([], [], [], 0), [])
  }

  ghost predicate IsRun(states: seq<Snap>, actions: seq<Action>, idle: nat, outcomes: seq<Option<Outcome>>) {
    && |states| == |actions| + 1 && |outcomes| == |actions|
    && (forall i :: 0 <= i < |states| ==> Linked(states[i].m))
    && (forall i {:trigger actions[i]} :: 0 <= i < |actions| ==>
          Acts(states[i], actions[i], idle, At(states, i + 1), outcomes[i]))
  }

  lemma RunGrows(states: seq<Snap>, actions: seq<Action>, idle: nat, outcomes: seq<Option<Outcome>>, n: nat,
                 b: Snap, r: Option<Outcome>)
    requires n < |actions| && IsRun(states, actions[..n], idle, outcomes)
    requires Linked(b.m) && Acts(states[n], actions[n], idle, b, r)
    ensures IsRun(states + [b], actions[..n + 1], idle, outcomes + [r])
  {
    var ss, rs := states + [b], outcomes + [r];
    forall i | 0 <= i <= n ensures Acts(ss[i], actions[..n + 1][i], idle, At(ss, i + 1), rs[i]) {
      if i < n { assert Acts(states[i], actions[..n][i], idle, At(states, i + 1), outcomes[i]); }
    }
  }

  /** Every run in which one thread never waits, as the timer scan thread and the boot thread never do: each action does
      what it must, the links and the log stay sound, and the branch of line 47 is never reached. */
  method Run(k: Kernel, idle: nat, actions: seq<Action>) returns (outcomes: seq<Option<Outcome>>, ghost states: seq<Snap>)
    requires k.Valid() && Awake(k.Now(), idle)
    modifies k
    ensures k.Valid() && Sound(k.log, k.kinds) && IsRun(states, actions, idle, outcomes)
    ensures states[0] == old(SnapOf(k)) && states[|actions|] == SnapOf(k)
  {
    outcomes, states := [], [SnapOf(k)];
    for i := 0 to |actions|
      invariant k.Valid() && Awake(k.Now(), idle) && |states| == i + 1 && IsRun(states, actions[..i], idle, outcomes)
      invariant states[0] == old(SnapOf(k)) && states[i] == SnapOf(k)
    {
      hide Linked, History, AllSettled, IsRun, Acts, Awake;
      var r := Act(k, idle, actions[i]);
      RunGrows(states, actions, idle, outcomes, i, SnapOf(k), r);
      outcomes, states := outcomes + [r], states + [SnapOf(k)];
    }
    assert actions[..|actions|] == actions;
  }

  /** In no run of that kind does a wait end in the branch of line 47. */
  lemma NeverNotWoken(states: seq<Snap>, actions: seq<Action>, idle: nat, outcomes: seq<Option<Outcome>>, i: nat)
    requires IsRun(states, actions, idle, outcomes) && i < |actions|
    ensures outcomes[i] != Some(NotWoken)
  {
    assert Acts(states[i], actions[i], idle, At(states, i + 1), outcomes[i]);
  }

  /** The same from the start of the system: thread 0 runs, the others are ready in order. */
  method RunFromStart(n: nat, kinds: seq<Kind>, idle: nat, actions: seq<Action>)
    returns (outcomes: seq<Option<Outcome>>, ghost states: seq<Snap>)
    requires idle < n
    ensures IsRun(states, actions, idle, outcomes) && states[0].log == [] && states[0].m.current == 0
    ensures Sound(states[|actions|].log, kinds)
    ensures |states[0].m.ready| == n - 1 && forall i :: 0 <= i < n - 1 ==> states[0].m.ready[i] == i + 1
  {
    var k := new Kernel(n, kinds);
    assert Awake(k.Now(), idle) by { assert k.threads[idle].state != Waiting; }
    hide Linked, History, AllSettled, IsRun;
    outcomes, states := Run(k, idle, actions);
  }
}
