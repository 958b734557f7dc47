/** What the log of waits and signals must look like (ke/dispatch.c), independently of the lists the code keeps. */
module DispatchLog {
  import opened Common

  /** The types of dispatcher object: the two kinds of event, with their initial state, and the mutex. */
  datatype Kind = Notification(initially: bool) | Synchronization(initially: bool) | Mutant

  /** Thread `t` starts to wait on object `o`; its wait is satisfied, at once or later; it releases the mutex. */
  datatype Entry =
    | Signal(o: nat)
    | Reset(o: nat)
    | Blocked(o: nat, t: nat)
    | Granted(o: nat, t: nat)
    | Released(o: nat, t: nat)

  /** One object as the log shows it. */
  datatype View = View(charged: bool, queue: seq<nat>, owner: Option<nat>)

  function Initially(kind: Kind): View { View(kind.Mutant? || kind.initially, [], None) }

  function After(v: View, kind: Kind, e: Entry): View {
    match e
    case Signal(_) => v.(charged := true)
    case Reset(_) => v.(charged := false)
    case Blocked(_, t) => v.(queue := v.queue + [t])
    case Granted(_, t) =>
      View(v.charged && kind.Notification?, if v.queue == [] then [] else v.queue[1..], if kind.Mutant? then Some(t) else v.owner)
    case Released(_, _) => v.(charged := true, owner := None)
  }

  function Replay(log: seq<Entry>, o: nat, kind: Kind): View
    decreases |log|
  {
    if log == [] then Initially(kind)
    else
      var v := Replay(log[..|log| - 1], o, kind);
      if log[|log| - 1].o == o then After(v, kind, log[|log| - 1]) else v
  }

  /** `e` may follow: a wait is satisfied only on a signaled object and never past a thread already waiting; only the
      owner releases a mutex; a thread waits only on an object that is not signaled. */
  ghost predicate MayFollow(v: View, kind: Kind, e: Entry) {
    match e
    case Signal(_) => !kind.Mutant?
    case Reset(_) => !kind.Mutant?
    case Blocked(_, t) => !v.charged
    case Granted(_, t) => v.charged && (v.queue == [] || v.queue[0] == t)
    case Released(_, t) => kind.Mutant? && v.owner == Some(t)
  }

  ghost predicate Sound(log: seq<Entry>, kinds: seq<Kind>)
    decreases |log|
  {
    log != [] ==>
      var e, init := log[|log| - 1], log[..|log| - 1];
      Sound(init, kinds) && e.o < |kinds| && MayFollow(Replay(init, e.o, kinds[e.o]), kinds[e.o], e)
  }

  lemma {:induction false} SoundAt(log: seq<Entry>, kinds: seq<Kind>, k: nat)
    requires Sound(log, kinds) && k < |log|
    ensures var e := log[k]; e.o < |kinds| && MayFollow(Replay(log[..k], e.o, kinds[e.o]), kinds[e.o], e)
    decreases |log|
  {
    var init := log[..|log| - 1];
    if k < |init| {
      SoundAt(init, kinds, k);
      assert init[..k] == log[..k];
    }
  }

  lemma ReplayNext(log: seq<Entry>, o: nat, kind: Kind, k: nat)
    requires k < |log|
    ensures Replay(log[..k + 1], o, kind) ==
            if log[k].o == o then After(Replay(log[..k], o, kind), kind, log[k]) else Replay(log[..k], o, kind)
  {
    assert log[..k + 1][..k] == log[..k];
  }

  // ---- One wait per signal ------------------------------------------------

  /** A consumed signal stays consumed until the next one. */
  lemma {:induction false} StaysSpent(log: seq<Entry>, kinds: seq<Kind>, o: nat, i: nat, m: nat)
    requires Sound(log, kinds) && i < m <= |log| && o < |kinds| && kinds[o].Synchronization?
    requires log[i].Granted? && log[i].o == o && forall j :: i < j < m ==> log[j] != Signal(o)
    ensures !Replay(log[..m], o, kinds[o]).charged
    decreases m
  {
    ReplayNext(log, o, kinds[o], m - 1);
    if i < m - 1 {
      StaysSpent(log, kinds, o, i, m - 1);
      SoundAt(log, kinds, m - 1);
    }
  }

  /** Between two satisfied waits on a synchronization event the event was set: one set satisfies at most one wait. */
  lemma OneWaitPerSet(log: seq<Entry>, kinds: seq<Kind>, i: nat, k: nat)
    requires Sound(log, kinds) && i < k < |log| && log[i].Granted? && log[k].Granted? && log[i].o == log[k].o
    requires log[i].o < |kinds| && kinds[log[i].o].Synchronization?
    ensures exists j :: i < j < k && log[j] == Signal(log[i].o)
  {
    if forall j :: i < j < k ==> log[j] != Signal(log[i].o) {
      StaysSpent(log, kinds, log[i].o, i, k);
      SoundAt(log, kinds, k);
    }
  }

  // ---- Mutual exclusion ---------------------------------------------------

  lemma {:induction false} StaysOwned(log: seq<Entry>, kinds: seq<Kind>, o: nat, i: nat, m: nat)
    requires Sound(log, kinds) && i < m <= |log| && o < |kinds| && kinds[o].Mutant?
    requires log[i].Granted? && log[i].o == o && forall j :: i < j < m ==> log[j] != Released(o, log[i].t)
    ensures var v := Replay(log[..m], o, kinds[o]); !v.charged && v.owner == Some(log[i].t)
    decreases m
  {
    ReplayNext(log, o, kinds[o], m - 1);
    if i < m - 1 {
      StaysOwned(log, kinds, o, i, m - 1);
      SoundAt(log, kinds, m - 1);
    }
  }

  /** A mutex granted to one thread is granted to the next only after the first has released it. */
  lemma MutualExclusion(log: seq<Entry>, kinds: seq<Kind>, i: nat, k: nat)
    requires Sound(log, kinds) && i < k < |log| && log[i].Granted? && log[k].Granted? && log[i].o == log[k].o
    requires log[i].o < |kinds| && kinds[log[i].o].Mutant?
    ensures exists j :: i < j < k && log[j] == Released(log[i].o, log[i].t)
  {
    if forall j :: i < j < k ==> log[j] != Released(log[i].o, log[i].t) {
      StaysOwned(log, kinds, log[i].o, i, k);
      SoundAt(log, kinds, k);
    }
  }

  // ---- First come, first served -------------------------------------------

  /** While thread `t`, which began to wait at `i`, is not served, it stands in the queue behind what is left of those
      that were there before it. */
  lemma {:induction false} StaysInLine(log: seq<Entry>, kinds: seq<Kind>, i: nat, m: nat) returns (r: nat)
    requires Sound(log, kinds) && i < m <= |log| && log[i].Blocked? && log[i].o < |kinds|
    requires forall j :: i < j < m ==> log[j] != Granted(log[i].o, log[i].t)
    ensures var o := log[i].o;
            var before, now := Replay(log[..i], o, kinds[o]).queue, Replay(log[..m], o, kinds[o]).queue;
            r <= |before| && before[r..] + [log[i].t] <= now
    decreases m
  {
    var o := log[i].o;
    var kind := kinds[o];
    var before := Replay(log[..i], o, kind).queue;
    ReplayNext(log, o, kind, m - 1);
    if i == m - 1 {
      r := 0;
      assert before[0..] == before;
    } else {
      r := StaysInLine(log, kinds, i, m - 1);
      SoundAt(log, kinds, m - 1);
      var was, e := Replay(log[..m - 1], o, kind).queue, log[m - 1];
      if e.o == o && e.Granted? {
        InFront(before, r, log[i].t, was);
        r := r + 1;
      }
    }
  }

  /** Serving the head of a line in which `t` is not first. */
  lemma InFront(before: seq<nat>, r: nat, t: nat, was: seq<nat>)
    requires r <= |before| && before[r..] + [t] <= was
    ensures was != []
    ensures was[0] != t ==> r < |before| && was[0] == before[r] && before[r + 1..] + [t] <= was[1..]
  {
    var front := before[r..] + [t];
    assert was[0] == front[0];
    if r < |before| {
      assert before[r + 1..] + [t] == front[1..] && front[1..] <= was[1..];
    }
  }

  /** Whoever stands in the queue began to wait. */
  lemma {:induction false} QueuedSince(log: seq<Entry>, kinds: seq<Kind>, o: nat, u: nat) returns (j: nat)
    requires Sound(log, kinds) && o < |kinds| && u in Replay(log, o, kinds[o]).queue
    ensures j < |log| && log[j] == Blocked(o, u)
    decreases |log|
  {
    var init, e := log[..|log| - 1], log[|log| - 1];
    if e == Blocked(o, u) {
      j := |log| - 1;
    } else {
      j := QueuedSince(init, kinds, o, u);
    }
  }

  /** Nobody overtakes: if `t` began to wait at `i`, another thread served at `k` before `t` already stood in the queue
      when `t` joined it, having begun to wait earlier. */
  lemma NoOvertaking(log: seq<Entry>, kinds: seq<Kind>, i: nat, k: nat)
    requires Sound(log, kinds) && i < k < |log| && log[i].Blocked? && log[k].Granted?
    requires log[i].o == log[k].o < |kinds| && log[i].t != log[k].t
    requires forall j :: i < j < k ==> log[j] != Granted(log[i].o, log[i].t)
    ensures log[k].t in Replay(log[..i], log[i].o, kinds[log[i].o]).queue
    ensures exists j :: 0 <= j < i && log[j] == Blocked(log[i].o, log[k].t)
  {
    var o := log[i].o;
    var before := Replay(log[..i], o, kinds[o]).queue;
    var r := StaysInLine(log, kinds, i, k);
    SoundAt(log, kinds, k);
    InFront(before, r, log[i].t, Replay(log[..k], o, kinds[o]).queue);
    assert log[k].t == before[r];
    SoundPrefix(log, kinds, i);
    var j := QueuedSince(log[..i], kinds, o, log[k].t);
    assert log[..i][j] == log[j];
  }

  lemma {:induction false} SoundPrefix(log: seq<Entry>, kinds: seq<Kind>, k: nat)
    requires Sound(log, kinds) && k <= |log|
    ensures Sound(log[..k], kinds)
    decreases |log|
  {
    if k == |log| {
      assert log[..k] == log;
    } else {
      assert log[..|log| - 1][..k] == log[..k];
      SoundPrefix(log[..|log| - 1], kinds, k);
    }
  }
}
