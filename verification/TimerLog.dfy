/** What the log of a timer run must look like (ke/timer.c), independently of the lists the code keeps. */
module TimerLog {
  import opened Common

  /** KeSetTimerEx at tick `at`, by a caller or (`again`) by the scan thread for a periodic timer; KeCancelTimer; and
      an expired timer taken off the fired list at tick `at`, its DPC, if it has one, being run. */
  datatype Entry =
    | Armed(timer: nat, due: nat, period: int, dpc: Option<nat>, again: bool, at: nat)
    | Cancelled(timer: nat, at: nat)
    | Fired(timer: nat, dpc: Option<nat>, at: nat)

  /** DueTimeToTicks at tick `now`: 100ns units, negative for relative, at least one tick ahead. */
  function DueTicks(now: nat, dueTime: int): nat {
    if dueTime < 0 then now + (if -dueTime / 10000 <= 0 then 1 else -dueTime / 10000) else dueTime / 10000
  }

  /** A relative due time is the whole number of milliseconds in it, but at least one tick, ahead; an absolute one does
      not depend on the clock. */
  lemma DueTicksMeans(now: nat, dueTime: int)
    ensures dueTime < 0 ==> DueTicks(now, dueTime) > now
    ensures dueTime <= -10000 ==>
              var ahead := DueTicks(now, dueTime) - now; ahead * 10000 <= -dueTime < (ahead + 1) * 10000
    ensures -10000 < dueTime < 0 ==> DueTicks(now, dueTime) == now + 1
    ensures dueTime >= 0 ==> DueTicks(now, dueTime) * 10000 <= dueTime < (DueTicks(now, dueTime) + 1) * 10000
  {
  }

  /** The due time the scan thread computes for a periodic timer. */
  function NextDue(now: nat, period: int): nat { DueTicks(now, -period * 10000) }

  /** A positive period is counted from the moment of re-arming. A negative one becomes an absolute tick. */
  lemma NextDueMeans(now: nat, period: int)
    ensures NextDue(now, period) == if period > 0 then now + period else -period
  {
    assert period * 10000 / 10000 == period;
  }

  /** So re-arming puts the next firing in the future exactly when the period is positive or its absolute tick is. */
  lemma RearmIsLater(now: nat, period: int)
    ensures NextDue(now, period) > now <==> period > 0 || -period > now
  {
    NextDueMeans(now, period);
  }

  /** The arm of `t` that is neither superseded, cancelled nor fired. */
  function Pending(log: seq<Entry>, t: nat): (r: Option<Entry>)
    ensures r.Some? ==> r.value.Armed?
    decreases |log|
  {
    if log == [] then None
    else
      var e := log[|log| - 1];
      if e.timer != t then Pending(log[..|log| - 1], t) else if e.Armed? then Some(e) else None
  }

  /** The latest arm of `t`, whatever has become of it. */
  function LastArm(log: seq<Entry>, t: nat): (r: Option<Entry>)
    ensures r.Some? ==> r.value.Armed?
    decreases |log|
  {
    if log == [] then None
    else
      var e := log[|log| - 1];
      if e.timer == t && e.Armed? then Some(e) else LastArm(log[..|log| - 1], t)
  }

  /** The tick of the last entry. */
  function Latest(log: seq<Entry>): nat { if log == [] then 0 else log[|log| - 1].at }

  /** `e` may follow `log`: ticks do not fall; a timer fires only while an arm of it is pending and due, with that
      arm's DPC; the scan thread re-arms only with the period of the latest arm. */
  ghost predicate MayFollow(log: seq<Entry>, e: Entry) {
    && Latest(log) <= e.at
    && (e.Fired? ==>
          var a := Pending(log, e.timer);
          a.Some? && a.value.due <= e.at && a.value.dpc == e.dpc)
    && (e.Armed? && e.again ==>
          var a := LastArm(log, e.timer);
          a.Some? && a.value.period == e.period != 0 && e.due == NextDue(e.at, e.period))
  }

  ghost predicate Sound(log: seq<Entry>)
    decreases |log|
  {
    log != [] ==> Sound(log[..|log| - 1]) && MayFollow(log[..|log| - 1], log[|log| - 1])
  }

  lemma {:induction false} SoundPrefix(log: seq<Entry>, k: nat)
    requires Sound(log) && k <= |log|
    ensures Sound(log[..k])
    ensures k < |log| ==> MayFollow(log[..k], log[k])
    decreases |log|
  {
    if k == |log| {
      assert log[..k] == log;
    } else {
      var init := log[..|log| - 1];
      if k < |init| {
        SoundPrefix(init, k);
        assert init[..k] == log[..k];
      }
    }
  }

  lemma {:induction false} TicksRise(log: seq<Entry>, i: nat, j: nat)
    requires Sound(log) && i <= j < |log|
    ensures log[i].at <= log[j].at
    decreases j
  {
    if i < j {
      TicksRise(log, i, j - 1);
      SoundPrefix(log, j);
      assert log[..j][j - 1] == log[j - 1];
    }
  }

  /** The pending arm is an entry of the log, with nothing about the same timer after it. */
  lemma {:induction false} PendingAt(log: seq<Entry>, t: nat) returns (j: nat)
    requires Pending(log, t).Some?
    ensures j < |log| && log[j] == Pending(log, t).value && log[j].timer == t
    ensures forall m :: j < m < |log| ==> log[m].timer != t
    decreases |log|
  {
    j := |log| - 1;
    if log[j].timer != t {
      var init := log[..j];
      j := PendingAt(init, t);
      assert forall m :: j < m < |init| ==> log[m] == init[m];
    }
  }

  // ---- What a sound log promises ------------------------------------------

  /** Every firing answers one arm: that arm comes before it, is due, carries the DPC that runs, and nothing about
      the timer (no other arm, no cancel, no other firing) lies between. */
  lemma FiringAnswersArm(log: seq<Entry>, k: nat) returns (j: nat)
    requires Sound(log) && k < |log| && log[k].Fired?
    ensures j < k && log[j].Armed? && log[j].timer == log[k].timer
    ensures log[j].due <= log[k].at && log[j].dpc == log[k].dpc
    ensures forall m :: j < m < k ==> log[m].timer != log[k].timer
    ensures Pending(log[..k], log[k].timer) == Some(log[j])
  {
    SoundPrefix(log, k);
    j := PendingAt(log[..k], log[k].timer);
    assert forall m :: j <= m < k ==> log[..k][m] == log[m];
  }

  /** Between two firings of a timer it was armed again, so a DPC runs at most once per arm. */
  lemma AtMostOncePerArm(log: seq<Entry>, i: nat, k: nat)
    requires Sound(log) && i < k < |log| && log[i].Fired? && log[k].Fired? && log[i].timer == log[k].timer
    ensures exists j :: i < j < k && log[j].Armed? && log[j].timer == log[k].timer
  {
    var j := FiringAnswersArm(log, k);
    assert i < j < k;
  }

  /** After a cancel a timer fires only if it was armed again. */
  lemma NeverAfterCancel(log: seq<Entry>, i: nat, k: nat)
    requires Sound(log) && i < k < |log| && log[i].Cancelled? && log[k].Fired? && log[i].timer == log[k].timer
    ensures exists j :: i < j < k && log[j].Armed? && log[j].timer == log[k].timer
  {
    var j := FiringAnswersArm(log, k);
    assert i < j < k;
  }

  /** Positions `i..k` hold no arm of `t` by a caller. */
  ghost predicate OnlyRearmed(log: seq<Entry>, t: nat, i: nat, k: nat)
    requires k <= |log|
  {
    forall m :: i <= m < k && log[m].Armed? && log[m].timer == t ==> log[m].again
  }

  /** While only the scan thread re-arms a timer, its period stays. */
  lemma {:induction false} PeriodStays(log: seq<Entry>, t: nat, i: nat, k: nat)
    requires Sound(log) && i <= k <= |log| && LastArm(log[..i], t).Some? && OnlyRearmed(log, t, i, k)
    ensures LastArm(log[..k], t).Some? && LastArm(log[..k], t).value.period == LastArm(log[..i], t).value.period
    decreases k
  {
    if i < k {
      PeriodStays(log, t, i, k - 1);
      assert log[..k][..k - 1] == log[..k - 1];
      SoundPrefix(log, k - 1);
    }
  }

  lemma {:induction false} PendingIsLastArm(log: seq<Entry>, t: nat)
    requires Pending(log, t).Some?
    ensures LastArm(log, t) == Pending(log, t)
    decreases |log|
  {
    if log[|log| - 1].timer != t { PendingIsLastArm(log[..|log| - 1], t); }
  }

  /** Firings of a periodic timer that nobody else arms are at least its period apart. */
  lemma PeriodApart(log: seq<Entry>, i: nat, k: nat)
    requires Sound(log) && i < k < |log| && log[i].Fired? && log[k].Fired? && log[i].timer == log[k].timer
    requires OnlyRearmed(log, log[i].timer, i, k)
    requires var a := Pending(log[..i], log[i].timer); a.Some? && a.value.period > 0
    ensures log[k].at >= log[i].at + Pending(log[..i], log[i].timer).value.period
  {
    var t := log[i].timer;
    var j := FiringAnswersArm(log, k);
    assert i < j;
    PendingIsLastArm(log[..i], t);
    PeriodStays(log, t, i, j);
    SoundPrefix(log, j);
    NextDueMeans(log[j].at, log[j].period);
    TicksRise(log, i, j);
  }
}
