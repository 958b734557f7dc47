/** Push locks (ex/pushlock.c): one 32-bit word changed by compare-and-swap loops, as interleaved steps of any number
    of threads that each work from a possibly stale copy of the word. */
module PushLock {
  import opened Common

  /** Bits 0..15 count the shared holders, bit 16 is the exclusive flag, bit 17 the waiting flag. */
  type Word = w: nat | w < TWO32

  const SHARED_MASK: nat := 0xFFFF
  const EXCLUSIVE: nat := 0x10000
  const WAITING: nat := 0x20000

  function Count(w: Word): nat { w % EXCLUSIVE }

  predicate Exclusive(w: Word) { w / EXCLUSIVE % 2 == 1 }

  predicate Waiting(w: Word) { w / WAITING % 2 == 1 }

  /** `w | 0x20000`. */
  function Mark(w: Word): Word { if Waiting(w) then w else w + WAITING }

  /** `w & ~0x30000`. */
  function Clear(w: Word): Word {
    w - (if Exclusive(w) then EXCLUSIVE else 0) - (if Waiting(w) then WAITING else 0)
  }

  /** Where a thread is: outside the lock's code, or in one of the four loops holding the word it last saw; `Pausing`
      lies between the successful marking of line 99 and the reload of line 110. */
  datatype Pc =
    | Outside
    | AcquireShared(seen: Word)
    | ReleaseShared(seen: Word)
    | AcquireExclusive(seen: Word)
    | Pausing
    | ReleaseExclusive(seen: Word)

  /** `holds` counts the shared acquires a thread has not yet undone; `owns` says it is the writer. */
  datatype Thread = Thread(pc: Pc, holds: nat, owns: bool)

  datatype System = System(word: Word, threads: seq<Thread>)

  datatype Call = CallAcquireShared | CallReleaseShared | CallAcquireExclusive | CallReleaseExclusive

  /** A thread enters one of the four routines, or takes its next atomic step. */
  datatype Event = Enter(who: nat, call: Call) | Continue(who: nat)

  /** Threads are well behaved: each releases only what it holds. */
  predicate MayCall(t: Thread, call: Call) {
    && t.pc == Outside
    && (call == CallReleaseShared ==> t.holds > 0)
    && (call == CallReleaseExclusive ==> t.owns)
  }

  function Entered(call: Call, w: Word): Pc {
    match call
    case CallAcquireShared => AcquireShared(w)
    case CallReleaseShared => ReleaseShared(w)
    case CallAcquireExclusive => AcquireExclusive(w)
    case CallReleaseExclusive => ReleaseExclusive(w)
  }

  /** One atomic step of a thread inside the code: the word and the thread after it. */
  function Advance(w: Word, t: Thread): (Word, Thread) {
    match t.pc
    case Outside => (w, t)
    case AcquireShared(seen) =>
      if !Exclusive(seen) && Count(seen) < SHARED_MASK && w == seen then
        ((seen + 1) % EXCLUSIVE, Thread(Outside, t.holds + 1, t.owns))
      else
        (w, t.(pc := AcquireShared(w)))
    case ReleaseShared(seen) =>
      if Count(seen) == 0 then (w, t.(pc := Outside))
      else if w == seen then (seen - 1, Thread(Outside, if t.holds > 0 then t.holds - 1 else 0, t.owns))
      else (w, t.(pc := ReleaseShared(w)))
    case AcquireExclusive(seen) =>
      if w != seen then (w, t.(pc := AcquireExclusive(w)))
      else if seen == 0 then (EXCLUSIVE + WAITING, Thread(Outside, t.holds, true))
      else (Mark(seen), t.(pc := Pausing))
    case Pausing => (w, t.(pc := AcquireExclusive(w)))
    case ReleaseExclusive(seen) =>
      if w == seen then (Clear(seen), Thread(Outside, t.holds, false))
      else (w, t.(pc := ReleaseExclusive(w)))
  }

  /** An event naming no thread, or a call the thread may not make, changes nothing. */
  function Step(s: System, e: Event): (r: System)
    ensures |r.threads| == |s.threads|
  {
    if e.who >= |s.threads| then s
    else
      var t := s.threads[e.who];
      match e
      case Enter(_, call) =>
        if MayCall(t, call) then s.(threads := s.threads[e.who := t.(pc := Entered(call, s.word))]) else s
      case Continue(_) =>
        var (w, u) := Advance(s.word, t);
        System(w, s.threads[e.who := u])
  }

  function Run(s: System, es: seq<Event>): (r: System)
    ensures |r.threads| == |s.threads|
    decreases |es|
  {
    if es == [] then s else Step(Run(s, es[..|es| - 1]), es[|es| - 1])
  }

  /** ExInitializePushLock: the word is 0 and nobody holds the lock. */
  function Initial(n: nat): System { System(0, seq(n, _ => Thread(Outside, 0, false))) }

  // ---- Counting holders ---------------------------------------------------

  function Readers(ts: seq<Thread>): nat
    decreases |ts|
  {
    if ts == [] then 0 else ts[0].holds + Readers(ts[1..])
  }

  function Writers(ts: seq<Thread>): nat
    decreases |ts|
  {
    if ts == [] then 0 else (if ts[0].owns then 1 else 0) + Writers(ts[1..])
  }

  lemma {:induction false} HoldersAfterUpdate(ts: seq<Thread>, i: nat, t: Thread)
    requires i < |ts|
    ensures Readers(ts[i := t]) + ts[i].holds == Readers(ts) + t.holds
    ensures Writers(ts[i := t]) + (if ts[i].owns then 1 else 0) == Writers(ts) + (if t.owns then 1 else 0)
    decreases |ts|
  {
    if i > 0 {
      assert ts[i := t][1..] == ts[1..][i - 1 := t];
      HoldersAfterUpdate(ts[1..], i - 1, t);
    } else {
      assert ts[i := t][1..] == ts[1..];
    }
  }

  /** Each thread's share is part of the totals, and a total of zero means nobody. */
  lemma {:induction false} HolderIsCounted(ts: seq<Thread>, i: nat)
    requires i < |ts|
    ensures ts[i].holds <= Readers(ts) && (ts[i].owns ==> Writers(ts) > 0)
    decreases |ts|
  {
    if i > 0 { HolderIsCounted(ts[1..], i - 1); }
  }

  lemma {:induction false} NobodyHolds(n: nat)
    ensures Readers(Initial(n).threads) == 0 && Writers(Initial(n).threads) == 0
  {
    if n > 0 {
      assert Initial(n).threads[1..] == Initial(n - 1).threads;
      NobodyHolds(n - 1);
    }
  }

  // ---- Safety over every interleaving -------------------------------------

  /** The promise: never two writers, never a writer beside a reader, and the low bits count the readers. */
  ghost predicate Safe(s: System) {
    && Writers(s.threads) <= 1
    && (Writers(s.threads) > 0 ==> Readers(s.threads) == 0)
    && Readers(s.threads) == Count(s.word) <= SHARED_MASK
    && (Exclusive(s.word) <==> Writers(s.threads) > 0)
  }

  /** What a thread inside a release knows: it holds what it releases, and its copy of the word shows it. */
  ghost predicate Behaved(t: Thread) {
    && (t.pc.ReleaseShared? ==> t.holds > 0 && Count(t.pc.seen) > 0)
    && (t.pc.ReleaseExclusive? ==> t.owns)
  }

  /** Bits 18 to 31 stay zero. */
  ghost predicate Inv(s: System) {
    Safe(s) && s.word < 2 * WAITING && forall t :: t in s.threads ==> Behaved(t)
  }

  lemma ShareBits(w: Word)
    requires w < 2 * WAITING && !Exclusive(w) && Count(w) < SHARED_MASK
    ensures (w + 1) % EXCLUSIVE == Count(w) + 1 && (w + 1) % EXCLUSIVE < EXCLUSIVE
  {
  }

  lemma UnshareBits(w: Word)
    requires w < 2 * WAITING && Count(w) > 0
    ensures Count(w - 1) == Count(w) - 1 && Exclusive(w - 1) == Exclusive(w) && Waiting(w - 1) == Waiting(w)
  {
  }

  lemma MarkBits(w: Word)
    requires w < 2 * WAITING
    ensures Count(Mark(w)) == Count(w) && Exclusive(Mark(w)) == Exclusive(w) && Waiting(Mark(w)) && Mark(w) < 2 * WAITING
  {
  }

  lemma ClearBits(w: Word)
    requires w < 2 * WAITING
    ensures Clear(w) == Count(w)
  {
  }

  /** Every step of every thread keeps the invariant. */
  lemma StepKeeps(s: System, e: Event)
    requires Inv(s)
    ensures Inv(Step(s, e))
  {
    if e.who < |s.threads| {
      var t := s.threads[e.who];
      var s' := Step(s, e);
      var u := s'.threads[e.who];
      assert Behaved(t) by { assert t in s.threads; }
      HolderIsCounted(s.threads, e.who);
      HoldersAfterUpdate(s.threads, e.who, u);
      if e.Continue? { AdvanceKeepsWord(s, e.who); }
      assert Behaved(u);
    }
  }

  /** The word's part of the invariant, for the thread that steps. */
  lemma AdvanceKeepsWord(s: System, i: nat)
    requires Inv(s) && i < |s.threads|
    ensures var s' := Step(s, Continue(i)); Safe(s') && s'.word < 2 * WAITING
  {
    var t := s.threads[i];
    var s' := Step(s, Continue(i));
    assert Behaved(t) by { assert t in s.threads; }
    HolderIsCounted(s.threads, i);
    HoldersAfterUpdate(s.threads, i, s'.threads[i]);
    match t.pc
    case AcquireShared(seen) => if !Exclusive(seen) && Count(seen) < SHARED_MASK && s.word == seen { ShareBits(seen); }
    case ReleaseShared(seen) => if s.word == seen { UnshareBits(seen); }
    case AcquireExclusive(seen) => if s.word == seen { MarkBits(seen); }
    case ReleaseExclusive(seen) =>
      if s.word == seen {
        ClearBits(seen);
        assert s'.word == 0;
      }
    case _ =>
  }

  /** Every interleaving of any number of threads is safe, from the initial word on. */
  lemma {:induction false} EveryRunIsSafe(n: nat, es: seq<Event>)
    ensures Inv(Run(Initial(n), es)) && |Run(Initial(n), es).threads| == n
    decreases |es|
  {
    if es == [] {
      NobodyHolds(n);
    } else {
      EveryRunIsSafe(n, es[..|es| - 1]);
      StepKeeps(Run(Initial(n), es[..|es| - 1]), es[|es| - 1]);
    }
  }

  // ---- The readers-writer lock it implements ------------------------------

  /** What thread `i` must have done when its routine returns as `u`, in terms of the holders alone. */
  ghost predicate Done(ts: seq<Thread>, i: nat, u: Thread)
    requires i < |ts|
  {
    match ts[i].pc
    case AcquireShared(_) => u.holds == ts[i].holds + 1 && u.owns == ts[i].owns && forall t :: t in ts ==> !t.owns
    case ReleaseShared(_) => u.holds == ts[i].holds - 1 && u.owns == ts[i].owns
    case AcquireExclusive(_) => u.holds == ts[i].holds && u.owns && forall t :: t in ts ==> !t.owns && t.holds == 0
    case ReleaseExclusive(_) => ts[i].owns && u.holds == ts[i].holds && !u.owns
    case _ => false
  }

  /** A step of the lock it should be: only thread `i` moves, the holders change only when its routine returns, and
      the routine returns only when it has done its job and the job was allowed. */
  ghost predicate Legal(ts: seq<Thread>, us: seq<Thread>, i: nat) {
    && |us| == |ts|
    && (forall j :: 0 <= j < |ts| && j != i ==> us[j] == ts[j])
    && (i < |ts| ==>
          if ts[i].pc != Outside && us[i].pc == Outside then Done(ts, i, us[i])
          else us[i].holds == ts[i].holds && us[i].owns == ts[i].owns)
  }

  lemma NobodyElse(ts: seq<Thread>)
    ensures Writers(ts) == 0 ==> forall t :: t in ts ==> !t.owns
    ensures Readers(ts) == 0 ==> forall t :: t in ts ==> t.holds == 0
  {
    forall t | t in ts ensures (Writers(ts) == 0 ==> !t.owns) && (Readers(ts) == 0 ==> t.holds == 0) {
      var j :| 0 <= j < |ts| && ts[j] == t;
      HolderIsCounted(ts, j);
    }
  }

  /** The protocol refines the readers-writer lock: in every reachable state every step is legal; in particular no
      release ever takes the not-held exit of line 68. */
  lemma EveryStepIsLegal(n: nat, es: seq<Event>, e: Event)
    ensures Legal(Run(Initial(n), es).threads, Step(Run(Initial(n), es), e).threads, e.who)
  {
    var s := Run(Initial(n), es);
    EveryRunIsSafe(n, es);
    NobodyElse(s.threads);
    if e.who < |s.threads| {
      assert Behaved(s.threads[e.who]) by { assert s.threads[e.who] in s.threads; }
    }
  }

  /** The waiting flag after a step that took a thread from `pc` to `next`. */
  function FlagAfter(flag: bool, pc: Pc, next: Pc): bool {
    if pc == Outside || pc == next then flag
    else if next == Pausing then true
    else if next != Outside then flag
    else match pc
      case AcquireShared(_) => false
      case AcquireExclusive(_) => true
      case ReleaseExclusive(_) => false
      case _ => flag
  }

  /** In every reachable state the word is exactly the holders and the flag, and each step moves the flag as
      FlagAfter says: readers enter in spite of it and clear it, and a writer leaves a word of 0. */
  lemma EveryWordIsExact(n: nat, es: seq<Event>, e: Event)
    requires e.who < n
    ensures var s := Run(Initial(n), es);
            var r := Step(s, e);
            r.word == Readers(r.threads) + EXCLUSIVE * Writers(r.threads)
                      + if FlagAfter(Waiting(s.word), s.threads[e.who].pc, r.threads[e.who].pc) then WAITING else 0
  {
    var s := Run(Initial(n), es);
    var r := Step(s, e);
    var t := s.threads[e.who];
    EveryRunIsSafe(n, es);
    StepKeeps(s, e);
    assert Behaved(t) by { assert t in s.threads; }
    HolderIsCounted(s.threads, e.who);
    WordParts(s.word);
    WordParts(r.word);
    if e.Continue? { FlagMoves(s.word, t); }
    assert Waiting(r.word) <==> FlagAfter(Waiting(s.word), t.pc, r.threads[e.who].pc);
    assert Writers(r.threads) == if Exclusive(r.word) then 1 else 0;
  }

  lemma WordParts(w: Word)
    requires w < 2 * WAITING
    ensures w == Count(w) + (if Exclusive(w) then EXCLUSIVE else 0) + (if Waiting(w) then WAITING else 0)
  {
  }

  lemma FlagMoves(w: Word, t: Thread)
    requires w < 2 * WAITING && Behaved(t) && (t.pc.ReleaseExclusive? ==> Count(w) == 0)
    ensures var (w', t') := Advance(w, t); t.pc != Outside ==> (Waiting(w') <==> FlagAfter(Waiting(w), t.pc, t'.pc))
  {
    match t.pc
    case AcquireShared(seen) => if !Exclusive(seen) && Count(seen) < SHARED_MASK && w == seen { ShareBits(seen); }
    case ReleaseShared(seen) => if w == seen { UnshareBits(seen); }
    case AcquireExclusive(seen) => if w == seen { MarkBits(seen); }
    case ReleaseExclusive(seen) => if w == seen { ClearBits(seen); }
    case _ =>
  }

  // ---- Who is let in ------------------------------------------------------

  /** Thread `i` enters a routine and takes its next step with no other step between. */
  function Undisturbed(s: System, i: nat, call: Call): System { Step(Step(s, Enter(i, call)), Continue(i)) }

  /** In every reachable state: a reader left undisturbed is let in at once, whatever the waiting flag, if and only if
      there is no writer and the count has room; it then holds the lock once more, beside all other readers. */
  lemma ReaderIsLetIn(n: nat, es: seq<Event>, i: nat)
    requires i < n && Run(Initial(n), es).threads[i].pc == Outside
    ensures var s := Run(Initial(n), es);
            var r := Undisturbed(s, i, CallAcquireShared);
            && (r.threads[i].pc == Outside <==> Writers(s.threads) == 0 && Readers(s.threads) < SHARED_MASK)
            && (r.threads[i].pc == Outside ==>
                  && r.threads == s.threads[i := s.threads[i].(holds := s.threads[i].holds + 1)]
                  && r.word == Readers(s.threads) + 1)
  {
    var s := Run(Initial(n), es);
    EveryRunIsSafe(n, es);
    var t := s.threads[i].(pc := AcquireShared(s.word));
    assert Step(s, Enter(i, CallAcquireShared)).threads[i] == t;
    WordParts(s.word);
    if Writers(s.threads) == 0 && Readers(s.threads) < SHARED_MASK {
      ShareBits(s.word);
      var r := Undisturbed(s, i, CallAcquireShared);
      assert r.threads == s.threads[i := s.threads[i].(holds := s.threads[i].holds + 1)];
    }
  }

  /** A release left undisturbed returns at once, having released what the thread held. */
  lemma ReleaseReturns(n: nat, es: seq<Event>, i: nat)
    requires i < n && Run(Initial(n), es).threads[i].pc == Outside
    ensures var s := Run(Initial(n), es);
            && (s.threads[i].holds > 0 ==>
                  var r := Undisturbed(s, i, CallReleaseShared);
                  && r.threads == s.threads[i := s.threads[i].(holds := s.threads[i].holds - 1)]
                  && r.word == s.word - 1)
            && (s.threads[i].owns ==>
                  var r := Undisturbed(s, i, CallReleaseExclusive);
                  r.threads == s.threads[i := s.threads[i].(owns := false)] && r.word == 0)
  {
    var s := Run(Initial(n), es);
    EveryRunIsSafe(n, es);
    HolderIsCounted(s.threads, i);
    if s.threads[i].holds > 0 {
      var r := Undisturbed(s, i, CallReleaseShared);
      assert r.threads == s.threads[i := s.threads[i].(holds := s.threads[i].holds - 1)];
    }
    if s.threads[i].owns {
      ClearBits(s.word);
      var r := Undisturbed(s, i, CallReleaseExclusive);
      assert r.threads == s.threads[i := s.threads[i].(owns := false)];
    }
  }

  /** However stale its copy, a thread inside a loop that takes two steps undisturbed gets through, if the lock is then
      free for it: no history of failed attempts keeps it out. */
  lemma TwoStepsSuffice(n: nat, es: seq<Event>, i: nat)
    requires i < n
    ensures var s := Run(Initial(n), es);
            var r := Step(Step(s, Continue(i)), Continue(i));
            && (s.threads[i].pc.AcquireShared? && Writers(s.threads) == 0 && Readers(s.threads) < SHARED_MASK ==>
                  r.threads[i].pc == Outside && r.threads[i].holds == s.threads[i].holds + 1)
            && (s.threads[i].pc.ReleaseShared? ==> r.threads[i].pc == Outside && r.threads[i].holds == s.threads[i].holds - 1)
            && (s.threads[i].pc.AcquireExclusive? && s.word == 0 ==> r.threads[i].pc == Outside && r.threads[i].owns)
            && (s.threads[i].pc.Pausing? && s.word == 0 ==> r.threads[i].pc == Outside && r.threads[i].owns)
            && (s.threads[i].pc.ReleaseExclusive? ==> r.threads[i].pc == Outside && !r.threads[i].owns)
  {
    var s := Run(Initial(n), es);
    EveryRunIsSafe(n, es);
    HolderIsCounted(s.threads, i);
    assert Behaved(s.threads[i]) by { assert s.threads[i] in s.threads; }
    WordParts(s.word);
  }

  // ---- A leftover waiting flag --------------------------------------------

  /** Thread `i` asks for the lock exclusively and then takes `k` steps with no other thread stepping. */
  function Alone(s: System, i: nat, k: nat): (r: System)
    ensures |r.threads| == |s.threads|
  {
    if k == 0 then Step(s, Enter(i, CallAcquireExclusive)) else Step(Alone(s, i, k - 1), Continue(i))
  }

  /** A writer that finds a nonzero word marks it, pauses and finds it nonzero again, however long it tries. */
  lemma {:induction false} LoneWriterTriesOn(s: System, i: nat, k: nat)
    requires i < |s.threads| && s.threads[i].pc == Outside && !s.threads[i].owns && s.word != 0
    ensures var r := Alone(s, i, k);
            && !r.threads[i].owns && r.word != 0
            && (r.threads[i].pc == Pausing || r.threads[i].pc == AcquireExclusive(r.word))
  {
    if k > 0 { LoneWriterTriesOn(s, i, k - 1); }
  }

  lemma {:induction false} LoneWriterEnters(s: System, i: nat, k: nat)
    requires i < |s.threads| && s.threads[i].pc == Outside && s.word == 0 && k > 0
    ensures Alone(s, i, k).threads[i].owns && Alone(s, i, k).threads[i].pc == Outside
  {
    if k > 1 {
      LoneWriterEnters(s, i, k - 1);
    } else {
      assert Alone(s, i, 0).threads[i].pc == AcquireExclusive(0);
    }
  }

  /** On a lock nobody holds, a lone writer succeeds if and only if the waiting flag is clear. */
  lemma FreeLockServesWriter(n: nat, es: seq<Event>, i: nat, k: nat)
    requires var s := Run(Initial(n), es);
             i < n && s.threads[i].pc == Outside && Readers(s.threads) == 0 && Writers(s.threads) == 0
    requires k > 0
    ensures var s := Run(Initial(n), es); Alone(s, i, k).threads[i].owns <==> !Waiting(s.word)
  {
    var s := Run(Initial(n), es);
    EveryRunIsSafe(n, es);
    HolderIsCounted(s.threads, i);
    if s.word == 0 { LoneWriterEnters(s, i, k); } else { LoneWriterTriesOn(s, i, k); }
  }

  const Idle := Thread(Outside, 0, false)
  const Holding := Thread(Outside, 1, false)
  const Paused := Thread(Pausing, 0, false)

  /** A reader takes the lock and a writer marks it; then the reader leaves. */
  const Marking := [Enter(0, CallAcquireShared), Continue(0), Enter(1, CallAcquireExclusive), Continue(1)]
  const Leaving := [Enter(0, CallReleaseShared), Continue(0)]

  lemma WriterMarks()
    ensures Run(Initial(3), Marking) == System(WAITING + 1, [Holding, Paused, Idle])
  {
    var s := Initial(3);
    assert Run(s, []) == System(0, [Idle, Idle, Idle]);
    RunStep(s, [], Marking[0], System(0, [Idle.(pc := AcquireShared(0)), Idle, Idle]));
    RunStep(s, [Marking[0]], Marking[1], System(1, [Holding, Idle, Idle]));
    RunStep(s, [Marking[0]] + [Marking[1]], Marking[2], System(1, [Holding, Idle.(pc := AcquireExclusive(1)), Idle]));
    RunStep(s, [Marking[0]] + [Marking[1]] + [Marking[2]], Marking[3], System(WAITING + 1, [Holding, Paused, Idle]));
    assert [Marking[0]] + [Marking[1]] + [Marking[2]] + [Marking[3]] == Marking;
  }

  /** When a reader leaves after a writer has marked the lock, nobody holds it and the waiting flag stays. */
  lemma WaitingFlagIsLeftOver()
    ensures Run(Initial(3), Marking + Leaving) == System(WAITING, [Idle, Paused, Idle])
  {
    var s := Initial(3);
    WriterMarks();
    RunStep(s, Marking, Leaving[0], System(WAITING + 1, [Holding.(pc := ReleaseShared(WAITING + 1)), Paused, Idle]));
    RunStep(s, Marking + [Leaving[0]], Leaving[1], System(WAITING, [Idle, Paused, Idle]));
    assert Marking + [Leaving[0]] + [Leaving[1]] == Marking + Leaving;
  }

  lemma RunStep(s: System, es: seq<Event>, e: Event, r: System)
    requires Step(Run(s, es), e) == r
    ensures Run(s, es + [e]) == r
  {
    assert (es + [e])[..|es|] == es;
  }
}
