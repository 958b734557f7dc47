/** Interleaved runs of the sector cache: any number of readers, each of which the scheduler may stop where
    CcReadSector drops its lock. Every run refines a list shared by the readers, and every reader gets its own sector. */
module SectorCacheReaders {
  import opened Common
  import opened CacheLists
  import opened SectorCache
  import opened SectorCacheRuns

  /** A scheduling decision: reader `who` enters CcReadSector, or resumes after its device read; `ok` says whether the
      device delivers if this step asks it. */
  datatype Turn = Enter(who: nat, lba: nat, ok: bool) | Resume(who: nat, ok: bool)

  /** What a turn comes to: the reader's call returns a sector or an error, the reader stops in the unlocked part, or
      the turn makes no sense for this reader. */
  datatype Answer = Delivered(who: nat, lba: nat, data: Sector) | Failed(who: nat) | Stopped(who: nat, lba: nat) | Ignored

  // ---- The shared list ----------------------------------------------------

  /** Cached LBAs in order of use, never-used entries, and the readers in the unlocked part with what they asked for. */
  datatype Shared = Shared(lbas: seq<nat>, unused: nat, waiting: map<nat, nat>)

  /** One of the occurrences of `lba` has moved to the front. */
  ghost predicate MovedToFront(l: seq<nat>, lba: nat, l': seq<nat>) {
    exists k :: 0 <= k < |l| && l[k] == lba && l' == [lba] + (l[..k] + l[k + 1..])
  }

  /** One turn: from `a` to `b`, with this answer. */
  ghost predicate Turns(a: Shared, turn: Turn, b: Shared, answer: Answer, device: nat -> Sector) {
    match turn
    case Enter(who, lba, ok) =>
      if who in a.waiting then
        b == a && answer == Ignored
      else if lba in a.lbas then
        && answer == Delivered(who, lba, device(lba))
        && MovedToFront(a.lbas, lba, b.lbas) && b.unused == a.unused && b.waiting == a.waiting
      else if a.unused > 0 then
        answer == Stopped(who, lba) && b == Shared(a.lbas, a.unused - 1, a.waiting[who := lba])
      else if a.lbas == [] then
        b == a && answer == if ok then Delivered(who, lba, device(lba)) else Failed(who)
      else
        answer == Stopped(who, lba) && b == Shared(a.lbas[..|a.lbas| - 1], 0, a.waiting[who := lba])
    case Resume(who, ok) =>
      if who !in a.waiting then
        b == a && answer == Ignored
      else if ok then
        && answer == Delivered(who, a.waiting[who], device(a.waiting[who]))
        && b == Shared([a.waiting[who]] + a.lbas, a.unused, a.waiting - {who})
      else
        answer == Failed(who) && b == Shared(a.lbas, a.unused, a.waiting - {who})
  }

  ghost function At(states: seq<Shared>, i: int): Shared { if 0 <= i < |states| then states[i] else Shared([], 0, map[]) }

  ghost predicate IsRun(states: seq<Shared>, turns: seq<Turn>, answers: seq<Answer>, device: nat -> Sector) {
    && |states| == |turns| + 1 && |answers| == |turns|
    && forall i {:trigger turns[i]} :: 0 <= i < |turns| ==> Turns(states[i], turns[i], At(states, i + 1), answers[i], device)
  }

  // ---- What every run promises --------------------------------------------

  /** Reader `who` last entered at turn `e`, stopped there, and has not resumed before turn `i`. */
  ghost predicate LastEntered(turns: seq<Turn>, answers: seq<Answer>, who: nat, lba: nat, e: int, i: int) {
    && 0 <= e < i <= |turns| == |answers| && turns[e].Enter? && turns[e].who == who && turns[e].lba == lba
    && answers[e] == Stopped(who, lba)
    && forall j :: e < j < i && turns[j].who == who ==> answers[j] == Ignored
  }

  /** Who waits after a turn. */
  lemma WaitingAfter(a: Shared, turn: Turn, b: Shared, answer: Answer, device: nat -> Sector)
    requires Turns(a, turn, b, answer, device)
    ensures answer.Stopped? ==>
              && turn.Enter? && answer.who == turn.who && answer.lba == turn.lba && turn.who !in a.waiting
              && b.waiting == a.waiting[turn.who := turn.lba]
    ensures !answer.Stopped? && turn.Enter? ==> b.waiting == a.waiting && (turn.who in a.waiting ==> answer == Ignored)
    ensures turn.Resume? ==> !answer.Stopped? && b.waiting == a.waiting - {turn.who}
  {
    if turn.Resume? && turn.who !in a.waiting {
      assert a.waiting - {turn.who} == a.waiting;
    }
  }

  lemma {:induction false} WaitingSince(states: seq<Shared>, turns: seq<Turn>, answers: seq<Answer>, device: nat -> Sector,
                                        i: nat, who: nat) returns (e: nat)
    requires IsRun(states, turns, answers, device) && i <= |turns| && states[0].waiting == map[] && who in states[i].waiting
    ensures LastEntered(turns, answers, who, states[i].waiting[who], e, i)
  {
    hide Turns;
    assert Turns(states[i - 1], turns[i - 1], At(states, i), answers[i - 1], device);
    WaitingAfter(states[i - 1], turns[i - 1], states[i], answers[i - 1], device);
    if who in states[i - 1].waiting {
      e := WaitingSince(states, turns, answers, device, i - 1, who);
    } else {
      e := i - 1;
    }
  }

  /** Every sector is delivered to the reader whose turn it is: at its entry, for the LBA it asks for then; or when it
      resumes with the device's answer, for the LBA of the entry it stopped in. It is always the device's sector. */
  lemma EachReaderGetsItsSector(states: seq<Shared>, turns: seq<Turn>, answers: seq<Answer>, device: nat -> Sector, i: nat)
    requires IsRun(states, turns, answers, device) && i < |turns| && states[0].waiting == map[]
    ensures answers[i].Delivered? ==>
              && answers[i].who == turns[i].who && answers[i].data == device(answers[i].lba)
              && (turns[i].Enter? ==> answers[i].lba == turns[i].lba)
              && (turns[i].Resume? ==>
                    turns[i].ok && exists e :: LastEntered(turns, answers, turns[i].who, answers[i].lba, e, i))
  {
    assert Turns(states[i], turns[i], At(states, i + 1), answers[i], device);
    if answers[i].Delivered? && turns[i].Resume? {
      var e := WaitingSince(states, turns, answers, device, i, turns[i].who);
    }
  }

  /** A reader that stopped in the unlocked part returns when it resumes: with a sector if and only if the device
      delivered. */
  lemma {:induction false} StoppedReaderReturns(states: seq<Shared>, turns: seq<Turn>, answers: seq<Answer>,
                                                device: nat -> Sector, e: nat, i: nat)
    requires IsRun(states, turns, answers, device) && e < i < |turns| && answers[e].Stopped?
    requires turns[i].Resume? && turns[i].who == answers[e].who
    requires forall j :: e < j < i ==> !(turns[j].Resume? && turns[j].who == turns[i].who)
    ensures answers[i] == if turns[i].ok then Delivered(turns[i].who, answers[e].lba, device(answers[e].lba))
                          else Failed(turns[i].who)
  {
    StillWaiting(states, turns, answers, device, e, i);
    assert Turns(states[i], turns[i], At(states, i + 1), answers[i], device);
  }

  lemma {:induction false} StillWaiting(states: seq<Shared>, turns: seq<Turn>, answers: seq<Answer>, device: nat -> Sector,
                                        e: nat, i: nat)
    requires IsRun(states, turns, answers, device) && e < i <= |turns| && answers[e].Stopped?
    requires forall j :: e < j < i ==> !(turns[j].Resume? && turns[j].who == answers[e].who)
    ensures answers[e].who in states[i].waiting && states[i].waiting[answers[e].who] == answers[e].lba
    decreases i
  {
    hide Turns;
    assert Turns(states[i - 1], turns[i - 1], At(states, i), answers[i - 1], device);
    WaitingAfter(states[i - 1], turns[i - 1], states[i], answers[i - 1], device);
    if e < i - 1 {
      StillWaiting(states, turns, answers, device, e, i - 1);
    }
  }

  // ---- The cache refines the list -----------------------------------------

  /** A reader inside the unlocked part of a miss: the entry it holds and the LBA it was asked for. */
  datatype Holder = Holder(victim: int, lba: nat)

  /** Readers in the unlocked part hold distinct entries, each claimed for that reader's own LBA. */
  ghost predicate Claims(pending: map<nat, Holder>, inFlight: map<int, nat>) {
    && (forall r :: r in pending ==> pending[r].victim in inFlight && inFlight[pending[r].victim] == pending[r].lba)
    && (forall r, q :: r in pending && q in pending && r != q ==> pending[r].victim != pending[q].victim)
  }

  ghost function Asked(pending: map<nat, Holder>): map<nat, nat> { map r | r in pending :: pending[r].lba }

  ghost function SharedView(c: Cache, pending: map<nat, Holder>): Shared
    requires c.Valid()
    reads c, c.entries, c.hash
  {
    Shared(Abstract(c).lbas, Abstract(c).unused, Asked(pending))
  }

  lemma HitMoves(es: seq<Entry>, es': seq<Entry>, lru: seq<int>, e: int)
    requires Positions(lru, |es|) && e in lru && SamePayloads(es, es')
    ensures Positions([e] + Without(lru, e), |es'|)
    ensures MovedToFront(LbasOf(es, lru), es[e].lba, LbasOf(es', [e] + Without(lru, e)))
    ensures UnusedSet(es') == UnusedSet(es)
  {
    var k := IndexOf(lru, e);
    var l, l' := LbasOf(es, lru), LbasOf(es', [e] + Without(lru, e));
    assert l[k] == es[e].lba && l' == [es[e].lba] + (l[..k] + l[k + 1..]);
  }

  /** The first half of a call, seen on the list. */
  method Begin(c: Cache, lba: nat) returns (r: Begun)
    requires c.Valid()
    modifies c`lruHead, c`lruTail, c`lru, c`buckets, c`inFlight, c.hash, c.entries
    ensures c.Valid()
    ensures r.Hit? <==> lba in old(Abstract(c)).lbas
    ensures r.Hit? ==>
              && r.data == c.device(lba) && c.inFlight == old(c.inFlight)
              && MovedToFront(old(Abstract(c)).lbas, lba, Abstract(c).lbas) && Abstract(c).unused == old(Abstract(c)).unused
    ensures r.Bypass? ==> Abstract(c) == old(Abstract(c)) == Lru([], 0) && c.inFlight == old(c.inFlight)
    ensures r.Miss? ==>
              && Abstract(c) == LruStep(old(Abstract(c)), lba, false) && old(Abstract(c)) != Lru([], 0)
              && r.victim !in old(c.inFlight) && c.inFlight == old(c.inFlight)[r.victim := lba]
  {
    ghost var lru0, es0 := c.lru, c.entries[..];
    assert c.IsCached(lba) <==> lba in Abstract(c).lbas by { ListedLba(es0, lru0, lba); }
    ghost var hit;
    r, hit := c.BeginRead(lba);
    match r
    case Hit(data) =>
      HitMoves(es0, c.entries[..], lru0, hit);
    case Bypass =>
      assert UnusedSet(es0) == {};
    case Miss(victim) =>
      MissIsHalfStep(es0, c.entries[..], lru0, c.lru, victim, lba);
  }

  /** The second half of a miss, seen on the list. */
  method Finish(c: Cache, victim: int, ok: bool) returns (data: Sector)
    requires c.Valid() && victim in c.inFlight
    modifies c`lruHead, c`lruTail, c`lru, c`buckets, c`inFlight, c.hash, c.entries
    ensures c.Valid() && c.inFlight == old(c.inFlight) - {victim}
    ensures ok ==>
              var lba := old(c.inFlight)[victim];
              data == c.device(lba) && Abstract(c) == Lru([lba] + old(Abstract(c)).lbas, old(Abstract(c)).unused)
    ensures !ok ==> Abstract(c) == old(Abstract(c))
  {
    ghost var lru0, es0, lba := c.lru, c.entries[..], c.inFlight[victim];
    data := [];
    if ok {
      data := c.CommitRead(victim);
      CommitIsPush(es0, c.entries[..], lru0, victim, lba);
    } else {
      c.FailRead(victim);
      ClaimIsPrefix(es0, c.entries[..], lru0, lru0, victim);
      assert victim !in UnusedSet(es0) && LbasOf(es0, lru0)[..|lru0|] == LbasOf(es0, lru0);
    }
  }

  lemma ClaimAdded(pending: map<nat, Holder>, inFlight: map<int, nat>, who: nat, victim: int, lba: nat)
    requires Claims(pending, inFlight) && who !in pending && victim !in inFlight
    ensures Claims(pending[who := Holder(victim, lba)], inFlight[victim := lba])
    ensures Asked(pending[who := Holder(victim, lba)]) == Asked(pending)[who := lba]
  {
  }

  lemma ClaimDropped(pending: map<nat, Holder>, inFlight: map<int, nat>, who: nat)
    requires Claims(pending, inFlight) && who in pending
    ensures Claims(pending - {who}, inFlight - {pending[who].victim})
    ensures Asked(pending - {who}) == Asked(pending) - {who}
  {
  }

  method EnterTurn(c: Cache, who: nat, lba: nat, ok: bool, before: map<nat, Holder>)
    returns (pending: map<nat, Holder>, answer: Answer)
    requires c.Valid() && Claims(before, c.inFlight) && who !in before
    modifies c`lruHead, c`lruTail, c`lru, c`buckets, c`inFlight, c.hash, c.entries
    ensures c.Valid() && Claims(pending, c.inFlight)
    ensures Turns(old(SharedView(c, before)), Enter(who, lba, ok), SharedView(c, pending), answer, c.device)
  {
    hide MovedToFront, Roles, LruList, HashTable;
    pending := before;
    var r := Begin(c, lba);
    match r
    case Hit(data) =>
      answer := Delivered(who, lba, data);
    case Bypass =>
      answer := if ok then Delivered(who, lba, c.device(lba)) else Failed(who);
    case Miss(victim) =>
      ClaimAdded(before, old(c.inFlight), who, victim, lba);
      hide Claims, Asked;
      pending := pending[who := Holder(victim, lba)];
      answer := Stopped(who, lba);
  }

  method ResumeTurn(c: Cache, who: nat, ok: bool, before: map<nat, Holder>)
    returns (pending: map<nat, Holder>, answer: Answer)
    requires c.Valid() && Claims(before, c.inFlight) && who in before
    modifies c`lruHead, c`lruTail, c`lru, c`buckets, c`inFlight, c.hash, c.entries
    ensures c.Valid() && Claims(pending, c.inFlight)
    ensures Turns(old(SharedView(c, before)), Resume(who, ok), SharedView(c, pending), answer, c.device)
  {
    ClaimDropped(before, c.inFlight, who);
    ghost var a, held := SharedView(c, before), before[who];
    assert held.victim in c.inFlight && c.inFlight[held.victim] == held.lba == a.waiting[who];
    hide Turns, Claims, Asked;
    pending := before - {who};
    var data := Finish(c, before[who].victim, ok);
    answer := if ok then Delivered(who, before[who].lba, data) else Failed(who);
    Resumed(a, who, ok, SharedView(c, pending), answer, c.device);
  }

  lemma Resumed(a: Shared, who: nat, ok: bool, b: Shared, answer: Answer, device: nat -> Sector)
    requires who in a.waiting && b.unused == a.unused && b.waiting == a.waiting - {who}
    requires b.lbas == if ok then [a.waiting[who]] + a.lbas else a.lbas
    requires answer == if ok then Delivered(who, a.waiting[who], device(a.waiting[who])) else Failed(who)
    ensures Turns(a, Resume(who, ok), b, answer, device)
  {
  }

  method TakeTurn(c: Cache, turn: Turn, before: map<nat, Holder>) returns (pending: map<nat, Holder>, answer: Answer)
    requires c.Valid() && Claims(before, c.inFlight)
    modifies c`lruHead, c`lruTail, c`lru, c`buckets, c`inFlight, c.hash, c.entries
    ensures c.Valid() && Claims(pending, c.inFlight)
    ensures Turns(old(SharedView(c, before)), turn, SharedView(c, pending), answer, c.device)
  {
    pending, answer := before, Ignored;
    match turn
    case Enter(who, lba, ok) =>
      if who !in before {
        hide Turns;
        pending, answer := EnterTurn(c, who, lba, ok, before);
      }
    case Resume(who, ok) =>
      if who in before {
        hide Turns;
        pending, answer := ResumeTurn(c, who, ok, before);
      }
  }

  lemma RunGrows(states: seq<Shared>, turns: seq<Turn>, n: nat, answers: seq<Answer>, device: nat -> Sector,
                 b: Shared, answer: Answer)
    requires n < |turns| && IsRun(states, turns[..n], answers, device) && Turns(states[n], turns[n], b, answer, device)
    ensures IsRun(states + [b], turns[..n + 1], answers + [answer], device)
  {
    var ss, rs := states + [b], answers + [answer];
    forall i | 0 <= i <= n ensures Turns(ss[i], turns[..n + 1][i], At(ss, i + 1), rs[i], device) {
      if i < n {
        assert Turns(states[i], turns[..n][i], At(states, i + 1), answers[i], device);
      }
    }
  }

  /** Any interleaving of any number of readers is a run of the shared list, and no two readers ever hold one entry. */
  method RunInterleaved(c: Cache, turns: seq<Turn>)
    returns (pending: map<nat, Holder>, answers: seq<Answer>, ghost states: seq<Shared>)
    requires c.Valid() && c.inFlight == map[]
    modifies c`lruHead, c`lruTail, c`lru, c`buckets, c`inFlight, c.hash, c.entries
    ensures c.Valid() && Claims(pending, c.inFlight)
    ensures forall r :: r in pending ==> pending[r].victim !in c.lru
    ensures IsRun(states, turns, answers, c.device)
    ensures states[0] == old(SharedView(c, map[])) && states[|turns|] == SharedView(c, pending)
  {
    pending, answers, states := map[], [], [SharedView(c, map[])];
    hide Turns;
    for i := 0 to |turns|
      invariant c.Valid() && Claims(pending, c.inFlight) && |states| == i + 1
      invariant IsRun(states, turns[..i], answers, c.device)
      invariant states[0] == old(SharedView(c, map[])) && states[i] == SharedView(c, pending)
    {
      hide IsRun;
      var answer;
      pending, answer := TakeTurn(c, turns[i], pending);
      RunGrows(states, turns, i, answers, c.device, SharedView(c, pending), answer);
      answers, states := answers + [answer], states + [SharedView(c, pending)];
    }
    assert turns[..|turns|] == turns;
  }

  /** The same from CcInitSystem on: at first nothing is cached and nobody waits. */
  method InterleaveFromInit(size: nat, buckets: nat, device: nat -> Sector, turns: seq<Turn>)
    returns (answers: seq<Answer>, ghost states: seq<Shared>)
    requires buckets > 0
    ensures IsRun(states, turns, answers, device) && states[0] == Shared([], size, map[])
  {
    var c := Started(size, buckets, device);
    assert Abstract(c) == Lru([], size);
    var pending;
    pending, answers, states := RunInterleaved(c, turns);
  }
}
