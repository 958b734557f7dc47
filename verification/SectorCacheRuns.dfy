/** Sequential runs of the sector cache refine a textbook LRU list and deliver device data. */
module SectorCacheRuns {
  import opened Common
  import opened CacheLists
  import opened SectorCache

  // ---- The textbook LRU list ----------------------------------------------

  /** Cached LBAs, most recently used first, and the number of never-used entries. */
  datatype Lru = Lru(lbas: seq<nat>, unused: nat)

  /** One sequential read; `ok` says whether the device would deliver. */
  ghost function LruStep(a: Lru, lba: nat, ok: bool): Lru {
    var front := if ok then [lba] else [];
    if lba in a.lbas then Lru([lba] + Without(a.lbas, lba), a.unused)
    else if a.unused > 0 then Lru(front + a.lbas, a.unused - 1)
    else if a.lbas == [] then a
    else Lru(front + a.lbas[..|a.lbas| - 1], 0)
  }

  lemma LruStepDistinct(a: Lru, lba: nat, ok: bool)
    requires Distinct(a.lbas)
    ensures Distinct(LruStep(a, lba, ok).lbas)
  {
    if lba in a.lbas {
      WithoutElements(a.lbas, lba);
    }
  }

  ghost function LastUse(h: seq<nat>, lba: nat): (r: nat)
    requires lba in h
    ensures r < |h| && h[r] == lba && forall i :: r < i < |h| ==> h[i] != lba
  {
    if h[|h| - 1] == lba then |h| - 1 else LastUse(h[..|h| - 1], lba)
  }

  /** List order is order of last use in the history `h` of successful reads. */
  ghost predicate ByLastUse(lbas: seq<nat>, h: seq<nat>) {
    && (forall i :: 0 <= i < |lbas| ==> lbas[i] in h)
    && (forall i, j :: 0 <= i < j < |lbas| ==> LastUse(h, lbas[i]) > LastUse(h, lbas[j]))
  }

  /** What a read adds to the history: it is successful when it hits or when the device delivers. */
  ghost function Extended(h: seq<nat>, a: Lru, lba: nat, ok: bool): seq<nat> {
    if ok || lba in a.lbas then h + [lba] else h
  }

  lemma LastUseExtended(h: seq<nat>, lba: nat, x: nat)
    requires x in h || x == lba
    ensures x in h + [lba]
    ensures LastUse(h + [lba], x) == if x == lba then |h| else LastUse(h, x)
  {
    assert (h + [lba])[|h|] == lba;
    assert (h + [lba])[..|h|] == h;
  }

  lemma UseInFront(l: seq<nat>, h: seq<nat>, lba: nat)
    requires ByLastUse(l, h) && lba !in l
    ensures ByLastUse([lba] + l, h + [lba])
  {
    var l', h' := [lba] + l, h + [lba];
    forall i | 0 <= i < |l'|
      ensures l'[i] in h' && LastUse(h', l'[i]) == if i == 0 then |h| else LastUse(h, l[i - 1])
    {
      assert i > 0 ==> l'[i] == l[i - 1] && l[i - 1] in l;
      LastUseExtended(h, lba, l'[i]);
    }
  }

  lemma DropKeepsOrder(l: seq<nat>, h: seq<nat>, x: nat)
    requires ByLastUse(l, h) && x in l
    ensures ByLastUse(Without(l, x), h)
  {
    var k, t := IndexOf(l, x), Without(l, x);
    assert forall i :: 0 <= i < |t| ==> t[i] == if i < k then l[i] else l[i + 1];
  }

  /** Every read keeps the list in order of last use. */
  lemma LruKeepsOrder(a: Lru, h: seq<nat>, lba: nat, ok: bool)
    requires Distinct(a.lbas) && ByLastUse(a.lbas, h)
    ensures ByLastUse(LruStep(a, lba, ok).lbas, Extended(h, a, lba, ok))
  {
    var l := a.lbas;
    if lba in l {
      WithoutElements(l, lba);
      DropKeepsOrder(l, h, lba);
      UseInFront(Without(l, lba), h, lba);
    } else {
      var rest := if a.unused > 0 || l == [] then l else l[..|l| - 1];
      assert ByLastUse(rest, h) && lba !in rest && [] + rest == rest;
      UseInFront(rest, h, lba);
    }
  }

  // ---- Reads as the history sees them -------------------------------------

  datatype Request = Get(lba: nat, ok: bool) | Discard

  /** One request on a cache of `size` entries: a read, or an invalidation. */
  ghost function RunStep(a: Lru, h: seq<nat>, size: nat, r: Request): (Lru, seq<nat>) {
    match r
    case Get(lba, ok) => (LruStep(a, lba, ok), Extended(h, a, lba, ok))
    case Discard => (Lru([], size), h)
  }

  /** The list and the history after a sequence of requests. */
  ghost function LruRun(a: Lru, h: seq<nat>, size: nat, requests: seq<Request>): (Lru, seq<nat>)
    decreases |requests|
  {
    if requests == [] then (a, h)
    else var (a1, h1) := RunStep(a, h, size, requests[0]); LruRun(a1, h1, size, requests[1..])
  }

  /** Over every run, list order is last-use order, so the entry that an eviction takes (the last one) was
      used before every other cached sector. */
  lemma {:induction false} EvictionTakesLeastRecent(a: Lru, h: seq<nat>, size: nat, requests: seq<Request>)
    requires Distinct(a.lbas) && ByLastUse(a.lbas, h)
    ensures var (a', h') := LruRun(a, h, size, requests);
            && Distinct(a'.lbas) && ByLastUse(a'.lbas, h')
            && (forall i :: 0 <= i < |a'.lbas| - 1 ==>
                  LastUse(h', a'.lbas[|a'.lbas| - 1]) < LastUse(h', a'.lbas[i]))
    decreases |requests|
  {
    if requests != [] {
      var r := requests[0];
      if r.Get? {
        LruStepDistinct(a, r.lba, r.ok);
        LruKeepsOrder(a, h, r.lba, r.ok);
      }
      var (a1, h1) := RunStep(a, h, size, r);
      EvictionTakesLeastRecent(a1, h1, size, requests[1..]);
    }
  }

  /** All distinct LBAs of a history, latest use first: the contents of an unbounded cache. */
  ghost function Recent(h: seq<nat>): (r: seq<nat>)
    ensures Distinct(r)
    ensures forall x :: x in r <==> x in h
  {
    if h == [] then [] else
    var rest, x := Recent(h[..|h| - 1]), h[|h| - 1];
    assert h == h[..|h| - 1] + [x];
    if x in rest then WithoutElements(rest, x); [x] + Without(rest, x) else [x] + rest
  }

  /** What a cache of `size` entries holds if it keeps the most recently used sectors. */
  ghost function Ideal(h: seq<nat>, size: nat): Lru {
    var n := Min(size, |Recent(h)|);
    Lru(Recent(h)[..n], size - n)
  }

  /** The stack property, one read at a time: without device errors a cache of `size` entries always holds
      the `size` most recently used sectors, so a larger cache holds whatever a smaller one does. */
  lemma IdealStep(h: seq<nat>, size: nat, lba: nat)
    requires size > 0
    ensures LruStep(Ideal(h, size), lba, true) == Ideal(h + [lba], size)
  {
    var h' := h + [lba];
    assert h'[..|h'| - 1] == h;
    var r, l := Recent(h), Ideal(h, size).lbas;
    if lba in r {
      var k := IndexOf(r, lba);
      TruncatedMove(r, size, k);
      if k < size {
        assert l[k] == lba;
        assert IndexOf(l, lba) == k;
      } else {
        assert lba !in l;
      }
    } else {
      TruncatedPush(r, size, lba);
    }
  }

  /** Moving to the front and cutting at `n` commute. */
  lemma TruncatedMove(r: seq<nat>, n: nat, k: nat)
    requires n > 0 && k < |r|
    ensures var m, l := [r[k]] + (r[..k] + r[k + 1..]), r[..Min(n, |r|)];
            && |m| == |r|
            && (k < n ==> m[..|l|] == [r[k]] + (l[..k] + l[k + 1..]))
            && (k >= n ==> m[..n] == [r[k]] + l[..n - 1])
  {
  }

  lemma TruncatedPush(r: seq<nat>, n: nat, x: nat)
    requires n > 0
    ensures |r| < n ==> ([x] + r)[..Min(n, |r| + 1)] == [x] + r[..Min(n, |r|)]
    ensures |r| >= n ==> ([x] + r)[..n] == [x] + r[..n][..n - 1]
  {
  }

  /** A read that fails gives up one entry of the capacity. */
  lemma FailedStep(h: seq<nat>, size: nat, lba: nat)
    requires size > 0 && lba !in Ideal(h, size).lbas
    ensures LruStep(Ideal(h, size), lba, false) == Ideal(h, size - 1)
  {
  }

  /** The successful reads since the last invalidation, and the entries lost to failed reads since then. */
  datatype Account = Account(history: seq<nat>, lost: nat)

  /** A read fails when the sector is not among the most recent ones that fit and the device does not deliver; it costs
      an entry as long as there is one. */
  ghost function Booked(b: Account, size: nat, r: Request): (b': Account)
    requires b.lost <= size
    ensures b'.lost <= size
  {
    match r
    case Get(lba, ok) =>
      if ok || lba in Ideal(b.history, size - b.lost).lbas then Account(b.history + [lba], b.lost)
      else Account(b.history, Min(size, b.lost + 1))
    case Discard => Account([], 0)
  }

  ghost function Ledger(b: Account, size: nat, requests: seq<Request>): (b': Account)
    requires b.lost <= size
    ensures b'.lost <= size
    decreases |requests|
  {
    if requests == [] then b else Ledger(Booked(b, size, requests[0]), size, requests[1..])
  }

  lemma BookedStep(b: Account, size: nat, h: seq<nat>, r: Request)
    requires b.lost <= size
    ensures var b' := Booked(b, size, r);
            RunStep(Ideal(b.history, size - b.lost), h, size, r).0 == Ideal(b'.history, size - b'.lost)
  {
    var c := size - b.lost;
    if r.Get? && c > 0 {
      if r.ok || r.lba in Ideal(b.history, c).lbas {
        IdealStep(b.history, c, r.lba);
      } else {
        FailedStep(b.history, c, r.lba);
      }
    }
  }

  /** Over every run of reads, failed reads and invalidations the cache holds exactly the most recently used sectors
      since the last invalidation, as many as it has entries less those lost to failed reads since then. */
  lemma {:induction false} CacheHoldsMostRecent(b: Account, size: nat, h: seq<nat>, requests: seq<Request>)
    requires b.lost <= size
    ensures var b' := Ledger(b, size, requests);
            LruRun(Ideal(b.history, size - b.lost), h, size, requests).0 == Ideal(b'.history, size - b'.lost)
    decreases |requests|
  {
    if requests != [] {
      BookedStep(b, size, h, requests[0]);
      var h' := RunStep(Ideal(b.history, size - b.lost), h, size, requests[0]).1;
      CacheHoldsMostRecent(Booked(b, size, requests[0]), size, h', requests[1..]);
    }
  }

  /** Failed reads wear an empty cache down: each costs an entry, and after as many as there are entries none is left. */
  lemma {:induction false} FailuresWearDown(lost: nat, size: nat, requests: seq<Request>)
    requires lost <= size && forall r :: r in requests ==> r.Get? && !r.ok
    ensures Ledger(Account([], lost), size, requests) == Account([], Min(size, lost + |requests|))
    decreases |requests|
  {
    if requests != [] {
      assert requests[0] in requests;
      FailuresWearDown(Min(size, lost + 1), size, requests[1..]);
    }
  }

  /** A cache worn out stays so, and caches nothing, until it is invalidated. */
  lemma {:induction false} WornOut(b: Account, size: nat, requests: seq<Request>)
    requires b.lost == size && Discard !in requests
    ensures var b' := Ledger(b, size, requests); b'.lost == size && Ideal(b'.history, size - b'.lost) == Lru([], 0)
    decreases |requests|
  {
    if requests != [] {
      WornOut(Booked(b, size, requests[0]), size, requests[1..]);
    }
  }

  // ---- The cache refines the list -----------------------------------------

  ghost function UnusedSet(es: seq<Entry>): set<int> {
    set x | 0 <= x < |es| && Unused(es[x])
  }

  ghost function LbasOf(es: seq<Entry>, lru: seq<int>): (r: seq<nat>)
    requires Positions(lru, |es|)
    ensures |r| == |lru| && forall i :: 0 <= i < |r| ==> r[i] == es[lru[i]].lba
  {
    seq(|lru|, i requires 0 <= i < |lru| => es[lru[i]].lba)
  }

  ghost function View(es: seq<Entry>, lru: seq<int>): Lru
    requires Positions(lru, |es|)
  {
    Lru(LbasOf(es, lru), |UnusedSet(es)|)
  }

  ghost function Abstract(c: Cache): (r: Lru)
    requires c.Valid()
    reads c, c.entries, c.hash
  {
    View(c.entries[..], c.lru)
  }

  lemma HitIsMoveToFront(es: seq<Entry>, es': seq<Entry>, lru: seq<int>, e: int)
    requires Positions(lru, |es|) && e in lru && SamePayloads(es, es') && Distinct(LbasOf(es, lru))
    ensures var l, lba := LbasOf(es, lru), es[e].lba;
            && Positions([e] + Without(lru, e), |es'|) && lba in l
            && LbasOf(es', [e] + Without(lru, e)) == [lba] + Without(l, lba)
            && UnusedSet(es') == UnusedSet(es)
  {
    var l, lba, k := LbasOf(es, lru), es[e].lba, IndexOf(lru, e);
    WithoutElements(lru, e);
    assert forall i :: 0 <= i < |Without(lru, e)| ==> Without(lru, e)[i] in Without(lru, e);
    assert l[k] == lba;
    assert IndexOf(l, lba) == k;
  }

  lemma ClaimIsPrefix(es: seq<Entry>, es': seq<Entry>, lru: seq<int>, lru': seq<int>, v: int)
    requires Positions(lru, |es|) && lru' <= lru && 0 <= v < |es| && v !in lru'
    requires SamePayloadsBut(es, es', v) && es'[v].accessCount != 0
    ensures Positions(lru', |es'|) && LbasOf(es', lru') == LbasOf(es, lru)[..|lru'|]
    ensures UnusedSet(es') == UnusedSet(es) - {v}
  {
    assert forall i :: 0 <= i < |lru'| ==> lru'[i] in lru';
  }

  lemma CommitIsPush(es: seq<Entry>, es': seq<Entry>, lru: seq<int>, v: int, lba: nat)
    requires Positions(lru, |es|) && 0 <= v < |es| && v !in lru
    requires SamePayloadsBut(es, es', v) && es[v].accessCount != 0 && es'[v].accessCount != 0 && es'[v].lba == lba
    ensures Positions([v] + lru, |es'|) && LbasOf(es', [v] + lru) == [lba] + LbasOf(es, lru)
    ensures UnusedSet(es') == UnusedSet(es)
  {
    var t := [v] + lru;
    forall i | 0 <= i < |t| ensures 0 <= t[i] < |es'| && es'[t[i]].lba == ([lba] + LbasOf(es, lru))[i] {
      assert i > 0 ==> t[i] == lru[i - 1] && lru[i - 1] in lru;
    }
  }

  lemma ListedLba(es: seq<Entry>, lru: seq<int>, lba: nat)
    requires Positions(lru, |es|)
    ensures lba in LbasOf(es, lru) <==> exists x :: 0 <= x < |es| && x in lru && es[x].lba == lba
  {
    var l := LbasOf(es, lru);
    if lba in l {
      var i :| 0 <= i < |l| && l[i] == lba;
      assert lru[i] in lru;
    }
    if x :| 0 <= x < |es| && x in lru && es[x].lba == lba {
      assert l[IndexOf(lru, x)] == lba;
    }
  }

  /** At most one entry per LBA, and no read in progress: the state between sequential calls. */
  ghost predicate Quiescent(c: Cache)
    reads c, c.entries, c.hash
  {
    c.Valid() && c.inFlight == map[] && Distinct(Abstract(c).lbas)
  }

  lemma LruStepInHalves(a: Lru, lba: nat, ok: bool)
    ensures lba in a.lbas || a == Lru([], 0) ==> LruStep(a, lba, ok) == LruStep(a, lba, false)
    ensures lba !in a.lbas && a != Lru([], 0) ==>
              var half := LruStep(a, lba, false);
              LruStep(a, lba, ok) == Lru((if ok then [lba] else []) + half.lbas, half.unused)
  {
    if lba !in a.lbas && a != Lru([], 0) {
      var half := LruStep(a, lba, false);
      assert [] + half.lbas == half.lbas;
      assert half.lbas == if a.unused > 0 then a.lbas else a.lbas[..|a.lbas| - 1];
    }
  }

  /** The first half of a sequential read, seen on the list. */
  method BeginSequential(c: Cache, lba: nat) returns (r: Begun)
    requires Quiescent(c)
    modifies c`lruHead, c`lruTail, c`lru, c`buckets, c`inFlight, c.hash, c.entries
    ensures c.Valid()
    ensures r.Hit? <==> lba in old(Abstract(c)).lbas
    ensures r.Hit? ==> r.data == c.device(lba)
    ensures Abstract(c) == LruStep(old(Abstract(c)), lba, false)
    ensures !r.Hit? ==> (r.Bypass? <==> old(Abstract(c)) == Lru([], 0))
    ensures c.inFlight == if r.Miss? then map[r.victim := lba] else map[]
  {
    ghost var lru0, es0 := c.lru, c.entries[..];
    assert c.IsCached(lba) <==> lba in Abstract(c).lbas by {
      ListedLba(es0, lru0, lba);
    }
    ghost var hit;
    r, hit := c.BeginRead(lba);
    match r
    case Hit(data) =>
      HitIsMoveToFront(es0, c.entries[..], lru0, hit);
    case Bypass =>
      assert UnusedSet(es0) == {};
    case Miss(victim) =>
      MissIsHalfStep(es0, c.entries[..], lru0, c.lru, victim, lba);
  }

  lemma MissIsHalfStep(es: seq<Entry>, es': seq<Entry>, lru: seq<int>, lru': seq<int>, v: int, lba: nat)
    requires Positions(lru, |es|) && 0 <= v < |es| && v !in lru' && lba !in LbasOf(es, lru)
    requires SamePayloadsBut(es, es', v) && es'[v].accessCount != 0
    requires if Unused(es[v]) then lru' == lru else NoneUnused(es) && lru != [] && lru' == lru[..|lru| - 1]
    ensures Positions(lru', |es'|)
    ensures View(es', lru') == LruStep(View(es, lru), lba, false)
    ensures View(es, lru) != Lru([], 0)
  {
    ClaimIsPrefix(es, es', lru, lru', v);
    MissCounts(es, es', v);
    var l := LbasOf(es, lru);
    assert [] + l == l && l[..|l|] == l;
    assert l != [] ==> [] + l[..|l| - 1] == l[..|l| - 1];
  }

  lemma MissCounts(es: seq<Entry>, es': seq<Entry>, v: int)
    requires 0 <= v < |es| && (Unused(es[v]) || NoneUnused(es)) && UnusedSet(es') == UnusedSet(es) - {v}
    ensures |UnusedSet(es)| == |UnusedSet(es')| + if Unused(es[v]) then 1 else 0
    ensures !Unused(es[v]) ==> |UnusedSet(es)| == 0
  {
    if !Unused(es[v]) {
      assert UnusedSet(es) == {};
    } else {
      assert v in UnusedSet(es);
    }
  }

  method CommitSequential(c: Cache, victim: int, lba: nat) returns (buffer: Sector)
    requires c.Valid() && c.inFlight == map[victim := lba]
    modifies c`lruHead, c`lruTail, c`lru, c`buckets, c`inFlight, c.hash, c.entries
    ensures c.Valid() && c.inFlight == map[]
    ensures buffer == c.device(lba)
    ensures Abstract(c) == Lru([lba] + old(Abstract(c)).lbas, old(Abstract(c)).unused)
  {
    ghost var lru0, es0 := c.lru, c.entries[..];
    buffer := c.CommitRead(victim);
    CommitIsPush(es0, c.entries[..], lru0, victim, lba);
  }

  method FailSequential(c: Cache, victim: int, lba: nat)
    requires c.Valid() && c.inFlight == map[victim := lba]
    modifies c`inFlight, c.entries
    ensures c.Valid() && c.inFlight == map[]
    ensures Abstract(c) == old(Abstract(c))
  {
    ghost var lru0, es0 := c.lru, c.entries[..];
    c.FailRead(victim);
    ClaimIsPrefix(es0, c.entries[..], lru0, lru0, victim);
    assert victim !in UnusedSet(es0) && LbasOf(es0, lru0)[..|lru0|] == LbasOf(es0, lru0);
  }

  /** CcReadSector called with no other reader about: exactly one step of the textbook list, delivering the
      device's sector whenever it succeeds. */
  method ReadSector(c: Cache, lba: nat, deviceOk: bool) returns (ok: bool, buffer: Sector)
    requires Quiescent(c)
    modifies c`lruHead, c`lruTail, c`lru, c`buckets, c`inFlight, c.hash, c.entries
    ensures Quiescent(c)
    ensures Abstract(c) == LruStep(old(Abstract(c)), lba, deviceOk)
    ensures ok <==> deviceOk || lba in old(Abstract(c)).lbas
    ensures ok ==> buffer == c.device(lba)
  {
    LruStepDistinct(Abstract(c), lba, deviceOk);
    LruStepInHalves(Abstract(c), lba, deviceOk);
    var r := BeginSequential(c, lba);
    match r
    case Hit(data) =>
      ok, buffer := true, data;
    case Bypass =>
      ok, buffer := deviceOk, if deviceOk then c.device(lba) else [];
    case Miss(victim) =>
      ok, buffer := deviceOk, [];
      if deviceOk {
        buffer := CommitSequential(c, victim, lba);
      } else {
        FailSequential(c, victim, lba);
      }
  }

  /** What a request must return on a cache that holds `a`: the device's sector when it is cached or the device
      delivers, and nothing otherwise. */
  ghost function AnswerTo(a: Lru, request: Request, device: nat -> Sector): Option<Sector> {
    match request
    case Get(lba, ok) => if ok || lba in a.lbas then Some(device(lba)) else None
    case Discard => None
  }

  ghost function Answers(a: Lru, h: seq<nat>, size: nat, requests: seq<Request>, device: nat -> Sector): seq<Option<Sector>>
    decreases |requests|
  {
    if requests == [] then []
    else
      var (a1, h1) := RunStep(a, h, size, requests[0]);
      [AnswerTo(a, requests[0], device)] + Answers(a1, h1, size, requests[1..], device)
  }

  method RunOne(c: Cache, request: Request, ghost h: seq<nat>) returns (result: Option<Sector>)
    requires Quiescent(c)
    modifies c`lruHead, c`lruTail, c`lru, c`buckets, c`inFlight, c.hash, c.entries
    ensures Quiescent(c)
    ensures Abstract(c) == RunStep(old(Abstract(c)), h, c.entries.Length, request).0
    ensures result == AnswerTo(old(Abstract(c)), request, c.device)
  {
    match request
    case Get(lba, deviceOk) =>
      var ok, buffer := ReadSector(c, lba, deviceOk);
      result := if ok then Some(buffer) else None;
    case Discard =>
      Discarded(c);
      result := None;
  }

  /** Every sequential run of reads, failed reads and invalidations is a run of the textbook list, and returns the
      device's sector exactly when it is cached or the device delivers. */
  method RunSequential(c: Cache, requests: seq<Request>, ghost h: seq<nat>) returns (results: seq<Option<Sector>>)
    requires Quiescent(c)
    modifies c`lruHead, c`lruTail, c`lru, c`buckets, c`inFlight, c.hash, c.entries
    ensures Quiescent(c)
    ensures Abstract(c) == LruRun(old(Abstract(c)), h, c.entries.Length, requests).0
    ensures results == Answers(old(Abstract(c)), h, c.entries.Length, requests, c.device)
    decreases |requests|
  {
    results := [];
    if requests == [] {
      return;
    }
    ghost var (a1, h1) := RunStep(Abstract(c), h, c.entries.Length, requests[0]);
    var first := RunOne(c, requests[0], h);
    assert Abstract(c) == a1;
    var rest := RunSequential(c, requests[1..], h1);
    results := [first] + rest;
  }

  method Discarded(c: Cache)
    requires Quiescent(c)
    modifies c`lruHead, c`lruTail, c`lru, c`buckets, c.hash, c.entries
    ensures Quiescent(c) && Abstract(c) == Lru([], c.entries.Length)
  {
    c.Invalidate();
    assert UnusedSet(c.entries[..]) == Below(c.entries.Length);
  }

  // ---- From CcInitSystem on -----------------------------------------------

  /** Every sequential run of a newly initialised cache answers as the device would, and the cache holds at the end
      exactly the most recently used sectors that the ledger leaves room for. */
  method RunFromInit(size: nat, buckets: nat, device: nat -> Sector, requests: seq<Request>)
    returns (results: seq<Option<Sector>>, ghost held: Lru)
    requires buckets > 0
    ensures results == Answers(Ideal([], size), [], size, requests, device)
    ensures var b := Ledger(Account([], 0), size, requests); held == Ideal(b.history, size - b.lost)
  {
    var c := Started(size, buckets, device);
    hide Ledger, LruRun, Answers, Ideal;
    LedgerFromInit(size, requests);
    results := RunSequential(c, requests, []);
    held := Abstract(c);
  }

  lemma LedgerFromInit(size: nat, requests: seq<Request>)
    ensures var b := Ledger(Account([], 0), size, requests);
            LruRun(Ideal([], size), [], size, requests).0 == Ideal(b.history, size - b.lost)
  {
    CacheHoldsMostRecent(Account([], 0), size, [], requests);
  }

  method Started(size: nat, buckets: nat, device: nat -> Sector) returns (c: Cache)
    requires buckets > 0
    ensures Quiescent(c) && fresh(c) && fresh(c.entries) && fresh(c.hash)
    ensures c.entries.Length == size && c.device == device && Abstract(c) == Ideal([], size)
  {
    c := new Cache(size, buckets, device);
    FreshIsEmpty(c.entries[..], c.lru);
  }

  lemma FreshIsEmpty(es: seq<Entry>, lru: seq<int>)
    requires lru == [] && forall x :: 0 <= x < |es| ==> es[x] == BLANK
    ensures View(es, lru) == Ideal([], |es|)
  {
    assert UnusedSet(es) == Below(|es|);
    assert Recent([]) == [];
  }
}
