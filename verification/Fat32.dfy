/** The FAT32 chain layer (fs/fat32.c): the write-through FAT cache, chain allocation and chain freeing. */
module Fat32 {
  import opened Common

  const EOC: nat := 0x0FFF_FFFF
  /** Values from here on end a chain. */
  const END: nat := 0x0FFF_FFF8
  const FREE: nat := 0
  /** Entries per 512-byte sector. */
  const PER_SECTOR: nat := 128

  datatype Status = Success | InvalidParameter | DiskFull

  /** The low 28 bits. */
  function Mask(value: nat): nat { value % 0x1000_0000 }

  /** Fat32GetFatEntry. */
  function GetEntry(fat: seq<nat>, c: nat): nat { if c >= |fat| then EOC else Mask(fat[c]) }

  ghost function FreeSet(fat: seq<nat>): set<int> {
    set c | 2 <= c < |fat| && fat[c] == FREE
  }

  ghost predicate LowestFree(fat: seq<nat>, c: nat) {
    c in FreeSet(fat) && forall d :: d in FreeSet(fat) ==> c <= d
  }

  // ---- Chains -------------------------------------------------------------

  /** `c` is linked from its first cluster to its last; what the last entry holds is left open. */
  ghost predicate Linked(fat: seq<nat>, c: seq<nat>) {
    && Distinct(c)
    && (forall k :: 0 <= k < |c| ==> 2 <= c[k] < |fat|)
    && (forall k, l :: 0 <= k && l == k + 1 && l < |c| ==> fat[c[k]] == c[l])
  }

  /** A complete chain: linked and terminated. */
  ghost predicate IsChain(fat: seq<nat>, c: seq<nat>) {
    Linked(fat, c) && c != [] && fat[c[|c| - 1]] == EOC
  }

  /** Only the clusters of `c` differ, and all but the first of them were free. */
  ghost predicate TookFree(before: seq<nat>, after: seq<nat>, c: seq<nat>) {
    && |after| == |before|
    && (forall d :: 0 <= d < |before| && d !in c ==> after[d] == before[d])
    && (forall k :: 1 <= k < |c| ==> c[k] in FreeSet(before))
  }

  /** Behind its start a chain has the lowest clusters there were, in rising order: every cluster still free is higher. */
  ghost predicate LowestTaken(fat: seq<nat>, c: seq<nat>) {
    && (forall i, j :: 1 <= i < j < |c| ==> c[i] < c[j])
    && (forall i, x :: 1 <= i < |c| && x in FreeSet(fat) ==> c[i] < x)
  }

  /** Taking the lowest free cluster keeps it so. */
  lemma LowestNext(fat: seq<nat>, c: seq<nat>, next: nat, last: nat)
    requires LowestTaken(fat, c) && LowestFree(fat, next) && last < |fat| && c != []
    ensures LowestTaken(fat[next := EOC][last := next], c + [next])
    ensures LowestTaken(fat[next := EOC][last := next], c)
  {
    var fat' := fat[next := EOC][last := next];
    assert forall x :: x in FreeSet(fat') ==> x in FreeSet(fat) && x != next;
  }

  lemma LowestEnds(fat: seq<nat>, c: seq<nat>, last: nat)
    requires LowestTaken(fat, c) && last < |fat|
    ensures LowestTaken(fat[last := EOC], c)
  {
    var fat' := fat[last := EOC];
    forall i, x | 1 <= i < |c| && x in FreeSet(fat') ensures c[i] < x {
      assert x in FreeSet(fat);
    }
  }

  lemma OneCluster(fat: seq<nat>, fat': seq<nat>, start: nat)
    requires 2 <= start < |fat| == |fat'| && forall c :: 0 <= c < |fat| && c != start ==> fat'[c] == fat[c]
    ensures Linked(fat', [start]) && TookFree(fat, fat', [start]) && LowestTaken(fat', [start])
  {
  }

  lemma EndChain(fat0: seq<nat>, fat: seq<nat>, c: seq<nat>)
    requires Linked(fat, c) && c != [] && TookFree(fat0, fat, c)
    ensures IsChain(fat[c[|c| - 1] := EOC], c) && TookFree(fat0, fat[c[|c| - 1] := EOC], c)
  {
    var fat' := fat[c[|c| - 1] := EOC];
    forall k, l | 0 <= k && l == k + 1 && l < |c| ensures fat'[c[k]] == c[l] {
    }
  }

  /** Linking a free cluster behind a chain. */
  lemma ExtendChain(fat0: seq<nat>, fat: seq<nat>, c: seq<nat>, next: nat)
    requires Linked(fat, c) && c != [] && TookFree(fat0, fat, c)
    requires next in FreeSet(fat) && next != c[|c| - 1]
    ensures var fat' := fat[next := EOC][c[|c| - 1] := next];
            Linked(fat', c + [next]) && TookFree(fat0, fat', c + [next])
  {
    var last, fat', c' := |c| - 1, fat[next := EOC][c[|c| - 1] := next], c + [next];
    forall k | 0 <= k < |c| ensures c[k] != next {
      if k < last {
        var l := k + 1;
        assert fat[c[k]] == c[l] >= 2;
      }
    }
    forall k, l | 0 <= k && l == k + 1 && l < |c'| ensures fat'[c'[k]] == c'[l] {
      if l < |c| {
        assert fat[c[k]] == c[l] && c[k] != c[last];
      }
    }
    forall d | 0 <= d < |fat| && d !in c' ensures fat'[d] == fat0[d] {
      assert d !in c && d != next && c[last] in c;
    }
  }

  class Mount {
    /** The cached FAT and the first FAT on disk, sector after sector. */
    const cache: array<nat>
    const disk: array<nat>

    /** The cache equals the first on-disk FAT. */
    ghost predicate Synced()
      reads cache, disk
    {
      && cache != disk
      && disk.Length % PER_SECTOR == 0 && cache.Length <= disk.Length && cache.Length <= END
      && (forall c :: 0 <= c < cache.Length ==> disk[c] == cache[c])
    }

    constructor (cache: array<nat>, disk: array<nat>)
      ensures this.cache == cache && this.disk == disk
    {
      this.cache, this.disk := cache, disk;
    }

    /** Fat32SetFatEntry: the cache, then the sector that holds the entry, read, changed and written back. */
    method SetEntry(c: nat, value: nat) returns (status: Status)
      requires Synced()
      modifies cache, disk
      ensures Synced()
      ensures status == InvalidParameter <==> c >= cache.Length
      ensures c >= cache.Length ==> cache[..] == old(cache[..])
      ensures c < cache.Length ==> status == Success && cache[..] == old(cache[..])[c := Mask(value)]
      ensures c < cache.Length ==> c < disk.Length && disk[..] == old(disk[..])[c := Mask(value)]
      ensures c >= cache.Length ==> disk[..] == old(disk[..])
    {
      if c >= cache.Length {
        return InvalidParameter;
      }
      cache[c] := Mask(value);
      var sector, offset := c / PER_SECTOR, c % PER_SECTOR;
      var first := sector * PER_SECTOR;
      var buffer := disk[first..first + PER_SECTOR];
      buffer := buffer[offset := Mask(value)];
      ghost var on := disk[..];
      for k := 0 to PER_SECTOR
        invariant forall d :: 0 <= d < disk.Length ==> disk[d] == if first <= d < first + k then buffer[d - first] else on[d]
        modifies disk
      {
        disk[first + k] := buffer[k];
      }
      return Success;
    }

    /** Fat32FindFreeCluster. */
    method FindFree() returns (status: Status, c: nat)
      ensures status == Success || status == DiskFull
      ensures status == DiskFull <==> FreeSet(cache[..]) == {}
      ensures status == Success ==> LowestFree(cache[..], c)
    {
      c := 2;
      while c < cache.Length
        invariant forall d :: 2 <= d < c && d < cache.Length ==> cache[d] != FREE
      {
        if cache[c] == FREE {
          assert c in FreeSet(cache[..]);
          return Success, c;
        }
        c := c + 1;
      }
      return DiskFull, 0;
    }

    /** Fat32AllocateChain, with successful sector I/O. The chain it leaves starts at `start`, has no repetition,
        ends in EOC and takes only free clusters; on a full disk it is shorter and nothing is free. It has
        `count` clusters, or one less exactly when `start` was itself the lowest free cluster: then the first
        search finds `start` again. */
    method AllocateChain(start: nat, count: nat) returns (status: Status, ghost chain: seq<nat>)
      requires Synced() && 2 <= start < cache.Length && count >= 1
      modifies cache, disk
      ensures Synced()
      ensures IsChain(cache[..], chain) && chain[0] == start && TookFree(old(cache[..]), cache[..], chain)
      ensures status == Success || status == DiskFull
      ensures status == Success ==>
                |chain| == if count >= 2 && LowestFree(old(cache[..]), start) then count - 1 else count
      ensures status == DiskFull ==> |chain| < count && FreeSet(cache[..]) == {}
      ensures LowestTaken(cache[..], chain)
    {
      hide Linked, TookFree, LowestTaken, IsChain;
      ghost var fat0 := cache[..];
      OneCluster(fat0, fat0, start);
      ghost var lost := if count >= 2 && LowestFree(fat0, start) then 1 else 0;
      chain := [start];
      var cur := start;
      var i := 0;
      while i < count - 1
        invariant 0 <= i <= count - 1 && Synced()
        invariant chain != [] && Linked(cache[..], chain) && chain[0] == start && cur == chain[|chain| - 1] < cache.Length
        invariant TookFree(fat0, cache[..], chain) && LowestTaken(cache[..], chain)
        invariant i == 0 ==> cache[..] == fat0 && |chain| == 1
        invariant i > 0 ==> |chain| == i + 1 - lost && cache[cur] != FREE
      {
        var next;
        status, next := FindFree();
        if status == DiskFull {
          ghost var fat := cache[..];
          status := SetEntry(cur, EOC);
          EndChain(fat0, fat, chain);
          LowestEnds(fat, chain, cur);
          return DiskFull, chain;
        }
        ghost var fat := cache[..];
        status := SetEntry(next, EOC);
        status := SetEntry(cur, next);
        ghost var fat1: seq<nat> := fat[next := EOC];
        assert cache[..] == fat1[cur := next];
        LowestNext(fat, chain, next, cur);
        if next == cur {
          assert i == 0 && chain == [start];
          OneCluster(fat0, cache[..], start);
        } else {
          ExtendChain(fat0, fat, chain, next);
          chain := chain + [next];
        }
        cur := next;
        i := i + 1;
      }
      ghost var fat := cache[..];
      status := SetEntry(cur, EOC);
      EndChain(fat0, fat, chain);
      LowestEnds(fat, chain, cur);
    }

    /** The freeing loop of Fat32DeleteFile. It ends on every FAT, cyclic ones included, and frees exactly the
        in-range clusters reachable from the start; all other entries stay. */
    method FreeChain(start: nat)
      requires Synced()
      modifies cache, disk
      ensures Synced()
      ensures forall c :: 0 <= c < cache.Length ==>
                cache[c] == if Reachable(old(cache[..]), start, c) then FREE else old(cache[..])[c]
    {
      ghost var fat0 := cache[..];
      ghost var freed: set<nat> := {};
      var cur: nat := start;
      if OnChain(fat0, start) {
        assert Walk(fat0, [start]) && [start][0] == start;
      }
      while 2 <= cur < END
        invariant Synced()
        invariant forall c :: 0 <= c < cache.Length ==> cache[c] == if c in freed then FREE else fat0[c]
        invariant forall c :: c in freed ==> Reachable(fat0, start, c)
        invariant OnChain(fat0, cur) ==> Reachable(fat0, start, cur)
        invariant forall c :: c in freed && OnChain(fat0, GetEntry(fat0, c)) ==>
                    GetEntry(fat0, c) in freed || GetEntry(fat0, c) == cur
        invariant OnChain(fat0, start) ==> start in freed || start == cur
        decreases |Nonzero(cache[..])|, if 2 <= cur < END then 1 else 0
      {
        ghost var fat := cache[..];
        var next := GetEntry(cache[..], cur);
        var _ := SetEntry(cur, FREE);
        if cur < cache.Length {
          NonzeroDrops(fat, cur);
          if cur !in freed && OnChain(fat0, next) {
            ReachableNext(fat0, start, cur);
          }
          freed := freed + {cur};
        }
        cur := next;
      }
      forall c: nat | Reachable(fat0, start, c) ensures c in freed {
        ClosedUnderReach(fat0, start, freed, c);
      }
    }
  }

  // ---- Reachability -------------------------------------------------------

  /** A cluster number that a chain walk visits and that has a FAT entry. */
  ghost predicate OnChain(fat: seq<nat>, c: nat) { 2 <= c < END && c < |fat| }

  /** A walk along FAT entries. */
  ghost predicate Walk(fat: seq<nat>, p: seq<nat>) {
    && (forall k :: 0 <= k < |p| ==> OnChain(fat, p[k]))
    && (forall k, l :: 0 <= k && l == k + 1 && l < |p| ==> GetEntry(fat, p[k]) == p[l])
  }

  ghost predicate Reachable(fat: seq<nat>, start: nat, c: nat) {
    exists p :: p != [] && Walk(fat, p) && p[0] == start && p[|p| - 1] == c
  }

  lemma ReachableNext(fat: seq<nat>, start: nat, c: nat)
    requires Reachable(fat, start, c) && OnChain(fat, GetEntry(fat, c))
    ensures Reachable(fat, start, GetEntry(fat, c))
  {
    var p :| p != [] && Walk(fat, p) && p[0] == start && p[|p| - 1] == c;
    var q := p + [GetEntry(fat, c)];
    assert Walk(fat, q) && q[0] == start && q[|q| - 1] == GetEntry(fat, c);
  }

  /** A set that holds the start and is closed under in-range successors holds everything reachable. */
  lemma ClosedUnderReach(fat: seq<nat>, start: nat, s: set<nat>, c: nat)
    requires OnChain(fat, start) ==> start in s
    requires forall d :: d in s && OnChain(fat, GetEntry(fat, d)) ==> GetEntry(fat, d) in s
    requires Reachable(fat, start, c)
    ensures c in s
  {
    var p :| p != [] && Walk(fat, p) && p[0] == start && p[|p| - 1] == c;
    WalkStays(fat, s, p, |p| - 1);
  }

  lemma {:induction false} WalkStays(fat: seq<nat>, s: set<nat>, p: seq<nat>, k: nat)
    requires p != [] && Walk(fat, p) && k < |p| && p[0] in s
    requires forall d :: d in s && OnChain(fat, GetEntry(fat, d)) ==> GetEntry(fat, d) in s
    ensures p[k] in s
    decreases k
  {
    if k > 0 {
      WalkStays(fat, s, p, k - 1);
      var j := k - 1;
      assert GetEntry(fat, p[j]) == p[k];
    }
  }

  /** Entries that are not zero: the measure of the freeing loop. */
  ghost function Nonzero(fat: seq<nat>): set<int> {
    set c | 0 <= c < |fat| && fat[c] != 0
  }

  lemma NonzeroDrops(fat: seq<nat>, c: nat)
    requires c < |fat|
    ensures fat[c] != 0 ==> |Nonzero(fat[c := 0])| < |Nonzero(fat)|
    ensures fat[c] == 0 ==> fat[c := 0] == fat
  {
    if fat[c] != 0 {
      assert Nonzero(fat[c := 0]) == Nonzero(fat) - {c};
    }
  }

  /** What is reachable from the start of a chain is the chain. */
  lemma ChainIsReachable(fat: seq<nat>, c: seq<nat>, d: nat)
    requires IsChain(fat, c) && |fat| <= END
    ensures Reachable(fat, c[0], d) <==> d in c
  {
    forall k, l | 0 <= k && l == k + 1 && l < |c| ensures GetEntry(fat, c[k]) == c[l] {
      assert fat[c[k]] == c[l];
    }
    if d in c {
      var k :| 0 <= k < |c| && c[k] == d;
      var p := c[..k + 1];
      assert p[0] == c[0] && p[|p| - 1] == d;
      assert Walk(fat, p);
    }
    if Reachable(fat, c[0], d) {
      var s := set x | x in c;
      forall x | x in s && OnChain(fat, GetEntry(fat, x)) ensures GetEntry(fat, x) in s {
        var k :| 0 <= k < |c| && c[k] == x;
        if k + 1 < |c| {
          var l := k + 1;
          assert GetEntry(fat, c[k]) == c[l];
        }
      }
      ClosedUnderReach(fat, c[0], s, d);
    }
  }

  /** Freeing what was allocated gives every cluster back, the start included. */
  method AllocateThenFree(m: Mount, start: nat, count: nat)
    requires m.Synced() && 2 <= start < m.cache.Length && count >= 1
    modifies m.cache, m.disk
    ensures m.Synced() && m.cache[..] == old(m.cache[..])[start := FREE]
  {
    ghost var fat0 := m.cache[..];
    var _, c := m.AllocateChain(start, count);
    ghost var fat1 := m.cache[..];
    m.FreeChain(start);
    forall d: nat | d < |fat0| ensures m.cache[d] == if d == start then FREE else fat0[d] {
      ChainIsReachable(fat1, c, d);
      if d in c && d != start {
        var k :| 0 <= k < |c| && c[k] == d;
        assert c[k] in FreeSet(fat0);
      }
    }
  }
}
