/** The sector cache (mm/cache.c): hash index and LRU list over one entry array, with the lock dropped while
    the device is read. Each locked region is one atomic method, so any schedule of these methods is an
    interleaving of readers. */
module SectorCache {
  import opened CacheLists

  /** How the first locked region of CcReadSector ends. */
  datatype Begun = Hit(data: Sector) | Miss(victim: int) | Bypass

  class Cache {
    /** g_CcEntries, g_CcHash, g_CcLruHead and g_CcLruTail; NULL pointers are -1. */
    const entries: array<Entry>
    const hash: array<int>
    /** What underlying_read delivers for each LBA when it succeeds. */
    const device: nat -> Sector
    var lruHead: int
    var lruTail: int
    /** The sequences that the links spell out, and the entries claimed by reads in progress. */
    ghost var lru: seq<int>
    ghost var buckets: seq<seq<int>>
    ghost var inFlight: map<int, nat>

    ghost predicate LruOk()
      reads this, entries
    {
      LruList(entries[..], lruHead, lruTail, lru)
    }

    ghost predicate HashOk()
      reads this, entries, hash
    {
      && entries as object != hash
      && HashTable(entries[..], hash[..], buckets)
    }

    ghost predicate Valid()
      reads this, entries, hash
    {
      LruOk() && HashOk() && Roles(entries[..], buckets, lru, inFlight, device)
    }

    /** CcInitSystem. */
    constructor (size: nat, buckets: nat, device: nat -> Sector)
      requires buckets > 0
      ensures Valid() && fresh(entries) && fresh(hash)
      ensures entries.Length == size && this.device == device && lru == [] && inFlight == map[]
      ensures forall x :: 0 <= x < size ==> entries[x] == BLANK
    {
      entries := new Entry[size](_ => BLANK);
      hash := new int[buckets](_ => NULL);
      this.device := device;
      lruHead, lruTail := NULL, NULL;
      lru, inFlight := [], map[];
      this.buckets := seq(buckets, _ => []);
    }

    /** CcInvalidate. The lists are empty again, but the invariant holds if and only if no read was in progress: an entry
        that a reader still holds now looks unused, so another reader may claim it. */
    method Invalidate()
      requires Valid()
      modifies this`lruHead, this`lruTail, this`lru, this`buckets, hash, entries
      ensures LruOk() && HashOk() && lru == []
      ensures forall x :: 0 <= x < entries.Length ==> entries[x] == BLANK
      ensures Valid() <==> inFlight == map[]
      ensures forall x :: x in inFlight ==> 0 <= x < entries.Length && Unused(entries[x])
    {
      for i := 0 to hash.Length
        invariant forall b :: 0 <= b < i ==> hash[b] == NULL
      {
        hash[i] := NULL;
      }
      for i := 0 to entries.Length
        invariant forall b :: 0 <= b < hash.Length ==> hash[b] == NULL
        invariant forall x :: 0 <= x < i ==> entries[x] == BLANK
      {
        entries[i] := BLANK;
      }
      lruHead, lruTail := NULL, NULL;
      lru := [];
      buckets := seq(hash.Length, _ => []);
      assert (forall x :: x !in inFlight) ==> inFlight == map[];
    }

    /** CcLruInsertFront. */
    method LruInsertFront(e: int)
      requires LruOk() && 0 <= e < entries.Length && e !in lru
      modifies this`lruHead, this`lruTail, this`lru, entries
      ensures LruOk() && lru == [e] + old(lru)
      ensures SameButLru(old(entries[..]), entries[..])
    {
      ghost var es, head, tail := entries[..], lruHead, lruTail;
      if lruHead == NULL {
        lruHead, lruTail := e, e;
        entries[e] := entries[e].(lruNext := NULL, lruPrev := NULL);
      } else {
        entries[e] := entries[e].(lruNext := lruHead);
        entries[e] := entries[e].(lruPrev := NULL);
        entries[lruHead] := entries[lruHead].(lruPrev := e);
        lruHead := e;
      }
      PushFront(es, entries[..], head, tail, lru, e);
      lru := [e] + lru;
    }

    method SetLruLinks(i: int, next: int, prev: int)
      requires 0 <= i < entries.Length
      modifies entries
      ensures entries[..] == old(entries[..])[i := old(entries[i]).(lruNext := next, lruPrev := prev)]
      ensures SameButLru(old(entries[..]), entries[..])
    {
      entries[i] := entries[i].(lruNext := next, lruPrev := prev);
    }

    /** CcLruRemove. */
    method LruRemove(e: int)
      requires LruOk() && e in lru
      modifies this`lruHead, this`lruTail, this`lru, entries
      ensures LruOk() && lru == Without(old(lru), e)
      ensures SameButLru(old(entries[..]), entries[..])
    {
      ghost var k: int := IndexOf(lru, e);
      ghost var es, head, tail := entries[..], lruHead, lruTail;
      assert es[lru[k]].lruNext == At(lru, k + 1) && es[lru[k]].lruPrev == At(lru, k - 1);
      var p, n := entries[e].lruPrev, entries[e].lruNext;
      if p != NULL {
        SetLruLinks(p, n, entries[p].lruPrev);
      } else {
        lruHead := n;
      }
      ghost var es1 := entries[..];
      assert es1 == if p == NULL then es else es[p := es[p].(lruNext := n)];
      if n != NULL {
        SetLruLinks(n, entries[n].lruNext, p);
      } else {
        lruTail := p;
      }
      ghost var es2 := entries[..];
      assert es2 == if n == NULL then es1 else es1[n := es1[n].(lruPrev := p)];
      SameButLruTrans(es, es1, es2);
      SetLruLinks(e, NULL, NULL);
      SameButLruTrans(es, es2, entries[..]);
      Unlink(es, entries[..], head, tail, lru, e, lruHead, lruTail);
      lru := Without(lru, e);
    }

    /** CcHashFind: the first entry of the bucket that carries `lba`. */
    method HashFind(lba: nat) returns (e: int)
      requires HashOk()
      ensures var bucket := buckets[HashIndex(lba, hash.Length)];
              && (e == NULL ==> forall x :: x in bucket ==> entries[x].lba != lba)
              && (e != NULL ==> e in bucket && 0 <= e < entries.Length && entries[e].lba == lba)
    {
      var idx := HashIndex(lba, hash.Length);
      ghost var bucket := buckets[idx];
      assert HashList(entries[..], hash[..][idx], bucket);
      e := hash[idx];
      ghost var k := 0;
      while e != NULL
        invariant 0 <= k <= |bucket| && e == At(bucket, k)
        invariant forall i :: 0 <= i < k ==> entries[bucket[i]].lba != lba
        decreases |bucket| - k
      {
        assert entries[..][bucket[k]].hashNext == At(bucket, k + 1);
        if entries[e].lba == lba {
          return;
        }
        e := entries[e].hashNext;
        k := k + 1;
      }
    }

    method SetHashLinks(i: int, next: int, prev: int)
      requires 0 <= i < entries.Length
      modifies entries
      ensures entries[..] == old(entries[..])[i := old(entries[i]).(hashNext := next, hashPrev := prev)]
      ensures SameButHash(old(entries[..]), entries[..])
    {
      entries[i] := entries[i].(hashNext := next, hashPrev := prev);
    }

    /** CcHashInsert. */
    method HashInsert(e: int)
      requires HashOk() && 0 <= e < entries.Length && forall b :: 0 <= b < |buckets| ==> e !in buckets[b]
      modifies this`buckets, hash, entries
      ensures HashOk() && SameButHash(old(entries[..]), entries[..])
      ensures var idx := HashIndex(entries[e].lba, hash.Length);
              buckets == old(buckets)[idx := [e] + old(buckets)[idx]]
    {
      var idx := HashIndex(entries[e].lba, hash.Length);
      var head := hash[idx];
      ghost var es, table := entries[..], hash[..];
      assert HashList(es, table[idx], buckets[idx]);
      SetHashLinks(e, head, NULL);
      ghost var es1 := entries[..];
      if head != NULL {
        SetHashLinks(head, entries[head].hashNext, e);
      }
      SameButHashTrans(es, es1, entries[..]);
      hash[idx] := e;
      assert hash[..] == table[idx := e];
      InsertIntoTable(es, entries[..], table, buckets, e, idx);
      buckets := buckets[idx := [e] + buckets[idx]];
    }

    /** CcHashRemove. */
    method HashRemove(e: int)
      requires HashOk() && 0 <= e < entries.Length && e in buckets[HashIndex(entries[e].lba, hash.Length)]
      modifies this`buckets, hash, entries
      ensures HashOk() && SameButHash(old(entries[..]), entries[..])
      ensures var idx := HashIndex(entries[e].lba, hash.Length);
              buckets == old(buckets)[idx := Without(old(buckets)[idx], e)]
    {
      var idx := HashIndex(entries[e].lba, hash.Length);
      ghost var es, table, bucket := entries[..], hash[..], buckets[idx];
      ghost var k: int := IndexOf(bucket, e);
      assert HashList(es, table[idx], bucket);
      assert es[bucket[k]].hashNext == At(bucket, k + 1) && es[bucket[k]].hashPrev == At(bucket, k - 1);
      var p, n := entries[e].hashPrev, entries[e].hashNext;
      if p != NULL {
        SetHashLinks(p, n, entries[p].hashPrev);
      } else {
        hash[idx] := n;
      }
      ghost var es1 := entries[..];
      assert es1 == if p == NULL then es else es[p := es[p].(hashNext := n)];
      if n != NULL {
        SetHashLinks(n, entries[n].hashNext, p);
      }
      ghost var es2 := entries[..];
      assert es2 == if n == NULL then es1 else es1[n := es1[n].(hashPrev := p)];
      SameButHashTrans(es, es1, es2);
      SetHashLinks(e, NULL, NULL);
      SameButHashTrans(es, es2, entries[..]);
      RemoveFromTable(es, entries[..], table, buckets, e, idx);
      assert hash[..] == table[idx := if p == NULL then n else table[idx]];
      buckets := buckets[idx := Without(bucket, e)];
    }

    /** CcLruMoveFront. */
    method LruMoveFront(e: int)
      requires Valid() && e in lru
      modifies this`lruHead, this`lruTail, this`lru, entries
      ensures Valid() && lru == [e] + Without(old(lru), e)
      ensures SameButLru(old(entries[..]), entries[..])
    {
      ghost var es := entries[..];
      WithoutElements(lru, e);
      LruRemove(e);
      ghost var es1 := entries[..];
      LruInsertFront(e);
      SameButLruTrans(es, es1, entries[..]);
      TableFrame(es, entries[..], hash[..], buckets);
    }

    /** The scan for an unused entry. */
    method FindUnused() returns (victim: int)
      ensures victim == NULL ==> NoneUnused(entries[..])
      ensures victim != NULL ==> 0 <= victim < entries.Length && Unused(entries[victim])
      ensures forall x :: 0 <= x < victim ==> !Unused(entries[x])
    {
      for i := 0 to entries.Length
        invariant forall x :: 0 <= x < i ==> !Unused(entries[x])
      {
        if Unused(entries[i]) {
          return i;
        }
      }
      return NULL;
    }

    /** Take the least recently used entry out of both structures. */
    method Evict() returns (victim: int)
      requires Valid()
      modifies this`lruHead, this`lruTail, this`lru, this`buckets, hash, entries
      ensures Valid()
      ensures old(lru) == [] ==> victim == NULL && lru == [] && entries[..] == old(entries[..])
      ensures old(lru) != [] ==> victim == old(lru)[|old(lru)| - 1] && lru == old(lru)[..|old(lru)| - 1]
      ensures SamePayloads(old(entries[..]), entries[..])
    {
      victim := lruTail;
      if victim != NULL {
        ghost var es, all := entries[..], lru;
        assert lru != [] && victim == lru[|lru| - 1];
        WithoutElements(lru, victim);
        LruRemove(victim);
        ghost var es1 := entries[..];
        TableFrame(es, es1, hash[..], buckets);
        HashRemove(victim);
        assert IndexOf(all, victim) == |all| - 1;
        LruFrame(es1, entries[..], lruHead, lruTail, lru);
        WithoutElements(old(buckets)[HashIndex(es[victim].lba, hash.Length)], victim);
      }
    }

    ghost predicate IsCached(lba: nat)
      reads this, entries
    {
      exists x :: 0 <= x < entries.Length && x in lru && entries[x].lba == lba
    }

    /** Mark an entry that is in no structure as being read for `lba`. */
    method Claim(victim: int, lba: nat)
      requires Valid() && 0 <= victim < entries.Length && victim !in lru && victim !in inFlight
      modifies this`inFlight, entries
      ensures Valid() && inFlight == old(inFlight)[victim := lba]
      ensures entries[victim].lba == lba && entries[victim].accessCount == 1
      ensures SamePayloadsBut(old(entries[..]), entries[..], victim)
    {
      ghost var es := entries[..];
      entries[victim] := entries[victim].(lba := lba, accessCount := 1, dirty := false);
      inFlight := inFlight[victim := lba];
      UnlistedPayload(es, entries[..], hash[..], buckets, lru, lruHead, lruTail, victim);
    }

    /** First locked region of CcReadSector: answer from the cache, or claim an entry that no other reader can
        reach: an unused one if there is any, else the least recently used. */
    method BeginRead(lba: nat) returns (r: Begun, ghost hit: int)
      requires Valid()
      modifies this`lruHead, this`lruTail, this`lru, this`buckets, this`inFlight, hash, entries
      ensures Valid()
      ensures r.Hit? <==> old(IsCached(lba))
      ensures r.Hit? ==>
                && r.data == device(lba) && inFlight == old(inFlight)
                && hit in old(lru) && 0 <= hit < entries.Length && old(entries[..])[hit].lba == lba
                && lru == [hit] + Without(old(lru), hit)
                && SamePayloads(old(entries[..]), entries[..])
      ensures r.Bypass? ==>
                && old(lru) == [] && NoneUnused(old(entries[..]))
                && lru == old(lru) && inFlight == old(inFlight) && entries[..] == old(entries[..])
      ensures r.Miss? ==>
                && 0 <= r.victim < entries.Length && r.victim !in old(inFlight) && r.victim !in lru
                && inFlight == old(inFlight)[r.victim := lba]
                && (if Unused(old(entries[..])[r.victim]) then lru == old(lru)
                    else && NoneUnused(old(entries[..]))
                         && old(lru) != [] && r.victim == old(lru)[|old(lru)| - 1]
                         && lru == old(lru)[..|old(lru)| - 1])
                && entries[r.victim].accessCount == 1
                && SamePayloadsBut(old(entries[..]), entries[..], r.victim)
    {
      var e := HashFind(lba);
      if e != NULL {
        var data := entries[e].data;
        LruMoveFront(e);
        return Hit(data), e;
      }
      var victim := FindUnused();
      if victim == NULL {
        victim := Evict();
      }
      if victim == NULL {
        return Bypass, NULL;
      }
      Claim(victim, lba);
      return Miss(victim), NULL;
    }

    /** Second locked region of CcReadSector after the device delivered the sector into the entry. */
    method CommitRead(victim: int) returns (buffer: Sector)
      requires Valid() && victim in inFlight
      modifies this`lruHead, this`lruTail, this`lru, this`buckets, this`inFlight, hash, entries
      ensures Valid()
      ensures buffer == device(old(inFlight)[victim])
      ensures lru == [victim] + old(lru) && inFlight == old(inFlight) - {victim}
      ensures entries[victim].lba == old(inFlight)[victim]
      ensures SamePayloadsBut(old(entries[..]), entries[..], victim)
    {
      ghost var es := entries[..];
      entries[victim] := entries[victim].(data := device(entries[victim].lba));
      UnlistedPayload(es, entries[..], hash[..], buckets, lru, lruHead, lruTail, victim);
      ghost var es1 := entries[..];
      HashInsert(victim);
      LruFrame(es1, entries[..], lruHead, lruTail, lru);
      ghost var es2 := entries[..];
      LruInsertFront(victim);
      TableFrame(es2, entries[..], hash[..], buckets);
      inFlight := inFlight - {victim};
      buffer := entries[victim].data;
    }

    /** Second locked region of CcReadSector after a failed device read: the entry is dropped, but its access
        count stays set, so it is not found unused again. */
    method FailRead(victim: int)
      requires Valid() && victim in inFlight
      modifies this`inFlight, entries
      ensures Valid() && inFlight == old(inFlight) - {victim}
      ensures !Unused(entries[victim])
      ensures SamePayloadsBut(old(entries[..]), entries[..], victim)
    {
      ghost var es := entries[..];
      entries[victim] := entries[victim].(lba := 0);
      UnlistedPayload(es, entries[..], hash[..], buckets, lru, lruHead, lruTail, victim);
      inFlight := inFlight - {victim};
    }
  }
}
