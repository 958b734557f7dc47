/** The two intrusive lists that thread one entry array of the sector cache (mm/cache.c), as values. */
module CacheLists {
  import opened Common

  const NULL: int := -1

  type Sector = seq<Byte>

  datatype Entry = Entry(lba: nat, data: Sector, accessCount: nat, dirty: bool,
                         hashNext: int, hashPrev: int, lruNext: int, lruPrev: int)

  /** A zeroed CC_ENTRY. */
  const BLANK: Entry := Entry(0, [], 0, false, NULL, NULL, NULL, NULL)

  /** CcHashIndex for a table of `size` buckets: the 64-bit product, reduced. */
  function HashIndex(lba: nat, size: nat): (r: nat)
    requires size > 0
    ensures r < size
  {
    lba * 2654435761 % TWO64 % size
  }

  /** Element at `i`, or NULL beyond either end. */
  ghost function At(s: seq<int>, i: int): int { if 0 <= i < |s| then s[i] else NULL }

  ghost predicate Positions(s: seq<int>, n: nat) {
    Distinct(s) && forall i :: 0 <= i < |s| ==> 0 <= s[i] < n
  }

  /** The LRU links hold exactly the sequence `s`, with mutually inverse links. */
  ghost predicate LruList(es: seq<Entry>, head: int, tail: int, s: seq<int>) {
    && Positions(s, |es|)
    && head == At(s, 0) && tail == At(s, |s| - 1)
    && (forall i {:trigger es[s[i]]} :: 0 <= i < |s| ==> es[s[i]].lruNext == At(s, i + 1) && es[s[i]].lruPrev == At(s, i - 1))
  }

  /** The hash links from `head` hold exactly the sequence `s`, with mutually inverse links. */
  ghost predicate HashList(es: seq<Entry>, head: int, s: seq<int>) {
    && Positions(s, |es|)
    && head == At(s, 0)
    && (forall i {:trigger es[s[i]]} :: 0 <= i < |s| ==> es[s[i]].hashNext == At(s, i + 1) && es[s[i]].hashPrev == At(s, i - 1))
  }

  /** The test by which the miss path recognises a never-used entry. */
  predicate Unused(e: Entry) { e.lba == 0 && e.accessCount == 0 }

  ghost predicate NoneUnused(es: seq<Entry>) {
    forall x :: 0 <= x < |es| ==> !Unused(es[x])
  }

  ghost function IndexOf<T>(s: seq<T>, x: T): (k: nat)
    requires x in s
    ensures k < |s| && s[k] == x
  {
    var k :| 0 <= k < |s| && s[k] == x;
    k
  }

  ghost function Without<T>(s: seq<T>, x: T): (r: seq<T>)
    requires x in s
    ensures |r| == |s| - 1
  {
    s[..IndexOf(s, x)] + s[IndexOf(s, x) + 1..]
  }

  lemma WithoutElements<T>(s: seq<T>, x: T)
    requires x in s && Distinct(s)
    ensures Distinct(Without(s, x))
    ensures forall y :: y in Without(s, x) <==> y in s && y != x
  {
    RemovedMembers(s, IndexOf(s, x));
  }

  ghost predicate SamePayload(a: Entry, b: Entry) {
    a.lba == b.lba && a.data == b.data && a.accessCount == b.accessCount && a.dirty == b.dirty
  }

  ghost predicate SamePayloads(a: seq<Entry>, b: seq<Entry>) {
    |a| == |b| && forall x :: 0 <= x < |a| ==> SamePayload(a[x], b[x])
  }

  ghost predicate SamePayloadsBut(a: seq<Entry>, b: seq<Entry>, v: int) {
    |a| == |b| && forall x :: 0 <= x < |a| && x != v ==> SamePayload(a[x], b[x])
  }

  /** Only LRU links differ. */
  ghost predicate SameButLru(a: seq<Entry>, b: seq<Entry>) {
    |a| == |b| && forall i :: 0 <= i < |a| ==>
      SamePayload(a[i], b[i]) && a[i].hashNext == b[i].hashNext && a[i].hashPrev == b[i].hashPrev
  }

  /** Only hash links differ. */
  ghost predicate SameButHash(a: seq<Entry>, b: seq<Entry>) {
    |a| == |b| && forall i :: 0 <= i < |a| ==>
      SamePayload(a[i], b[i]) && a[i].lruNext == b[i].lruNext && a[i].lruPrev == b[i].lruPrev
  }

  lemma SameButLruTrans(a: seq<Entry>, b: seq<Entry>, c: seq<Entry>)
    requires SameButLru(a, b) && SameButLru(b, c)
    ensures SameButLru(a, c)
  {
  }

  lemma SameButHashTrans(a: seq<Entry>, b: seq<Entry>, c: seq<Entry>)
    requires SameButHash(a, b) && SameButHash(b, c)
    ensures SameButHash(a, c)
  {
  }

  lemma PushFront(es: seq<Entry>, es': seq<Entry>, head: int, tail: int, s: seq<int>, e: int)
    requires LruList(es, head, tail, s) && 0 <= e < |es| == |es'| && e !in s
    requires es'[e].lruNext == head && es'[e].lruPrev == NULL
    requires forall x :: x in s && x != head ==> es'[x] == es[x]
    requires s != [] ==> es'[head] == es[head].(lruPrev := e)
    ensures LruList(es', e, if s == [] then e else tail, [e] + s)
  {
    var t := [e] + s;
    assert Positions(t, |es'|);
    forall i | 0 <= i < |t| ensures es'[t[i]].lruNext == At(t, i + 1) && es'[t[i]].lruPrev == At(t, i - 1) {
      if i > 0 {
        var j := i - 1;
        assert t[i] == s[j] && s[j] in s;
        assert es[s[j]].lruNext == At(s, j + 1) && es[s[j]].lruPrev == At(s, j - 1);
      }
    }
  }

  lemma Unlink(es: seq<Entry>, es': seq<Entry>, head: int, tail: int, s: seq<int>, e: int, head': int, tail': int)
    requires LruList(es, head, tail, s) && e in s && |es'| == |es|
    requires var p, n := es[e].lruPrev, es[e].lruNext;
             && head' == (if p == NULL then n else head) && tail' == (if n == NULL then p else tail)
             && (forall x :: x in s && x != e ==>
                   && es'[x].lruNext == (if x == p then n else es[x].lruNext)
                   && es'[x].lruPrev == (if x == n then p else es[x].lruPrev))
    ensures LruList(es', head', tail', Without(s, e))
  {
    var k: int, t := IndexOf(s, e), Without(s, e);
    WithoutElements(s, e);
    assert es[s[k]].lruNext == At(s, k + 1) && es[s[k]].lruPrev == At(s, k - 1);
    assert Positions(t, |es'|) by {
      assert forall i :: 0 <= i < |t| ==> t[i] in t;
    }
    forall i | 0 <= i < |t| ensures es'[t[i]].lruNext == At(t, i + 1) && es'[t[i]].lruPrev == At(t, i - 1) {
      var j := if i < k then i else i + 1;
      Neighbours(s, k, i, |es|);
      assert s[j] in s && s[j] != e;
      assert es[s[j]].lruNext == At(s, j + 1) && es[s[j]].lruPrev == At(s, j - 1);
    }
  }

  lemma PushBucket(es: seq<Entry>, es': seq<Entry>, head: int, s: seq<int>, e: int)
    requires HashList(es, head, s) && 0 <= e < |es| == |es'| && e !in s
    requires es'[e].hashNext == head && es'[e].hashPrev == NULL
    requires forall x :: x in s && x != head ==> es'[x] == es[x]
    requires s != [] ==> es'[head] == es[head].(hashPrev := e)
    ensures HashList(es', e, [e] + s)
  {
    var t := [e] + s;
    assert Positions(t, |es'|);
    forall i | 0 <= i < |t| ensures es'[t[i]].hashNext == At(t, i + 1) && es'[t[i]].hashPrev == At(t, i - 1) {
      if i > 0 {
        var j := i - 1;
        assert t[i] == s[j] && s[j] in s;
        assert es[s[j]].hashNext == At(s, j + 1) && es[s[j]].hashPrev == At(s, j - 1);
      }
    }
  }

  lemma UnlinkBucket(es: seq<Entry>, es': seq<Entry>, head: int, s: seq<int>, e: int, head': int)
    requires HashList(es, head, s) && e in s && |es'| == |es|
    requires var p, n := es[e].hashPrev, es[e].hashNext;
             && head' == (if p == NULL then n else head)
             && (forall x :: x in s && x != e ==>
                   && es'[x].hashNext == (if x == p then n else es[x].hashNext)
                   && es'[x].hashPrev == (if x == n then p else es[x].hashPrev))
    ensures HashList(es', head', Without(s, e))
  {
    var k: int, t := IndexOf(s, e), Without(s, e);
    WithoutElements(s, e);
    assert es[s[k]].hashNext == At(s, k + 1) && es[s[k]].hashPrev == At(s, k - 1);
    assert Positions(t, |es'|) by {
      assert forall i :: 0 <= i < |t| ==> t[i] in t;
    }
    forall i | 0 <= i < |t| ensures es'[t[i]].hashNext == At(t, i + 1) && es'[t[i]].hashPrev == At(t, i - 1) {
      var j := if i < k then i else i + 1;
      Neighbours(s, k, i, |es|);
      assert s[j] in s && s[j] != e;
      assert es[s[j]].hashNext == At(s, j + 1) && es[s[j]].hashPrev == At(s, j - 1);
    }
  }

  /** A list whose members keep their hash links is unchanged. */
  lemma BucketFrame(es: seq<Entry>, es': seq<Entry>, head: int, s: seq<int>)
    requires HashList(es, head, s) && |es| == |es'|
    requires forall x :: x in s ==> es'[x].hashNext == es[x].hashNext && es'[x].hashPrev == es[x].hashPrev
    ensures HashList(es', head, s)
  {
    forall i | 0 <= i < |s| ensures es'[s[i]].hashNext == At(s, i + 1) && es'[s[i]].hashPrev == At(s, i - 1) {
      assert s[i] in s && es[s[i]].hashNext == At(s, i + 1);
    }
  }

  lemma LruFrame(es: seq<Entry>, es': seq<Entry>, head: int, tail: int, s: seq<int>)
    requires LruList(es, head, tail, s) && |es| == |es'|
    requires forall x :: x in s ==> es'[x].lruNext == es[x].lruNext && es'[x].lruPrev == es[x].lruPrev
    ensures LruList(es', head, tail, s)
  {
    forall i | 0 <= i < |s| ensures es'[s[i]].lruNext == At(s, i + 1) && es'[s[i]].lruPrev == At(s, i - 1) {
      assert s[i] in s && es[s[i]].lruNext == At(s, i + 1);
    }
  }

  /** The whole hash index: every bucket a well-linked list of entries that belong in it. */
  ghost predicate HashTable(es: seq<Entry>, table: seq<int>, buckets: seq<seq<int>>) {
    && 0 < |table| == |buckets|
    && (forall b :: 0 <= b < |table| ==> HashList(es, table[b], buckets[b]))
    && (forall b, x :: 0 <= b < |table| && x in buckets[b] ==> HashIndex(es[x].lba, |table|) == b)
  }

  lemma TableFrame(es: seq<Entry>, es': seq<Entry>, table: seq<int>, buckets: seq<seq<int>>)
    requires HashTable(es, table, buckets) && SameButLru(es, es')
    ensures HashTable(es', table, buckets)
  {
    forall b | 0 <= b < |table| ensures HashList(es', table[b], buckets[b]) {
      BucketFrame(es, es', table[b], buckets[b]);
    }
  }

  /** The payload of an entry outside both structures may change freely. */
  lemma UnlistedPayload(es: seq<Entry>, es': seq<Entry>, table: seq<int>, buckets: seq<seq<int>>,
                        lru: seq<int>, head: int, tail: int, v: int)
    requires HashTable(es, table, buckets) && LruList(es, head, tail, lru)
    requires |es'| == |es| && v !in lru && forall b :: 0 <= b < |buckets| ==> v !in buckets[b]
    requires forall x :: 0 <= x < |es| && x != v ==> es'[x] == es[x]
    ensures HashTable(es', table, buckets) && LruList(es', head, tail, lru)
  {
    LruFrame(es, es', head, tail, lru);
    forall b | 0 <= b < |table| ensures HashList(es', table[b], buckets[b]) {
      BucketFrame(es, es', table[b], buckets[b]);
    }
  }

  lemma InsertIntoTable(es: seq<Entry>, es': seq<Entry>, table: seq<int>, buckets: seq<seq<int>>, e: int, idx: nat)
    requires HashTable(es, table, buckets) && 0 <= e < |es| && idx == HashIndex(es[e].lba, |table|)
    requires forall b :: 0 <= b < |table| ==> e !in buckets[b]
    requires SameButHash(es, es') && es'[e].hashNext == table[idx] && es'[e].hashPrev == NULL
    requires forall x :: 0 <= x < |es| && x != e && x != table[idx] ==> es'[x] == es[x]
    requires table[idx] != NULL ==> 0 <= table[idx] < |es| && es'[table[idx]] == es[table[idx]].(hashPrev := e)
    ensures HashTable(es', table[idx := e], buckets[idx := [e] + buckets[idx]])
  {
    PushBucket(es, es', table[idx], buckets[idx], e);
    forall b | 0 <= b < |table| && b != idx ensures HashList(es', table[b], buckets[b]) {
      assert forall x :: x in buckets[b] ==> 0 <= x < |es| && x != table[idx] && x != e;
      BucketFrame(es, es', table[b], buckets[b]);
    }
  }

  lemma RemoveFromTable(es: seq<Entry>, es': seq<Entry>, table: seq<int>, buckets: seq<seq<int>>, e: int, idx: nat)
    requires HashTable(es, table, buckets) && 0 <= e < |es| && idx == HashIndex(es[e].lba, |table|)
    requires e in buckets[idx] && SameButHash(es, es')
    requires forall x :: 0 <= x < |es| && x != e ==>
               && es'[x].hashNext == (if x == es[e].hashPrev then es[e].hashNext else es[x].hashNext)
               && es'[x].hashPrev == (if x == es[e].hashNext then es[e].hashPrev else es[x].hashPrev)
    ensures var head' := if es[e].hashPrev == NULL then es[e].hashNext else table[idx];
            HashTable(es', table[idx := head'], buckets[idx := Without(buckets[idx], e)])
  {
    var bucket, k: int := buckets[idx], IndexOf(buckets[idx], e);
    var p, n := es[e].hashPrev, es[e].hashNext;
    var head' := if p == NULL then n else table[idx];
    assert HashList(es, table[idx], bucket) && e == bucket[k];
    assert es[bucket[k]].hashNext == At(bucket, k + 1) && es[bucket[k]].hashPrev == At(bucket, k - 1);
    assert (p != NULL ==> p in bucket) && (n != NULL ==> n in bucket);
    assert forall x :: x in bucket ==> 0 <= x < |es|;
    UnlinkBucket(es, es', table[idx], bucket, e, head');
    WithoutElements(bucket, e);
    forall b | 0 <= b < |table| && b != idx ensures HashList(es', table[b], buckets[b]) {
      assert forall x :: x in buckets[b] ==> 0 <= x < |es| && x != p && x != n && x != e;
      BucketFrame(es, es', table[b], buckets[b]);
    }
  }

  /** Who owns each entry. Indexed entries are exactly those on the LRU list and agree with the device; an
      entry claimed by a read in progress is on neither; a never-used entry is all zero. */
  ghost predicate Roles(es: seq<Entry>, buckets: seq<seq<int>>, lru: seq<int>, inFlight: map<int, nat>,
                        device: nat -> Sector)
  {
    && |buckets| > 0
    && (forall x :: 0 <= x < |es| ==> (x in lru <==> x in buckets[HashIndex(es[x].lba, |buckets|)]))
    && (forall x :: 0 <= x < |es| && x in lru ==> es[x].accessCount != 0 && es[x].data == device(es[x].lba))
    && (forall x :: x in inFlight ==>
          0 <= x < |es| && x !in lru && es[x].accessCount != 0 && es[x].lba == inFlight[x])
    && (forall x :: 0 <= x < |es| && es[x].accessCount == 0 ==> es[x].lba == 0 && x !in lru)
  }

  /** Removing position `k` of a sequence joins its two neighbours and changes no other adjacency. */
  lemma Neighbours(s: seq<int>, k: int, i: int, n: nat)
    requires Positions(s, n) && 0 <= k < |s| && 0 <= i < |s| - 1
    ensures var t, j := s[..k] + s[k + 1..], if i < k then i else i + 1;
            && t[i] == s[j]
            && At(t, i + 1) == (if s[j] == At(s, k - 1) then At(s, k + 1) else At(s, j + 1))
            && At(t, i - 1) == (if s[j] == At(s, k + 1) then At(s, k - 1) else At(s, j - 1))
  {
  }
}
