/** Cluster chains of the RAM disk (fs/fs.c) as values: what a FAT encodes, where the bytes of a file
    live, and how a store into one cluster or a new link changes that. */
module Fat16Chains {
  import opened Common

  const FREE: nat := 0x0000
  const END_OF_CHAIN: nat := 0xFFFF

  /** The part of a directory entry that the data path uses. */
  datatype DirEntry = DirEntry(firstCluster: nat, fileSize: nat)

  /** The FAT entry that position `i` of a chain must hold. */
  ghost function Link(c: seq<nat>, i: nat): nat
    requires i < |c|
  {
    if i + 1 < |c| then c[i + 1] else END_OF_CHAIN
  }

  /** `c` is what following the links from `first` visits: allocatable clusters only, each linked to the
      next, the last marked end-of-chain. */
  ghost predicate IsChain(fat: seq<nat>, total: nat, first: nat, c: seq<nat>) {
    && first == (if c == [] then 0 else c[0])
    && (forall i :: 0 <= i < |c| ==> 2 <= c[i] < total && c[i] < |fat|)
    && (forall i :: 0 <= i < |c| ==> fat[c[i]] == Link(c, i))
  }

  ghost predicate Disjoint(a: seq<nat>, b: seq<nat>) {
    forall x :: x in a ==> x !in b
  }

  /** One chain per directory entry, no cluster in two chains. */
  ghost predicate WellFormed(fat: seq<nat>, dir: seq<DirEntry>, total: nat, chains: seq<seq<nat>>) {
    && total <= END_OF_CHAIN
    && total <= |fat|
    && |chains| == |dir|
    && (forall f :: 0 <= f < |dir| ==> IsChain(fat, total, dir[f].firstCluster, chains[f]))
    && (forall f, g :: 0 <= f < |dir| && 0 <= g < |dir| && f != g ==> Disjoint(chains[f], chains[g]))
  }

  lemma {:induction false} NoRepetition(fat: seq<nat>, total: nat, first: nat, c: seq<nat>, i: nat, j: nat)
    requires total <= END_OF_CHAIN && IsChain(fat, total, first, c)
    requires i < j < |c|
    ensures c[i] != c[j]
    decreases |c| - j
  {
    if c[i] == c[j] {
      assert Link(c, i) == Link(c, j);
      if j + 1 < |c| {
        NoRepetition(fat, total, first, c, i + 1, j + 1);
      }
    }
  }

  /** Every chain is acyclic: a walk that ends cannot revisit a cluster. */
  lemma ChainsAreAcyclic(fat: seq<nat>, total: nat, first: nat, c: seq<nat>)
    requires total <= END_OF_CHAIN && IsChain(fat, total, first, c)
    ensures Distinct(c)
  {
    forall i, j | 0 <= i < j < |c| ensures c[i] != c[j] {
      NoRepetition(fat, total, first, c, i, j);
    }
  }

  /** The FAT alone determines the chain, so the chains of a well-formed disk are not a free choice. */
  lemma ChainsAreUnique(fat: seq<nat>, total: nat, first: nat, c: seq<nat>, d: seq<nat>)
    requires total <= END_OF_CHAIN
    requires IsChain(fat, total, first, c) && IsChain(fat, total, first, d)
    ensures c == d
  {
    forall i | 0 <= i < |c| && i < |d| ensures c[i] == d[i] {
      SamePosition(fat, total, first, c, d, i);
    }
    if c != [] && d != [] {
      var i := Min(|c|, |d|) - 1;
      assert c[i] == d[i] && Link(c, i) == Link(d, i);
    }
  }

  lemma {:induction false} SamePosition(fat: seq<nat>, total: nat, first: nat, c: seq<nat>, d: seq<nat>, i: nat)
    requires IsChain(fat, total, first, c) && IsChain(fat, total, first, d) && i < |c| && i < |d|
    ensures c[i] == d[i]
  {
    if i > 0 {
      SamePosition(fat, total, first, c, d, i - 1);
      assert Link(c, i - 1) == Link(d, i - 1);
    }
  }

  // ---- Free clusters ------------------------------------------------------

  ghost function FreeClusters(fat: seq<nat>, total: nat): set<nat>
    requires total <= |fat|
  {
    set c | 2 <= c < total && fat[c] == FREE
  }

  // ---- Bytes --------------------------------------------------------------

  /** Index in the data area of byte `i` of a file whose clusters are `c` (FsClusterBase plus offset). */
  ghost function Address(c: seq<nat>, cs: nat, i: nat): int
    requires cs > 0 && i < |c| * cs
  {
    InChain(c, cs, i);
    (c[i / cs] - 2) * cs + i % cs
  }

  lemma InChain(c: seq<nat>, cs: nat, i: nat)
    requires cs > 0 && i < |c| * cs
    ensures i / cs < |c|
  {
    if i / cs >= |c| {
      MulMonotone(|c|, i / cs, cs);
    }
  }

  ghost predicate Fits(c: seq<nat>, cs: nat, total: nat, size: nat) {
    && cs > 0
    && (total - 2) * cs <= size
    && (forall k :: 0 <= k < |c| ==> 2 <= c[k] < total)
  }

  lemma AddressInCluster(c: seq<nat>, cs: nat, total: nat, size: nat, i: nat)
    requires Fits(c, cs, total, size) && i < |c| * cs
    ensures i / cs < |c| && 0 <= i % cs < cs
    ensures (c[i / cs] - 2) * cs <= Address(c, cs, i) < (c[i / cs] - 2) * cs + cs
    ensures 0 <= Address(c, cs, i) < size
  {
    InChain(c, cs, i);
    var k := c[i / cs];
    MulMonotone(0, k - 2, cs);
    MulMonotone(k - 2 + 1, total - 2, cs);
    MulDistributes(k - 2, 1, cs);
  }

  /** All bytes of the clusters of a chain, in chain order. */
  ghost function Extent(data: seq<Byte>, c: seq<nat>, cs: nat, total: nat): (r: seq<Byte>)
    requires Fits(c, cs, total, |data|)
    ensures |r| == |c| * cs
    ensures forall i :: 0 <= i < |r| ==> 0 <= Address(c, cs, i) < |data| && r[i] == data[Address(c, cs, i)]
  {
    assert forall i: nat | i < |c| * cs :: 0 <= Address(c, cs, i) < |data| by {
      forall i: nat | i < |c| * cs ensures 0 <= Address(c, cs, i) < |data| {
        AddressInCluster(c, cs, total, |data|, i);
      }
    }
    seq(|c| * cs, i requires 0 <= i < |c| * cs => data[Address(c, cs, i)])
  }

  /** Distinct clusters occupy disjoint ranges of the data area. */
  lemma ClustersApart(a: int, b: int, cs: nat)
    requires cs > 0 && a != b
    ensures a * cs + cs <= b * cs || b * cs + cs <= a * cs
  {
    MulDistributes(a, 1, cs);
    MulDistributes(b, 1, cs);
    if a < b {
      MulMonotone(a + 1, b, cs);
    } else {
      MulMonotone(b + 1, a, cs);
    }
  }

  /** A store inside cluster `k` is invisible through a chain without that cluster. */
  lemma StoreElsewhere(data: seq<Byte>, c: seq<nat>, cs: nat, total: nat, k: nat, o: nat, src: seq<Byte>)
    requires Fits(c, cs, total, |data|) && 2 <= k < total && k !in c
    requires o + |src| <= cs && 0 <= (k - 2) * cs + o && (k - 2) * cs + o + |src| <= |data|
    ensures Extent(Splice(data, (k - 2) * cs + o, src), c, cs, total) == Extent(data, c, cs, total)
  {
    var data' := Splice(data, (k - 2) * cs + o, src);
    var e, e' := Extent(data, c, cs, total), Extent(data', c, cs, total);
    forall i | 0 <= i < |e| ensures e'[i] == e[i] {
      AddressInCluster(c, cs, total, |data|, i);
      ClustersApart(c[i / cs] - 2, k - 2, cs);
    }
  }

  /** A store at offset `o` of the `k`-th cluster of a chain is a splice at `k * cs + o` of the file. */
  lemma StoreInside(data: seq<Byte>, c: seq<nat>, cs: nat, total: nat, k: nat, o: nat, src: seq<Byte>, to: int, at: int)
    requires Fits(c, cs, total, |data|) && Distinct(c) && k < |c| && o + |src| <= cs
    requires to == (c[k] - 2) * cs + o && at == k * cs + o
    ensures 0 <= to && to + |src| <= |data| && 0 <= at && at + |src| <= |Extent(data, c, cs, total)|
    ensures Extent(Splice(data, to, src), c, cs, total) == Splice(Extent(data, c, cs, total), at, src)
  {
    ClusterBounds(c, cs, total, |data|, k);
    var data' := Splice(data, to, src);
    var e, e' := Extent(data, c, cs, total), Extent(data', c, cs, total);
    var want := Splice(e, at, src);
    forall i | 0 <= i < |e| ensures e'[i] == want[i] {
      var a := Address(c, cs, i);
      AddressInSlice(c, cs, total, |data|, k, o, |src|, to, at, i);
      assert e'[i] == data'[a] && e[i] == data[a];
    }
  }

  /** Byte `i` of a file lies in the stored slice of the data area exactly when it lies in the slice of the file. */
  lemma AddressInSlice(c: seq<nat>, cs: nat, total: nat, size: nat, k: nat, o: nat, n: nat, to: int, at: int, i: nat)
    requires Fits(c, cs, total, size) && Distinct(c) && k < |c| && o + n <= cs && i < |c| * cs
    requires to == (c[k] - 2) * cs + o && at == k * cs + o
    ensures 0 <= Address(c, cs, i) < size
    ensures to <= Address(c, cs, i) < to + n <==> at <= i < at + n
    ensures at <= i < at + n ==> Address(c, cs, i) - to == i - at
  {
    AddressInCluster(c, cs, total, size, i);
    var q, r := i / cs, i % cs;
    assert i == q * cs + r && Address(c, cs, i) == (c[q] - 2) * cs + r;
    if q != k {
      ClustersApart(c[q] - 2, c[k] - 2, cs);
      ClustersApart(q, k, cs);
    }
  }

  /** A stretch of a file inside its `k`-th cluster is the same stretch of the data area. */
  lemma LoadInside(data: seq<Byte>, c: seq<nat>, cs: nat, total: nat, k: nat, o: nat, n: nat)
    requires Fits(c, cs, total, |data|) && k < |c| && o + n <= cs
    ensures 0 <= (c[k] - 2) * cs + o && (c[k] - 2) * cs + o + n <= |data|
    ensures k * cs + o + n <= |c| * cs
    ensures Extent(data, c, cs, total)[k * cs + o..k * cs + o + n]
            == data[(c[k] - 2) * cs + o..(c[k] - 2) * cs + o + n]
  {
    ClusterBounds(c, cs, total, |data|, k);
    var e, at, from := Extent(data, c, cs, total), k * cs + o, (c[k] - 2) * cs + o;
    var there, here := e[at..at + n], data[from..from + n];
    forall j | 0 <= j < n ensures there[j] == here[j] {
      BlockDivMod(at + j, cs, k);
      assert there[j] == e[at + j] == data[Address(c, cs, at + j)];
    }
  }

  lemma ClusterBounds(c: seq<nat>, cs: nat, total: nat, size: nat, k: nat)
    requires Fits(c, cs, total, size) && k < |c|
    ensures 0 <= (c[k] - 2) * cs && (c[k] - 2) * cs + cs <= size
    ensures k * cs + cs <= |c| * cs
  {
    MulDistributes(k, 1, cs);
    MulMonotone(k + 1, |c|, cs);
    MulMonotone(0, c[k] - 2, cs);
    MulDistributes(c[k] - 2, 1, cs);
    MulMonotone(c[k] - 2 + 1, total - 2, cs);
  }

  /** `after` is `before`, possibly longer, with `src` at position `at`. */
  ghost predicate Stored(before: seq<Byte>, after: seq<Byte>, at: nat, src: seq<Byte>) {
    && |before| <= |after|
    && at + |src| <= |after|
    && (forall i :: at <= i < at + |src| ==> after[i] == src[i - at])
    && (forall i :: 0 <= i < |before| && !(at <= i < at + |src|) ==> after[i] == before[i])
  }

  /** Adjacent stores of successive pieces of a buffer are one store. */
  lemma StoredMore(e0: seq<Byte>, e1: seq<Byte>, e2: seq<Byte>, at: nat, buffer: seq<Byte>, done: nat, n: nat)
    requires done + n <= |buffer|
    requires Stored(e0, e1, at, buffer[..done]) && Stored(e1, e2, at + done, buffer[done..][..n])
    ensures Stored(e0, e2, at, buffer[..done + n])
  {
  }

  /** The first `done` bytes of `buffer` are in the file: at `offset`, or at the end of the chain if that comes
      first; and the chain is no longer than needed. */
  ghost predicate Progress(e0: seq<Byte>, e: seq<Byte>, cs: nat, offset: nat, buffer: seq<Byte>, done: nat)
    requires done <= |buffer|
  {
    var at := Min(offset, |e0|);
    && Stored(e0, e, at, buffer[..done])
    && (|e0| < |e| ==> |e| < at + done + cs)
    && (offset > |e0| && done < |buffer| ==> at + done == |e|)
  }

  lemma ProgressContinues(e0: seq<Byte>, e1: seq<Byte>, e2: seq<Byte>, cs: nat, offset: nat, buffer: seq<Byte>,
                          done: nat, n: nat)
    requires done < |buffer| && 0 < n <= |buffer| - done
    requires Progress(e0, e1, cs, offset, buffer, done)
    requires Stored(e1, e2, Min(offset + done, |e1|), buffer[done..][..n])
    requires |e2| == if offset + done < |e1| then |e1| else |e1| + cs
    requires offset + done >= |e1| && n < |buffer| - done ==> Min(offset + done, |e1|) + n == |e2|
    ensures Progress(e0, e2, cs, offset, buffer, done + n)
  {
    StoredMore(e0, e1, e2, Min(offset, |e0|), buffer, done, n);
  }

  /** Appending a cluster only adds bytes at the end. */
  lemma ExtentGrows(data: seq<Byte>, c: seq<nat>, k: nat, cs: nat, total: nat)
    requires Fits(c + [k], cs, total, |data|)
    ensures Fits(c, cs, total, |data|)
    ensures |c + [k]| * cs == |c| * cs + cs
    ensures Extent(data, c, cs, total) <= Extent(data, c + [k], cs, total)
  {
    assert forall i :: 0 <= i < |c| ==> c[i] == (c + [k])[i];
    MulDistributes(|c|, 1, cs);
    forall i: nat | i < |c| * cs ensures Address(c, cs, i) == Address(c + [k], cs, i) {
      InChain(c, cs, i);
    }
  }

  // ---- Linking a new cluster ----------------------------------------------

  /** The FAT after the allocation branch of NtWriteFile links free cluster `k` behind `c`. */
  function Linked(fat: seq<nat>, c: seq<nat>, k: nat): (r: seq<nat>)
    requires k < |fat| && forall i :: 0 <= i < |c| ==> c[i] < |fat|
    ensures |r| == |fat|
  {
    if c == [] then fat[k := END_OF_CHAIN] else fat[k := END_OF_CHAIN][c[|c| - 1] := k]
  }

  /** Linking extends exactly one chain and leaves every other chain, and every other free cluster, alone. */
  lemma LinkKeepsChains(fat: seq<nat>, dir: seq<DirEntry>, total: nat, chains: seq<seq<nat>>, f: nat, k: nat)
    requires WellFormed(fat, dir, total, chains) && f < |dir|
    requires k in FreeClusters(fat, total)
    ensures k !in chains[f]
    ensures var e := if chains[f] == [] then dir[f].(firstCluster := k) else dir[f];
            WellFormed(Linked(fat, chains[f], k), dir[f := e], total, chains[f := chains[f] + [k]])
    ensures FreeClusters(Linked(fat, chains[f], k), total) == FreeClusters(fat, total) - {k}
  {
    forall g | 0 <= g < |dir| ensures k !in chains[g] {
      FreeIsUnlinked(fat, total, dir[g].firstCluster, chains[g], k);
    }
    ChainsAreAcyclic(fat, total, dir[f].firstCluster, chains[f]);
    var fat', c', chains' := Linked(fat, chains[f], k), chains[f] + [k], chains[f := chains[f] + [k]];
    LinkOwnChain(fat, total, dir[f].firstCluster, chains[f], k);
    forall g | 0 <= g < |dir| && g != f ensures IsChain(fat', total, dir[g].firstCluster, chains[g]) {
      assert Disjoint(chains[g], chains[f]);
      LinkOtherChain(fat, total, dir[g].firstCluster, chains[g], chains[f], k);
    }
    forall g, h | 0 <= g < |chains'| && 0 <= h < |chains'| && g != h ensures Disjoint(chains'[g], chains'[h]) {
      assert Disjoint(chains[g], chains[h]);
    }
    LinkTakesOne(fat, total, dir[f].firstCluster, chains[f], k);
  }

  lemma FreeIsUnlinked(fat: seq<nat>, total: nat, first: nat, c: seq<nat>, k: nat)
    requires total <= |fat| && IsChain(fat, total, first, c) && k in FreeClusters(fat, total)
    ensures k !in c
  {
    forall i | 0 <= i < |c| ensures c[i] != k {
      assert fat[c[i]] == Link(c, i) != FREE;
    }
  }

  lemma LinkOwnChain(fat: seq<nat>, total: nat, first: nat, c: seq<nat>, k: nat)
    requires total <= |fat| && IsChain(fat, total, first, c) && Distinct(c) && k !in c && 2 <= k < total
    ensures IsChain(Linked(fat, c, k), total, if c == [] then k else first, c + [k])
  {
    var fat', c' := Linked(fat, c, k), c + [k];
    forall i | 0 <= i < |c'| ensures fat'[c'[i]] == Link(c', i) {
      if i < |c| {
        assert fat[c[i]] == Link(c, i);
      }
    }
  }

  lemma LinkOtherChain(fat: seq<nat>, total: nat, first: nat, d: seq<nat>, c: seq<nat>, k: nat)
    requires IsChain(fat, total, first, d) && Disjoint(d, c) && k !in d && k < |fat|
    requires forall i :: 0 <= i < |c| ==> c[i] < |fat|
    ensures IsChain(Linked(fat, c, k), total, first, d)
  {
    var fat' := Linked(fat, c, k);
    forall i | 0 <= i < |d| ensures fat'[d[i]] == Link(d, i) {
      assert d[i] in d && fat[d[i]] == Link(d, i);
    }
  }

  lemma LinkTakesOne(fat: seq<nat>, total: nat, first: nat, c: seq<nat>, k: nat)
    requires total <= |fat| && IsChain(fat, total, first, c) && k in FreeClusters(fat, total) && k !in c
    ensures FreeClusters(Linked(fat, c, k), total) == FreeClusters(fat, total) - {k}
  {
    if c != [] {
      var last := |c| - 1;
      assert fat[c[last]] == Link(c, last) != FREE;
    }
  }

  /** A copy into the `k`-th cluster of file `f` is a splice of that file and invisible to every other. */
  lemma StoreEffect(fat: seq<nat>, dir: seq<DirEntry>, total: nat, chains: seq<seq<nat>>, data: seq<Byte>, cs: nat,
                    f: nat, k: nat, o: nat, src: seq<Byte>, to: int, at: int)
    requires WellFormed(fat, dir, total, chains) && f < |dir| && k < |chains[f]|
    requires cs > 0 && (total - 2) * cs <= |data| && o + |src| <= cs
    requires to == (chains[f][k] - 2) * cs + o && at == k * cs + o
    ensures forall g :: 0 <= g < |dir| ==> Fits(chains[g], cs, total, |data|)
    ensures 0 <= to && to + |src| <= |data| && 0 <= at && at + |src| <= |Extent(data, chains[f], cs, total)|
    ensures Extent(Splice(data, to, src), chains[f], cs, total)
            == Splice(Extent(data, chains[f], cs, total), at, src)
    ensures forall g :: 0 <= g < |dir| && g != f ==>
              Extent(Splice(data, to, src), chains[g], cs, total) == Extent(data, chains[g], cs, total)
  {
    AllFit(fat, dir, total, chains, |data|, cs);
    ChainsAreAcyclic(fat, total, dir[f].firstCluster, chains[f]);
    StoreInside(data, chains[f], cs, total, k, o, src, to, at);
    var data' := Splice(data, to, src);
    forall g | 0 <= g < |dir| && g != f
      ensures Extent(data', chains[g], cs, total) == Extent(data, chains[g], cs, total)
    {
      StoreBesideFile(fat, dir, total, chains, data, cs, f, k, o, src, to, g);
    }
  }

  lemma StoreBesideFile(fat: seq<nat>, dir: seq<DirEntry>, total: nat, chains: seq<seq<nat>>, data: seq<Byte>, cs: nat,
                        f: nat, k: nat, o: nat, src: seq<Byte>, to: int, g: nat)
    requires WellFormed(fat, dir, total, chains) && f < |dir| && k < |chains[f]|
    requires g < |dir| && g != f && Fits(chains[g], cs, total, |data|)
    requires o + |src| <= cs && to == (chains[f][k] - 2) * cs + o && 0 <= to && to + |src| <= |data|
    ensures Extent(Splice(data, to, src), chains[g], cs, total) == Extent(data, chains[g], cs, total)
  {
    assert IsChain(fat, total, dir[f].firstCluster, chains[f]);
    assert Disjoint(chains[f], chains[g]) && chains[f][k] in chains[f];
    StoreElsewhere(data, chains[g], cs, total, chains[f][k], o, src);
  }

  lemma AllFit(fat: seq<nat>, dir: seq<DirEntry>, total: nat, chains: seq<seq<nat>>, size: nat, cs: nat)
    requires WellFormed(fat, dir, total, chains) && cs > 0 && (total - 2) * cs <= size
    ensures forall g :: 0 <= g < |dir| ==> Fits(chains[g], cs, total, size)
  {
    forall g | 0 <= g < |dir| ensures Fits(chains[g], cs, total, size) {
      assert IsChain(fat, total, dir[g].firstCluster, chains[g]);
    }
  }
}
