/** The data path of the RAM disk (fs/fs.c): resolving an offset through a cluster chain, reading, and
    writing with on-demand cluster allocation, proved to behave as one flat byte sequence per file. */
module Fat16 {
  import opened Common
  import opened Fat16Chains

  /** RtlCopyMemory. */
  method CopyMemory(a: array<Byte>, to: nat, src: seq<Byte>)
    requires to + |src| <= a.Length
    modifies a
    ensures a[..] == Splice(old(a[..]), to, src)
  {
    for j := 0 to |src|
      invariant forall i :: 0 <= i < a.Length ==> a[i] == if to <= i < to + j then src[i - to] else old(a[i])
    {
      a[to + j] := src[j];
    }
  }

  datatype FileView = FileView(chain: seq<nat>, entry: DirEntry, extent: seq<Byte>)

  class RamDisk {
    /** FsClusterSize(). */
    const clusterSize: nat
    /** The bound of the allocation scan: clusters 2 .. totalClusters - 1 are allocatable. */
    const totalClusters: nat
    const fat: array<nat>
    const dir: array<DirEntry>
    const data: array<Byte>
    /** The chain that the FAT encodes for each directory entry (determined by the FAT: ChainsAreUnique). */
    ghost var chains: seq<seq<nat>>

    ghost predicate Valid()
      reads this, fat, dir, data
    {
      && clusterSize > 0
      && 2 <= totalClusters
      && (totalClusters - 2) * clusterSize <= data.Length
      && fat as object != data
      && WellFormed(fat[..], dir[..], totalClusters, chains)
    }

    /** FsCreateRamDisk: an empty FAT whose first two entries are reserved, and empty files. */
    constructor (clusterSize: nat, totalClusters: nat, files: nat)
      requires clusterSize > 0 && 2 <= totalClusters <= END_OF_CHAIN
      ensures Valid() && fresh(fat) && fresh(dir) && fresh(data)
      ensures this.clusterSize == clusterSize && this.totalClusters == totalClusters && dir.Length == files
      ensures forall f :: 0 <= f < files ==> dir[f] == DirEntry(0, 0) && chains[f] == []
      ensures forall c :: 2 <= c < totalClusters ==> fat[c] == FREE
    {
      this.clusterSize := clusterSize;
      this.totalClusters := totalClusters;
      fat := new nat[totalClusters](i => if i == 0 then 0xFFF8 else if i == 1 then END_OF_CHAIN else FREE);
      dir := new DirEntry[files](_ => DirEntry(0, 0));
      data := new Byte[(totalClusters - 2) * clusterSize](_ => 0);
      chains := seq(files, _ => []);
    }

    /** Bytes reachable through the chain of file `f`. */
    ghost function FileExtent(f: nat): (r: seq<Byte>)
      requires Valid() && f < dir.Length
      reads this, fat, dir, data
      ensures |r| == |chains[f]| * clusterSize
    {
      assert IsChain(fat[..], totalClusters, dir[..][f].firstCluster, chains[f]);
      Extent(data[..], chains[f], clusterSize, totalClusters)
    }

    /** What the file holds: its extent, cut at the recorded size. */
    ghost function Contents(f: nat): (r: seq<Byte>)
      requires Valid() && f < dir.Length
      reads this, fat, dir, data
    {
      FileExtent(f)[..Min(dir[f].fileSize, |chains[f]| * clusterSize)]
    }

    ghost function FreeCount(): nat
      requires Valid()
      reads this, fat, dir, data
    {
      |FreeClusters(fat[..], totalClusters)|
    }

    /** Everything about one file. */
    ghost function View(g: nat): FileView
      requires Valid() && g < dir.Length
      reads this, fat, dir, data
    {
      FileView(chains[g], dir[g], FileExtent(g))
    }

    /** FsResolveClusterChain: finds the cluster of an offset exactly when the offset is inside both the
        recorded size and the chain; `k` is that cluster's position in the chain. */
    method Resolve(f: nat, offset: nat) returns (found: bool, cluster: nat, inCluster: nat, ghost k: nat)
      requires Valid() && f < dir.Length
      ensures found <==> offset < dir[f].fileSize && offset < |FileExtent(f)|
      ensures found ==> k < |chains[f]| && cluster == chains[f][k]
      ensures found ==> inCluster < clusterSize && offset == k * clusterSize + inCluster
    {
      ghost var c := chains[f];
      assert IsChain(fat[..], totalClusters, dir[..][f].firstCluster, c);
      k := 0;
      if dir[f].firstCluster == 0 || offset >= dir[f].fileSize {
        return false, 0, 0, 0;
      }
      cluster := dir[f].firstCluster;
      inCluster := offset;
      while inCluster >= clusterSize
        invariant 0 <= k < |c| && cluster == c[k]
        invariant inCluster == offset - k * clusterSize
        decreases inCluster
      {
        var next := fat[cluster];
        assert next == fat[..][c[k]] == Link(c, k);
        MulDistributes(k, 1, clusterSize);
        if next == END_OF_CHAIN || next == FREE {
          MulMonotone(|c|, k + 1, clusterSize);
          return false, 0, 0, 0;
        }
        cluster := next;
        inCluster := inCluster - clusterSize;
        k := k + 1;
      }
      MulDistributes(k, 1, clusterSize);
      MulMonotone(k + 1, |c|, clusterSize);
      return true, cluster, inCluster, k;
    }

    /** The copy loop of NtReadFile: an offset at or past the recorded size is end-of-file, and any other
        read returns exactly the requested slice of the contents, cut where the contents end. */
    method Read(f: nat, offset: nat, length: nat) returns (endOfFile: bool, buffer: seq<Byte>)
      requires Valid() && f < dir.Length
      requires offset + length < TWO32
      ensures endOfFile <==> offset >= dir[f].fileSize
      ensures buffer == if offset <= |Contents(f)| then Contents(f)[offset..Min(offset + length, |Contents(f)|)] else []
    {
      ghost var contents := Contents(f);
      assert |contents| <= dir[f].fileSize;
      buffer := [];
      if offset >= dir[f].fileSize {
        return true, [];
      }
      var readLength := length;
      if offset + readLength > dir[f].fileSize {
        readLength := dir[f].fileSize - offset;
      }
      var remaining := readLength;
      var current := offset;
      while remaining > 0 && current < dir[f].fileSize
        invariant current == offset + |buffer|
        invariant 0 <= remaining == readLength - |buffer|
        invariant offset > |contents| ==> buffer == []
        invariant offset <= |contents| ==> current <= |contents| && buffer == contents[offset..current]
        decreases remaining
      {
        var found, chunk := ReadChunk(f, current, remaining);
        if !found {
          assert |contents| <= current;
          break;
        }
        SliceExtend(contents, offset, current, current + |chunk|);
        buffer := buffer + chunk;
        remaining := remaining - |chunk|;
        current := current + |chunk|;
      }
      assert offset <= |contents| ==> current == Min(offset + length, |contents|);
      return false, buffer;
    }

    /** One iteration of the NtReadFile loop: as much of one cluster as the request and the size allow. */
    method ReadChunk(f: nat, current: nat, remaining: nat) returns (found: bool, chunk: seq<Byte>)
      requires Valid() && f < dir.Length
      requires current < dir[f].fileSize && 0 < remaining
      ensures found <==> current < |Contents(f)|
      ensures found ==> 0 < |chunk| <= remaining && current + |chunk| <= |Contents(f)|
      ensures found ==> chunk == Contents(f)[current..current + |chunk|]
    {
      var cluster, inCluster;
      ghost var k;
      found, cluster, inCluster, k := Resolve(f, current);
      chunk := [];
      if found {
        var space := clusterSize - inCluster;
        var toRead := remaining;
        if current + toRead > dir[f].fileSize {
          toRead := dir[f].fileSize - current;
        }
        if toRead > space {
          toRead := space;
        }
        chunk := CopyOut(f, cluster, inCluster, toRead, k, current);
      }
    }

    /** RtlCopyMemory out of the `k`-th cluster of a file. */
    method CopyOut(f: nat, cluster: nat, inCluster: nat, n: nat, ghost k: nat, ghost at: nat)
      returns (chunk: seq<Byte>)
      requires Valid() && f < dir.Length
      requires k < |chains[f]| && cluster == chains[f][k]
      requires inCluster + n <= clusterSize && at == k * clusterSize + inCluster
      ensures at + n <= |FileExtent(f)|
      ensures chunk == FileExtent(f)[at..at + n]
    {
      assert IsChain(fat[..], totalClusters, dir[..][f].firstCluster, chains[f]);
      LoadInside(data[..], chains[f], clusterSize, totalClusters, k, inCluster, n);
      var from := (cluster - 2) * clusterSize + inCluster;
      chunk := data[..][from..from + n];
    }

    /** The allocation scan of NtWriteFile: the lowest free cluster, or 0 when there is none. */
    method FindFree() returns (cluster: nat)
      requires Valid()
      ensures cluster == 0 <==> FreeClusters(fat[..], totalClusters) == {}
      ensures cluster != 0 ==> cluster in FreeClusters(fat[..], totalClusters)
      ensures cluster != 0 ==> forall c :: c in FreeClusters(fat[..], totalClusters) ==> cluster <= c
    {
      cluster := 2;
      while cluster < totalClusters
        invariant 2 <= cluster <= totalClusters
        invariant forall c :: 2 <= c < cluster ==> fat[c] != FREE
      {
        if fat[cluster] == FREE {
          assert cluster in FreeClusters(fat[..], totalClusters);
          return;
        }
        cluster := cluster + 1;
      }
      cluster := 0;
    }

    /** The allocation branch of NtWriteFile: take the lowest free cluster and link it behind the chain. */
    method Grow(f: nat) returns (cluster: nat)
      requires Valid() && f < dir.Length
      modifies this`chains, fat, dir
      ensures Valid()
      ensures cluster == 0 <==> old(FreeCount()) == 0
      ensures cluster == 0 ==> chains == old(chains) && fat[..] == old(fat[..]) && dir[..] == old(dir[..])
      ensures cluster != 0 ==>
                && cluster in old(FreeClusters(fat[..], totalClusters))
                && (forall c :: c in old(FreeClusters(fat[..], totalClusters)) ==> cluster <= c)
                && chains == old(chains)[f := old(chains)[f] + [cluster]]
                && FreeCount() == old(FreeCount()) - 1
                && |FileExtent(f)| == |old(FileExtent(f))| + clusterSize
                && old(FileExtent(f)) <= FileExtent(f)
      ensures dir[f].fileSize == old(dir[f].fileSize)
      ensures forall g :: 0 <= g < dir.Length && g != f ==> View(g) == old(View(g))
    {
      ghost var fat0, dir0, c := fat[..], dir[..], chains[f];
      cluster := FindFree();
      if cluster == 0 {
        return;
      }
      LinkKeepsChains(fat0, dir0, totalClusters, chains, f, cluster);
      var last := LastCluster(f);
      fat[cluster] := END_OF_CHAIN;
      if dir[f].firstCluster == 0 {
        dir[f] := dir[f].(firstCluster := cluster);
      } else {
        fat[last] := cluster;
      }
      assert fat[..] == Linked(fat0, c, cluster);
      assert dir[..] == dir0[f := if c == [] then dir0[f].(firstCluster := cluster) else dir0[f]];
      chains := chains[f := c + [cluster]];
      assert WellFormed(fat[..], dir[..], totalClusters, chains);
      AllFit(fat[..], dir[..], totalClusters, chains, data.Length, clusterSize);
      ExtentGrows(data[..], c, cluster, clusterSize, totalClusters);
    }

    /** The chase loop of NtWriteFile: the end of a chain (0 for an empty one). */
    method LastCluster(f: nat) returns (chase: nat)
      requires Valid() && f < dir.Length
      ensures chase == if chains[f] == [] then 0 else chains[f][|chains[f]| - 1]
    {
      ghost var c := chains[f];
      assert IsChain(fat[..], totalClusters, dir[..][f].firstCluster, c);
      chase := dir[f].firstCluster;
      ghost var k := 0;
      while chase != 0
        invariant c == [] ==> chase == 0
        invariant c != [] ==> 0 <= k < |c| && chase == c[k]
        decreases |c| - k
      {
        var next := fat[chase];
        assert next == fat[..][c[k]] == Link(c, k);
        if next == END_OF_CHAIN || next == FREE {
          break;
        }
        chase := next;
        k := k + 1;
      }
    }

    /** RtlCopyMemory into the `k`-th cluster of a file: a splice of that file, invisible to all others. */
    method CopyIn(f: nat, cluster: nat, inCluster: nat, src: seq<Byte>, ghost k: nat, ghost at: nat)
      requires Valid() && f < dir.Length
      requires k < |chains[f]| && cluster == chains[f][k]
      requires inCluster + |src| <= clusterSize && at == k * clusterSize + inCluster
      modifies data
      ensures Valid()
      ensures at + |src| <= |FileExtent(f)| && FileExtent(f) == Splice(old(FileExtent(f)), at, src)
      ensures forall g :: 0 <= g < dir.Length && g != f ==> View(g) == old(View(g))
    {
      var to := (cluster - 2) * clusterSize + inCluster;
      StoreEffect(fat[..], dir[..], totalClusters, chains, data[..], clusterSize, f, k, inCluster, src, to, at);
      CopyMemory(data, to, src);
    }

    /** One iteration of the NtWriteFile loop: store into the cluster that holds `current`, or into a newly
        linked cluster when the chain does not reach that far. `at` is where in the file the bytes land. */
    method WriteChunk(f: nat, current: nat, src: seq<Byte>) returns (n: nat, ghost at: nat)
      requires Valid() && f < dir.Length
      requires 0 < |src| && current + |src| <= dir[f].fileSize
      modifies this`chains, fat, dir, data
      ensures Valid() && n <= |src|
      ensures dir[f].fileSize == old(dir[f].fileSize)
      ensures forall g :: 0 <= g < dir.Length && g != f ==> View(g) == old(View(g))
      ensures n == 0 <==> current >= |old(FileExtent(f))| && old(FreeCount()) == 0
      ensures n == 0 ==> View(f) == old(View(f))
      ensures FreeCount() + |chains[f]| == old(FreeCount()) + |old(chains)[f]|
      ensures at == Min(current, |old(FileExtent(f))|)
      ensures n > 0 && current < |old(FileExtent(f))| ==>
                && |FileExtent(f)| == |old(FileExtent(f))| && chains == old(chains)
      ensures n > 0 && current >= |old(FileExtent(f))| ==>
                && |FileExtent(f)| == |old(FileExtent(f))| + clusterSize
                && (n < |src| ==> at + n == |FileExtent(f)|)
      ensures Stored(old(FileExtent(f)), FileExtent(f), at, src[..n])
    {
      var found, cluster, inCluster;
      ghost var k;
      found, cluster, inCluster, k := Resolve(f, current);
      at := Min(current, |FileExtent(f)|);
      if !found {
        k := |chains[f]|;
        cluster := Grow(f);
        if cluster == 0 {
          return 0, at;
        }
        inCluster := 0;
      }
      var space := clusterSize - inCluster;
      n := Min(Min(|src|, dir[f].fileSize - current), space);
      CopyIn(f, cluster, inCluster, src[..n], k, at);
    }

    method WriteMore(f: nat, offset: nat, buffer: seq<Byte>, done: nat, ghost extent0: seq<Byte>) returns (n: nat)
      requires Valid() && f < dir.Length && done < |buffer|
      requires offset + |buffer| <= dir[f].fileSize
      requires Progress(extent0, FileExtent(f), clusterSize, offset, buffer, done)
      modifies this`chains, fat, dir, data
      ensures Valid() && done + n <= |buffer| && Progress(extent0, FileExtent(f), clusterSize, offset, buffer, done + n)
      ensures dir[f].fileSize == old(dir[f].fileSize)
      ensures forall g :: 0 <= g < dir.Length && g != f ==> View(g) == old(View(g))
      ensures FreeCount() + |chains[f]| == old(FreeCount()) + |old(chains)[f]|
      ensures n == 0 ==> FreeCount() == 0 && Min(offset, |extent0|) + done == |FileExtent(f)|
    {
      ghost var before := FileExtent(f);
      ghost var landed;
      n, landed := WriteChunk(f, offset + done, buffer[done..]);
      if n > 0 {
        ProgressContinues(extent0, before, FileExtent(f), clusterSize, offset, buffer, done, n);
      }
    }

    /** NtWriteFile. The bytes land at `offset` when the chain reaches that far and at the end of the chain
        otherwise; a short count means the disk is full and the file ends exactly where the copy stopped. */
    method Write(f: nat, offset: nat, buffer: seq<Byte>) returns (information: nat)
      requires Valid() && f < dir.Length
      requires offset + |buffer| < TWO32
      modifies this`chains, fat, dir, data
      ensures Valid() && information <= |buffer|
      ensures dir[f].fileSize == Max(old(dir[f].fileSize), offset + |buffer|)
      ensures forall g :: 0 <= g < dir.Length && g != f ==> View(g) == old(View(g))
      ensures FreeCount() + |chains[f]| == old(FreeCount()) + |old(chains)[f]|
      ensures var at := Min(offset, |old(FileExtent(f))|);
              && Stored(old(FileExtent(f)), FileExtent(f), at, buffer[..information])
              && (information < |buffer| ==> FreeCount() == 0 && at + information == |FileExtent(f)|)
              && (|old(FileExtent(f))| < |FileExtent(f)| ==> |FileExtent(f)| < at + information + clusterSize)
    {
      ghost var extent0 := FileExtent(f);
      if offset + |buffer| > dir[f].fileSize {
        dir[f] := dir[f].(fileSize := offset + |buffer|);
      }
      assert WellFormed(fat[..], dir[..], totalClusters, chains);
      var done := 0;
      while done < |buffer|
        invariant 0 <= done <= |buffer|
        invariant Valid()
        invariant dir[f].fileSize == Max(old(dir[f].fileSize), offset + |buffer|)
        invariant forall g :: 0 <= g < dir.Length && g != f ==> View(g) == old(View(g))
        invariant FreeCount() + |chains[f]| == old(FreeCount()) + |old(chains)[f]|
        invariant Progress(extent0, FileExtent(f), clusterSize, offset, buffer, done)
      {
        var n := WriteMore(f, offset, buffer, done, extent0);
        if n == 0 {
          break;
        }
        done := done + n;
      }
      information := done;
    }
  }

  /** The requirement "offset <= capacity" is sharp: on an empty disk a byte written at offset 1 shows up at
      offset 0, where nothing was written. */
  method GapWriteLandsElsewhere() returns (atZero: seq<Byte>)
    ensures atZero == [7]
  {
    var d := new RamDisk(4, 3, 1);
    assert 2 in FreeClusters(d.fat[..], d.totalClusters);
    var n := d.Write(0, 1, [7]);
    var eof;
    eof, atZero := d.Read(0, 0, 1);
  }
}
