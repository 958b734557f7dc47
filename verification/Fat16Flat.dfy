/** The refinement of the RAM disk to flat files: every run of reads and gap-free writes on clusters and FAT
    links gives the same results, and the same file contents, as the same run on plain byte sequences. */
module Fat16Flat {
  import opened Common
  import opened Fat16Chains
  import opened Fat16

  /** A file as its users see it: recorded size, allotted clusters, stored bytes. */
  datatype FlatFile = FlatFile(size: nat, clusters: nat, bytes: seq<Byte>)

  datatype FlatDisk = FlatDisk(files: seq<FlatFile>, free: nat)

  datatype Op = Read(f: nat, offset: nat, length: nat) | Write(f: nat, offset: nat, buffer: seq<Byte>)

  datatype Outcome = Fetched(endOfFile: bool, bytes: seq<Byte>) | Wrote(count: nat)

  /** Clusters needed for `n` bytes. */
  function ClustersFor(n: nat, cs: nat): nat
    requires cs > 0
  {
    (n + cs - 1) / cs
  }

  lemma ClustersForBounds(n: nat, cs: nat, k: nat)
    requires cs > 0
    ensures n <= k * cs <==> ClustersFor(n, cs) <= k
  {
    var q := ClustersFor(n, cs);
    if n <= k * cs && q > k {
      MulMonotone(k + 1, q, cs);
      MulDistributes(k, 1, cs);
    }
    if q <= k {
      MulMonotone(q, k, cs);
    }
  }

  function Overwrite(bytes: seq<Byte>, offset: nat, src: seq<Byte>): (r: seq<Byte>)
    requires offset <= |bytes|
    ensures |r| == Max(|bytes|, offset + |src|)
    ensures forall i :: 0 <= i < |r| ==> r[i] == if offset <= i < offset + |src| then src[i - offset] else bytes[i]
  {
    bytes[..offset] + src + (if offset + |src| <= |bytes| then bytes[offset + |src|..] else [])
  }

  ghost predicate WellSized(d: FlatDisk, cs: nat) {
    && cs > 0
    && (forall f :: 0 <= f < |d.files| ==>
          |d.files[f].bytes| == Min(d.files[f].size, d.files[f].clusters * cs))
  }

  /** No file promises more bytes than its clusters hold, unless the disk is full. */
  ghost predicate Compact(d: FlatDisk, cs: nat) {
    forall f :: 0 <= f < |d.files| ==> d.files[f].size <= d.files[f].clusters * cs || d.free == 0
  }

  function FlatRead(file: FlatFile, offset: nat, length: nat): Outcome {
    Fetched(offset >= file.size,
            if offset <= |file.bytes| then file.bytes[offset..Min(offset + length, |file.bytes|)] else [])
  }

  /** How many clusters a write obtains, and how many bytes it stores. */
  function Obtained(file: FlatFile, free: nat, cs: nat, offset: nat, length: nat): nat
    requires cs > 0
  {
    Min(Max(ClustersFor(offset + length, cs) - file.clusters, 0), free)
  }

  function StoredCount(file: FlatFile, free: nat, cs: nat, offset: nat, length: nat): int
    requires cs > 0
  {
    Min(length, (file.clusters + Obtained(file, free, cs, offset, length)) * cs - offset)
  }

  ghost predicate GapFree(d: FlatDisk, op: Op) {
    && op.f < |d.files|
    && (op.Read? ==> op.offset + op.length < TWO32)
    && (op.Write? ==> op.offset + |op.buffer| < TWO32 && op.offset <= |d.files[op.f].bytes|)
  }

  lemma StoredCountBounds(file: FlatFile, free: nat, cs: nat, offset: nat, length: nat)
    requires cs > 0 && |file.bytes| == Min(file.size, file.clusters * cs) && offset <= |file.bytes|
    ensures 0 <= StoredCount(file, free, cs, offset, length) <= length
  {
    MulMonotone(file.clusters, file.clusters + Obtained(file, free, cs, offset, length), cs);
  }

  /** The file that a gap-free write leaves behind. */
  ghost function FlatWrite(file: FlatFile, free: nat, cs: nat, offset: nat, buffer: seq<Byte>): (r: (FlatFile, nat))
    requires cs > 0 && |file.bytes| == Min(file.size, file.clusters * cs) && offset <= |file.bytes|
    ensures r.1 <= |buffer| && file.clusters <= r.0.clusters <= file.clusters + free
  {
    StoredCountBounds(file, free, cs, offset, |buffer|);
    var n := StoredCount(file, free, cs, offset, |buffer|);
    (FlatFile(Max(file.size, offset + |buffer|),
              file.clusters + Obtained(file, free, cs, offset, |buffer|),
              Overwrite(file.bytes, offset, buffer[..n])), n)
  }

  /** A flat write keeps the bookkeeping right and comes up short only when the disk is full. */
  lemma FlatWriteKeeps(file: FlatFile, free: nat, cs: nat, offset: nat, buffer: seq<Byte>)
    requires cs > 0 && |file.bytes| == Min(file.size, file.clusters * cs) && offset <= |file.bytes|
    requires file.size <= file.clusters * cs || free == 0
    ensures var (file', n) := FlatWrite(file, free, cs, offset, buffer);
            && |file'.bytes| == Min(file'.size, file'.clusters * cs)
            && (file'.size <= file'.clusters * cs || file'.clusters == file.clusters + free)
            && (n < |buffer| ==> file'.clusters == file.clusters + free)
  {
    var (file', n) := FlatWrite(file, free, cs, offset, buffer);
    MulMonotone(file.clusters, file'.clusters, cs);
    ClustersForBounds(offset + |buffer|, cs, file'.clusters);
  }

  ghost function FlatStep(d: FlatDisk, cs: nat, op: Op): (r: (FlatDisk, Outcome))
    requires WellSized(d, cs) && Compact(d, cs) && GapFree(d, op)
    ensures WellSized(r.0, cs) && Compact(r.0, cs)
  {
    match op
    case Read(f, offset, length) => (d, FlatRead(d.files[f], offset, length))
    case Write(f, offset, buffer) =>
      var file := d.files[f];
      var (file', n) := FlatWrite(file, d.free, cs, offset, buffer);
      FlatWriteKeeps(file, d.free, cs, offset, buffer);
      (FlatDisk(d.files[f := file'], d.free + file.clusters - file'.clusters), Wrote(n))
  }

  /** What NtWriteFile guarantees about the growing extent pins down the flat file it leaves behind. */
  lemma WriteIsFlat(file: FlatFile, free: nat, cs: nat, offset: nat, buffer: seq<Byte>,
                    e0: seq<Byte>, e1: seq<Byte>, k': nat, free': nat, n: nat)
    requires cs > 0 && n <= |buffer|
    requires |e0| == file.clusters * cs && |e1| == k' * cs
    requires file.bytes == e0[..Min(file.size, |e0|)] && offset <= |file.bytes|
    requires file.size <= |e0| || free == 0
    requires free' + k' == free + file.clusters
    requires Stored(e0, e1, offset, buffer[..n])
    requires n < |buffer| ==> free' == 0 && offset + n == |e1|
    requires |e0| < |e1| ==> |e1| < offset + n + cs
    ensures k' == file.clusters + Obtained(file, free, cs, offset, |buffer|)
    ensures n == StoredCount(file, free, cs, offset, |buffer|)
    ensures var size' := Max(file.size, offset + |buffer|);
            && e1[..Min(size', |e1|)] == Overwrite(file.bytes, offset, buffer[..n])
            && (size' <= |e1| || free' == 0)
  {
    assert file.clusters <= k' by {
      if k' < file.clusters { MulMonotone(k' + 1, file.clusters, cs); MulDistributes(k', 1, cs); }
    }
    assert k' > file.clusters ==> |e0| < |e1| by {
      if k' > file.clusters { MulMonotone(file.clusters + 1, k', cs); MulDistributes(file.clusters, 1, cs); }
    }
    ClustersForBounds(offset + |buffer|, cs, k');
    if n == |buffer| && k' > 0 {
      MulDistributes(k' - 1, 1, cs);
      ClustersForBounds(offset + |buffer|, cs, k' - 1);
    }
  }

  /** The abstraction: what a RAM disk stands for. */
  ghost function Flat(d: RamDisk): (r: FlatDisk)
    requires d.Valid()
    reads d, d.fat, d.dir, d.data
    ensures |r.files| == d.dir.Length && WellSized(r, d.clusterSize)
  {
    FlatDisk(seq(d.dir.Length, f requires 0 <= f < d.dir.Length && d.Valid() reads d, d.fat, d.dir, d.data =>
                   FlatFile(d.dir[f].fileSize, |d.chains[f]|, d.Contents(f))),
             d.FreeCount())
  }

  method PerformWrite(d: RamDisk, f: nat, offset: nat, buffer: seq<Byte>) returns (n: nat)
    requires d.Valid() && GapFree(Flat(d), Write(f, offset, buffer)) && Compact(Flat(d), d.clusterSize)
    modifies d`chains, d.fat, d.dir, d.data
    ensures d.Valid()
    ensures forall g :: 0 <= g < d.dir.Length && g != f ==> Flat(d).files[g] == old(Flat(d)).files[g]
    ensures (Flat(d).files[f], n) == FlatWrite(old(Flat(d)).files[f], old(Flat(d)).free, d.clusterSize, offset, buffer)
    ensures Flat(d).free + Flat(d).files[f].clusters == old(Flat(d)).free + old(Flat(d)).files[f].clusters
    ensures Flat(d).files[f].size <= Flat(d).files[f].clusters * d.clusterSize || Flat(d).free == 0
  {
    ghost var before, e0 := Flat(d), d.FileExtent(f);
    assert before.files[f] == FlatFile(d.dir[f].fileSize, |d.chains[f]|, d.Contents(f));
    n := d.Write(f, offset, buffer);
    WriteIsFlat(before.files[f], before.free, d.clusterSize, offset, buffer,
                e0, d.FileExtent(f), |d.chains[f]|, d.FreeCount(), n);
    assert Flat(d).files[f] == FlatFile(d.dir[f].fileSize, |d.chains[f]|, d.Contents(f));
    forall g | 0 <= g < d.dir.Length && g != f ensures Flat(d).files[g] == before.files[g] {
      assert d.View(g) == old(d.View(g));
    }
  }

  lemma OnlyOneFileChanged(before: FlatDisk, after: FlatDisk, cs: nat, f: nat, offset: nat, buffer: seq<Byte>, n: nat)
    requires WellSized(before, cs) && Compact(before, cs) && GapFree(before, Write(f, offset, buffer))
    requires |after.files| == |before.files|
    requires forall g :: 0 <= g < |after.files| && g != f ==> after.files[g] == before.files[g]
    requires (after.files[f], n) == FlatWrite(before.files[f], before.free, cs, offset, buffer)
    requires after.free + after.files[f].clusters == before.free + before.files[f].clusters
    ensures (after, Wrote(n)) == FlatStep(before, cs, Write(f, offset, buffer))
  {
    assert after.files == before.files[f := after.files[f]];
  }

  method PerformRead(d: RamDisk, f: nat, offset: nat, length: nat) returns (outcome: Outcome)
    requires d.Valid() && GapFree(Flat(d), Read(f, offset, length))
    ensures outcome == FlatRead(Flat(d).files[f], offset, length)
  {
    var eof, bytes := d.Read(f, offset, length);
    outcome := Fetched(eof, bytes);
  }

  /** One request on the real disk is one step of the flat disk. */
  method Perform(d: RamDisk, op: Op) returns (outcome: Outcome)
    requires d.Valid() && GapFree(Flat(d), op) && Compact(Flat(d), d.clusterSize)
    modifies d`chains, d.fat, d.dir, d.data
    ensures d.Valid()
    ensures (Flat(d), outcome) == FlatStep(old(Flat(d)), d.clusterSize, op)
  {
    ghost var before := Flat(d);
    match op
    case Read(f, offset, length) =>
      outcome := PerformRead(d, f, offset, length);
    case Write(f, offset, buffer) =>
      var n := PerformWrite(d, f, offset, buffer);
      outcome := Wrote(n);
      OnlyOneFileChanged(before, Flat(d), d.clusterSize, f, offset, buffer, n);
  }

  // ---- Whole runs ---------------------------------------------------------

  ghost predicate GapFreeRun(d: FlatDisk, cs: nat, ops: seq<Op>)
    requires WellSized(d, cs) && Compact(d, cs)
    decreases |ops|
  {
    ops != [] ==> GapFree(d, ops[0]) && GapFreeRun(FlatStep(d, cs, ops[0]).0, cs, ops[1..])
  }

  ghost function FlatRun(d: FlatDisk, cs: nat, ops: seq<Op>): (r: (FlatDisk, seq<Outcome>))
    requires WellSized(d, cs) && Compact(d, cs) && GapFreeRun(d, cs, ops)
    decreases |ops|
  {
    if ops == [] then (d, []) else
    var (d1, first) := FlatStep(d, cs, ops[0]);
    var (d2, rest) := FlatRun(d1, cs, ops[1..]);
    (d2, [first] + rest)
  }

  /** Every run of reads and gap-free writes: the results and the final contents are those of the flat files. */
  method PerformAll(d: RamDisk, ops: seq<Op>) returns (outcomes: seq<Outcome>)
    requires d.Valid() && Compact(Flat(d), d.clusterSize) && GapFreeRun(Flat(d), d.clusterSize, ops)
    modifies d`chains, d.fat, d.dir, d.data
    ensures d.Valid() && Compact(Flat(d), d.clusterSize)
    ensures (Flat(d), outcomes) == FlatRun(old(Flat(d)), d.clusterSize, ops)
    decreases |ops|
  {
    outcomes := [];
    if ops != [] {
      var first := Perform(d, ops[0]);
      var rest := PerformAll(d, ops[1..]);
      outcomes := [first] + rest;
    }
  }

  /** Reading back: a read inside the stored part of a write returns the written bytes, a read before or behind it
      returns what it returned before, and only a full disk stores less than was asked. */
  lemma ReadBack(file: FlatFile, free: nat, cs: nat, offset: nat, buffer: seq<Byte>, at: nat, length: nat)
    requires cs > 0 && |file.bytes| == Min(file.size, file.clusters * cs) && offset <= |file.bytes|
    requires file.size <= file.clusters * cs || free == 0
    ensures var (file', n) := FlatWrite(file, free, cs, offset, buffer);
            && (offset <= at && at + length <= offset + n ==>
                  FlatRead(file', at, length).bytes == buffer[at - offset..at - offset + length])
            && (at + length <= offset ==> FlatRead(file', at, length).bytes == FlatRead(file, at, length).bytes)
            && (offset + |buffer| <= at && at + length <= |file.bytes| ==>
                  FlatRead(file', at, length).bytes == FlatRead(file, at, length).bytes)
            && (n < |buffer| ==> file'.clusters == file.clusters + free)
  {
    FlatWriteKeeps(file, free, cs, offset, buffer);
    var (file', n) := FlatWrite(file, free, cs, offset, buffer);
    if at + length <= offset {
      assert file'.bytes[at..at + length] == file.bytes[at..at + length];
    } else if offset + |buffer| <= at && at + length <= |file.bytes| {
      assert file'.bytes[at..at + length] == file.bytes[at..at + length];
    }
  }

  /** A newly formatted disk. */
  function Formatted(files: nat, total: nat): FlatDisk
    requires total >= 2
  {
    FlatDisk(seq(files, _ => FlatFile(0, 0, [])), total - 2)
  }

  lemma AllFree(fat: seq<nat>, total: nat)
    requires 2 <= total <= |fat| && forall c :: 2 <= c < total ==> fat[c] == FREE
    ensures |FreeClusters(fat, total)| == total - 2
    decreases total
  {
    if total > 2 {
      AllFree(fat, total - 1);
      assert FreeClusters(fat, total) == FreeClusters(fat, total - 1) + {total - 1};
    } else {
      assert FreeClusters(fat, total) == {};
    }
  }

  /** Every gap-free run on a newly formatted disk gives the results of flat files. */
  method RunFromFormat(cs: nat, total: nat, files: nat, ops: seq<Op>) returns (outcomes: seq<Outcome>)
    requires cs > 0 && 2 <= total <= END_OF_CHAIN
    requires GapFreeRun(Formatted(files, total), cs, ops)
    ensures outcomes == FlatRun(Formatted(files, total), cs, ops).1
  {
    var d := new RamDisk(cs, total, files);
    AllFree(d.fat[..], total);
    assert Flat(d).files == Formatted(files, total).files;
    assert Flat(d) == Formatted(files, total);
    outcomes := PerformAll(d, ops);
  }
}
