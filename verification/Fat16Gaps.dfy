/** Runs of the RAM disk with writes at any offset (fs/fs.c): where every byte lands, what no run changes, and exactly
    which writes behave as on a flat file. */
module Fat16Gaps {
  import opened Common
  import opened Fat16Chains
  import opened Fat16
  import opened Fat16Flat

  // ---- Exactly which writes are right -------------------------------------

  /** Whatever a write at `offset` may leave behind, the written bytes stand at `offset` if and only if the offset is not
      beyond the clusters of the file. */
  lemma LandsRightExactly(e0: seq<Byte>, offset: nat, n: nat)
    requires n > 0
    ensures (forall e1: seq<Byte>, buffer: seq<Byte> ::
               |buffer| == n && Stored(e0, e1, Min(offset, |e0|), buffer) && offset + n <= |e1| ==>
                 e1[offset..offset + n] == buffer) <==> offset <= |e0|
  {
    if offset > |e0| {
      var buffer: seq<Byte> := seq(n, _ => 0);
      var e1: seq<Byte> := e0 + buffer + seq(offset - |e0|, _ => 1);
      assert Stored(e0, e1, |e0|, buffer);
      assert e1[offset..offset + n][n - 1] == 1;
    }
  }

  /** A write within the clusters of a file leaves contents that depend on the old contents alone if and only if its
      offset is not beyond their end: a gap shows what the clusters held before. */
  lemma FlatExactly(size: nat, capacity: nat, offset: nat, n: nat)
    requires size <= capacity && offset + n <= capacity && n > 0
    ensures (forall e: seq<Byte>, f: seq<Byte>, buffer: seq<Byte> ::
               |e| == |f| == capacity && e[..size] == f[..size] && |buffer| == n ==>
                 Splice(e, offset, buffer)[..Max(size, offset + n)] == Splice(f, offset, buffer)[..Max(size, offset + n)])
            <==> offset <= size
  {
    if offset <= size {
      forall e: seq<Byte>, f: seq<Byte>, buffer: seq<Byte> |
        |e| == |f| == capacity && e[..size] == f[..size] && |buffer| == n
        ensures Splice(e, offset, buffer)[..Max(size, offset + n)] == Splice(f, offset, buffer)[..Max(size, offset + n)]
      {
        assert forall i :: 0 <= i < size ==> e[i] == e[..size][i] == f[..size][i] == f[i];
      }
    } else {
      var e: seq<Byte> := seq(capacity, _ => 0);
      var f: seq<Byte> := e[size := 1];
      var buffer: seq<Byte> := seq(n, _ => 0);
      assert e[..size] == f[..size];
      assert Splice(e, offset, buffer)[..Max(size, offset + n)][size] == 0;
      assert Splice(f, offset, buffer)[..Max(size, offset + n)][size] == 1;
    }
  }

  // ---- Runs of arbitrary requests -----------------------------------------

  /** A file with all bytes of its clusters. */
  datatype RawFile = RawFile(size: nat, extent: seq<Byte>)

  datatype RawDisk = RawDisk(files: seq<RawFile>, free: nat)

  ghost function Raw(d: RamDisk): (r: RawDisk)
    requires d.Valid()
    reads d, d.fat, d.dir, d.data
    ensures |r.files| == d.dir.Length
  {
    RawDisk(seq(d.dir.Length, f requires 0 <= f < d.dir.Length && d.Valid() reads d, d.fat, d.dir, d.data =>
              RawFile(d.dir[f].fileSize, d.FileExtent(f))), d.FreeCount())
  }

  ghost predicate InBounds(op: Op, files: nat) {
    op.f < files && (op.Read? ==> op.offset + op.length < TWO32) && (op.Write? ==> op.offset + |op.buffer| < TWO32)
  }

  /** One request: a read returns a slice of the contents; a write stores at its offset or at the end of the clusters,
      whichever comes first, and touches no other file. */
  ghost predicate Lands(a: RawDisk, cs: nat, op: Op, b: RawDisk, outcome: Outcome)
    requires op.f < |a.files|
  {
    var file := a.files[op.f];
    match op
    case Read(f, offset, length) =>
      var bytes := file.extent[..Min(file.size, |file.extent|)];
      && b == a
      && outcome == Fetched(offset >= file.size,
                            if offset <= |bytes| then bytes[offset..Min(offset + length, |bytes|)] else [])
    case Write(f, offset, buffer) =>
      && outcome.Wrote? && outcome.count <= |buffer| && |b.files| == |a.files|
      && (forall g :: 0 <= g < |a.files| && g != f ==> b.files[g] == a.files[g])
      && b.files[f].size == Max(file.size, offset + |buffer|)
      && Stored(file.extent, b.files[f].extent, Min(offset, |file.extent|), buffer[..outcome.count])
      && b.free * cs + |b.files[f].extent| == a.free * cs + |file.extent|
      && (outcome.count < |buffer| ==>
            b.free == 0 && Min(offset, |file.extent|) + outcome.count == |b.files[f].extent|)
  }

  method ServeWrite(d: RamDisk, f: nat, offset: nat, buffer: seq<Byte>) returns (n: nat)
    requires d.Valid() && InBounds(Write(f, offset, buffer), d.dir.Length)
    modifies d`chains, d.fat, d.dir, d.data
    ensures d.Valid()
    ensures Lands(old(Raw(d)), d.clusterSize, Write(f, offset, buffer), Raw(d), Wrote(n))
  {
    ghost var before, free, k := Raw(d), d.FreeCount(), |d.chains[f]|;
    assert before.files[f] == RawFile(d.dir[f].fileSize, d.FileExtent(f));
    n := d.Write(f, offset, buffer);
    assert Raw(d).files[f] == RawFile(d.dir[f].fileSize, d.FileExtent(f));
    Conserved(free, k, d.FreeCount(), |d.chains[f]|, d.clusterSize);
    forall g | 0 <= g < d.dir.Length && g != f ensures Raw(d).files[g] == before.files[g] {
      assert d.View(g) == old(d.View(g));
    }
  }

  lemma Conserved(free: nat, k: nat, free': nat, k': nat, cs: nat)
    requires free + k == free' + k'
    ensures free * cs + k * cs == free' * cs + k' * cs
  {
    MulDistributes(free, k, cs);
    MulDistributes(free', k', cs);
  }

  method ServeRead(d: RamDisk, f: nat, offset: nat, length: nat) returns (outcome: Outcome)
    requires d.Valid() && InBounds(Read(f, offset, length), d.dir.Length)
    ensures Lands(Raw(d), d.clusterSize, Read(f, offset, length), Raw(d), outcome)
  {
    assert Raw(d).files[f] == RawFile(d.dir[f].fileSize, d.FileExtent(f));
    var eof, bytes := d.Read(f, offset, length);
    outcome := Fetched(eof, bytes);
  }

  method Serve(d: RamDisk, op: Op) returns (outcome: Outcome)
    requires d.Valid() && InBounds(op, d.dir.Length)
    modifies d`chains, d.fat, d.dir, d.data
    ensures d.Valid()
    ensures Lands(old(Raw(d)), d.clusterSize, op, Raw(d), outcome)
  {
    match op
    case Read(f, offset, length) =>
      outcome := ServeRead(d, f, offset, length);
    case Write(f, offset, buffer) =>
      hide Lands;
      var n := ServeWrite(d, f, offset, buffer);
      outcome := Wrote(n);
  }

  /** `states` is a run: each request lands as it must. */
  ghost predicate IsRun(states: seq<RawDisk>, cs: nat, ops: seq<Op>, outcomes: seq<Outcome>) {
    && |states| == |ops| + 1 && |outcomes| == |ops|
    && forall i {:trigger ops[i]} :: 0 <= i < |ops| ==> ops[i].f < |states[i].files| && Lands(states[i], cs, ops[i], At(states, i + 1), outcomes[i])
  }

  ghost function At(states: seq<RawDisk>, i: int): RawDisk { if 0 <= i < |states| then states[i] else RawDisk([], 0) }

  /** Every run of reads and writes at any offsets. */
  method ServeAll(d: RamDisk, ops: seq<Op>) returns (outcomes: seq<Outcome>, ghost states: seq<RawDisk>)
    requires d.Valid() && forall op :: op in ops ==> InBounds(op, d.dir.Length)
    modifies d`chains, d.fat, d.dir, d.data
    ensures d.Valid() && IsRun(states, d.clusterSize, ops, outcomes)
    ensures states[0] == old(Raw(d)) && states[|ops|] == Raw(d)
  {
    outcomes, states := [], [Raw(d)];
    hide Lands;
    for i := 0 to |ops|
      invariant |states| == i + 1
      invariant d.Valid() && IsRun(states, d.clusterSize, ops[..i], outcomes)
      invariant states[0] == old(Raw(d)) && states[i] == Raw(d)
    {
      hide IsRun;
      assert ops[i] in ops;
      var outcome := Serve(d, ops[i]);
      RunGrows(states, d.clusterSize, ops[..i], outcomes, ops[i], Raw(d), outcome);
      assert ops[..i + 1] == ops[..i] + [ops[i]];
      outcomes, states := outcomes + [outcome], states + [Raw(d)];
    }
    assert ops[..|ops|] == ops;
  }

  lemma RunGrows(states: seq<RawDisk>, cs: nat, ops: seq<Op>, outcomes: seq<Outcome>, op: Op, b: RawDisk, outcome: Outcome)
    requires IsRun(states, cs, ops, outcomes) && op.f < |states[|ops|].files| && Lands(states[|ops|], cs, op, b, outcome)
    ensures IsRun(states + [b], cs, ops + [op], outcomes + [outcome])
  {
    var ss, os, rs := states + [b], ops + [op], outcomes + [outcome];
    forall i | 0 <= i < |os| ensures os[i].f < |ss[i].files| && Lands(ss[i], cs, os[i], At(ss, i + 1), rs[i]) {
      if i < |ops| {
        assert Lands(states[i], cs, ops[i], At(states, i + 1), outcomes[i]);
      }
    }
  }

  /** Over every run, whatever the offsets: a file that is never written never changes, and no cluster is lost or won. */
  lemma {:induction false} RunKeeps(states: seq<RawDisk>, cs: nat, ops: seq<Op>, outcomes: seq<Outcome>, i: nat)
    requires IsRun(states, cs, ops, outcomes) && i <= |ops|
    ensures |states[i].files| == |states[0].files|
    ensures forall g :: 0 <= g < |states[0].files| && (forall j :: 0 <= j < i && ops[j].Write? ==> ops[j].f != g) ==>
              states[i].files[g] == states[0].files[g]
    ensures states[i].free * cs + Bytes(states[i].files) == states[0].free * cs + Bytes(states[0].files)
  {
    if i > 0 {
      RunKeeps(states, cs, ops, outcomes, i - 1);
      var a, b, op := states[i - 1], states[i], ops[i - 1];
      assert Lands(a, cs, op, At(states, i), outcomes[i - 1]);
      if op.Write? { BytesChanged(a.files, b.files, op.f); }
    }
  }

  /** Bytes in the clusters of all files. */
  ghost function Bytes(files: seq<RawFile>): nat {
    if files == [] then 0 else Bytes(files[..|files| - 1]) + |files[|files| - 1].extent|
  }

  lemma {:induction false} BytesChanged(a: seq<RawFile>, b: seq<RawFile>, f: nat)
    requires |a| == |b| && f < |a| && forall g :: 0 <= g < |a| && g != f ==> b[g] == a[g]
    ensures Bytes(b) - |b[f].extent| == Bytes(a) - |a[f].extent|
    decreases |a|
  {
    var n := |a| - 1;
    if f < n {
      BytesChanged(a[..n], b[..n], f);
    } else {
      assert a[..n] == b[..n];
    }
  }
}
