/** Saving and loading the registry (cm/cmpers.c): the growable buffer, the recursive writer over linked key
    nodes, and the reader over a cursor, tied to the format of HiveFormat. */
module HiveStore {
  import opened Common
  import opened HiveFormat
  import opened KeyTree

  /** `b` is `a` doubled some number of times. */
  ghost predicate Doubled(a: nat, b: nat) { b == a || (b > 0 && b % 2 == 0 && Doubled(a, b / 2)) }

  /** SER_BUFFER. */
  class SerBuffer {
    var data: array<Byte>
    var size: nat
    /** What has been written so far. */
    ghost var written: Bytes

    ghost predicate Valid()
      reads this, data
    {
      size <= data.Length && data.Length > 0 && data[..size] == written
    }

    /** SerInit. */
    constructor (capacity: nat)
      requires capacity > 0
      ensures Valid() && fresh(data) && written == []
    {
      data := new Byte[capacity](_ => 0);
      size := 0;
      written := [];
    }

    /** SerEnsure: doubles the capacity as often as it takes until `need` more bytes fit, keeping the contents. */
    method Ensure(need: nat)
      requires Valid()
      modifies this
      ensures Valid() && size == old(size) && size + need <= data.Length
      ensures written == old(written) && (data == old(data) || fresh(data))
      ensures size + need <= old(data.Length) ==> data == old(data)
      ensures size + need > old(data.Length) ==> Doubled(old(data.Length), data.Length) && data.Length < 2 * (size + need)
    {
      if size + need <= data.Length {
        return;
      }
      var capacity := data.Length;
      while capacity < size + need
        invariant data.Length <= capacity && Doubled(data.Length, capacity)
        invariant capacity == data.Length || capacity < 2 * (size + need)
      {
        capacity := capacity * 2;
      }
      var bigger := new Byte[capacity](_ => 0);
      for i := 0 to size
        invariant bigger[..i] == data[..i]
        modifies bigger
      {
        bigger[i] := data[i];
      }
      data := bigger;
    }

    /** SerWrite. */
    method Write(src: Bytes)
      requires Valid()
      modifies this, data
      ensures Valid() && written == old(written) + src && (data == old(data) || fresh(data))
    {
      Ensure(|src|);
      var buffer := data;
      for i := 0 to |src|
        invariant buffer[..size + i] == written + src[..i]
        modifies buffer
      {
        buffer[size + i] := src[i];
        assert buffer[..size + i + 1] == buffer[..size + i] + [src[i]];
      }
      assert src[..|src|] == src;
      size := size + |src|;
      written := written + src;
    }
  }

  // ---- Writing ------------------------------------------------------------

  lemma {:induction false} WriteKeysMore(ks: seq<Key>, k: Key)
    requires (forall c :: c in ks ==> KeyFits(c)) && KeyFits(k)
    ensures (forall c :: c in ks + [k] ==> KeyFits(c)) && WriteKeys(ks + [k]) == WriteKeys(ks) + WriteKey(k)
    decreases |ks|
  {
    if ks == [] {
      assert ks + [k] == [k] && WriteKeys([]) == [];
    } else {
      assert (ks + [k])[1..] == ks[1..] + [k];
      WriteKeysMore(ks[1..], k);
    }
  }

  lemma {:induction false} WriteValuesMore(vs: seq<Value>, v: Value)
    requires (forall c :: c in vs ==> ValueFits(c)) && ValueFits(v)
    ensures (forall c :: c in vs + [v] ==> ValueFits(c)) && WriteValues(vs + [v]) == WriteValues(vs) + WriteValue(v)
    decreases |vs|
  {
    if vs == [] {
      assert vs + [v] == [v] && WriteValues([]) == [];
    } else {
      assert (vs + [v])[1..] == vs[1..] + [v];
      WriteValuesMore(vs[1..], v);
    }
  }

  lemma {:induction false} TreesAt(ns: seq<Node>, kids: seq<seq<int>>, mem: Memory, i: int, ks: seq<int>, j: nat)
    requires Linked(ns, kids) && 0 <= i < |ns| && j < |ks| && forall l :: 0 <= l < |ks| ==> i < ks[l] < |ns|
    ensures Trees(ns, kids, mem, i, ks)[j] == Tree(ns, kids, mem, ks[j])
    decreases |ks|
  {
    if j > 0 {
      TreesAt(ns, kids, mem, i, ks[1..], j - 1);
    }
  }

  /** One value record. */
  method SerializeValue(b: SerBuffer, v: Value)
    requires b.Valid() && ValueFits(v)
    modifies b, b.data
    ensures b.Valid() && b.written == old(b.written) + WriteValue(v) && (b.data == old(b.data) || fresh(b.data))
  {
    ghost var before := b.written;
    b.Write(U16(|v.name|));
    b.Write(Wide(v.name));
    b.Write(U32(v.kind));
    b.Write(U32(|v.data|));
    b.Write(v.data);
    assert b.written == before + (U16(|v.name|) + Wide(v.name) + U32(v.kind) + U32(|v.data|) + v.data);
  }

  method SerializeValues(b: SerBuffer, stored: seq<Stored>, mem: Memory)
    requires b.Valid() && forall v :: v in ShownAll(mem, stored) ==> ValueFits(v)
    modifies b, b.data
    ensures b.Valid() && (b.data == old(b.data) || fresh(b.data))
    ensures b.written == old(b.written) + WriteValues(ShownAll(mem, stored))
  {
    ghost var before, vs := b.written, ShownAll(mem, stored);
    assert before + WriteValues([]) == before;
    hide WriteValue, WriteValues, ValueFits, ShownAll, Shown;
    for j := 0 to |stored|
      invariant b.Valid() && (b.data == old(b.data) || fresh(b.data))
      invariant forall v :: v in vs[..j] ==> ValueFits(v)
      invariant b.written == before + WriteValues(vs[..j])
    {
      var v := Shown(mem, stored[j]);
      assert v == vs[j] && vs[..j + 1] == vs[..j] + [v];
      WriteValuesMore(vs[..j], v);
      SerializeValue(b, v);
      assert before + WriteValues(vs[..j]) + WriteValue(v) == before + (WriteValues(vs[..j]) + WriteValue(v));
    }
    assert vs[..|vs|] == vs;
  }

  /** CmSerializeKey over linked nodes: appends exactly the format's encoding of the key's tree, with
      value names as memory shows them. */
  method SerializeKey(b: SerBuffer, reg: Registry, mem: Memory, i: int)
    requires b.Valid() && reg.Valid() && 0 <= i < |reg.nodes| && KeyFits(Tree(reg.nodes, reg.kids, mem, i))
    modifies b, b.data
    ensures b.Valid() && (b.data == old(b.data) || fresh(b.data))
    ensures b.written == old(b.written) + WriteKey(Tree(reg.nodes, reg.kids, mem, i))
    decreases |reg.nodes| - i
  {
    ghost var before, tree := b.written, Tree(reg.nodes, reg.kids, mem, i);
    assert ChildList(reg.nodes, i, reg.kids[i]);
    var node := reg.nodes[i];
    assert tree.name == node.name && |tree.subkeys| == node.subKeyCount && tree.values == ShownAll(mem, node.values);
    assert |tree.values| == node.valueCount && forall v :: v in ShownAll(mem, node.values) ==> ValueFits(v);
    ghost var name, n, ks := U16(|node.name|) + Wide(node.name), U32(node.subKeyCount), WriteKeys(tree.subkeys);
    ghost var m, vs := U32(node.valueCount), WriteValues(ShownAll(mem, node.values));
    assert WriteKey(tree) == name + n + ks + m + vs;
    hide Linked, Tree, KeyFits, WriteKey, WriteKeys, WriteValues, U16, U32, Wide;
    b.Write(U16(|node.name|));
    b.Write(Wide(node.name));
    assert b.written == before + name;
    b.Write(U32(node.subKeyCount));
    SerializeChildren(b, reg, mem, i);
    b.Write(U32(node.valueCount));
    SerializeValues(b, node.values, mem);
    Reassociate(before, name, n, ks, m, vs);
  }

  lemma Reassociate(a: Bytes, b: Bytes, c: Bytes, d: Bytes, e: Bytes, f: Bytes)
    ensures a + b + c + d + e + f == a + (b + c + d + e + f)
  {
  }

  /** The encodings of the first `j` keys. */
  ghost function KeysBytes(ks: seq<Key>, j: nat): Bytes
    requires j <= |ks| && forall c :: c in ks ==> KeyFits(c)
  {
    WriteKeys(ks[..j])
  }

  lemma KeysWritten(before: Bytes, ks: seq<Key>, j: nat)
    requires j < |ks| && forall c :: c in ks ==> KeyFits(c)
    ensures before + KeysBytes(ks, j) + WriteKey(ks[j]) == before + KeysBytes(ks, j + 1)
  {
    assert ks[..j + 1] == ks[..j] + [ks[j]];
    WriteKeysMore(ks[..j], ks[j]);
    hide WriteKeys, WriteKey;
    assert before + WriteKeys(ks[..j]) + WriteKey(ks[j]) == before + (WriteKeys(ks[..j]) + WriteKey(ks[j]));
  }

  /** The `j`-th step along the children of node `i`. */
  lemma ChildAt(ns: seq<Node>, kids: seq<seq<int>>, mem: Memory, i: int, j: nat)
    requires Linked(ns, kids) && 0 <= i < |ns| && KeyFits(Tree(ns, kids, mem, i)) && j <= |kids[i]|
    ensures |Tree(ns, kids, mem, i).subkeys| == |kids[i]| && (j == 0 ==> ns[i].childHead == At(kids[i], 0))
    ensures forall c :: c in Tree(ns, kids, mem, i).subkeys ==> KeyFits(c)
    ensures j < |kids[i]| ==>
              var c := kids[i][j];
              && i < c < |ns| && ns[c].nextSibling == At(kids[i], j + 1)
              && Tree(ns, kids, mem, i).subkeys[j] == Tree(ns, kids, mem, c) && KeyFits(Tree(ns, kids, mem, c))
  {
    var ks := kids[i];
    assert ChildList(ns, i, ks);
    if j < |ks| {
      assert ns[ks[j]].nextSibling == At(ks, j + 1);
      TreesAt(ns, kids, mem, i, ks, j);
    }
  }

  method SerializeChildren(b: SerBuffer, reg: Registry, mem: Memory, i: int)
    requires b.Valid() && reg.Valid() && 0 <= i < |reg.nodes| && KeyFits(Tree(reg.nodes, reg.kids, mem, i))
    modifies b, b.data
    ensures b.Valid() && (b.data == old(b.data) || fresh(b.data))
    ensures b.written == old(b.written) + WriteKeys(Tree(reg.nodes, reg.kids, mem, i).subkeys)
    decreases |reg.nodes| - i, 0
  {
    ghost var before, ks, trees := b.written, reg.kids[i], Tree(reg.nodes, reg.kids, mem, i).subkeys;
    ChildAt(reg.nodes, reg.kids, mem, i, 0);
    assert before + KeysBytes(trees, 0) == before && KeysBytes(trees, |trees|) == WriteKeys(trees) by {
      assert trees[..0] == [] && trees[..|trees|] == trees;
    }
    hide Linked, Tree, KeyFits, WriteKey, WriteKeys, KeysBytes;
    var child := reg.nodes[i].childHead;
    ghost var j := 0;
    while child != NULL
      invariant b.Valid() && (b.data == old(b.data) || fresh(b.data))
      invariant 0 <= j <= |ks| && child == At(ks, j)
      invariant b.written == before + KeysBytes(trees, j)
      decreases |ks| - j
    {
      ChildAt(reg.nodes, reg.kids, mem, i, j);
      KeysWritten(before, trees, j);
      SerializeKey(b, reg, mem, child);
      child := reg.nodes[child].nextSibling;
      j := j + 1;
    }
  }
}
