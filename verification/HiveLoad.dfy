/** Loading the registry (cm/cmpers.c): the reader as cursor code, proved against the format, with the exact
    effect that a load has on the in-memory tree. */
module HiveLoad {
  import opened HiveFormat
  import opened HiveRoundTrip
  import opened KeyTree
  import opened HiveStore

  /** DES_SER. */
  class Cursor {
    const data: Bytes
    var pos: nat

    constructor (data: Bytes)
      ensures this.data == data && pos == 0
    {
      this.data := data;
      pos := 0;
    }

    /** DesRead: never past the end. */
    method Read(len: nat) returns (ok: bool, bytes: Bytes)
      requires pos <= |data|
      modifies this
      ensures ok <==> old(pos) + len <= |data|
      ensures ok ==> pos == old(pos) + len <= |data| && bytes == data[old(pos)..pos]
      ensures !ok ==> pos == old(pos)
    {
      if pos + len > |data| {
        return false, [];
      }
      bytes := data[pos..pos + len];
      pos := pos + len;
      return true, bytes;
    }

    method ReadWord() returns (ok: bool, n: nat)
      requires pos <= |data|
      modifies this
      ensures pos <= |data|
      ensures ReadU16(data, old(pos)) == if ok then Ok(n, pos) else Fail
    {
      var b;
      ok, b := Read(2);
      n := if ok then Word(b[0], b[1]) else 0;
    }

    method ReadLong() returns (ok: bool, n: nat)
      requires pos <= |data|
      modifies this
      ensures pos <= |data|
      ensures ReadU32(data, old(pos)) == if ok then Ok(n, pos) else Fail
    {
      var b;
      ok, b := Read(4);
      n := if ok then Word(b[0], b[1]) + 0x1_0000 * Word(b[2], b[3]) else 0;
    }

    /** Length, bound check, characters. */
    method ReadString() returns (ok: bool, name: seq<Wchar>)
      requires pos <= |data|
      modifies this
      ensures pos <= |data| && (ok ==> pos >= old(pos) + 2)
      ensures ReadName(data, old(pos)) == if ok then Ok(name, pos) else Fail
    {
      name := [];
      var len, b;
      ok, len := ReadWord();
      if !ok || len > MAX_NAME {
        return false, [];
      }
      ghost var start := pos;
      ok, b := Read(2 * len);
      if ok {
        name := Chars(b, 0, len);
        CharsOfSlice(data, start, len);
      }
    }
  }

  lemma CharsOfSlice(b: Bytes, pos: nat, n: nat)
    requires pos + 2 * n <= |b|
    ensures Chars(b[pos..pos + 2 * n], 0, n) == Chars(b, pos, n)
  {
    var a := b[pos..pos + 2 * n];
    assert a[0..2 * n] == a;
    SameChars(a, 0, b, pos, n);
  }

  lemma {:induction false} SameChars(a: Bytes, i: nat, b: Bytes, j: nat, n: nat)
    requires i + 2 * n <= |a| && j + 2 * n <= |b| && a[i..i + 2 * n] == b[j..j + 2 * n]
    ensures Chars(a, i, n) == Chars(b, j, n)
    decreases n
  {
    if n > 0 {
      var u, v := a[i..i + 2 * n], b[j..j + 2 * n];
      assert a[i] == u[0] == v[0] == b[j] && a[i + 1] == u[1] == v[1] == b[j + 1];
      assert a[i + 2..i + 2 * n] == u[2..] == v[2..] == b[j + 2..j + 2 * n];
      SameChars(a, i + 2, b, j + 2, n - 1);
    }
  }

  // ---- What loading does to the tree --------------------------------------

  /** All values of a tree in the order in which the reader meets them: those of the subkeys first. */
  ghost function Flatten(k: Key): seq<Value>
    decreases k, 1
  {
    FlattenAll(k.subkeys) + k.values
  }

  ghost function FlattenAll(ks: seq<Key>): seq<Value>
    decreases ks, 0
  {
    if ks == [] then [] else Flatten(ks[0]) + FlattenAll(ks[1..])
  }

  /** What CmSetValue keeps of a value whose name lies in buffer `frame`. */
  function Kept(v: Value, frame: nat): Stored { Stored(NameRef(frame, |v.name|), v.kind, v.data) }

  function KeptAll(vs: seq<Value>, frame: nat): (r: seq<Stored>)
    ensures |r| == |vs| && forall i :: 0 <= i < |vs| ==> r[i] == Kept(vs[i], frame)
  {
    seq(|vs|, i requires 0 <= i < |vs| => Kept(vs[i], frame))
  }

  /** What a load keeps of a tree: the values in reading order, each with its name in the local array of the activation
      of CmDeserializeKey that read it. The array of the activation at depth d is buffer `frame + d`. */
  ghost function Left(k: Key, frame: nat): seq<Stored>
    decreases k, 1
  {
    LeftAll(k.subkeys, frame + 1) + KeptAll(k.values, frame)
  }

  ghost function LeftAll(ks: seq<Key>, frame: nat): seq<Stored>
    decreases ks, 0
  {
    if ks == [] then [] else Left(ks[0], frame) + LeftAll(ks[1..], frame)
  }

  /** Node `i` with more values. */
  ghost function WithValues(ns: seq<Node>, i: int, vs: seq<Stored>): seq<Node>
    requires 0 <= i < |ns|
  {
    ns[i := ns[i].(values := ns[i].values + vs, valueCount := ns[i].valueCount + |vs|)]
  }

  /** One value record: read it and CmSetValue it on `node`; the name was read into the local array `frame`. */
  method DeserializeValue(d: Cursor, reg: Registry, node: int, frame: nat) returns (ok: bool)
    requires reg.Valid() && 0 <= node < |reg.nodes| && d.pos <= |d.data|
    modifies d, reg
    ensures reg.Valid() && d.pos <= |d.data| && |reg.nodes| == |old(reg.nodes)| && reg.kids == old(reg.kids)
    ensures ok <==> ReadValue(d.data, old(d.pos)).Ok?
    ensures ok ==> d.pos == ReadValue(d.data, old(d.pos)).pos
    ensures ok ==> reg.nodes == WithValues(old(reg.nodes), node, [Kept(ReadValue(d.data, old(d.pos)).value, frame)])
  {
    var name, kind, len, data;
    ok, name := d.ReadString();
    if !ok {
      return;
    }
    ok, kind := d.ReadLong();
    if !ok {
      return;
    }
    ok, len := d.ReadLong();
    if !ok {
      return;
    }
    if len > MAX_DATA {
      return false;
    }
    data := [];
    if len > 0 {
      ok, data := d.Read(len);
      if !ok {
        return;
      }
    }
    ok := reg.SetValue(node, Stored(NameRef(frame, |name|), kind, data));
  }

  lemma ReadValuesStep(b: Bytes, pos: nat, n: nat)
    requires pos <= |b|
    ensures n == 0 ==> ReadValues(b, pos, n) == Ok([], pos)
    ensures n > 0 && ReadValue(b, pos).Fail? ==> ReadValues(b, pos, n) == Fail
    ensures n > 0 && ReadValue(b, pos).Ok? ==>
              var v, vs := ReadValue(b, pos), ReadValues(b, ReadValue(b, pos).pos, n - 1);
              ReadValues(b, pos, n) == if vs.Fail? then Fail else Ok([v.value] + vs.value, vs.pos)
  {
  }

  /** After `seen`, with the cursor where it is, `left` value records remain of those that start at `start`. */
  ghost predicate Midway(d: Cursor, start: nat, count: nat, seen: seq<Value>, left: nat)
    requires start <= |d.data|
    reads d
  {
    d.pos <= |d.data| && Continues(ReadValues(d.data, start, count), seen, ReadValues(d.data, d.pos, left))
  }

  /** One iteration of the value loop. */
  method NextValue(d: Cursor, reg: Registry, node: int, frame: nat, ghost start: nat, ghost count: nat, ghost ns: seq<Node>,
                   ghost seen: seq<Value>, ghost left: nat) returns (ok: bool, ghost v: Value)
    requires reg.Valid() && 0 <= node < |reg.nodes| && start <= |d.data| && |reg.nodes| == |ns| && left > 0
    requires Midway(d, start, count, seen, left) && reg.nodes == WithValues(ns, node, KeptAll(seen, frame))
    modifies d, reg
    ensures reg.Valid() && d.pos <= |d.data| && |reg.nodes| == |ns| && reg.kids == old(reg.kids)
    ensures !ok ==> ReadValues(d.data, start, count).Fail?
    ensures ok ==> Midway(d, start, count, seen + [v], left - 1) && reg.nodes == WithValues(ns, node, KeptAll(seen + [v], frame))
  {
    ghost var whole, rest := ReadValues(d.data, start, count), ReadValues(d.data, d.pos, left);
    ghost var first := ReadValue(d.data, d.pos);
    v := if first.Ok? then first.value else Value([], 0, []);
    ReadValuesStep(d.data, d.pos, left);
    ContinuesFail(whole, seen, rest);
    WithValuesTwice(ns, node, KeptAll(seen, frame), [Kept(v, frame)]);
    assert KeptAll(seen + [v], frame) == KeptAll(seen, frame) + [Kept(v, frame)];
    hide ReadValue, ReadValues, WithValues, Linked, Continues, KeptAll, Kept;
    ok := DeserializeValue(d, reg, node, frame);
    if ok {
      ContinuesOne(whole, seen, rest, v, ReadValues(d.data, d.pos, left - 1));
    }
  }

  method DeserializeValues(d: Cursor, reg: Registry, node: int, count: nat, frame: nat) returns (ok: bool)
    requires reg.Valid() && 0 <= node < |reg.nodes| && d.pos <= |d.data|
    modifies d, reg
    ensures reg.Valid() && d.pos <= |d.data| && |reg.nodes| == |old(reg.nodes)| && reg.kids == old(reg.kids)
    ensures ok <==> ReadValues(d.data, old(d.pos), count).Ok?
    ensures ok ==> d.pos == ReadValues(d.data, old(d.pos), count).pos
    ensures ok ==>
              reg.nodes == WithValues(old(reg.nodes), node, KeptAll(ReadValues(d.data, old(d.pos), count).value, frame))
  {
    ghost var start, ns := d.pos, reg.nodes;
    ghost var seen: seq<Value> := [];
    WithNoValues(ns, node);
    assert KeptAll([], frame) == [];
    ContinuesNone(ReadValues(d.data, start, count));
    var i := 0;
    while i < count
      invariant 0 <= i <= count && reg.Valid() && |reg.nodes| == |ns| && reg.kids == old(reg.kids)
      invariant Midway(d, start, count, seen, count - i) && reg.nodes == WithValues(ns, node, KeptAll(seen, frame))
    {
      hide ReadValues, WithValues, Linked, Continues, Midway;
      ghost var v;
      ok, v := NextValue(d, reg, node, frame, start, count, ns, seen, count - i);
      if !ok {
        return;
      }
      seen := seen + [v];
      i := i + 1;
    }
    ContinuesEnd(ReadValues(d.data, start, count), seen, d.pos);
    ok := true;
  }

  /** `whole` is `seen` followed by what `rest` still delivers. */
  ghost predicate Continues<T>(whole: Parse<seq<T>>, seen: seq<T>, rest: Parse<seq<T>>) {
    whole == if rest.Fail? then Fail else Ok(seen + rest.value, rest.pos)
  }

  lemma ContinuesOne<T>(whole: Parse<seq<T>>, seen: seq<T>, rest: Parse<seq<T>>, x: T, more: Parse<seq<T>>)
    requires Continues(whole, seen, rest)
    requires rest == if more.Fail? then Fail else Ok([x] + more.value, more.pos)
    ensures Continues(whole, seen + [x], more)
  {
    if more.Ok? {
      assert seen + ([x] + more.value) == (seen + [x]) + more.value;
    }
  }

  lemma ContinuesNone<T>(whole: Parse<seq<T>>)
    ensures Continues(whole, [], whole)
  {
    if whole.Ok? {
      assert [] + whole.value == whole.value;
    }
  }

  lemma ContinuesFail<T>(whole: Parse<seq<T>>, seen: seq<T>, rest: Parse<seq<T>>)
    requires Continues(whole, seen, rest)
    ensures rest.Fail? ==> whole.Fail?
  {
  }

  lemma ContinuesEnd<T>(whole: Parse<seq<T>>, seen: seq<T>, pos: nat)
    requires Continues(whole, seen, Ok([], pos))
    ensures whole == Ok(seen, pos)
  {
    assert seen + [] == seen;
  }

  lemma WithNoValues(ns: seq<Node>, i: int)
    requires 0 <= i < |ns|
    ensures WithValues(ns, i, []) == ns
  {
    assert ns[i].values + [] == ns[i].values;
  }

  lemma {:induction false} LeftMore(ks: seq<Key>, k: Key, frame: nat)
    ensures LeftAll(ks + [k], frame) == LeftAll(ks, frame) + Left(k, frame)
    decreases |ks|
  {
    if ks == [] {
      assert ks + [k] == [k];
      assert LeftAll([k], frame) == Left(k, frame) + [];
    } else {
      assert (ks + [k])[1..] == ks[1..] + [k];
      LeftMore(ks[1..], k, frame);
    }
  }

  lemma WithValuesTwice(ns: seq<Node>, i: int, a: seq<Stored>, b: seq<Stored>)
    requires 0 <= i < |ns|
    ensures WithValues(WithValues(ns, i, a), i, b) == WithValues(ns, i, a + b)
  {
    assert ns[i].values + a + b == ns[i].values + (a + b);
  }

  /** CmDeserializeKey. It accepts exactly the encodings of trees within its limits and stops right behind
      them. Called for the root it never leaves the root: since the root stands in for every node it reads,
      all values of the whole tree are appended to the root key and no subkey is created. Their names stay in
      the local arrays of this call and the calls it makes. */
  method DeserializeKey(d: Cursor, reg: Registry, parent: int, frame: nat) returns (ok: bool)
    requires reg.Valid() && 0 <= parent < |reg.nodes| && d.pos <= |d.data|
    modifies d, reg
    ensures reg.Valid() && d.pos <= |d.data| && |old(reg.nodes)| <= |reg.nodes|
    ensures ok <==> ReadKey(d.data, old(d.pos)).Ok?
    ensures ok ==> d.pos == ReadKey(d.data, old(d.pos)).pos
    ensures ok && parent == ROOT ==>
              && reg.kids == old(reg.kids)
              && reg.nodes == WithValues(old(reg.nodes), ROOT, Left(ReadKey(d.data, old(d.pos)).value, frame))
    decreases |d.data| - d.pos, 0
  {
    var name, n, m, node;
    ghost var start, ns := d.pos, reg.nodes;
    ok, name := d.ReadString();
    if !ok {
      return;
    }
    if parent == ROOT {
      node := parent;
    } else {
      node := reg.CreateKey(name);
    }
    ok, n := d.ReadLong();
    if !ok {
      return;
    }
    ghost var ks := ReadKeys(d.data, d.pos, n);
    ok := DeserializeSubkeys(d, reg, node, n, frame + 1);
    if !ok {
      return;
    }
    ok, m := d.ReadLong();
    if !ok {
      return;
    }
    ghost var vs := ReadValues(d.data, d.pos, m);
    ok := DeserializeValues(d, reg, node, m, frame);
    if ok && parent == ROOT {
      WithValuesTwice(ns, ROOT, LeftAll(ks.value, frame + 1), KeptAll(vs.value, frame));
    }
  }

  method DeserializeSubkeys(d: Cursor, reg: Registry, node: int, count: nat, frame: nat) returns (ok: bool)
    requires reg.Valid() && 0 <= node < |reg.nodes| && d.pos <= |d.data|
    modifies d, reg
    ensures reg.Valid() && d.pos <= |d.data| && |old(reg.nodes)| <= |reg.nodes|
    ensures ok <==> ReadKeys(d.data, old(d.pos), count).Ok?
    ensures ok ==> d.pos == ReadKeys(d.data, old(d.pos), count).pos
    ensures ok && node == ROOT ==>
              && reg.kids == old(reg.kids)
              && reg.nodes == WithValues(old(reg.nodes), ROOT, LeftAll(ReadKeys(d.data, old(d.pos), count).value, frame))
    decreases |d.data| - d.pos, 1
  {
    ghost var start, ns := d.pos, reg.nodes;
    ghost var seen: seq<Key> := [];
    hide ReadKey, WithValues, Linked, Continues;
    WithNoValues(ns, ROOT);
    ContinuesNone(ReadKeys(d.data, start, count));
    var i := 0;
    while i < count
      invariant 0 <= i <= count && start <= d.pos <= |d.data| && reg.Valid() && |ns| <= |reg.nodes|
      invariant node == ROOT ==> reg.kids == old(reg.kids) && reg.nodes == WithValues(ns, ROOT, LeftAll(seen, frame))
      invariant Continues(ReadKeys(d.data, start, count), seen, ReadKeys(d.data, d.pos, count - i))
    {
      ghost var rest := ReadKeys(d.data, d.pos, count - i);
      ghost var k := ReadKey(d.data, d.pos);
      ContinuesFail(ReadKeys(d.data, start, count), seen, rest);
      ok := DeserializeKey(d, reg, node, frame);
      if !ok {
        return;
      }
      ContinuesOne(ReadKeys(d.data, start, count), seen, rest, k.value, ReadKeys(d.data, d.pos, count - i - 1));
      LeftMore(seen, k.value, frame);
      WithValuesTwice(ns, ROOT, LeftAll(seen, frame), Left(k.value, frame));
      seen := seen + [k.value];
      i := i + 1;
    }
    ContinuesEnd(ReadKeys(d.data, start, count), seen, d.pos);
    ok := true;
  }

  // ---- Whole files --------------------------------------------------------

  /** "MINNTREG". */
  const MAGIC: Bytes := [0x4D, 0x49, 0x4E, 0x4E, 0x54, 0x52, 0x45, 0x47]

  /** A saved hive: magic, two unused counts, the root key. */
  function HiveFile(k: Key): Bytes
    requires KeyFits(k)
  {
    MAGIC + U32(0) + U32(0) + WriteKey(k)
  }

  /** CmSaveHive up to the file write. */
  method SaveHive(reg: Registry, mem: Memory) returns (file: Bytes)
    requires reg.Valid() && KeyFits(Tree(reg.nodes, reg.kids, mem, ROOT))
    ensures file == HiveFile(Tree(reg.nodes, reg.kids, mem, ROOT))
  {
    assert |reg.nodes| > 0;
    ghost var magic, root := MAGIC, WriteKey(Tree(reg.nodes, reg.kids, mem, ROOT));
    hide WriteKey, Tree, KeyFits, Linked, U32;
    var b := new SerBuffer(64 * 1024);
    b.Write(MAGIC);
    assert b.written == magic;
    b.Write(U32(0));
    b.Write(U32(0));
    SerializeKey(b, reg, mem, ROOT);
    assert b.written == magic + U32(0) + U32(0) + root;
    file := b.data[..b.size];
  }

  /** CmLoadHive behind the file read. */
  method LoadHive(file: Bytes, reg: Registry, frame: nat) returns (ok: bool)
    requires reg.Valid()
    modifies reg
    ensures reg.Valid()
    ensures ok <==> |file| >= 16 && file[..8] == MAGIC && ReadKey(file, 16).Ok?
    ensures ok ==> reg.kids == old(reg.kids)
    ensures ok ==> reg.nodes == WithValues(old(reg.nodes), ROOT, Left(ReadKey(file, 16).value, frame))
  {
    assert |reg.nodes| > 0;
    hide ReadKey, WithValues, Linked;
    if |file| < 16 {
      return false;
    }
    var d := new Cursor(file);
    var magic;
    ok, magic := d.Read(8);
    if !ok || magic != MAGIC {
      return false;
    }
    assert magic == file[..8];
    var _, _ := d.Read(4);
    var _, _ := d.Read(4);
    ok := DeserializeKey(d, reg, ROOT, frame);
  }

  /** Saving one registry and loading the file into another succeeds exactly when every name and value of the
      saved tree is within the reader's limits. What arrives is one value for every value of the saved tree, on the
      root key, in reading order, with its type and data but with its name in the loader's stack. */
  method SaveThenLoad(from: Registry, to: Registry, mem: Memory, frame: nat) returns (ok: bool)
    requires from.Valid() && to.Valid() && from != to && KeyFits(Tree(from.nodes, from.kids, mem, ROOT))
    modifies to
    ensures to.Valid() && (ok <==> Readable(Tree(from.nodes, from.kids, mem, ROOT)))
    ensures ok ==> to.kids == old(to.kids)
    ensures ok ==> to.nodes == WithValues(old(to.nodes), ROOT, Left(Tree(from.nodes, from.kids, mem, ROOT), frame))
  {
    ghost var k := Tree(from.nodes, from.kids, mem, ROOT);
    var file := SaveHive(from, mem);
    FileHoldsKey(k);
    ReadsKey(file, 16, k);
    hide ReadKey, WriteKey, Tree, KeyFits, Readable, Linked, Left, WithValues;
    ok := LoadHive(file, to, frame);
  }

  lemma FileHoldsKey(k: Key)
    requires KeyFits(k)
    ensures |HiveFile(k)| >= 16 && HiveFile(k)[..8] == MAGIC && Occurs(HiveFile(k), 16, WriteKey(k))
  {
    hide WriteKey, KeyFits;
    var head := MAGIC + U32(0) + U32(0);
    assert HiveFile(k) == head + WriteKey(k);
    assert HiveFile(k)[16..16 + |WriteKey(k)|] == WriteKey(k);
  }

  // ---- What survives a load -----------------------------------------------

  /** `ss` carries types, data and name lengths of `vs`, all names in buffers from `frame` on. */
  ghost predicate Carries(ss: seq<Stored>, vs: seq<Value>, frame: nat) {
    && |ss| == |vs|
    && forall i :: 0 <= i < |vs| ==>
         && ss[i].kind == vs[i].kind && ss[i].data == vs[i].data
         && ss[i].name.length == |vs[i].name| && ss[i].name.buffer >= frame
  }

  /** For every tree: what a load keeps is one value for each, with type and data; the names are borrowed from the
      stack, without exception. */
  lemma {:induction false} LoadCarries(k: Key, frame: nat)
    ensures Carries(Left(k, frame), Flatten(k), frame)
    decreases k, 1
  {
    LoadCarriesAll(k.subkeys, frame + 1);
  }

  lemma {:induction false} LoadCarriesAll(ks: seq<Key>, frame: nat)
    ensures Carries(LeftAll(ks, frame), FlattenAll(ks), frame)
    decreases ks, 0
  {
    if ks != [] {
      LoadCarries(ks[0], frame);
      LoadCarriesAll(ks[1..], frame);
    }
  }

  /** No value has a name. */
  ghost predicate Nameless(vs: seq<Value>) {
    forall i :: 0 <= i < |vs| ==> vs[i].name == []
  }

  /** The names survive whatever the stack comes to hold if and only if there are no names to lose. */
  lemma NamesSurvive(ss: seq<Stored>, vs: seq<Value>, frame: nat)
    requires Carries(ss, vs, frame)
    ensures (forall mem: Memory :: ShownAll(mem, ss) == vs) <==> Nameless(vs)
  {
    if Nameless(vs) {
      forall mem: Memory ensures ShownAll(mem, ss) == vs {
        forall i | 0 <= i < |vs| ensures ShownAll(mem, ss)[i] == vs[i] {
          assert Text(mem, ss[i].name) == [];
        }
      }
    } else {
      var i :| 0 <= i < |vs| && vs[i].name != [];
      var other: Wchar := if vs[i].name[0] == 0 then 1 else 0;
      var mem: Memory := (_, _) => other;
      assert ShownAll(mem, ss)[i] == Shown(mem, ss[i]) && Text(mem, ss[i].name)[0] == other;
    }
  }

  /** A key without the names of its values. */
  ghost function Unnamed(k: Key): Key {
    k.(values := seq(|k.values|, i requires 0 <= i < |k.values| => k.values[i].(name := [])))
  }

  /** The tree of a registry that was fresh before it loaded `k`. */
  ghost function Loaded(k: Key, frame: nat, mem: Memory): Key { Key([BACKSLASH], [], ShownAll(mem, Left(k, frame))) }

  /** Loading into a fresh registry rebuilds the saved tree up to value names if and only if the saved root has no
      subkeys, and rebuilds it with all names, whatever the stack comes to hold, if and only if no value has one. */
  lemma Rebuilds(k: Key, frame: nat)
    requires k.name == [BACKSLASH]
    ensures forall mem: Memory :: Unnamed(Loaded(k, frame, mem)) == Unnamed(k) <==> k.subkeys == []
    ensures (forall mem: Memory :: Loaded(k, frame, mem) == k) <==> k.subkeys == [] && Nameless(k.values)
  {
    UnnamedRebuilt(k, frame);
    NamedRebuilt(k, frame);
  }

  lemma UnnamedRebuilt(k: Key, frame: nat)
    requires k.name == [BACKSLASH]
    ensures forall mem: Memory :: Unnamed(Loaded(k, frame, mem)) == Unnamed(k) <==> k.subkeys == []
  {
    LoadCarries(k, frame);
    hide Left;
    if k.subkeys == [] {
      assert Flatten(k) == k.values;
      forall mem: Memory ensures Unnamed(Loaded(k, frame, mem)) == Unnamed(k) {
        assert Unnamed(Loaded(k, frame, mem)).values == Unnamed(k).values;
      }
    }
  }

  lemma NamedRebuilt(k: Key, frame: nat)
    requires k.name == [BACKSLASH]
    ensures (forall mem: Memory :: Loaded(k, frame, mem) == k) <==> k.subkeys == [] && Nameless(k.values)
  {
    hide Left, Nameless;
    LoadCarries(k, frame);
    NamesSurvive(Left(k, frame), Flatten(k), frame);
    if k.subkeys == [] {
      assert Flatten(k) == k.values;
      if forall mem: Memory :: Loaded(k, frame, mem) == k {
        forall mem: Memory ensures ShownAll(mem, Left(k, frame)) == k.values {
          assert Loaded(k, frame, mem) == k;
        }
      }
    } else {
      var mem: Memory := (_, _) => 0;
      assert Loaded(k, frame, mem) != k;
    }
  }

  /** A registry saved, and loaded at the next start: what the new registry shows under any later memory, and exactly
      when that is always the saved tree. */
  method Restart(from: Registry, mem: Memory, frame: nat) returns (ok: bool, to: Registry)
    requires from.Valid() && KeyFits(Tree(from.nodes, from.kids, mem, ROOT))
    ensures to.Valid() && (ok <==> Readable(Tree(from.nodes, from.kids, mem, ROOT)))
    ensures ok ==> forall later: Memory ::
              Tree(to.nodes, to.kids, later, ROOT) == Loaded(Tree(from.nodes, from.kids, mem, ROOT), frame, later)
    ensures ok ==>
              var k := Tree(from.nodes, from.kids, mem, ROOT);
              (forall later: Memory :: Tree(to.nodes, to.kids, later, ROOT) == k) <==> k.subkeys == [] && Nameless(k.values)
  {
    to := new Registry();
    ok := SaveThenLoad(from, to, mem, frame);
    if ok {
      Rebuilds(Tree(from.nodes, from.kids, mem, ROOT), frame);
      ghost var left := Left(Tree(from.nodes, from.kids, mem, ROOT), frame);
      assert to.nodes[ROOT].values == left;
      forall later: Memory ensures Tree(to.nodes, to.kids, later, ROOT) == Key([BACKSLASH], [], ShownAll(later, left)) {
      }
    }
  }
}
