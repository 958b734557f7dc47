/** Writer and reader of the registry format are exact inverses. */
module HiveRoundTrip {
  import opened Common
  import opened HiveFormat

  /** `w` stands in `b` at `pos`. */
  ghost predicate Occurs(b: Bytes, pos: nat, w: Bytes)
    ensures Occurs(b, pos, w) ==> pos + |w| <= |b|
    ensures w == [] && pos <= |b| ==> Occurs(b, pos, w)
  {
    pos + |w| <= |b| && b[pos..pos + |w|] == w
  }

  lemma OccursSplit(b: Bytes, pos: nat, u: Bytes, v: Bytes)
    ensures Occurs(b, pos, u + v) <==> Occurs(b, pos, u) && Occurs(b, pos + |u|, v)
  {
    var w := u + v;
    if pos + |w| <= |b| {
      assert b[pos..pos + |w|] == b[pos..pos + |u|] + b[pos + |u|..pos + |w|];
      if b[pos..pos + |w|] == w {
        assert b[pos..pos + |u|] == b[pos..pos + |w|][..|u|] == u;
        assert b[pos + |u|..pos + |w|] == b[pos..pos + |w|][|u|..] == v;
      }
    }
  }

  // ---- Fixed-width fields -------------------------------------------------

  lemma ReadsU16(b: Bytes, pos: nat, n: nat)
    requires n < 0x1_0000
    ensures Occurs(b, pos, U16(n)) <==> ReadU16(b, pos) == Ok(n, pos + 2)
  {
    if pos + 2 <= |b| {
      assert b[pos..pos + 2] == [b[pos], b[pos + 1]];
    }
  }

  lemma ReadsU32(b: Bytes, pos: nat, n: nat)
    requires n < TWO32
    ensures Occurs(b, pos, U32(n)) <==> ReadU32(b, pos) == Ok(n, pos + 4)
  {
    if pos + 4 <= |b| {
      assert b[pos..pos + 4] == [b[pos], b[pos + 1], b[pos + 2], b[pos + 3]];
      Digits(b[pos], b[pos + 1], b[pos + 2], b[pos + 3], n);
    }
  }

  lemma Digits(a: Byte, b: Byte, c: Byte, d: Byte, n: nat)
    requires n < TWO32
    ensures U32(n) == [a, b, c, d] <==> n == Word(a, b) + 0x1_0000 * Word(c, d)
  {
    if n == Word(a, b) + 0x1_0000 * Word(c, d) {
      assert n / 0x1_0000 == Word(c, d) && n % 0x1_0000 == Word(a, b);
      assert n / 0x100_0000 == d;
      assert n / 256 == b + 256 * Word(c, d);
    }
    if U32(n) == [a, b, c, d] {
      assert n / 256 == n / 0x1_0000 * 256 + b;
    }
  }

  lemma {:induction false} ReadsChars(b: Bytes, pos: nat, s: seq<Wchar>)
    requires pos + 2 * |s| <= |b|
    ensures Occurs(b, pos, Wide(s)) <==> Chars(b, pos, |s|) == s
    decreases |s|
  {
    if s != [] {
      OccursSplit(b, pos, U16(s[0]), Wide(s[1..]));
      ReadsU16(b, pos, s[0]);
      ReadsChars(b, pos + 2, s[1..]);
      assert s == [s[0]] + s[1..];
      var t := Chars(b, pos, |s|);
      assert t[0] == Word(b[pos], b[pos + 1]) && t[1..] == Chars(b, pos + 2, |s| - 1);
    }
  }

  // ---- What the reader accepts --------------------------------------------

  predicate ReadableValue(v: Value) {
    |v.name| <= MAX_NAME && v.kind < TWO32 && 0 < |v.data| <= MAX_DATA
  }

  predicate AllReadable(vs: seq<Value>) {
    forall v :: v in vs ==> ReadableValue(v)
  }

  /** Names of at most 255 characters and values of 1 to 65536 bytes, throughout the tree. */
  predicate Readable(k: Key) {
    && |k.name| <= MAX_NAME
    && (forall c :: c in k.subkeys ==> Readable(c))
    && AllReadable(k.values)
  }

  ghost function NameBytes(s: seq<Wchar>): Bytes
    requires |s| < 0x8000
  {
    U16(|s|) + Wide(s)
  }

  /** On a written name the reader returns it, or fails exactly when it is too long. */
  lemma ReadsName(b: Bytes, pos: nat, s: seq<Wchar>)
    requires |s| < 0x8000 && Occurs(b, pos, NameBytes(s))
    ensures ReadName(b, pos) == if |s| <= MAX_NAME then Ok(s, pos + 2 + 2 * |s|) else Fail
  {
    OccursSplit(b, pos, U16(|s|), Wide(s));
    ReadsU16(b, pos, |s|);
    ReadsChars(b, pos + 2, s);
  }

  /** What the reader accepts as a name is a written name. */
  lemma NameWasWritten(b: Bytes, pos: nat)
    requires ReadName(b, pos).Ok?
    ensures var r := ReadName(b, pos);
            |r.value| <= MAX_NAME && r.pos == pos + 2 + 2 * |r.value| && Occurs(b, pos, NameBytes(r.value))
  {
    var s := ReadName(b, pos).value;
    OccursSplit(b, pos, U16(|s|), Wide(s));
    ReadsU16(b, pos, |s|);
    ReadsChars(b, pos + 2, s);
  }

  /** The fixed part of a value record behind its name. */
  ghost function ValueTail(v: Value): Bytes
    requires ValueFits(v)
  {
    U32(v.kind) + (U32(|v.data|) + v.data)
  }

  lemma ValueParts(v: Value)
    requires ValueFits(v)
    ensures WriteValue(v) == NameBytes(v.name) + ValueTail(v)
  {
  }

  lemma TailParts(b: Bytes, pos: nat, v: Value)
    requires ValueFits(v)
    ensures Occurs(b, pos, ValueTail(v)) <==>
              && ReadU32(b, pos) == Ok(v.kind, pos + 4) && ReadU32(b, pos + 4) == Ok(|v.data|, pos + 8)
              && Occurs(b, pos + 8, v.data)
  {
    OccursSplit(b, pos, U32(v.kind), U32(|v.data|) + v.data);
    OccursSplit(b, pos + 4, U32(|v.data|), v.data);
    ReadsU32(b, pos, v.kind);
    ReadsU32(b, pos + 4, |v.data|);
  }

  lemma ReadsValue(b: Bytes, pos: nat, v: Value)
    requires ValueFits(v) && Occurs(b, pos, WriteValue(v))
    ensures ReadValue(b, pos) == if ReadableValue(v) then Ok(v, pos + |WriteValue(v)|) else Fail
  {
    hide ReadName, ReadU32, Wide, U16, U32, WriteValue;
    ValueParts(v);
    OccursSplit(b, pos, NameBytes(v.name), ValueTail(v));
    ReadsName(b, pos, v.name);
    TailParts(b, pos + 2 + 2 * |v.name|, v);
  }

  lemma ValueWasWritten(b: Bytes, pos: nat)
    requires ReadValue(b, pos).Ok?
    ensures var r := ReadValue(b, pos);
            && ReadableValue(r.value) && ValueFits(r.value)
            && r.pos == pos + |WriteValue(r.value)| && Occurs(b, pos, WriteValue(r.value))
  {
    hide ReadName, ReadU32, Wide, U16, U32, WriteValue;
    var v := ReadValue(b, pos).value;
    NameWasWritten(b, pos);
    var at := pos + 2 + 2 * |v.name|;
    assert ReadU32(b, at) == Ok(v.kind, at + 4) && ReadU32(b, at + 4) == Ok(|v.data|, at + 8);
    TailParts(b, at, v);
    ValueParts(v);
    OccursSplit(b, pos, NameBytes(v.name), ValueTail(v));
  }

  lemma {:induction false} ReadsValues(b: Bytes, pos: nat, vs: seq<Value>)
    requires pos <= |b| && (forall v :: v in vs ==> ValueFits(v)) && Occurs(b, pos, WriteValues(vs))
    ensures ReadValues(b, pos, |vs|) == if AllReadable(vs) then Ok(vs, pos + |WriteValues(vs)|) else Fail
    decreases |vs|
  {
    hide ReadValue, WriteValue, ValueFits, ReadableValue, Occurs;
    if vs != [] {
      OccursSplit(b, pos, WriteValue(vs[0]), WriteValues(vs[1..]));
      ReadsValue(b, pos, vs[0]);
      ReadsValues(b, pos + |WriteValue(vs[0])|, vs[1..]);
      assert vs == [vs[0]] + vs[1..];
      assert AllReadable(vs) <==> ReadableValue(vs[0]) && AllReadable(vs[1..]);
    }
  }

  lemma {:induction false} ValuesWereWritten(b: Bytes, pos: nat, n: nat)
    requires pos <= |b| && ReadValues(b, pos, n).Ok?
    ensures var r := ReadValues(b, pos, n);
            && (forall v :: v in r.value ==> ReadableValue(v) && ValueFits(v))
            && r.pos == pos + |WriteValues(r.value)| && Occurs(b, pos, WriteValues(r.value))
    decreases n
  {
    hide ReadValue, WriteValue, ValueFits, ReadableValue, Occurs;
    if n > 0 {
      var v := ReadValue(b, pos);
      ValueWasWritten(b, pos);
      ValuesWereWritten(b, v.pos, n - 1);
      var vs := ReadValues(b, pos, n).value;
      assert vs[0] == v.value && vs[1..] == ReadValues(b, v.pos, n - 1).value;
      OccursSplit(b, pos, WriteValue(vs[0]), WriteValues(vs[1..]));
    }
  }

  // ---- Keys ---------------------------------------------------------------

  ghost predicate AllFit(ks: seq<Key>) {
    forall c :: c in ks ==> KeyFits(c)
  }

  ghost predicate AllKeysReadable(ks: seq<Key>) {
    forall c :: c in ks ==> Readable(c)
  }

  /** Lays out a key record. */
  lemma KeyParts(b: Bytes, pos: nat, k: Key)
    requires KeyFits(k)
    ensures var p1 := pos + 2 + 2 * |k.name|;
            var p2 := p1 + 4 + |WriteKeys(k.subkeys)|;
            && |WriteKey(k)| == p2 + 4 + |WriteValues(k.values)| - pos
            && (Occurs(b, pos, WriteKey(k)) <==>
                  && Occurs(b, pos, NameBytes(k.name))
                  && ReadU32(b, p1) == Ok(|k.subkeys|, p1 + 4) && Occurs(b, p1 + 4, WriteKeys(k.subkeys))
                  && ReadU32(b, p2) == Ok(|k.values|, p2 + 4) && Occurs(b, p2 + 4, WriteValues(k.values)))
  {
    hide WriteKeys, WriteValues, Occurs, U16, U32, ReadU32, Wide;
    var name, n, ks := NameBytes(k.name), U32(|k.subkeys|), WriteKeys(k.subkeys);
    var m, vs := U32(|k.values|), WriteValues(k.values);
    assert WriteKey(k) == name + (n + (ks + (m + vs)));
    OccursSplit(b, pos, name, n + (ks + (m + vs)));
    var p1 := pos + |name|;
    OccursSplit(b, p1, n, ks + (m + vs));
    OccursSplit(b, p1 + 4, ks, m + vs);
    OccursSplit(b, p1 + 4 + |ks|, m, vs);
    ReadsU32(b, p1, |k.subkeys|);
    ReadsU32(b, p1 + 4 + |ks|, |k.values|);
  }

  /** Reading what was written: the reader returns the tree and stops exactly behind it, or, exactly when the
      tree has a name or a value outside the reader's limits, fails. */
  lemma {:induction false} ReadsKey(b: Bytes, pos: nat, k: Key)
    requires KeyFits(k) && Occurs(b, pos, WriteKey(k))
    ensures ReadKey(b, pos) == if Readable(k) then Ok(k, pos + |WriteKey(k)|) else Fail
    decreases k, 1
  {
    hide ReadName, ReadU32, ReadKeys, ReadValues, WriteKey, WriteKeys, WriteValues, Occurs, NameBytes;
    KeyParts(b, pos, k);
    ReadsName(b, pos, k.name);
    var p1 := pos + 2 + 2 * |k.name|;
    var p2 := p1 + 4 + |WriteKeys(k.subkeys)|;
    ReadsKeys(b, p1 + 4, k.subkeys);
    ReadsValues(b, p2 + 4, k.values);
  }

  lemma {:induction false} ReadsKeys(b: Bytes, pos: nat, ks: seq<Key>)
    requires AllFit(ks) && Occurs(b, pos, WriteKeys(ks))
    ensures ReadKeys(b, pos, |ks|) == if AllKeysReadable(ks) then Ok(ks, pos + |WriteKeys(ks)|) else Fail
    decreases ks, 0
  {
    hide ReadKey, WriteKey, Occurs, KeyFits, Readable;
    if ks != [] {
      OccursSplit(b, pos, WriteKey(ks[0]), WriteKeys(ks[1..]));
      ReadsKey(b, pos, ks[0]);
      ReadsKeys(b, pos + |WriteKey(ks[0])|, ks[1..]);
      assert ks == [ks[0]] + ks[1..];
      assert AllKeysReadable(ks) <==> Readable(ks[0]) && AllKeysReadable(ks[1..]);
    }
  }

  /** Everything the reader accepts is the encoding of a tree within its limits. */
  lemma {:induction false} KeyWasWritten(b: Bytes, pos: nat)
    requires pos <= |b| && ReadKey(b, pos).Ok?
    ensures var r := ReadKey(b, pos);
            && Readable(r.value) && KeyFits(r.value)
            && r.pos == pos + |WriteKey(r.value)| && Occurs(b, pos, WriteKey(r.value))
    decreases |b| - pos, 0, 0
  {
    hide ReadName, ReadU32, ReadKeys, ReadValues, WriteKey, WriteKeys, WriteValues, Occurs, NameBytes;
    var k := ReadKey(b, pos).value;
    NameWasWritten(b, pos);
    var p1 := pos + 2 + 2 * |k.name|;
    var n := ReadU32(b, p1);
    KeysWereWritten(b, p1 + 4, n.value);
    var p2 := p1 + 4 + |WriteKeys(k.subkeys)|;
    var m := ReadU32(b, p2);
    ValuesWereWritten(b, p2 + 4, m.value);
    KeyParts(b, pos, k);
  }

  lemma {:induction false} KeysWereWritten(b: Bytes, pos: nat, n: nat)
    requires pos <= |b| && ReadKeys(b, pos, n).Ok?
    ensures var r := ReadKeys(b, pos, n);
            && AllKeysReadable(r.value) && AllFit(r.value)
            && r.pos == pos + |WriteKeys(r.value)| && Occurs(b, pos, WriteKeys(r.value))
    decreases |b| - pos, 1, n
  {
    hide ReadKey, WriteKey, Occurs, KeyFits, Readable;
    if n > 0 {
      var k := ReadKey(b, pos);
      KeyWasWritten(b, pos);
      KeysWereWritten(b, k.pos, n - 1);
      var ks := ReadKeys(b, pos, n).value;
      assert ks[0] == k.value && ks[1..] == ReadKeys(b, k.pos, n - 1).value;
      OccursSplit(b, pos, WriteKey(ks[0]), WriteKeys(ks[1..]));
    }
  }

  // ---- At most one tree has an encoding at a place ------------------------

  lemma OneName(b: Bytes, pos: nat, s: seq<Wchar>, t: seq<Wchar>)
    requires |s| < 0x8000 && |t| < 0x8000 && Occurs(b, pos, NameBytes(s)) && Occurs(b, pos, NameBytes(t))
    ensures s == t
  {
    OccursSplit(b, pos, U16(|s|), Wide(s));
    OccursSplit(b, pos, U16(|t|), Wide(t));
    ReadsU16(b, pos, |s|);
    ReadsU16(b, pos, |t|);
    ReadsChars(b, pos + 2, s);
    ReadsChars(b, pos + 2, t);
  }

  lemma OneValue(b: Bytes, pos: nat, v: Value, w: Value)
    requires ValueFits(v) && ValueFits(w) && Occurs(b, pos, WriteValue(v)) && Occurs(b, pos, WriteValue(w))
    ensures v == w
  {
    hide WriteValue, ReadU32, NameBytes, ValueTail;
    ValueParts(v);
    ValueParts(w);
    OccursSplit(b, pos, NameBytes(v.name), ValueTail(v));
    OccursSplit(b, pos, NameBytes(w.name), ValueTail(w));
    OneName(b, pos, v.name, w.name);
    TailParts(b, pos + |NameBytes(v.name)|, v);
    TailParts(b, pos + |NameBytes(v.name)|, w);
  }

  lemma {:induction false} OneValueList(b: Bytes, pos: nat, vs: seq<Value>, ws: seq<Value>)
    requires |vs| == |ws| && (forall v :: v in vs ==> ValueFits(v)) && forall w :: w in ws ==> ValueFits(w)
    requires Occurs(b, pos, WriteValues(vs)) && Occurs(b, pos, WriteValues(ws))
    ensures vs == ws
    decreases |vs|
  {
    hide WriteValue, ValueFits, Occurs;
    if vs != [] {
      OccursSplit(b, pos, WriteValue(vs[0]), WriteValues(vs[1..]));
      OccursSplit(b, pos, WriteValue(ws[0]), WriteValues(ws[1..]));
      OneValue(b, pos, vs[0], ws[0]);
      OneValueList(b, pos + |WriteValue(vs[0])|, vs[1..], ws[1..]);
      assert vs == [vs[0]] + vs[1..] && ws == [ws[0]] + ws[1..];
    }
  }

  lemma {:induction false} OneKey(b: Bytes, pos: nat, k: Key, l: Key)
    requires KeyFits(k) && KeyFits(l) && Occurs(b, pos, WriteKey(k)) && Occurs(b, pos, WriteKey(l))
    ensures k == l
    decreases k, 1
  {
    hide ReadU32, WriteKey, WriteKeys, WriteValues, Occurs, NameBytes;
    KeyParts(b, pos, k);
    KeyParts(b, pos, l);
    OneName(b, pos, k.name, l.name);
    var p := pos + 2 + 2 * |k.name|;
    OneKeyList(b, p + 4, k.subkeys, l.subkeys);
    OneValueList(b, p + 8 + |WriteKeys(k.subkeys)|, k.values, l.values);
  }

  lemma {:induction false} OneKeyList(b: Bytes, pos: nat, ks: seq<Key>, ls: seq<Key>)
    requires |ks| == |ls| && AllFit(ks) && AllFit(ls)
    requires Occurs(b, pos, WriteKeys(ks)) && Occurs(b, pos, WriteKeys(ls))
    ensures ks == ls
    decreases ks, 0
  {
    hide WriteKey, Occurs, KeyFits;
    if ks != [] {
      OccursSplit(b, pos, WriteKey(ks[0]), WriteKeys(ks[1..]));
      OccursSplit(b, pos, WriteKey(ls[0]), WriteKeys(ls[1..]));
      OneKey(b, pos, ks[0], ls[0]);
      OneKeyList(b, pos + |WriteKey(ks[0])|, ks[1..], ls[1..]);
      assert ks == [ks[0]] + ks[1..] && ls == [ls[0]] + ls[1..];
    }
  }

  /** No two trees share an encoding, even as a prefix, whether or not the reader accepts them. */
  lemma EncodingIsPrefixFree(k: Key, l: Key, rest: Bytes)
    requires KeyFits(k) && KeyFits(l) && WriteKey(k) + rest == WriteKey(l)
    ensures k == l && rest == []
  {
    var b := WriteKey(l);
    assert b[0..|WriteKey(k)|] == WriteKey(k) && b[0..|b|] == b;
    OneKey(b, 0, k, l);
  }
}
