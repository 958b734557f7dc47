/** The bytes of a saved hive (cm/cmpers.c), place by place: every field little-endian at its own offset. */
module HiveLayout {
  import opened Common
  import opened HiveFormat
  import opened HiveLoad

  /** The number that two, or four, bytes from `pos` on make, the first byte counting least. */
  function Little16(b: Bytes, pos: nat): nat
    requires pos + 2 <= |b|
  {
    b[pos] as nat + 256 * (b[pos + 1] as nat)
  }

  function Little32(b: Bytes, pos: nat): nat
    requires pos + 4 <= |b|
  {
    b[pos] as nat + 256 * (b[pos + 1] as nat) + 0x1_0000 * (b[pos + 2] as nat) + 0x100_0000 * (b[pos + 3] as nat)
  }

  lemma U16Is(n: nat)
    requires n < 0x1_0000
    ensures Little16(U16(n), 0) == n
  {
  }

  lemma U32Is(n: nat)
    requires n < TWO32
    ensures Little32(U32(n), 0) == n
  {
    var a, b, c := n % 256, n / 256 % 256, n / 0x1_0000 % 256;
    assert n / 256 / 256 == n / 0x1_0000 && n / 0x1_0000 / 256 == n / 0x100_0000;
    assert n == a + 256 * (n / 256) && n / 256 == b + 256 * (n / 0x1_0000) && n / 0x1_0000 == c + 256 * (n / 0x100_0000);
  }

  lemma {:induction false} WideIs(s: seq<Wchar>, i: nat)
    requires i < |s|
    ensures Little16(Wide(s), 2 * i) == s[i]
    decreases |s|
  {
    U16Is(s[0]);
    if i > 0 {
      WideIs(s[1..], i - 1);
      assert Wide(s) == U16(s[0]) + Wide(s[1..]);
    }
  }

  lemma Shift16(a: Bytes, b: Bytes, c: Bytes, i: nat)
    requires i + 2 <= |b|
    ensures Little16(a + b + c, |a| + i) == Little16(b, i)
  {
    assert (a + b + c)[|a| + i] == b[i] && (a + b + c)[|a| + i + 1] == b[i + 1];
  }

  lemma Shift32(a: Bytes, b: Bytes, c: Bytes)
    requires |b| == 4
    ensures Little32(a + b + c, |a|) == Little32(b, 0)
  {
    assert forall i :: 0 <= i < 4 ==> (a + b + c)[|a| + i] == b[i];
  }

  /** A name: its length in characters, then the characters, each in two bytes. */
  ghost predicate NameAt(b: Bytes, pos: nat, name: seq<Wchar>) {
    && pos + 2 + 2 * |name| <= |b| && Little16(b, pos) == |name|
    && forall i {:trigger name[i]} :: 0 <= i < |name| ==> Little16(b, pos + 2 + 2 * i) == name[i]
  }

  lemma NameIs(name: seq<Wchar>, rest: Bytes)
    requires |name| < 0x8000
    ensures NameAt(U16(|name|) + Wide(name) + rest, 0, name)
  {
    hide U16, Wide;
    var b := U16(|name|) + Wide(name) + rest;
    U16Is(|name|);
    assert Little16(b, 0) == Little16(U16(|name|), 0);
    forall i {:trigger name[i]} | 0 <= i < |name| ensures Little16(b, 0 + 2 + 2 * i) == name[i] {
      WideIs(name, i);
      Shift16(U16(|name|), Wide(name), rest, 2 * i);
    }
  }

  /** A value record: name, type, length of the data, data. */
  lemma ValueLayout(v: Value)
    requires ValueFits(v)
    ensures var w, p := WriteValue(v), 2 + 2 * |v.name|;
            && |w| == p + 8 + |v.data| && NameAt(w, 0, v.name)
            && Little32(w, p) == v.kind && Little32(w, p + 4) == |v.data| && w[p + 8..] == v.data
  {
    var head, kind, len := U16(|v.name|) + Wide(v.name), U32(v.kind), U32(|v.data|);
    NameIs(v.name, kind + len + v.data);
    assert WriteValue(v) == head + (kind + len + v.data) == head + kind + (len + v.data) == head + kind + len + v.data;
    Shift32(head, kind, len + v.data);
    Shift32(head + kind, len, v.data);
    U32Is(v.kind);
    U32Is(|v.data|);
  }

  /** A key record: name, number of subkeys, the subkeys one after the other, number of values, the values. */
  lemma KeyLayout(k: Key)
    requires KeyFits(k)
    ensures var w, p := WriteKey(k), 2 + 2 * |k.name|;
            var q := p + 4 + |WriteKeys(k.subkeys)|;
            && |w| == q + 4 + |WriteValues(k.values)| && NameAt(w, 0, k.name)
            && Little32(w, p) == |k.subkeys| && w[p + 4..q] == WriteKeys(k.subkeys)
            && Little32(w, q) == |k.values| && w[q + 4..] == WriteValues(k.values)
  {
    hide WriteKeys, WriteValues;
    var head, n, ks := U16(|k.name|) + Wide(k.name), U32(|k.subkeys|), WriteKeys(k.subkeys);
    var m, vs := U32(|k.values|), WriteValues(k.values);
    KeyFields(k, head, n, ks, m, vs);
    NameIs(k.name, n + ks + m + vs);
    Shift32(head, n, ks + m + vs);
    Shift32(head + n + ks, m, vs);
    U32Is(|k.subkeys|);
    U32Is(|k.values|);
  }

  lemma KeyFields(k: Key, head: Bytes, n: Bytes, ks: Bytes, m: Bytes, vs: Bytes)
    requires KeyFits(k) && head == U16(|k.name|) + Wide(k.name) && n == U32(|k.subkeys|) && ks == WriteKeys(k.subkeys)
    requires m == U32(|k.values|) && vs == WriteValues(k.values)
    ensures WriteKey(k) == head + (n + ks + m + vs) == head + n + (ks + m + vs) == head + n + ks + m + vs
    ensures WriteKey(k)[|head| + 4..|head| + 4 + |ks|] == ks && WriteKey(k)[|head| + 8 + |ks|..] == vs
  {
    hide WriteKeys, WriteValues, U16, U32, Wide;
  }

  /** A file: the letters MINNTREG, two zero counts, the root key. */
  lemma FileLayout(k: Key)
    requires KeyFits(k)
    ensures var w := HiveFile(k);
            && |w| == 16 + |WriteKey(k)| && (forall i :: 0 <= i < 8 ==> w[i] as int == "MINNTREG"[i] as int)
            && Little32(w, 8) == 0 && Little32(w, 12) == 0 && w[16..] == WriteKey(k)
  {
    hide WriteKey, KeyFits;
    U32Is(0);
    Shift32(MAGIC, U32(0), U32(0) + WriteKey(k));
    Shift32(MAGIC + U32(0), U32(0), WriteKey(k));
    assert HiveFile(k) == MAGIC + U32(0) + (U32(0) + WriteKey(k));
  }
}
