/** Vocabulary shared by the other modules: bytes, machine words, optional values and counting. */
module Common {
  type Byte = x: int | 0 <= x < 256

  datatype Option<+T> = None | Some(value: T)

  const TWO32: nat := 0x1_0000_0000
  const TWO64: nat := 0x1_0000_0000_0000_0000

  function Min(a: int, b: int): int { if a <= b then a else b }

  function Max(a: int, b: int): int { if a >= b then a else b }

  ghost predicate Distinct<T>(s: seq<T>) {
    forall i, j :: 0 <= i < j < |s| ==> s[i] != s[j]
  }

  ghost function Elements<T>(s: seq<T>): set<T> { set x | x in s }

  /** Replaces `|src|` elements of `s` from position `at` on. */
  function Splice<T>(s: seq<T>, at: nat, src: seq<T>): (r: seq<T>)
    requires at + |src| <= |s|
    ensures |r| == |s|
    ensures forall i :: 0 <= i < |s| ==> r[i] == if at <= i < at + |src| then src[i - at] else s[i]
  {
    s[..at] + src + s[at + |src|..]
  }

  lemma SliceExtend<T>(s: seq<T>, a: nat, b: nat, c: nat)
    requires a <= b <= c <= |s|
    ensures s[a..b] + s[b..c] == s[a..c]
  {
  }

  /** Replacing position `k` of a sequence without repetitions by a new element. */
  lemma ReplacedMembers<T>(s: seq<T>, k: nat, b: T)
    requires Distinct(s) && k < |s| && b !in s
    ensures Distinct(s[k := b])
    ensures forall a :: a in s[k := b] <==> a == b || (a in s && a != s[k])
  {
    var t := s[k := b];
    assert t[k] == b;
    forall a | a in s && a != s[k] ensures a in t {
      var i :| 0 <= i < |s| && s[i] == a;
      assert t[i] == a;
    }
  }

  /** Dropping position `k` of a sequence without repetitions. */
  lemma RemovedMembers<T>(s: seq<T>, k: nat)
    requires Distinct(s) && k < |s|
    ensures Distinct(s[..k] + s[k + 1..])
    ensures forall a :: a in s[..k] + s[k + 1..] <==> a in s && a != s[k]
  {
    var t := s[..k] + s[k + 1..];
    forall a | a in s && a != s[k] ensures a in t {
      var i :| 0 <= i < |s| && s[i] == a;
      if i < k { assert t[i] == a; } else { assert t[i - 1] == a; }
    }
  }

  /** RemoveEntryList on a list without repetitions: everything but `x`, in the same order. */
  function Unlinked<T(==,!new)>(s: seq<T>, x: T): (r: seq<T>)
    ensures forall y :: y in r <==> y in s && y != x
    ensures Distinct(s) ==> Distinct(r)
    ensures x !in s ==> r == s
  {
    if s == [] then []
    else
      var k := |s| - 1;
      assert s == s[..k] + [s[k]];
      assert Distinct(s) ==> s[k] !in Unlinked(s[..k], x);
      if s[k] == x then Unlinked(s[..k], x) else Unlinked(s[..k], x) + [s[k]]
  }

  lemma SubsetSize<T>(a: set<T>, b: set<T>)
    requires a <= b
    ensures |a| <= |b|
    ensures |a| == |b| ==> a == b
  {
    assert b == a + (b - a);
  }

  /** A sequence without repetitions has as many elements as positions. */
  lemma {:induction false} DistinctSize<T>(s: seq<T>)
    requires Distinct(s)
    ensures |Elements(s)| == |s|
  {
    if s != [] {
      var k := |s| - 1;
      DistinctSize(s[..k]);
      assert Elements(s) == Elements(s[..k]) + {s[k]};
    }
  }

  /** The naturals below `n`. */
  ghost function Below(n: nat): (r: set<int>)
    ensures |r| == n
    ensures forall x :: x in r <==> 0 <= x < n
  {
    if n == 0 then {} else Below(n - 1) + {n - 1}
  }

  /** More than `n` positions holding values below `n` repeat a value. */
  lemma Pigeonhole(s: seq<int>, n: nat)
    requires |s| > n
    requires forall i :: 0 <= i < |s| ==> 0 <= s[i] < n
    ensures exists i, j :: 0 <= i < j < |s| && s[i] == s[j]
  {
    if Distinct(s) {
      DistinctSize(s);
      SubsetSize(Elements(s), Below(n));
    }
  }

  /** Euclidean division of a value known to lie in the k-th block of size `m`. */
  lemma BlockDivMod(i: int, m: int, k: int)
    requires m > 0
    requires k * m <= i < k * m + m
    ensures i / m == k && i % m == i - k * m
  {
    var q, r := i / m, i % m;
    assert i == q * m + r;
    if q < k {
      MulMonotone(q + 1, k, m);
    } else if q > k {
      MulMonotone(k + 1, q, m);
    }
  }

  lemma MulMonotone(a: int, b: int, m: int)
    requires m >= 0 && a <= b
    ensures a * m <= b * m
  {
    assert (b - a) * m >= 0;
  }

  lemma MulDistributes(a: int, b: int, m: int)
    ensures (a + b) * m == a * m + b * m
  {
  }
}
