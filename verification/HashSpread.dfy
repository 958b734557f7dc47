/** The multiplicative hash of the sector cache (mm/cache.c) spreads consecutive sectors evenly. */
module HashSpread {
  import opened Common
  import opened CacheLists

  const FACTOR: int := 2654435761
  /** FACTOR times INVERSE is one more than a multiple of 2^64. */
  const INVERSE: int := 14962265741255716689
  const EXCESS: int := 2153028908

  lemma Quotient(a: nat, size: nat, q: nat) returns (w: int)
    requires size > 0 && size * q == TWO64
    ensures a * FACTOR == w * size + HashIndex(a, size)
  {
    var x := a * FACTOR;
    var u, y := x / TWO64, x % TWO64;
    var v := y / size;
    w := u * q + v;
    assert u * TWO64 == (u * q) * size by { Regroup(u, size, q); }
    MulDistributes(u * q, v, size);
    assert x == u * TWO64 + y && y == v * size + y % size;
  }

  lemma Regroup(a: int, b: int, c: int)
    ensures a * (b * c) == (a * c) * b
  {
  }

  lemma SmallMultiple(x: int, size: nat, r: int, s: int)
    requires size > 0 && x * size == r - s && 0 <= r < size && 0 <= s < size
    ensures r == s
  {
    if x > 0 { MulMonotone(1, x, size); } else if x < 0 { MulMonotone(x, -1, size); }
  }

  lemma SameResidue(a: nat, b: nat, size: nat, e: int)
    requires size > 0 && a - b == e * size
    ensures a % size == b % size
  {
    var x := e - a / size + b / size;
    assert x * size == a % size - b % size by {
      MulDistributes(e - a / size, b / size, size);
      MulDistributes(e, -(a / size), size);
      assert a == a / size * size + a % size && b == b / size * size + b % size;
    }
    SmallMultiple(x, size, a % size, b % size);
  }

  /** With a power of two of buckets, as the kernel has, two sectors share a bucket if and only if their numbers leave
      the same rest: any run of as many consecutive sectors as there are buckets fills each bucket once. */
  lemma SameBucketExactly(a: nat, b: nat, size: nat, q: nat)
    requires size > 0 && size * q == TWO64
    ensures HashIndex(a, size) == HashIndex(b, size) <==> a % size == b % size
  {
    var u := Quotient(a, size, q);
    var v := Quotient(b, size, q);
    var d := u - v;
    MulDistributes(d, v, size);
    MulDistributes(a - b, b, FACTOR);
    assert (a - b) * FACTOR == d * size + HashIndex(a, size) - HashIndex(b, size);
    if HashIndex(a, size) == HashIndex(b, size) {
      Inverted(a - b, d, size, q);
      SameResidue(a, b, size, d * INVERSE - (a - b) * EXCESS * q);
    }
    if a % size == b % size {
      var e := a / size - b / size;
      assert a - b == e * size by { MulDistributes(e, b / size, size); }
      assert (a - b) * FACTOR == (e * FACTOR) * size;
      MulDistributes(e * FACTOR - d, d, size);
      SmallMultiple(e * FACTOR - d, size, HashIndex(a, size), HashIndex(b, size));
    }
  }

  lemma Inverted(x: int, d: int, size: nat, q: nat)
    requires x * FACTOR == d * size && size * q == TWO64
    ensures x == (d * INVERSE - x * EXCESS * q) * size
  {
    assert FACTOR * INVERSE == 1 + EXCESS * TWO64;
    assert x * FACTOR * INVERSE == x * (FACTOR * INVERSE) == x + x * (EXCESS * TWO64) by { Associates(x, FACTOR, INVERSE); }
    assert x * (EXCESS * TWO64) == (x * EXCESS * q) * size by {
      Associates(x, EXCESS, TWO64);
      Regroup(x * EXCESS, size, q);
    }
    assert d * size * INVERSE == (d * INVERSE) * size;
    MulDistributes(d * INVERSE - x * EXCESS * q, x * EXCESS * q, size);
  }

  lemma Associates(a: int, b: int, c: int)
    ensures a * b * c == a * (b * c)
  {
  }
}
