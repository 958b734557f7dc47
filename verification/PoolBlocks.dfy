/** The nonpaged pool (ex/pool.c) as values: blocks, the pages they tile, and the free list threaded through
    their headers. */
module PoolBlocks {
  import opened Common
  import opened PhysicalPages

  /** sizeof(POOL_HEADER) and POOL_GRANULARITY. */
  const HEADER: nat := 24
  const GRANULE: nat := 16
  const NULL: nat := 0

  datatype Header = Header(used: bool, tag: nat, size: nat, nextFree: nat)

  /** Headers by the address at which they lie in memory. */
  type Heap = map<nat, Header>

  /** First address behind the block at `a`. */
  ghost function End(h: Heap, a: nat): nat
    requires a in h
  {
    a + HEADER + h[a].size
  }

  ghost predicate Covers(h: Heap, a: nat, x: nat) {
    a in h && a <= x < End(h, a)
  }

  ghost function PageOf(x: nat): nat { x / PAGE }

  /** Blocks do not overlap. */
  ghost predicate Apart(h: Heap) {
    forall a, b :: a in h && b in h && a < b ==> End(h, a) <= b
  }

  /** Blocks lie in owned pages. */
  ghost predicate Inside(h: Heap, owned: set<nat>) {
    forall a: nat, x: nat :: Covers(h, a, x) ==> PageOf(x) in owned
  }

  /** Every byte of an owned page lies in some block. */
  ghost predicate NoGap(h: Heap, owned: set<nat>) {
    forall x: nat {:trigger PageOf(x)} :: PageOf(x) in owned ==> exists a: nat :: Covers(h, a, x)
  }

  /** Headers and bodies exactly tile the pages in `owned`. */
  ghost predicate Tiles(h: Heap, owned: set<nat>) {
    Apart(h) && Inside(h, owned) && NoGap(h, owned)
  }

  ghost function At(s: seq<nat>, i: int): nat { if 0 <= i < |s| then s[i] else NULL }

  /** Each header on `s` points at the next. */
  ghost predicate Links(h: Heap, s: seq<nat>) {
    && (forall i :: 0 <= i < |s| ==> s[i] in h)
    && (forall i {:trigger h[s[i]].nextFree} :: 0 <= i < |s| ==> h[s[i]].nextFree == At(s, i + 1))
  }

  /** The list from `head` through the headers is `s`, and holds exactly the free blocks, each once. */
  ghost predicate FreeList(h: Heap, head: nat, s: seq<nat>) {
    && Distinct(s) && NULL !in h
    && head == At(s, 0)
    && Links(h, s)
    && (forall a {:trigger a in s} :: a in h ==> (a in s <==> !h[a].used))
  }

  /** Every byte of an owned page belongs to exactly one block, and no other byte belongs to any: live
      allocations never overlap each other, a free block or a header. */
  lemma ExactlyOneBlock(h: Heap, owned: set<nat>, x: nat)
    requires Tiles(h, owned)
    ensures PageOf(x) in owned <==> exists a: nat :: Covers(h, a, x)
    ensures forall a: nat, b: nat :: Covers(h, a, x) && Covers(h, b, x) ==> a == b
  {
  }

  // ---- A new region -------------------------------------------------------

  ghost function Range(first: nat, n: nat): (r: set<nat>)
    ensures forall p :: p in r <==> first <= p < first + n
  {
    if n == 0 then {} else Range(first, n - 1) + {first + n - 1}
  }

  /** A fresh run of pages becomes one more block. */
  lemma AddBlock(h: Heap, owned: set<nat>, first: nat, n: nat, b: Header)
    requires Tiles(h, owned) && n > 0 && b.size == n * PAGE - HEADER
    requires forall p :: first <= p < first + n ==> p !in owned
    ensures first * PAGE !in h
    ensures Tiles(h[first * PAGE := b], owned + Range(first, n))
  {
    var base := first * PAGE;
    var h', owned' := h[base := b], owned + Range(first, n);
    FarFromRegion(h, owned, first, n);
    assert End(h', base) == base + n * PAGE;
    assert Apart(h');
    forall a: nat, x: nat | Covers(h', a, x) ensures PageOf(x) in owned' {
      if a == base {
        PagesOfRegion(first, n, x);
      } else {
        assert Covers(h, a, x);
      }
    }
    forall x: nat | PageOf(x) in owned' ensures exists a: nat :: Covers(h', a, x) {
      if PageOf(x) in owned {
        var a: nat :| Covers(h, a, x);
        assert Covers(h', a, x);
      } else {
        PagesOfRegion(first, n, x);
        assert Covers(h', base, x);
      }
    }
  }

  lemma PagesOfRegion(first: nat, n: nat, x: nat)
    ensures first * PAGE <= x < first * PAGE + n * PAGE <==> first <= PageOf(x) < first + n
  {
  }

  lemma FarFromRegion(h: Heap, owned: set<nat>, first: nat, n: nat)
    requires Inside(h, owned) && n > 0
    requires forall p :: first <= p < first + n ==> p !in owned
    ensures forall a :: a in h ==> End(h, a) <= first * PAGE || first * PAGE + n * PAGE <= a
  {
    forall a | a in h ensures End(h, a) <= first * PAGE || first * PAGE + n * PAGE <= a {
      assert Covers(h, a, a);
      PagesOfRegion(first, n, a);
      if a < first * PAGE < End(h, a) {
        assert Covers(h, a, first * PAGE);
        PagesOfRegion(first, n, first * PAGE);
      }
    }
  }

  /** A new free block goes to the front of the list. */
  lemma PushFree(h: Heap, head: nat, s: seq<nat>, a: nat, b: Header)
    requires FreeList(h, head, s) && a != NULL && a !in s && !b.used && b.nextFree == head
    ensures FreeList(h[a := b], a, [a] + s)
  {
    var h', t := h[a := b], [a] + s;
    forall i | 0 <= i < |t| ensures t[i] in h' && h'[t[i]].nextFree == At(t, i + 1) {
      if i > 0 {
        var j := i - 1;
        assert t[i] == s[j] && h[s[j]].nextFree == At(s, j + 1);
      }
    }
  }

  // ---- Carving a block ----------------------------------------------------

  /** The block at `a` cut to `n` bytes and put to use, the rest behind a header of its own. */
  function Cut(h: Heap, a: nat, n: nat, tag: nat): (r: Heap)
    requires a in h && h[a].size >= n + HEADER
    ensures a in r && a + HEADER + n in r && r[a] == Header(true, tag, n, h[a].nextFree)
    ensures r[a + HEADER + n] == Header(false, 0, h[a].size - n - HEADER, h[a].nextFree)
    ensures r.Keys == h.Keys + {a, a + HEADER + n}
  {
    var front: Heap := h[a := Header(true, tag, n, h[a].nextFree)];
    front[a + HEADER + n := Header(false, 0, h[a].size - n - HEADER, h[a].nextFree)]
  }

  /** Cutting a block in two leaves the pages tiled; so does any change of header fields other than size. */
  lemma SplitBlock(h: Heap, owned: set<nat>, a: nat, n: nat, tag: nat)
    requires Tiles(h, owned) && a in h && h[a].size >= n + HEADER
    ensures a + HEADER + n !in h
    ensures Tiles(Cut(h, a, n, tag), owned)
  {
    var b, h' := a + HEADER + n, Cut(h, a, n, tag);
    assert Covers(h, a, b);
    assert End(h', a) == b && End(h', b) == End(h, a);
    forall c: nat, x: nat | Covers(h', c, x) ensures PageOf(x) in owned {
      assert Covers(h, if c == b then a else c, x);
    }
    forall x: nat | PageOf(x) in owned ensures exists c: nat :: Covers(h', c, x) {
      var c: nat :| Covers(h, c, x);
      assert Covers(h', if c == a && x >= b then b else c, x);
    }
  }

  lemma RelabelBlock(h: Heap, owned: set<nat>, a: nat, b: Header)
    requires Tiles(h, owned) && a in h && b.size == h[a].size
    ensures Tiles(h[a := b], owned)
  {
    var h' := h[a := b];
    forall c: nat, x: nat | Covers(h', c, x) ensures PageOf(x) in owned {
      assert Covers(h, c, x);
    }
    forall x: nat | PageOf(x) in owned ensures exists c: nat :: Covers(h', c, x) {
      var c: nat :| Covers(h, c, x);
      assert Covers(h', c, x);
    }
  }

  // ---- Taking a block off the list ----------------------------------------

  /** The store through `prev`: into the list head, or into the header before position `k`. */
  function Relink(h: Heap, s: seq<nat>, k: nat, x: nat): (r: Heap)
    requires k <= |s| && forall i :: 0 <= i < |s| ==> s[i] in h
    ensures r.Keys == h.Keys
    ensures forall a {:trigger r[a]} :: a in h ==> r[a].used == h[a].used && r[a].tag == h[a].tag && r[a].size == h[a].size
  {
    if k == 0 then h else h[s[k - 1] := h[s[k - 1]].(nextFree := x)]
  }

  lemma RelinkTiles(h: Heap, owned: set<nat>, s: seq<nat>, k: nat, x: nat)
    requires Tiles(h, owned) && k <= |s| && forall i :: 0 <= i < |s| ==> s[i] in h
    ensures Tiles(Relink(h, s, k, x), owned)
  {
    if k > 0 {
      RelabelBlock(h, owned, s[k - 1], h[s[k - 1]].(nextFree := x));
    }
  }

  lemma ReplaceLinks(h: Heap, s: seq<nat>, k: nat, h1: Heap, b: nat)
    requires Links(h, s) && Distinct(s) && k < |s| && b !in s && b in h1 && h1[b].nextFree == h[s[k]].nextFree
    requires forall i {:trigger h1[s[i]]} {:trigger h[s[i]]} :: 0 <= i < |s| ==> s[i] in h1 && (i != k ==> h1[s[i]] == h[s[i]])
    ensures Links(Relink(h1, s, k, b), s[k := b])
  {
    var h2, t := Relink(h1, s, k, b), s[k := b];
    forall i | 0 <= i < |t| ensures t[i] in h2 && h2[t[i]].nextFree == At(t, i + 1) {
      assert h[s[i]].nextFree == At(s, i + 1);
    }
  }

  lemma RemoveLinks(h: Heap, s: seq<nat>, k: nat, h1: Heap)
    requires Links(h, s) && Distinct(s) && k < |s|
    requires forall i {:trigger h1[s[i]]} {:trigger h[s[i]]} :: 0 <= i < |s| ==> s[i] in h1 && (i != k ==> h1[s[i]] == h[s[i]])
    ensures Links(Relink(h1, s, k, h[s[k]].nextFree), s[..k] + s[k + 1..])
  {
    var h2, t := Relink(h1, s, k, h[s[k]].nextFree), s[..k] + s[k + 1..];
    assert h[s[k]].nextFree == At(s, k + 1);
    forall i | 0 <= i < |t| ensures t[i] in h2 && h2[t[i]].nextFree == At(t, i + 1) {
      var j := if i < k then i else i + 1;
      SuccessorWithout(s, k, i);
      assert h[s[j]].nextFree == At(s, j + 1) && h1[s[j]] == h[s[j]];
      assert h2[s[j]].nextFree == if j + 1 == k then At(s, k + 1) else At(s, j + 1);
    }
  }

  lemma SuccessorWithout(s: seq<nat>, k: nat, i: nat)
    requires k < |s| && i < |s| - 1
    ensures var t, j := s[..k] + s[k + 1..], if i < k then i else i + 1;
            && t[i] == s[j]
            && At(t, i + 1) == if j + 1 == k then At(s, k + 1) else At(s, j + 1)
  {
  }

  /** Replacing list position `k` by a fresh free block `b` that inherits its successor. */
  lemma ReplaceFree(h: Heap, head: nat, s: seq<nat>, k: nat, h1: Heap, b: nat)
    requires FreeList(h, head, s) && k < |s| && b != NULL && b !in h
    requires h1.Keys == h.Keys + {b} && h1[s[k]].used && !h1[b].used && h1[b].nextFree == h[s[k]].nextFree
    requires forall a {:trigger h1[a]} :: a in h && a != s[k] ==> h1[a] == h[a]
    ensures FreeList(Relink(h1, s, k, b), if k == 0 then b else head, s[k := b])
  {
    ReplaceLinks(h, s, k, h1, b);
    ReplacedMembers(s, k, b);
    var h2, t := Relink(h1, s, k, b), s[k := b];
    forall a | a in h2 ensures a in t <==> !h2[a].used {
      assert a != b ==> (a in s <==> !h[a].used);
    }
  }

  /** Unlinking list position `k`. */
  lemma RemoveFree(h: Heap, head: nat, s: seq<nat>, k: nat, h1: Heap)
    requires FreeList(h, head, s) && k < |s|
    requires h1.Keys == h.Keys && h1[s[k]].used && forall a {:trigger h1[a]} :: a in h && a != s[k] ==> h1[a] == h[a]
    ensures var next := h[s[k]].nextFree;
            FreeList(Relink(h1, s, k, next), if k == 0 then next else head, s[..k] + s[k + 1..])
  {
    RemoveLinks(h, s, k, h1);
    RemovedMembers(s, k);
    assert h[s[k]].nextFree == At(s, k + 1);
    var h2, t := Relink(h1, s, k, h[s[k]].nextFree), s[..k] + s[k + 1..];
    forall a | a in h2 ensures a in t <==> !h2[a].used {
      assert a in s <==> !h[a].used;
    }
  }

  // ---- Handing out a block ------------------------------------------------

  /** Blocks in use stay as they are. */
  ghost predicate SameUsed(h: Heap, h': Heap) {
    forall a :: a in h && h[a].used ==> a in h' && h'[a] == h[a]
  }

  /** The block at `a` was not in use in `before` and now serves a request for `n` bytes: it is large enough,
      with less than a header and a granule to spare. */
  ghost predicate Serves(h: Heap, a: nat, n: nat, tag: nat, before: Heap) {
    && a in h && h[a].used && h[a].tag == tag
    && n <= h[a].size < n + HEADER + GRANULE
    && !(a in before && before[a].used)
  }

  lemma CutTiles(h: Heap, owned: set<nat>, s: seq<nat>, k: nat, n: nat, tag: nat)
    requires Tiles(h, owned) && k < |s| && (forall i :: 0 <= i < |s| ==> s[i] in h) && h[s[k]].size >= n + HEADER
    ensures Tiles(Relink(Cut(h, s[k], n, tag), s, k, s[k] + HEADER + n), owned)
  {
    SplitBlock(h, owned, s[k], n, tag);
    RelinkTiles(Cut(h, s[k], n, tag), owned, s, k, s[k] + HEADER + n);
  }

  lemma CutList(h: Heap, head: nat, s: seq<nat>, k: nat, n: nat, tag: nat)
    requires FreeList(h, head, s) && k < |s| && h[s[k]].size >= n + HEADER && s[k] + HEADER + n !in h
    ensures var split, h1 := s[k] + HEADER + n, Cut(h, s[k], n, tag);
            && (forall i :: 0 <= i < |s| ==> s[i] in h1) && NULL !in h1
            && FreeList(Relink(h1, s, k, split), if k == 0 then split else head, s[k := split])
            && SameUsed(h, Relink(h1, s, k, split))
            && Relink(h1, s, k, split)[s[k]] == h1[s[k]]
  {
    var split, h1 := s[k] + HEADER + n, Cut(h, s[k], n, tag);
    ReplaceFree(h, head, s, k, h1, split);
    OnlyFreeTouched(h, head, s, h1, k, split);
  }

  lemma WholeTiles(h: Heap, owned: set<nat>, s: seq<nat>, k: nat, tag: nat)
    requires Tiles(h, owned) && k < |s| && (forall i :: 0 <= i < |s| ==> s[i] in h)
    ensures Tiles(Relink(h[s[k] := h[s[k]].(used := true, tag := tag)], s, k, h[s[k]].nextFree), owned)
  {
    var h1 := h[s[k] := h[s[k]].(used := true, tag := tag)];
    RelabelBlock(h, owned, s[k], h1[s[k]]);
    RelinkTiles(h1, owned, s, k, h[s[k]].nextFree);
  }

  lemma WholeList(h: Heap, head: nat, s: seq<nat>, k: nat, tag: nat)
    requires FreeList(h, head, s) && k < |s|
    ensures var next, h1 := h[s[k]].nextFree, h[s[k] := h[s[k]].(used := true, tag := tag)];
            && FreeList(Relink(h1, s, k, next), if k == 0 then next else head, s[..k] + s[k + 1..])
            && SameUsed(h, Relink(h1, s, k, next))
            && Relink(h1, s, k, next)[s[k]] == h1[s[k]]
  {
    var next, h1 := h[s[k]].nextFree, h[s[k] := h[s[k]].(used := true, tag := tag)];
    RemoveFree(h, head, s, k, h1);
    OnlyFreeTouched(h, head, s, h1, k, next);
  }

  lemma OnlyFreeTouched(h: Heap, head: nat, s: seq<nat>, h1: Heap, k: nat, x: nat)
    requires FreeList(h, head, s) && k < |s| && h1.Keys >= h.Keys
    requires forall a {:trigger h1[a]} :: a in h && a != s[k] ==> h1[a] == h[a]
    ensures SameUsed(h, Relink(h1, s, k, x)) && Relink(h1, s, k, x)[s[k]] == h1[s[k]]
  {
    var h2 := Relink(h1, s, k, x);
    assert s[k] in s && (k > 0 ==> s[k - 1] in s);
    forall a | a in h && h[a].used ensures a in h2 && h2[a] == h[a] {
      assert a !in s;
      assert h1[a] == h[a];
    }
  }
}
