/** The nonpaged pool (ex/pool.c): first-fit allocation with splitting over pages pulled from Mm. */
module Pool {
  import opened Common
  import opened PhysicalPages
  import opened PoolBlocks

  const EXPAND_PAGES: nat := 16

  /** The request rounded up to the granularity. */
  function Rounded(bytes: nat): (n: nat)
    ensures bytes <= n < bytes + GRANULE && n % GRANULE == 0
  {
    (bytes + GRANULE - 1) / GRANULE * GRANULE
  }

  datatype Freed = Nothing | Done | BugCheck(reason: nat)

  /** No free page at `p`. */
  ghost predicate RunEnds(states: seq<PfnState>, p: nat) { p >= |states| || states[p] != PfnState.Free }

  /** Pages for a block of `n` bytes with its header. */
  function PagesFor(n: nat): (k: nat)
    ensures k * PAGE - PAGE < n + HEADER <= k * PAGE
  {
    (n + HEADER + PAGE - 1) / PAGE
  }

  /** The lowest free pages are enough consecutive ones for a block of `n` bytes. */
  ghost predicate LongEnough(states: seq<PfnState>, n: nat) {
    exists first: nat :: Starts(states, first) && forall p: nat :: first <= p < first + PagesFor(n) ==> !RunEnds(states, p)
  }

  /** `first` is the lowest free page at or above 1 MB. */
  ghost predicate Starts(states: seq<PfnState>, first: nat) {
    first in Available(states) && forall p :: p in Available(states) ==> first <= p
  }

  /** From states `s0`, whose lowest free page is `first`, exactly `n` consecutive pages have been taken. */
  ghost predicate Grabbed(s0: seq<PfnState>, s: seq<PfnState>, first: nat, n: nat) {
    && |s| == |s0| && FIRST <= first && first + n <= |s| && Starts(s0, first)
    && (forall p :: first <= p < first + n ==> s0[p] == PfnState.Free)
    && (forall p :: 0 <= p < |s| ==> s[p] == if first <= p < first + n then Active else s0[p])
  }

  /** Position of the first block of the free list with at least `n` bytes. */
  ghost function FirstFit(h: Heap, s: seq<nat>, n: nat): (k: nat)
    requires forall i :: 0 <= i < |s| ==> s[i] in h
    ensures k <= |s| && (k < |s| ==> h[s[k]].size >= n) && forall i :: 0 <= i < k ==> h[s[i]].size < n
  {
    if s == [] || h[s[0]].size >= n then 0
    else
      assert forall i :: 0 <= i < |s| - 1 ==> s[1..][i] == s[i + 1];
      1 + FirstFit(h, s[1..], n)
  }

  /** All blocks but `a` are still there, of the same size and used or free as before. */
  ghost predicate OthersKept(h: Heap, h': Heap, a: nat) {
    forall b {:trigger h'[b]} {:trigger h[b]} :: b in h && b != a ==> b in h' && h'[b].size == h[b].size && h'[b].used == h[b].used
  }

  /** The free list after `n` bytes were taken from its `k`-th block: the rest of that block in its place if there is
      room for a header and a granule, and nothing else changed. */
  ghost predicate Took(h: Heap, s: seq<nat>, h': Heap, s': seq<nat>, k: nat, n: nat) {
    && k < |s| && s[k] in h && OthersKept(h, h', s[k])
    && if h[s[k]].size >= n + HEADER + GRANULE then
         var rest := s[k] + HEADER + n;
         s' == s[k := rest] && rest in h' && !h'[rest].used && h'[rest].size == h[s[k]].size - n - HEADER
       else
         s' == s[..k] + s[k + 1..]
  }

  lemma CutTook(h: Heap, head: nat, s: seq<nat>, k: nat, n: nat, tag: nat)
    requires FreeList(h, head, s) && k < |s| && h[s[k]].size >= n + HEADER + GRANULE && s[k] + HEADER + n !in h
    ensures var rest := s[k] + HEADER + n;
            && (forall i :: 0 <= i < |s| ==> s[i] in Cut(h, s[k], n, tag))
            && Took(h, s, Relink(Cut(h, s[k], n, tag), s, k, rest), s[k := rest], k, n)
  {
  }

  /** Everything about a block cut in two. */
  lemma CutAll(h: Heap, head: nat, owned: set<nat>, s: seq<nat>, k: nat, n: nat, tag: nat)
    requires FreeList(h, head, s) && Tiles(h, owned) && k < |s| && h[s[k]].size >= n + HEADER + GRANULE
    ensures forall i :: 0 <= i < |s| ==> s[i] in h
    ensures var rest, h1 := s[k] + HEADER + n, Cut(h, s[k], n, tag);
            && (forall i :: 0 <= i < |s| ==> s[i] in h1) && NULL !in h1
            && var h2 := Relink(h1, s, k, rest);
               && FreeList(h2, if k == 0 then rest else head, s[k := rest]) && Tiles(h2, owned) && SameUsed(h, h2)
               && Took(h, s, h2, s[k := rest], k, n)
               && s[k] in h2 && h2[s[k]].used && h2[s[k]].tag == tag && h2[s[k]].size == n
  {
    SplitBlock(h, owned, s[k], n, tag);
    CutTiles(h, owned, s, k, n, tag);
    CutList(h, head, s, k, n, tag);
    CutTook(h, head, s, k, n, tag);
  }

  lemma FirstFitIs(h: Heap, s: seq<nat>, n: nat, k: nat)
    requires (forall i :: 0 <= i < |s| ==> s[i] in h) && k <= |s| && (k < |s| ==> h[s[k]].size >= n)
    requires forall i :: 0 <= i < k ==> h[s[i]].size < n
    ensures FirstFit(h, s, n) == k
  {
  }

  ghost predicate EndsWith(s: seq<nat>, t: seq<nat>) { |t| <= |s| && s[|s| - |t|..] == t }

  lemma EndsTwice(a: seq<nat>, b: seq<nat>, c: seq<nat>)
    requires EndsWith(b, a) && EndsWith(c, b)
    ensures EndsWith(c, a)
  {
    assert c[|c| - |a|..] == c[|c| - |b|..][|b| - |a|..];
  }

  lemma UsedTwice(a: Heap, b: Heap, c: Heap)
    requires SameUsed(a, b) && SameUsed(b, c)
    ensures SameUsed(a, c)
  {
  }

  lemma ServesEarlier(a: Heap, b: Heap, c: Heap, x: nat, n: nat, tag: nat)
    requires SameUsed(a, b) && Serves(c, x, n, tag, b)
    ensures Serves(c, x, n, tag, a)
  {
  }

  lemma ListInHeap(h: Heap, head: nat, s: seq<nat>)
    requires FreeList(h, head, s)
    ensures NULL !in s && forall i :: 0 <= i < |s| ==> s[i] in h && !h[s[i]].used
  {
    assert forall i :: 0 <= i < |s| ==> s[i] in s;
  }

  lemma NoneFits(h: Heap, head: nat, s: seq<nat>, n: nat)
    requires FreeList(h, head, s) && (forall i :: 0 <= i < |s| ==> s[i] in h) && FirstFit(h, s, n) == |s|
    ensures forall a :: a in h && !h[a].used ==> h[a].size < n
  {
    forall a | a in h && !h[a].used ensures h[a].size < n {
      assert a in s;
      var i :| 0 <= i < |s| && s[i] == a;
    }
  }

  /** With no fit before, only a new block in front can fit. */
  lemma FrontFits(h: Heap, s: seq<nat>, h': Heap, s': seq<nat>, n: nat)
    requires (forall i :: 0 <= i < |s| ==> s[i] in h) && FirstFit(h, s, n) == |s|
    requires (forall i :: 0 <= i < |s'| ==> s'[i] in h') && s' != [] && s'[1..] == s
    requires forall a :: a in h ==> a in h' && h'[a].size == h[a].size
    ensures FirstFit(h', s', n) == if h'[s'[0]].size >= n then 0 else |s'|
  {
    assert forall i :: 1 <= i < |s'| ==> s'[i] == s[i - 1];
    FirstFitIs(h', s', n, if h'[s'[0]].size >= n then 0 else |s'|);
  }

  /** A run of pages that is long enough makes a block that is large enough. */
  lemma LongRunFits(states: seq<PfnState>, first: nat, k: nat, n: nat)
    requires LongEnough(states, n) && Starts(states, first) && k > 0
    requires k == Max(EXPAND_PAGES, PagesFor(n)) || RunEnds(states, first + k)
    ensures k * PAGE - HEADER >= n
  {
    var f: nat :| Starts(states, f) && forall p: nat :: f <= p < f + PagesFor(n) ==> !RunEnds(states, p);
    assert f == first;
    assert k >= PagesFor(n);
    MulMonotone(PagesFor(n), k, PAGE);
  }

  class Manager {
    const mm: Pages
    /** Headers in memory, and ExpFreeList. */
    var heap: Heap
    var head: nat
    /** The free list as a sequence, and the pages obtained from Mm so far. */
    ghost var list: seq<nat>
    ghost var owned: set<nat>

    ghost predicate Valid()
      reads this, mm, mm.states
    {
      && mm.Valid()
      && FreeList(heap, head, list)
      && Tiles(heap, owned)
      && (forall p :: p in owned ==> p < mm.states.Length && mm.states[p] == Active)
    }

    constructor (mm: Pages)
      requires mm.Valid()
      ensures Valid() && this.mm == mm && heap == map[] && owned == {}
    {
      this.mm := mm;
      heap, head, list, owned := map[], NULL, [], {};
    }

    /** Pull up to `pages` consecutive pages; a page that breaks the run is given back. */
    method Grab(pages: nat) returns (base: nat, n: nat)
      requires mm.Valid() && pages > 0
      modifies mm, mm.states
      ensures mm.Valid()
      ensures base == 0 <==> Available(old(mm.states[..])) == {}
      ensures base == 0 ==> mm.states[..] == old(mm.states[..]) && mm.freePages == old(mm.freePages)
      ensures base != 0 ==>
                && base % PAGE == 0 && 0 < n <= pages && FIRST <= base / PAGE && base / PAGE + n <= mm.states.Length
                && (forall p :: base / PAGE <= p < base / PAGE + n ==> old(mm.states[..])[p] == PfnState.Free)
                && (forall p :: 0 <= p < mm.states.Length ==>
                      mm.states[p] == if base / PAGE <= p < base / PAGE + n then Active else old(mm.states[..])[p])
                && mm.freePages == old(mm.freePages) - n
                && (forall p :: p in Available(old(mm.states[..])) ==> base / PAGE <= p)
                && (n == pages || RunEnds(old(mm.states[..]), base / PAGE + n))
    {
      ghost var s0 := mm.states[..];
      n := 0;
      base := mm.Allocate();
      if base == 0 {
        return;
      }
      n := 1;
      while n < pages
        invariant mm.Valid() && 0 < n <= pages && Grabbed(s0, mm.states[..], base / PAGE, n)
        invariant mm.freePages == old(mm.freePages) - n
      {
        hide Grabbed;
        var more := GrabNext(base, n, s0);
        if !more {
          break;
        }
        n := n + 1;
      }
    }

    /** One more page, if it follows. */
    method GrabNext(base: nat, n: nat, ghost s0: seq<PfnState>) returns (more: bool)
      requires mm.Valid() && base % PAGE == 0 && Grabbed(s0, mm.states[..], base / PAGE, n)
      modifies mm, mm.states
      ensures mm.Valid() && (more <==> !RunEnds(s0, base / PAGE + n))
      ensures Grabbed(s0, mm.states[..], base / PAGE, if more then n + 1 else n)
      ensures mm.freePages == old(mm.freePages) - if more then 1 else 0
    {
      ghost var next := base / PAGE + n;
      assert !RunEnds(s0, next) ==> next in Available(mm.states[..]);
      forall p | p in Available(mm.states[..]) ensures p in Available(s0) && next <= p {
        assert mm.states[p] == PfnState.Free;
      }
      var pa := mm.Allocate();
      more := pa == base + n * PAGE;
      assert !RunEnds(s0, next) ==> pa == next * PAGE;
      if !more && pa != 0 {
        mm.Release(pa);
      }
    }

    /** ExpExpandPool: one more free block in front, of as many of the lowest free pages as are wanted or follow one
        another, or no page to be had. */
    method Expand(minBytes: nat) returns (ok: bool, ghost n: nat)
      requires Valid()
      modifies this, mm, mm.states
      ensures Valid()
      ensures ok <==> Available(old(mm.states[..])) != {}
      ensures !ok ==> heap == old(heap) && list == old(list) && mm.states[..] == old(mm.states[..])
      ensures ok ==> mm.freePages < old(mm.freePages)
      ensures owned >= old(owned) && SameUsed(old(heap), heap)
      ensures ok ==>
                && list != [] && list[1..] == old(list) && list[0] % PAGE == 0 && list[0] / PAGE !in old(owned)
                && Starts(old(mm.states[..]), list[0] / PAGE) && n > 0
                && (n == Max(EXPAND_PAGES, PagesFor(minBytes)) || RunEnds(old(mm.states[..]), list[0] / PAGE + n))
                && list[0] !in old(heap) && heap == old(heap)[list[0] := heap[list[0]]]
                && !heap[list[0]].used && heap[list[0]].size == n * PAGE - HEADER
    {
      var pages := PagesFor(minBytes);
      if pages < EXPAND_PAGES {
        pages := EXPAND_PAGES;
      }
      ghost var s0 := mm.states[..];
      var base, count := Grab(pages);
      n := count;
      if base == 0 {
        return false, 0;
      }
      ghost var first := base / PAGE;
      assert base == first * PAGE;
      var b := Header(false, 0, count * PAGE - HEADER, head);
      AddBlock(heap, owned, first, n, b);
      PushFree(heap, head, list, base, b);
      heap := heap[base := b];
      head := base;
      list := [base] + list;
      owned := owned + Range(first, n);
      return true, n;
    }

    /** The first-fit walk: the first free block of at least `n` bytes, its predecessor, and its position. */
    method FindFit(n: nat) returns (cur: nat, prev: nat, ghost k: nat)
      requires Valid()
      ensures cur == NULL ==> forall a :: a in heap && !heap[a].used ==> heap[a].size < n
      ensures cur != NULL ==>
                && k < |list| && cur == list[k] && prev == At(list, k - 1) && heap[cur].size >= n
                && (forall i :: 0 <= i < k ==> heap[list[i]].size < n)
    {
      assert forall i :: 0 <= i < |list| ==> list[i] != NULL;
      prev, cur, k := NULL, head, 0;
      while cur != NULL
        invariant 0 <= k <= |list| && cur == At(list, k) && prev == At(list, k - 1)
        invariant forall i {:trigger list[i]} :: 0 <= i < k ==> heap[list[i]].size < n
        decreases |list| - k
      {
        assert cur == list[k] && cur in heap && heap[list[k]].nextFree == At(list, k + 1);
        if heap[cur].size >= n {
          return;
        }
        prev, cur, k := cur, heap[cur].nextFree, k + 1;
      }
      forall a | a in heap && !heap[a].used ensures heap[a].size < n {
        assert a in list;
      }
    }

    /** Split if the remainder can hold a header and one granule, otherwise hand out the whole block. */
    method Take(cur: nat, prev: nat, n: nat, tag: nat, ghost k: nat)
      requires Valid() && k < |list| && cur == list[k] && prev == At(list, k - 1) && heap[cur].size >= n
      modifies this`heap, this`head, this`list
      ensures Valid() && SameUsed(old(heap), heap)
      ensures cur in heap && heap[cur].used && heap[cur].tag == tag
      ensures n <= heap[cur].size < n + HEADER + GRANULE
      ensures Took(old(heap), old(list), heap, list, k, n)
    {
      if heap[cur].size >= n + HEADER + GRANULE {
        TakeFront(cur, prev, n, tag, k);
      } else {
        TakeWhole(cur, prev, tag, k);
      }
    }

    method TakeFront(cur: nat, prev: nat, n: nat, tag: nat, ghost k: nat)
      requires Valid() && k < |list| && cur == list[k] && prev == At(list, k - 1)
      requires heap[cur].size >= n + HEADER + GRANULE
      modifies this`heap, this`head, this`list
      ensures Valid() && SameUsed(old(heap), heap)
      ensures cur in heap && heap[cur].used && heap[cur].tag == tag && heap[cur].size == n
      ensures Took(old(heap), old(list), heap, list, k, n)
    {
      hide Took, FreeList, SameUsed, Tiles, Cut, Relink;
      var split := cur + HEADER + n;
      CutAll(heap, head, owned, list, k, n, tag);
      heap := Cut(heap, cur, n, tag);
      StoreLink(prev, split, k);
      list := list[k := split];
    }

    method TakeWhole(cur: nat, prev: nat, tag: nat, ghost k: nat)
      requires Valid() && k < |list| && cur == list[k] && prev == At(list, k - 1)
      modifies this`heap, this`head, this`list
      ensures Valid() && SameUsed(old(heap), heap)
      ensures cur in heap && heap[cur].used && heap[cur].tag == tag && heap[cur].size == old(heap)[cur].size
      ensures list == old(list)[..k] + old(list)[k + 1..] && OthersKept(old(heap), heap, cur)
    {
      WholeTiles(heap, owned, list, k, tag);
      WholeList(heap, head, list, k, tag);
      var next := heap[cur].nextFree;
      heap := heap[cur := heap[cur].(used := true, tag := tag)];
      StoreLink(prev, next, k);
      list := list[..k] + list[k + 1..];
    }

    /** `*prev = x`, where prev is the list head or the NextFree field of the block before position `k`. */
    method StoreLink(prev: nat, x: nat, ghost k: nat)
      requires k <= |list| && (forall i :: 0 <= i < |list| ==> list[i] in heap)
      requires prev == At(list, k - 1) && NULL !in heap
      modifies this`heap, this`head
      ensures heap == Relink(old(heap), list, k, x) && head == if k == 0 then x else old(head)
    {
      assert forall i :: 0 <= i < |list| ==> list[i] != NULL;
      if prev == NULL {
        head := x;
      } else {
        heap := heap[prev := heap[prev].(nextFree := x)];
      }
    }

    /** ExAllocatePoolWithTag. The retry loop ends because every expansion consumes a page for good. The result
        is NULL for a nonzero request only when no page can be obtained and no free block is large enough; else
        it is the body of a block that was not in use, whose size fits the rounded request with less than a
        header and a granule to spare; blocks in use are left alone. If a free block is large enough, the first such
        block of the list is used and no page is taken; otherwise the block lies in new pages, which suffice if the
        lowest free pages are enough consecutive ones, and the old free list is left as it was. */
    method Allocate(bytes: nat, tag: nat) returns (body: nat)
      requires Valid() && bytes + PAGE + HEADER + GRANULE < TWO64
      modifies this, mm, mm.states
      ensures Valid() && SameUsed(old(heap), heap) && owned >= old(owned)
      ensures bytes == 0 ==> body == NULL && heap == old(heap)
      ensures bytes > 0 && body == NULL ==>
                && Available(mm.states[..]) == {}
                && forall a :: a in heap && !heap[a].used ==> heap[a].size < Rounded(bytes)
      ensures body != NULL ==> body >= HEADER && Serves(heap, body - HEADER, Rounded(bytes), tag, old(heap))
      ensures forall i :: 0 <= i < |old(list)| ==> old(list)[i] in old(heap)
      ensures var k := FirstFit(old(heap), old(list), Rounded(bytes));
              bytes > 0 && k < |old(list)| ==>
                && body == old(list)[k] + HEADER && mm.states[..] == old(mm.states[..]) && owned == old(owned)
                && Took(old(heap), old(list), heap, list, k, Rounded(bytes))
      ensures FirstFit(old(heap), old(list), Rounded(bytes)) == |old(list)| && body != NULL ==>
                && body >= HEADER && (body - HEADER) / PAGE !in old(owned)
                && EndsWith(list, old(list))
      ensures bytes > 0 && LongEnough(old(mm.states[..]), Rounded(bytes)) ==> body != NULL
    {
      hide Took, FirstFit, LongEnough, Tiles, FreeList, EndsWith, Serves;
      ListInHeap(heap, head, list);
      if bytes == 0 {
        return NULL;
      }
      var n := Rounded(bytes);
      var cur := TakeFirstFit(n, tag);
      if cur != NULL {
        return cur + HEADER;
      }
      body := Refill(n, tag);
    }

    /** The retries: expand and look again until a block fits or no page is left. */
    method Refill(n: nat, tag: nat) returns (body: nat)
      requires Valid() && forall i :: 0 <= i < |list| ==> list[i] in heap
      requires FirstFit(heap, list, n) == |list|
      modifies this, mm, mm.states
      ensures Valid() && SameUsed(old(heap), heap) && owned >= old(owned)
      ensures body == NULL ==>
                Available(mm.states[..]) == {} && forall a :: a in heap && !heap[a].used ==> heap[a].size < n
      ensures body != NULL ==>
                && body >= HEADER && Serves(heap, body - HEADER, n, tag, old(heap))
                && (body - HEADER) / PAGE !in old(owned) && EndsWith(list, old(list))
      ensures LongEnough(old(mm.states[..]), n) ==> body != NULL
    {
      while true
        invariant Valid() && SameUsed(old(heap), heap) && owned >= old(owned) && EndsWith(list, old(list))
        invariant forall i :: 0 <= i < |list| ==> list[i] in heap
        invariant FirstFit(heap, list, n) == |list|
        invariant LongEnough(old(mm.states[..]), n) ==> mm.states[..] == old(mm.states[..])
        decreases mm.freePages
      {
        hide Took, FirstFit, LongEnough, Tiles, FreeList, EndsWith, SameUsed, Serves;
        ghost var h, l := heap, list;
        var cur, ok := ExpandAndTake(n, tag);
        UsedTwice(old(heap), h, heap);
        EndsTwice(old(list), l, list);
        if !ok {
          return NULL;
        }
        if cur != NULL {
          ServesEarlier(old(heap), h, heap, cur, n, tag);
          return cur + HEADER;
        }
      }
    }

    /** One retry. */
    method ExpandAndTake(n: nat, tag: nat) returns (cur: nat, ok: bool)
      requires Valid() && (forall i :: 0 <= i < |list| ==> list[i] in heap) && FirstFit(heap, list, n) == |list|
      modifies this, mm, mm.states
      ensures Valid() && SameUsed(old(heap), heap) && owned >= old(owned) && EndsWith(list, old(list))
      ensures ok <==> Available(old(mm.states[..])) != {}
      ensures !ok ==>
                && cur == NULL && mm.states[..] == old(mm.states[..])
                && forall a :: a in heap && !heap[a].used ==> heap[a].size < n
      ensures ok ==> mm.freePages < old(mm.freePages)
      ensures forall i :: 0 <= i < |list| ==> list[i] in heap
      ensures cur == NULL ==> FirstFit(heap, list, n) == |list|
      ensures cur != NULL ==> Serves(heap, cur, n, tag, old(heap)) && cur / PAGE !in old(owned)
      ensures LongEnough(old(mm.states[..]), n) ==> cur != NULL
    {
      ghost var h0, l0, s0 := heap, list, mm.states[..];
      ghost var k;
      ok, k := Expand(n);
      cur := NULL;
      if !ok {
        NoneFits(h0, head, l0, n);
        return;
      }
      ghost var h1, l1 := heap, list;
      assert forall i :: 0 <= i < |l1| ==> l1[i] in h1 by { assert FreeList(heap, head, list); }
      FrontFits(h0, l0, h1, l1, n);
      if LongEnough(s0, n) {
        LongRunFits(s0, l1[0] / PAGE, k, n);
      }
      hide FirstFit, LongEnough, Tiles;
      cur := TakeFirstFit(n, tag);
    }

    /** One pass over the free list. */
    method TakeFirstFit(n: nat, tag: nat) returns (cur: nat)
      requires Valid()
      modifies this`heap, this`head, this`list
      ensures Valid() && SameUsed(old(heap), heap)
      ensures forall i :: 0 <= i < |old(list)| ==> old(list)[i] in old(heap)
      ensures cur == NULL <==> FirstFit(old(heap), old(list), n) == |old(list)|
      ensures cur == NULL ==>
                heap == old(heap) && list == old(list) && forall a :: a in heap && !heap[a].used ==> heap[a].size < n
      ensures cur != NULL ==>
                var k := FirstFit(old(heap), old(list), n);
                && Serves(heap, cur, n, tag, old(heap)) && cur == old(list)[k] && Took(old(heap), old(list), heap, list, k, n)
    {
      hide Took, FirstFit, Tiles, FreeList;
      ListInHeap(heap, head, list);
      var prev;
      ghost var k;
      cur, prev, k := FindFit(n);
      if cur == NULL {
        FirstFitIs(heap, list, n, |list|);
      } else {
        FirstFitIs(heap, list, n, k);
        Take(cur, prev, n, tag, k);
      }
    }

    /** A block in use has its body at `p`. */
    ghost predicate IsBody(p: nat)
      reads this
    {
      p >= HEADER && p - HEADER in heap && heap[p - HEADER].used
    }

    /** ExFreePoolWithTag: the block returns to the front of the free list, unless `p` is not the body of a block in use
        or the tag differs, which stops the system. Only headers carry the magic number. */
    method Free(p: nat, tag: nat) returns (r: Freed)
      requires Valid()
      modifies this`heap, this`head, this`list
      ensures Valid()
      ensures r == Nothing <==> p == NULL
      ensures r == BugCheck(2) <==> p != NULL && !old(IsBody(p))
      ensures r == BugCheck(3) <==> old(IsBody(p)) && tag != 0 && old(heap)[p - HEADER].tag != tag
      ensures r.BugCheck? ==> r.reason == 2 || r.reason == 3
      ensures r != Done ==> heap == old(heap) && head == old(head) && list == old(list)
      ensures r == Done ==>
                && old(IsBody(p)) && list == [p - HEADER] + old(list)
                && heap.Keys == old(heap).Keys && !heap[p - HEADER].used && heap[p - HEADER].size == old(heap)[p - HEADER].size
                && forall a :: a in heap && a != p - HEADER ==> heap[a] == old(heap)[a]
    {
      if p == NULL {
        return Nothing;
      }
      if p < HEADER || p - HEADER !in heap || !heap[p - HEADER].used {
        return BugCheck(2);
      }
      var a := p - HEADER;
      if tag != 0 && heap[a].tag != tag {
        return BugCheck(3);
      }
      var b := heap[a].(used := false, nextFree := head);
      assert a !in list;
      PushFree(heap, head, list, a, b);
      RelabelBlock(heap, owned, a, b);
      heap := heap[a := b];
      head := a;
      list := [a] + list;
      return Done;
    }

    /** Other users of Mm cannot disturb the pool: a page handed to them is never one of the pool's. */
    method PageForOthers() returns (pa: nat)
      requires Valid()
      modifies mm, mm.states
      ensures Valid() && (pa != 0 ==> pa / PAGE !in owned)
    {
      pa := mm.Allocate();
    }

    /** Nor does giving back a page that is not the pool's. */
    method PageFromOthers(pa: nat)
      requires Valid() && pa / PAGE < mm.states.Length && mm.states[pa / PAGE] == Active && pa / PAGE !in owned
      modifies mm, mm.states
      ensures Valid()
    {
      mm.Release(pa);
    }
  }
}
