/** User virtual memory (mm/mmuser.c): placing and removing VADs on an unordered list. */
module Vad {
  import opened Common

  const PAGE: nat := 0x1000

  datatype Region = Region(start: nat, end: nat)

  datatype Status = Success | InvalidParameter | NoMemory

  /** PAGE_ALIGN: the start of the page of an address. */
  function PageAlign(va: nat): (r: nat)
    ensures r <= va < r + PAGE && r % PAGE == 0
  {
    va / PAGE * PAGE
  }

  /** The least whole number of pages that holds `size` bytes. */
  function PageRound(size: nat): (r: nat)
    ensures size <= r < size + PAGE && r % PAGE == 0
  {
    (size + PAGE - 1) / PAGE * PAGE
  }

  /** The collision test of line 108. */
  predicate Collides(v: Region, base: nat, size: nat) { base < v.end && base + size > v.start }

  /** `size` bytes at `base` collide with nothing on the list. */
  ghost predicate Fits(vs: seq<Region>, base: nat, size: nat) {
    forall v :: v in vs ==> !Collides(v, base, size)
  }

  /** `base` is the lowest address from `from` on where `size` bytes fit. */
  ghost predicate IsLowest(vs: seq<Region>, from: nat, size: nat, base: nat) {
    from <= base && Fits(vs, base, size) && forall x: nat :: from <= x < base ==> !Fits(vs, x, size)
  }

  predicate Overlap(u: Region, v: Region) { u.start < v.end && v.start < u.end }

  /** No two regions overlap. */
  ghost predicate Apart(vs: seq<Region>) {
    forall i, j :: 0 <= i < j < |vs| ==> !Overlap(vs[i], vs[j])
  }

  ghost predicate WellFormed(vs: seq<Region>, highest: nat) {
    forall v :: v in vs ==> v.start <= v.end <= highest
  }

  /** The collision test is right: a nonempty range collides with a nonempty region exactly when they share a byte. */
  lemma CollisionIsOverlap(v: Region, base: nat, size: nat)
    requires size > 0 && v.start < v.end
    ensures Collides(v, base, size) <==> exists x :: base <= x < base + size && InRegion(x, v)
  {
    if Collides(v, base, size) {
      var x := Max(base, v.start);
      assert InRegion(x, v);
    }
  }

  predicate InRegion(x: int, v: Region) { v.start <= x < v.end }

  /** Every region ends at a page boundary. */
  ghost predicate Aligned(vs: seq<Region>) {
    forall v :: v in vs ==> v.end % PAGE == 0
  }

  /** The placement does not depend on the order of the list. */
  lemma PlacementIgnoresOrder(vs: seq<Region>, ws: seq<Region>, from: nat, size: nat, a: nat, b: nat)
    requires (forall v :: v in vs <==> v in ws) && IsLowest(vs, from, size, a) && IsLowest(ws, from, size, b)
    ensures a == b
  {
    assert forall x: nat :: Fits(vs, x, size) <==> Fits(ws, x, size);
  }

  /** Positions whose region ends above `base`: the measure of the restart loop. */
  ghost function Above(vs: seq<Region>, base: nat): set<int> {
    set j | 0 <= j < |vs| && vs[j].end > base
  }

  lemma RestartShrinks(vs: seq<Region>, base: nat, i: nat)
    requires i < |vs| && base < vs[i].end
    ensures |Above(vs, vs[i].end)| < |Above(vs, base)|
  {
    assert i in Above(vs, base) && i !in Above(vs, vs[i].end);
    SubsetSize(Above(vs, vs[i].end), Above(vs, base) - {i});
  }

  class AddressSpace {
    /** VadRoot's list in list order, NextAvailableVa and HighestVa. */
    var vads: seq<Region>
    var nextVa: nat
    const highest: nat

    ghost predicate Valid()
      reads this
    {
      && nextVa <= highest && WellFormed(vads, highest) && Apart(vads)
      && nextVa % PAGE == 0 && Aligned(vads)
    }

    /** MmCreateAddressSpace. */
    constructor (base: nat, highest: nat)
      requires base <= highest && base % PAGE == 0
      ensures Valid() && vads == [] && nextVa == base && this.highest == highest
    {
      vads, nextVa, this.highest := [], base, highest;
    }

    /** The collision loop: on a collision go to the end of the colliding region and start over. It ends because
        each restart leaves fewer regions ending above the candidate, and it ends at the lowest fit. */
    method Place(from: nat, size: nat) returns (base: nat)
      requires Valid()
      ensures IsLowest(vads, from, size, base)
      ensures base <= Max(from, highest)
    {
      base := from;
      var i := 0;
      while i < |vads|
        invariant 0 <= i <= |vads| && from <= base <= Max(from, highest)
        invariant forall j :: 0 <= j < i ==> !Collides(vads[j], base, size)
        invariant forall x: nat :: from <= x < base ==> !Fits(vads, x, size)
        decreases |Above(vads, base)|, |vads| - i
      {
        if Collides(vads[i], base, size) {
          forall x: nat | base <= x < vads[i].end ensures !Fits(vads, x, size) {
            assert vads[i] in vads && Collides(vads[i], x, size);
          }
          RestartShrinks(vads, base, i);
          assert vads[i] in vads;
          base := vads[i].end;
          i := 0;
        } else {
          i := i + 1;
        }
      }
    }

    /** MmAllocateVirtualMemory; `pool` says whether the pool delivers the VAD. The new region is the lowest fit
        from the requested page, or from the hint, and it is refused exactly when it would pass the highest
        address or the pool is out of memory. */
    method Allocate(requested: nat, regionSize: nat, pool: bool) returns (status: Status, base: nat)
      requires Valid() && Max(requested, highest) + regionSize + PAGE < TWO64
      modifies this
      ensures Valid()
      ensures IsLowest(old(vads), if requested != 0 then PageAlign(requested) else old(nextVa), PageRound(regionSize), base)
      ensures status == Success <==> base + PageRound(regionSize) <= highest && pool
      ensures status == Success ==>
                vads == [Region(base, base + PageRound(regionSize))] + old(vads) && nextVa == base + PageRound(regionSize)
      ensures status == Success ==>
                && vads[0].start == base && base + regionSize <= vads[0].end < base + regionSize + PAGE
                && base % PAGE == 0 && vads[0].end % PAGE == 0 && forall v :: v in old(vads) ==> !Overlap(vads[0], v)
      ensures status != Success ==> status == NoMemory && vads == old(vads) && nextVa == old(nextVa)
    {
      var size := PageRound(regionSize);
      base := Place(if requested != 0 then PageAlign(requested) else nextVa, size);
      if base + size > highest {
        return NoMemory, base;
      }
      if !pool {
        return NoMemory, base;
      }
      ghost var before := vads;
      LowestIsAligned(before, if requested != 0 then PageAlign(requested) else nextVa, size, base);
      var v := Region(base, base + size);
      vads := [v] + vads;
      nextVa := base + size;
      assert forall j :: 1 <= j < |vads| ==> vads[j] == before[j - 1] && before[j - 1] in before;
      return Success, base;
    }

    /** MmFreeVirtualMemory: unlinks the first region that starts at the page of `address`. */
    method Free(address: nat) returns (status: Status)
      requires Valid()
      modifies this`vads
      ensures Valid()
      ensures status == InvalidParameter <==> forall v :: v in old(vads) ==> v.start != PageAlign(address)
      ensures status == InvalidParameter ==> vads == old(vads)
      ensures status != InvalidParameter ==> status == Success && exists k ::
                && 0 <= k < |old(vads)| && old(vads)[k].start == PageAlign(address)
                && (forall j :: 0 <= j < k ==> old(vads)[j].start != PageAlign(address))
                && vads == old(vads)[..k] + old(vads)[k + 1..]
    {
      for k := 0 to |vads|
        invariant vads == old(vads)
        invariant forall j :: 0 <= j < k ==> vads[j].start != PageAlign(address)
      {
        if vads[k].start == PageAlign(address) {
          assert vads[k] in vads;
          vads := vads[..k] + vads[k + 1..];
          assert forall v :: v in vads ==> v in old(vads);
          return Success;
        }
      }
      return InvalidParameter;
    }

    /** Freeing what was just allocated restores the list, whatever else starts at the same address. */
    method AllocateThenFree(requested: nat, regionSize: nat) returns (status: Status)
      requires Valid() && Max(requested, highest) + regionSize + PAGE < TWO64
      modifies this
      ensures Valid() && vads == old(vads)
    {
      var base;
      ghost var before := vads;
      status, base := Allocate(requested, regionSize, true);
      if status == Success {
        LowestIsAligned(before, if requested != 0 then PageAlign(requested) else old(nextVa), PageRound(regionSize), base);
        assert vads[0].start == base == PageAlign(base);
        status := Free(base);
        assert vads == before;
      }
    }
  }

  /** The lowest fit is where the search started or where some region ends, so it stays page aligned. */
  lemma LowestIsAligned(vs: seq<Region>, from: nat, size: nat, base: nat)
    requires IsLowest(vs, from, size, base) && from % PAGE == 0 && Aligned(vs)
    ensures base % PAGE == 0
  {
    if base > from {
      assert !Fits(vs, base - 1, size);
      var v :| v in vs && Collides(v, base - 1, size);
      assert !Collides(v, base, size);
    }
  }
}
