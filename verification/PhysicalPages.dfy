/** Physical page allocation (mm/mminit.c): a PFN database scanned upwards from a moving hint. */
module PhysicalPages {
  const PAGE: nat := 0x1000
  /** The scan starts above 1 MB. */
  const FIRST: nat := 0x100

  datatype PfnState = Free | Active | ReservedHw | KernelImage

  /** Free pages at or above the first scanned one. */
  ghost function Available(states: seq<PfnState>): set<int> {
    set p | FIRST <= p < |states| && states[p] == Free
  }

  ghost function FreeSet(states: seq<PfnState>): set<int> {
    set p | 0 <= p < |states| && states[p] == Free
  }

  class Pages {
    const states: array<PfnState>
    /** MmFreePages and MmHintPfn. */
    var freePages: nat
    var hint: nat

    /** The count is exact, no page between 1 MB and the hint is free, and none below 1 MB was handed out. */
    ghost predicate Valid()
      reads this, states
    {
      && freePages == |FreeSet(states[..])|
      && FIRST <= hint
      && (forall p :: FIRST <= p < hint && p < states.Length ==> states[p] != Free)
      && (forall p :: 0 <= p < FIRST && p < states.Length ==> states[p] != Active)
    }

    /** The end of MmInitSystem: recount the free pages and set the hint. */
    constructor (database: array<PfnState>)
      requires forall p :: 0 <= p < database.Length ==> database[p] != Active
      ensures Valid() && states == database && hint == FIRST
    {
      states := database;
      hint := FIRST;
      var n := 0;
      ghost var seen: set<int> := {};
      for p := 0 to database.Length
        invariant forall q :: q in seen <==> 0 <= q < p && database[q] == Free
        invariant n == |seen|
      {
        if database[p] == Free {
          n := n + 1;
          seen := seen + {p};
        }
      }
      freePages := n;
      assert seen == FreeSet(database[..]);
    }

    /** MmAllocatePhysicalPage: the address of the lowest free page at or above 1 MB, or 0 exactly when there
        is none. */
    method Allocate() returns (pa: nat)
      requires Valid()
      modifies this, states
      ensures Valid()
      ensures pa == 0 <==> old(Available(states[..])) == {}
      ensures pa == 0 ==> states[..] == old(states[..]) && freePages == old(freePages) && hint == old(hint)
      ensures pa != 0 ==>
                var pfn := pa / PAGE;
                && pa == pfn * PAGE && pfn in old(Available(states[..]))
                && (forall q :: q in old(Available(states[..])) ==> pfn <= q)
                && states[..] == old(states[..])[pfn := Active]
                && freePages == old(freePages) - 1
    {
      var pfn := hint;
      pa := 0;
      while pfn < states.Length
        invariant hint <= pfn
        invariant forall p :: FIRST <= p < pfn && p < states.Length ==> states[p] != Free
      {
        if states[pfn] == Free {
          ghost var before := states[..];
          states[pfn] := Active;
          assert pfn in FreeSet(before);
          assert FreeSet(states[..]) == FreeSet(before) - {pfn};
          freePages := freePages - 1;
          hint := pfn + 1;
          pa := pfn * PAGE;
          return;
        }
        pfn := pfn + 1;
      }
    }

    /** MmFreePhysicalPage, for a page that was handed out. */
    method Release(pa: nat)
      requires Valid() && pa / PAGE < states.Length && states[pa / PAGE] == Active
      modifies this, states
      ensures Valid()
      ensures states[..] == old(states[..])[pa / PAGE := Free]
      ensures freePages == old(freePages) + 1
    {
      var pfn := pa / PAGE;
      ghost var before := states[..];
      states[pfn] := Free;
      assert FreeSet(states[..]) == FreeSet(before) + {pfn};
      freePages := freePages + 1;
      if pfn < hint {
        hint := pfn;
      }
    }
  }

  // ---- Whole runs ---------------------------------------------------------

  datatype Op = Take | Give(pa: nat)

  /** The reference allocator has no hint: it always scans from 1 MB. */
  function Lowest(states: seq<PfnState>, from: nat): (r: int)
    ensures r == -1 || from <= r < |states|
    ensures r == -1 <==> forall p :: from <= p < |states| ==> states[p] != Free
    ensures r != -1 ==> states[r] == Free && forall p :: from <= p < r ==> states[p] != Free
    decreases |states| - from
  {
    if from >= |states| then -1 else if states[from] == Free then from else Lowest(states, from + 1)
  }

  /** Results and final page states of a run; frees of pages that are not active are ignored. */
  function Reference(states: seq<PfnState>, ops: seq<Op>): (seq<nat>, seq<PfnState>)
    decreases |ops|
  {
    if ops == [] then ([], states) else
    match ops[0]
    case Take =>
      var p := Lowest(states, FIRST);
      var (rest, end) := Reference(if p == -1 then states else states[p := Active], ops[1..]);
      ([if p == -1 then 0 else p * PAGE] + rest, end)
    case Give(pa) =>
      if pa / PAGE < |states| && states[pa / PAGE] == Active then Reference(states[pa / PAGE := Free], ops[1..])
      else Reference(states, ops[1..])
  }

  /** Every run of allocations and frees from an initialised database is a run of the allocator without a
      hint, and the free count stays exact. */
  method Run(m: Pages, ops: seq<Op>) returns (results: seq<nat>)
    requires m.Valid()
    modifies m, m.states
    ensures m.Valid()
    ensures (results, m.states[..]) == Reference(old(m.states[..]), ops)
    ensures m.freePages == |FreeSet(Reference(old(m.states[..]), ops).1)|
    decreases |ops|
  {
    results := [];
    if ops != [] {
      match ops[0]
      case Take =>
        ghost var p := Lowest(m.states[..], FIRST);
        assert p != -1 ==> p in Available(m.states[..]);
        var pa := m.Allocate();
        assert pa == if p == -1 then 0 else p * PAGE;
        var rest := Run(m, ops[1..]);
        results := [pa] + rest;
      case Give(pa) =>
        if pa / PAGE < m.states.Length && m.states[pa / PAGE] == Active {
          m.Release(pa);
        }
        results := Run(m, ops[1..]);
    }
  }
}
