/** The subsystem registry (boot/registry.c): registration, lookup, profile gating and BootTopoSort. */
module BootRegistry {
  import opened Common
  import opened BootGraph

  const MAX_DEPS: nat := 8
  const MAX_NAME: nat := 32
  const NUL: char := '\0'

  /** Characters of a C string with its terminator. */
  function CharAt(s: string, k: nat): char { if k < |s| then s[k] else NUL }

  predicate CString(s: string) { NUL !in s }

  /** The comparison loop of BootFindRec and BootRegisterSubsystemEx: bounded by the 32-byte name field, yet
      exact, because stored names always end inside the field. */
  method SameName(stored: string, name: string) returns (eq: bool)
    requires CString(stored) && CString(name) && |stored| < MAX_NAME
    ensures eq <==> stored == name
  {
    for k := 0 to MAX_NAME
      invariant k <= |stored| && k <= |name| && stored[..k] == name[..k]
    {
      if CharAt(stored, k) != CharAt(name, k) {
        return false;
      }
      if CharAt(name, k) == NUL {
        assert stored == stored[..k] && name == name[..k];
        return true;
      }
    }
    return true;
  }

  datatype Status = Success | InvalidParameter | NameCollision | NoMemory | Unsuccessful

  class Registry {
    const recs: array<Rec>

    ghost predicate Valid()
      reads this, recs
    {
      forall i :: 0 <= i < recs.Length && recs[i].inUse ==>
        && CString(recs[i].name) && |recs[i].name| < MAX_NAME && |recs[i].deps| <= MAX_DEPS
        && (forall d :: d in recs[i].deps && d.Some? ==> CString(d.value))
    }

    /** BootFindRec. */
    method Find(name: Option<string>) returns (r: int)
      requires Valid() && (name.Some? ==> CString(name.value))
      ensures r == FindRec(recs[..], name)
    {
      if name.None? {
        return -1;
      }
      for i := 0 to recs.Length
        invariant forall j :: 0 <= j < i && recs[j].inUse ==> recs[j].name != name.value
      {
        if recs[i].inUse {
          var eq := SameName(recs[i].name, name.value);
          if eq {
            return i;
          }
        }
      }
      return -1;
    }

    /** BootRegisterSubsystemEx: a name longer than 31 characters is stored truncated. */
    method Register(name: Option<string>, hasInit: bool, deps: seq<Option<string>>, phase: nat) returns (status: Status)
      requires Valid()
      requires name.Some? ==> CString(name.value)
      requires forall d :: d in deps && d.Some? ==> CString(d.value)
      modifies recs
      ensures Valid()
      ensures status != Success ==> recs[..] == old(recs[..])
      ensures status == InvalidParameter <==> name.None? || !hasInit || |deps| > MAX_DEPS
      ensures status == NameCollision <==> status != InvalidParameter && FindRec(old(recs[..]), name) >= 0
      ensures status == NoMemory <==>
                status != InvalidParameter && status != NameCollision && forall i :: 0 <= i < recs.Length ==> old(recs[i]).inUse
      ensures status == Success ==>
                && FindRec(old(recs[..]), name) < 0
                && exists i :: 0 <= i < recs.Length && !old(recs[i]).inUse
                     && (forall j :: 0 <= j < i ==> old(recs[j]).inUse)
                     && recs[..] == old(recs[..])[i := Rec(name.value[..Min(MAX_NAME - 1, |name.value|)], deps, phase, false, true)]
    {
      if name.None? || !hasInit {
        return InvalidParameter;
      }
      if |deps| > MAX_DEPS {
        return InvalidParameter;
      }
      var found := Find(name);
      if found >= 0 {
        return NameCollision;
      }
      for i := 0 to recs.Length
        invariant forall j :: 0 <= j < i ==> recs[j].inUse
        invariant recs[..] == old(recs[..])
      {
        if !recs[i].inUse {
          recs[i] := Rec(name.value[..Min(MAX_NAME - 1, |name.value|)], deps, phase, false, true);
          return Success;
        }
      }
      return NoMemory;
    }

    /** BootMarkShouldInit, for any profile. */
    method MarkShouldInit(allows: string -> bool)
      requires Valid()
      modifies recs
      ensures Valid()
      ensures forall i :: 0 <= i < recs.Length ==>
                recs[i] == if old(recs[i]).inUse then old(recs[i]).(shouldInit := allows(old(recs[i]).name)) else old(recs[i])
    {
      for i := 0 to recs.Length
        invariant forall j :: 0 <= j < recs.Length ==>
                    recs[j] == if j < i && old(recs[j]).inUse
                               then old(recs[j]).(shouldInit := allows(old(recs[j]).name)) else old(recs[j])
      {
        if recs[i].inUse {
          recs[i] := recs[i].(shouldInit := allows(recs[i].name));
        }
      }
    }

    /** `p` is this registry with all names resolved. */
    ghost predicate Poses(p: Problem)
      reads this, recs
    {
      p == ProblemOf(recs[..])
    }

    /** Resolves one dependency entry. */
    method Resolve(i: nat, k: nat, ghost p: Problem) returns (dep: int)
      requires Valid() && i < recs.Length && recs[i].inUse && k < |recs[i].deps| && Poses(p)
      ensures -1 <= dep < recs.Length
      ensures k < |p.targets[i]| && p.targets[i][k] == if dep >= 0 && recs[dep].shouldInit then dep else -1
    {
      assert recs[i].deps[k] in recs[i].deps;
      dep := Find(recs[i].deps[k]);
    }

    /** The dependency count of lines 168-180. */
    method CountDeps(i: nat, ghost p: Problem) returns (d: nat)
      requires Valid() && i < recs.Length && recs[i].inUse && Poses(p)
      ensures d == Count(p.targets[i])
    {
      d := 0;
      ghost var ts := p.targets[i];
      for k := 0 to |recs[i].deps|
        invariant d == Count(ts[..k])
      {
        var dep := Resolve(i, k, p);
        if dep >= 0 && recs[dep].shouldInit {
          d := d + 1;
        }
        assert ts[..k + 1][..k] == ts[..k];
      }
      assert ts[..|ts|] == ts;
    }

    /** Lines 211-217: does record `i` list record `target`? */
    method DependsOn(i: nat, target: nat, ghost p: Problem) returns (r: bool)
      requires Valid() && i < recs.Length && recs[i].inUse && Poses(p) && InProfile(p, target)
      ensures r <==> target in DepsOf(p, i)
    {
      ghost var ts := p.targets[i];
      for k := 0 to |recs[i].deps|
        invariant forall l :: 0 <= l < k ==> ts[l] != target
      {
        var dep := Resolve(i, k, p);
        if dep == target {
          assert ts[k] == target;
          return true;
        }
      }
      return false;
    }

    /** Lines 191-201: the ready record with the lowest phase, first registered first; -1 if there is none. */
    method PickBest(emitted: array<bool>, indegree: array<nat>, ghost order: seq<int>, ghost p: Problem)
      returns (best: int)
      requires Valid() && Poses(p) && emitted.Length == indegree.Length == recs.Length
      requires Tracks(p, order, emitted[..], indegree[..])
      ensures best == -1 ==> forall i :: !(Ready(p, order, i) && Emittable(p, i))
      ensures best != -1 ==> Picked(p, order, best)
    {
      best := -1;
      var bestPhase := NO_PHASE;
      for i := 0 to recs.Length
        invariant best == -1 ==> bestPhase == NO_PHASE
        invariant best != -1 ==> 0 <= best < i && bestPhase == p.phases[best]
        invariant best != -1 ==> Ready(p, order, best) && Emittable(p, best)
        invariant forall j :: 0 <= j < i && Ready(p, order, j) && Emittable(p, j) ==> best != -1 && Before(p, best, j)
      {
        if recs[i].inUse && recs[i].shouldInit && !emitted[i] {
          ZeroMeansReady(p, order, i);
          if indegree[i] == 0 && recs[i].phase < bestPhase {
            bestPhase := recs[i].phase;
            best := i;
          }
        }
      }
    }

    /** Lines 208-218: one dependency less for everything that waited for `best`. */
    method Release(best: nat, emitted: array<bool>, indegree: array<nat>, ghost order: seq<int>, ghost p: Problem)
      requires Valid() && Poses(p) && emitted.Length == indegree.Length == recs.Length
      requires InProfile(p, best) && best !in order
      requires Pending(p, emitted[..], indegree[..], Degrees(p, order))
      modifies indegree
      ensures Pending(p, emitted[..], indegree[..], Degrees(p, order + [best]))
    {
      ghost var before, after := indegree[..], Degrees(p, order + [best]);
      for i := 0 to recs.Length
        invariant forall j :: 0 <= j < i && p.active[j] && !emitted[j] ==> indegree[j] == after[j]
        invariant forall j :: i <= j < recs.Length ==> indegree[j] == before[j]
      {
        ReleaseOne(i, best, emitted, indegree, order, p);
      }
    }

    method ReleaseOne(i: nat, best: nat, emitted: array<bool>, indegree: array<nat>, ghost order: seq<int>,
                      ghost p: Problem)
      requires Valid() && Poses(p) && emitted.Length == indegree.Length == recs.Length && i < recs.Length
      requires InProfile(p, best) && best !in order
      requires p.active[i] && !emitted[i] ==> indegree[i] == Degrees(p, order)[i]
      modifies indegree
      ensures forall j :: 0 <= j < indegree.Length && j != i ==> indegree[j] == old(indegree[j])
      ensures p.active[i] && !emitted[i] ==> indegree[i] == Degrees(p, order + [best])[i]
    {
      if recs[i].inUse && recs[i].shouldInit && !emitted[i] {
        EmittingOne(p, order, best, i);
        var waits := DependsOn(i, best, p);
        if waits {
          indegree[i] := indegree[i] - 1;
        }
      }
    }

    /** Lines 163-181. */
    method InitialDegrees(indegree: array<nat>, ghost p: Problem)
      requires Valid() && Poses(p) && indegree.Length == recs.Length
      modifies indegree
      ensures forall i :: InProfile(p, i) ==> indegree[i] == Degrees(p, [])[i]
    {
      ghost var first := Degrees(p, []);
      for i := 0 to recs.Length
        invariant forall j :: 0 <= j < i && InProfile(p, j) ==> indegree[j] == first[j]
      {
        if recs[i].inUse && recs[i].shouldInit {
          NothingEmitted(p, i);
          indegree[i] := CountDeps(i, p);
        }
      }
    }

    /** Lines 153-156. */
    method CountProfile(ghost p: Problem) returns (n: nat)
      requires Poses(p)
      ensures n == |Profile(p)| <= recs.Length
    {
      n := 0;
      ghost var seen: set<int> := {};
      for i := 0 to recs.Length
        invariant forall j :: j in seen <==> 0 <= j < i && InProfile(p, j)
        invariant n == |seen|
      {
        if recs[i].inUse && recs[i].shouldInit {
          n := n + 1;
          seen := seen + {i};
        }
      }
      assert seen == Profile(p);
      SubsetSize(seen, Below(recs.Length));
    }

    /** BootTopoSort. It succeeds exactly when the in-profile dependency graph is acyclic, no in-profile record
        lists an in-profile dependency twice and none has phase 0xFFFFFFFF; the order is then the boot order:
        a permutation of the in-profile records, each after all its in-profile dependencies, every pick the
        ready record with the lowest (phase, index). */
    method TopoSort(outOrder: array<int>) returns (status: Status, count: nat)
      requires Valid() && outOrder.Length >= recs.Length
      modifies outOrder
      ensures count <= outOrder.Length
      ensures status == Success <==> !Cyclic(GraphOf(ProblemOf(recs[..]))) && AllEmittable(ProblemOf(recs[..]))
      ensures status == Success ==> IsBootOrder(ProblemOf(recs[..]), outOrder[..count])
    {
      ghost var p := ProblemOf(recs[..]);
      status, count := Sort(outOrder, p);
    }

    /** Lines 204-218. */
    method Emit(best: nat, outOrder: array<int>, count: nat, emitted: array<bool>, indegree: array<nat>, ghost p: Problem)
      requires Valid() && Poses(p) && emitted.Length == indegree.Length == recs.Length && count < outOrder.Length
      requires outOrder as object != indegree
      requires Greedy(p, outOrder[..count]) && Picked(p, outOrder[..count], best)
      requires Tracks(p, outOrder[..count], emitted[..], indegree[..])
      modifies outOrder, emitted, indegree
      ensures Greedy(p, outOrder[..count + 1])
      ensures Tracks(p, outOrder[..count + 1], emitted[..], indegree[..])
    {
      ghost var order, marks, degrees := outOrder[..count], emitted[..], indegree[..];
      GreedyGrows(p, order, best);
      MarkingOne(p, order, best, marks, degrees);
      outOrder[count] := best;
      emitted[best] := true;
      assert emitted[..] == marks[best := true] && indegree[..] == degrees;
      Release(best, emitted, indegree, order, p);
      assert outOrder[..count + 1] == order + [best];
      StillTracks(p, order, best, marks, degrees, indegree[..]);
    }

    method Sort(outOrder: array<int>, ghost p: Problem) returns (status: Status, count: nat)
      requires Valid() && Poses(p) && outOrder.Length >= recs.Length
      modifies outOrder
      ensures count <= outOrder.Length
      ensures status == Success <==> !Cyclic(GraphOf(p)) && AllEmittable(p)
      ensures status == Success ==> IsBootOrder(p, outOrder[..count])
    {
      var n := CountProfile(p);
      var emitted := new bool[recs.Length](_ => false);
      var indegree := new nat[recs.Length](_ => 0);
      InitialDegrees(indegree, p);
      count := 0;
      while count < n
        invariant 0 <= count <= n == |Profile(p)| <= outOrder.Length
        invariant Greedy(p, outOrder[..count])
        invariant Tracks(p, outOrder[..count], emitted[..], indegree[..])
      {
        ghost var order := outOrder[..count];
        var best := PickBest(emitted, indegree, order, p);
        if best == -1 {
          SomethingLeft(p, order);
          NothingToPick(p, order);
          return Unsuccessful, 0;
        }
        Emit(best, outOrder, count, emitted, indegree, p);
        count := count + 1;
      }
      CompleteGreedy(p, outOrder[..count]);
      status := Success;
    }
  }
}
