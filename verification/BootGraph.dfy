/** The dependency graph of the boot registry (boot/registry.c) and what a boot order must satisfy. */
module BootGraph {
  import opened Common

  /** (ULONG)-1: the initial bestPhase, which no candidate with this phase can beat. */
  const NO_PHASE: nat := 0xFFFF_FFFF

  datatype Rec = Rec(name: string, deps: seq<Option<string>>, phase: nat, shouldInit: bool, inUse: bool)

  /** BootFindRec: the first record in use with this name, or -1. */
  function FindRec(recs: seq<Rec>, name: Option<string>): (r: int)
    ensures -1 <= r < |recs|
    ensures r >= 0 ==> recs[r].inUse && name == Some(recs[r].name)
    ensures r >= 0 ==> forall i :: 0 <= i < r && recs[i].inUse ==> name != Some(recs[i].name)
    ensures r < 0 ==> forall i :: 0 <= i < |recs| && recs[i].inUse ==> name != Some(recs[i].name)
  {
    if recs == [] || name.None? then -1 else
    var before := FindRec(recs[..|recs| - 1], name);
    if before >= 0 then before
    else if recs[|recs| - 1].inUse && recs[|recs| - 1].name == name.value then |recs| - 1
    else -1
  }

  /** The in-profile record that a dependency entry refers to, or -1 if it counts as satisfied. */
  function Target(recs: seq<Rec>, dep: Option<string>): (r: int)
    ensures r == -1 || (0 <= r < |recs| && recs[r].inUse && recs[r].shouldInit)
  {
    var j := FindRec(recs, dep);
    if j >= 0 && recs[j].shouldInit then j else -1
  }

  /** Record `i` is the first in use with this name. */
  predicate Named(recs: seq<Rec>, dep: Option<string>, i: int) {
    && 0 <= i < |recs| && recs[i].inUse && dep == Some(recs[i].name)
    && forall j :: 0 <= j < i && recs[j].inUse ==> dep != Some(recs[j].name)
  }

  /** A dependency counts as satisfied exactly when no record has the name or the record that has it is off profile;
      otherwise it refers to that record. */
  lemma TargetMeans(recs: seq<Rec>, dep: Option<string>)
    ensures Target(recs, dep) == -1 <==> forall i :: Named(recs, dep, i) ==> !recs[i].shouldInit
    ensures forall i :: Named(recs, dep, i) && recs[i].shouldInit ==> Target(recs, dep) == i
  {
    var j := FindRec(recs, dep);
    if j >= 0 {
      assert Named(recs, dep, j);
    }
  }

  /** The registry with names resolved: which records are in profile, whom each entry of their dependency
      lists refers to (-1 for nobody), and their phases. */
  datatype RawProblem = Problem(active: seq<bool>, targets: seq<seq<int>>, phases: seq<nat>)

  type Problem = p: RawProblem | WellPosed(p) witness Problem([], [], [])

  ghost function ProblemOf(recs: seq<Rec>): (p: Problem)
    ensures |p.active| == |recs|
    ensures forall i :: 0 <= i < |recs| ==> p.active[i] == (recs[i].inUse && recs[i].shouldInit)
    ensures forall i :: 0 <= i < |recs| ==> p.phases[i] == recs[i].phase && |p.targets[i]| == |recs[i].deps|
    ensures forall i, k :: 0 <= i < |recs| && 0 <= k < |recs[i].deps| ==>
              p.targets[i][k] == Target(recs, recs[i].deps[k])
  {
    Problem(seq(|recs|, i requires 0 <= i < |recs| => recs[i].inUse && recs[i].shouldInit),
            seq(|recs|, i requires 0 <= i < |recs| => seq(|recs[i].deps|, k requires 0 <= k < |recs[i].deps| =>
              Target(recs, recs[i].deps[k]))),
            seq(|recs|, i requires 0 <= i < |recs| => recs[i].phase))
  }

  ghost predicate WellPosed(p: RawProblem) {
    && |p.targets| == |p.phases| == |p.active|
    && (forall i, t :: 0 <= i < |p.targets| && t in p.targets[i] ==> t == -1 || InProfile(p, t))
  }

  ghost predicate InProfile(p: RawProblem, i: int) {
    0 <= i < |p.active| && p.active[i]
  }

  /** The records that a resolved list waits for. */
  ghost function Awaited(ts: seq<int>): set<int> { set t | t in ts && t >= 0 }

  ghost function DepsOf(p: Problem, i: int): set<int>
    requires 0 <= i < |p.targets|
  {
    Awaited(p.targets[i])
  }

  /** How many entries are counted (lines 169-178). */
  ghost function Count(ts: seq<int>): nat {
    if ts == [] then 0 else Count(ts[..|ts| - 1]) + if ts[|ts| - 1] >= 0 then 1 else 0
  }

  /** No in-profile record is listed twice. */
  ghost predicate NoRepeat(ts: seq<int>) {
    forall k, l :: 0 <= k < l < |ts| && ts[k] >= 0 ==> ts[k] != ts[l]
  }

  lemma NoRepeatSnoc(front: seq<int>, t: int)
    ensures NoRepeat(front + [t]) <==> NoRepeat(front) && (t >= 0 ==> t !in front)
  {
    var ts := front + [t];
    assert forall k :: 0 <= k < |front| ==> ts[k] == front[k];
    if t >= 0 && t in front {
      var k :| 0 <= k < |front| && front[k] == t;
      assert ts[k] == ts[|front|];
    }
  }

  /** Counting entries counts records exactly when none is repeated. */
  lemma {:induction false} CountIsSize(ts: seq<int>)
    ensures |Awaited(ts)| <= Count(ts)
    ensures |Awaited(ts)| == Count(ts) <==> NoRepeat(ts)
  {
    if ts == [] {
      assert Awaited(ts) == {};
    } else {
      var front, t := ts[..|ts| - 1], ts[|ts| - 1];
      assert ts == front + [t];
      CountIsSize(front);
      NoRepeatSnoc(front, t);
      hide NoRepeat;
      assert Awaited(ts) == Awaited(front) + if t >= 0 then {t} else {};
      if t in Awaited(front) {
        assert Awaited(ts) == Awaited(front);
      }
    }
  }

  // ---- Boot orders --------------------------------------------------------

  /** What the sort needs of a record beyond acyclicity; a record that fails this is never emitted. */
  ghost predicate Emittable(p: Problem, i: int)
    requires 0 <= i < |p.active|
  {
    NoRepeat(p.targets[i]) && p.phases[i] < NO_PHASE
  }

  /** Not yet emitted, every in-profile dependency emitted. */
  ghost predicate Ready(p: Problem, order: seq<int>, i: int) {
    InProfile(p, i) && i !in order && forall j :: j in DepsOf(p, i) ==> j in order
  }

  /** Lower phase first, then registration order. */
  ghost predicate Before(p: Problem, i: int, j: int)
    requires 0 <= i < |p.active| && 0 <= j < |p.active|
  {
    p.phases[i] < p.phases[j] || (p.phases[i] == p.phases[j] && i <= j)
  }

  /** `i` is the first, by phase and index, of the ready records that can be emitted. */
  ghost predicate Picked(p: Problem, order: seq<int>, i: int) {
    && Ready(p, order, i) && Emittable(p, i)
    && (forall j :: Ready(p, order, j) && Emittable(p, j) ==> Before(p, i, j))
  }

  ghost predicate Greedy(p: Problem, order: seq<int>) {
    forall k :: 0 <= k < |order| ==> Picked(p, order[..k], order[k])
  }

  // ---- Cycles -------------------------------------------------------------

  /** In-profile records with the in-profile records each of them waits for. */
  type Graph = map<int, set<int>>

  ghost function GraphOf(p: Problem): (g: Graph)
    ensures forall i :: i in g <==> InProfile(p, i)
    ensures forall i :: InProfile(p, i) ==> g[i] == DepsOf(p, i)
  {
    map i | 0 <= i < |p.active| && InProfile(p, i) :: DepsOf(p, i)
  }

  ghost predicate Path(g: Graph, p: seq<int>) {
    && (forall i :: 0 <= i < |p| ==> p[i] in g)
    && (forall i, j :: 0 <= i && j == i + 1 && j < |p| ==> p[j] in g[p[i]])
  }

  /** Some record waits, through a chain of dependencies, for itself. */
  ghost predicate Cyclic(g: Graph) {
    exists p :: |p| >= 2 && Path(g, p) && p[0] == p[|p| - 1]
  }

  /** Every record of the graph comes after everything it waits for. */
  ghost predicate Topological(g: Graph, order: seq<int>) {
    && Distinct(order)
    && (forall k :: 0 <= k < |order| ==> order[k] in g)
    && (forall k, j :: 0 <= k < |order| && j in g[order[k]] ==> j in order[..k])
  }

  /** Along a path that starts inside a topological order, positions strictly fall. */
  lemma {:induction false} PositionsFall(g: Graph, order: seq<int>, p: seq<int>, n: nat)
    requires Topological(g, order) && Path(g, p) && |p| >= 2
    requires n < |order| && p[0] == order[n]
    ensures p[|p| - 1] in order[..n]
    decreases |p|
  {
    assert p[1] in g[p[0]];
    var m :| 0 <= m < n && order[m] == p[1];
    if |p| > 2 {
      var q := p[1..];
      PathSlice(g, p, 1, |p|);
      PositionsFall(g, order, q, m);
      assert order[..m] <= order[..n];
    }
  }

  /** A complete topological order rules out cycles. */
  lemma CompleteMeansAcyclic(g: Graph, order: seq<int>)
    requires Topological(g, order) && forall i :: i in g ==> i in order
    ensures !Cyclic(g)
  {
    forall p | |p| >= 2 && Path(g, p) ensures p[0] != p[|p| - 1] {
      var n :| 0 <= n < |order| && order[n] == p[0];
      PositionsFall(g, order, p, n);
    }
  }

  /** `s` is stuck: each of its records waits for another of its records. */
  ghost predicate Stuck(g: Graph, s: set<int>) {
    forall i {:trigger WaitsInside(g, s, i)} :: i in s ==> WaitsInside(g, s, i)
  }

  ghost predicate WaitsInside(g: Graph, s: set<int>, i: int) {
    i in g && exists j :: j in s && j in g[i]
  }

  lemma {:induction false} Walk(g: Graph, s: set<int>, from: int, n: nat) returns (p: seq<int>)
    requires Stuck(g, s) && from in s
    ensures |p| == n + 1 && p[0] == from && Path(g, p) && forall i :: 0 <= i < |p| ==> p[i] in s
    decreases n
  {
    assert WaitsInside(g, s, from);
    if n == 0 {
      p := [from];
    } else {
      var next :| next in s && next in g[from];
      var q := Walk(g, s, next, n - 1);
      p := [from] + q;
      PathCons(g, from, q);
    }
  }

  lemma PathCons(g: Graph, x: int, q: seq<int>)
    requires Path(g, q) && x in g && |q| > 0 && q[0] in g[x]
    ensures Path(g, [x] + q)
  {
    var p := [x] + q;
    forall i, j | 0 <= i && j == i + 1 && j < |p| ensures p[j] in g[p[i]] {
      assert p[j] == q[i];
      if i > 0 {
        var k := i - 1;
        assert p[i] == q[k] && q[i] in g[q[k]];
      }
    }
  }

  lemma PathSlice(g: Graph, p: seq<int>, a: nat, b: nat)
    requires Path(g, p) && a <= b <= |p|
    ensures Path(g, p[a..b])
  {
    var q := p[a..b];
    forall i, j | 0 <= i && j == i + 1 && j < |q| ensures q[j] in g[q[i]] {
      assert q[i] == p[a + i] && q[j] == p[a + j];
    }
  }

  /** A nonempty stuck set contains a cycle. */
  lemma StuckMeansCyclic(g: Graph, s: set<int>, from: int, size: nat)
    requires Stuck(g, s) && from in s && forall i :: i in g ==> 0 <= i < size
    ensures Cyclic(g)
  {
    var p := Walk(g, s, from, size);
    Pigeonhole(p, size);
    var i, j :| 0 <= i < j < |p| && p[i] == p[j];
    var q := p[i..j + 1];
    PathSlice(g, p, i, j + 1);
    assert q[0] == q[|q| - 1];
  }

  /** A greedy order has no repetitions and puts every record after its dependencies. */
  lemma GreedyIsTopological(p: Problem, order: seq<int>)
    requires Greedy(p, order)
    ensures Topological(GraphOf(p), order)
  {
    forall k | 0 <= k < |order|
      ensures InProfile(p, order[k]) && order[k] !in order[..k]
      ensures forall j :: j in DepsOf(p, order[k]) ==> j in order[..k]
    {
      assert Picked(p, order[..k], order[k]);
    }
    forall i, j | 0 <= i < j < |order| ensures order[i] != order[j] {
      assert order[..j][i] == order[i];
    }
  }

  // ---- In-degrees ---------------------------------------------------------

  ghost function Profile(p: Problem): set<int> {
    set i | 0 <= i < |p.active| && InProfile(p, i)
  }

  /** The in-degree that record `i` should have once `order` is emitted. */
  ghost function Left(p: Problem, order: seq<int>, i: int): (d: nat)
    requires 0 <= i < |p.active|
  {
    CountIsSize(p.targets[i]);
    SubsetSize(DepsOf(p, i) * Elements(order), DepsOf(p, i));
    Count(p.targets[i]) - |DepsOf(p, i) * Elements(order)|
  }

  /** All in-degrees. */
  ghost function Degrees(p: Problem, order: seq<int>): (r: seq<nat>)
    ensures |r| == |p.active|
  {
    seq(|p.active|, i requires 0 <= i < |p.active| => Left(p, order, i))
  }

  /** The working arrays agree with what is left to emit. */
  ghost predicate Tracks(p: Problem, order: seq<int>, emitted: seq<bool>, indegree: seq<nat>) {
    && |emitted| == |indegree| == |p.active|
    && (forall i :: InProfile(p, i) ==> (emitted[i] <==> i in order))
    && (forall i :: InProfile(p, i) && i !in order ==> indegree[i] == Degrees(p, order)[i])
  }

  /** The in-degrees of records still to be emitted are as in `degrees`. */
  ghost predicate Pending(p: Problem, emitted: seq<bool>, indegree: seq<nat>, degrees: seq<nat>) {
    && |emitted| == |indegree| == |degrees| == |p.active|
    && (forall i :: 0 <= i < |emitted| && p.active[i] && !emitted[i] ==> indegree[i] == degrees[i])
  }

  lemma MarkingOne(p: Problem, order: seq<int>, x: int, emitted: seq<bool>, indegree: seq<nat>)
    requires Tracks(p, order, emitted, indegree) && InProfile(p, x)
    ensures Pending(p, emitted[x := true], indegree, Degrees(p, order))
  {
    forall i | 0 <= i < |emitted| && p.active[i] && !emitted[x := true][i] ensures indegree[i] == Degrees(p, order)[i] {
      assert InProfile(p, i);
    }
  }

  lemma StillTracks(p: Problem, order: seq<int>, x: int, emitted: seq<bool>, indegree: seq<nat>, indegree': seq<nat>)
    requires Tracks(p, order, emitted, indegree) && InProfile(p, x)
    requires Pending(p, emitted[x := true], indegree', Degrees(p, order + [x]))
    ensures Tracks(p, order + [x], emitted[x := true], indegree')
  {
  }

  /** An in-degree of zero means ready, and that no dependency is listed twice. */
  lemma ZeroMeansReady(p: Problem, order: seq<int>, i: int)
    requires InProfile(p, i) && i !in order
    ensures Degrees(p, order)[i] == 0 <==> Ready(p, order, i) && NoRepeat(p.targets[i])
  {
    var deps, got := DepsOf(p, i), DepsOf(p, i) * Elements(order);
    CountIsSize(p.targets[i]);
    SubsetSize(got, deps);
    assert Ready(p, order, i) <==> got == deps;
  }

  lemma EmittingOne(p: Problem, order: seq<int>, x: int, i: int)
    requires x !in order && 0 <= i < |p.active|
    ensures Degrees(p, order)[i] == Degrees(p, order + [x])[i] + if x in DepsOf(p, i) then 1 else 0
  {
    var deps := DepsOf(p, i);
    assert Elements(order + [x]) == Elements(order) + {x};
    if x in deps {
      assert deps * Elements(order + [x]) == deps * Elements(order) + {x};
    } else {
      assert deps * Elements(order + [x]) == deps * Elements(order);
    }
  }

  lemma NothingEmitted(p: Problem, i: int)
    requires 0 <= i < |p.active|
    ensures Degrees(p, [])[i] == Count(p.targets[i])
  {
    assert DepsOf(p, i) * Elements([]) == {};
  }

  /** Appending a picked record keeps an order greedy. */
  lemma GreedyGrows(p: Problem, order: seq<int>, x: int)
    requires Greedy(p, order) && Picked(p, order, x)
    ensures Greedy(p, order + [x])
  {
    var o := order + [x];
    forall k | 0 <= k < |o| ensures Picked(p, o[..k], o[k]) {
      if k < |order| {
        assert o[..k] == order[..k];
      } else {
        assert o[..k] == order;
      }
    }
  }

  ghost predicate AllEmittable(p: Problem) {
    forall i :: InProfile(p, i) ==> Emittable(p, i)
  }

  lemma SomethingLeft(p: Problem, order: seq<int>)
    requires Greedy(p, order) && |order| < |Profile(p)|
    ensures exists i :: InProfile(p, i) && i !in order
  {
    GreedyIsTopological(p, order);
    DistinctSize(order);
    if Profile(p) <= Elements(order) {
      SubsetSize(Profile(p), Elements(order));
    }
  }

  /** If nothing more can be picked although something is left, the graph is cyclic or some record can never
      be emitted. */
  lemma NothingToPick(p: Problem, order: seq<int>)
    requires forall i :: !(Ready(p, order, i) && Emittable(p, i))
    requires exists i :: InProfile(p, i) && i !in order
    ensures Cyclic(GraphOf(p)) || !AllEmittable(p)
  {
    if AllEmittable(p) {
      var g, s := GraphOf(p), Profile(p) - Elements(order);
      forall i | i in s ensures WaitsInside(g, s, i) {
        assert !Ready(p, order, i);
        var j :| j in DepsOf(p, i) && j !in order;
        assert InProfile(p, j);
        assert j in s;
      }
      var from :| InProfile(p, from) && from !in order;
      StuckMeansCyclic(g, s, from, |p.active|);
    }
  }

  /** `i` is the ready record with the lowest (phase, index). */
  ghost predicate FirstReady(p: Problem, order: seq<int>, i: int) {
    Ready(p, order, i) && forall j :: Ready(p, order, j) ==> Before(p, i, j)
  }

  /** What a successful sort delivers: every in-profile record exactly once, after all its in-profile
      dependencies, each chosen as the first ready record at that point. */
  ghost predicate IsBootOrder(p: Problem, order: seq<int>) {
    && Topological(GraphOf(p), order)
    && (forall i :: InProfile(p, i) ==> i in order)
    && (forall k :: 0 <= k < |order| ==> FirstReady(p, order[..k], order[k]))
  }

  lemma CompleteGreedy(p: Problem, order: seq<int>)
    requires Greedy(p, order) && |order| == |Profile(p)|
    ensures IsBootOrder(p, order) && AllEmittable(p) && !Cyclic(GraphOf(p))
  {
    GreedyIsTopological(p, order);
    DistinctSize(order);
    SubsetSize(Elements(order), Profile(p));
    assert forall i :: InProfile(p, i) ==> i in Profile(p);
    CompleteMeansAcyclic(GraphOf(p), order);
    forall i | InProfile(p, i) ensures Emittable(p, i) {
      var k :| 0 <= k < |order| && order[k] == i;
      assert Picked(p, order[..k], order[k]);
    }
    forall k | 0 <= k < |order| ensures FirstReady(p, order[..k], order[k]) {
      assert Picked(p, order[..k], order[k]);
    }
  }

  /** There is only one boot order. */
  lemma BootOrderIsUnique(p: Problem, a: seq<int>, b: seq<int>)
    requires IsBootOrder(p, a) && IsBootOrder(p, b)
    ensures a == b
  {
    DistinctSize(a);
    DistinctSize(b);
    assert Elements(a) == Elements(b);
    SamePrefix(p, a, b, |a|);
    assert a[..|a|] == a && b[..|a|] == b;
  }

  lemma {:induction false} SamePrefix(p: Problem, a: seq<int>, b: seq<int>, k: nat)
    requires IsBootOrder(p, a) && IsBootOrder(p, b) && k <= |a| && k <= |b|
    ensures a[..k] == b[..k]
  {
    if k > 0 {
      SamePrefix(p, a, b, k - 1);
      assert FirstReady(p, a[..k - 1], a[k - 1]) && FirstReady(p, b[..k - 1], b[k - 1]);
      assert a[..k] == a[..k - 1] + [a[k - 1]] && b[..k] == b[..k - 1] + [b[k - 1]];
    }
  }

  /** Two records, the second of which names the first as a dependency twice. */
  const Twice: seq<Rec> := [Rec("a", [], 0, true, true), Rec("b", [Some("a"), Some("a")], 0, true, true)]

  lemma TwiceResolved()
    ensures ProblemOf(Twice) == Problem([true, true], [[], [0, 0]], [0, 0])
  {
    var p := ProblemOf(Twice);
    assert Named(Twice, Some("a"), 0);
    TargetMeans(Twice, Some("a"));
    assert forall k :: 0 <= k < 2 ==> p.targets[1][k] == Target(Twice, Twice[1].deps[k]);
    assert p.targets[0] == [] && p.targets[1] == [0, 0];
    assert p.active == [true, true] && p.phases == [0, 0] && p.targets == [[], [0, 0]];
  }

  lemma ListedTwice(p: Problem)
    requires p == Problem([true, true], [[], [0, 0]], [0, 0])
    ensures !Cyclic(GraphOf(p)) && !AllEmittable(p) && Profile(p) == {0, 1}
  {
    assert InProfile(p, 0) && InProfile(p, 1);
    assert p.targets[1][0] == p.targets[1][1] == 0;
    assert !Emittable(p, 1);
    assert DepsOf(p, 0) == {} && DepsOf(p, 1) == {0};
    var order := [0, 1];
    assert order[..1] == [0];
    CompleteMeansAcyclic(GraphOf(p), order);
  }

  /** Acyclicity alone is not enough: a record that lists one dependency twice counts it twice but is released
      once, so two records without any cycle fail to sort. */
  lemma RepeatedDependencyBlocks()
    ensures var p := ProblemOf(Twice); !Cyclic(GraphOf(p)) && !AllEmittable(p) && Profile(p) == {0, 1}
  {
    TwiceResolved();
    ListedTwice(ProblemOf(Twice));
  }
}
