/** The in-memory registry (cm/cm.c): key nodes linked through ChildHead and NextSibling, path lookup with
    creation, and values. Nodes are numbered in order of creation; -1 is NULL and 0 is CmRootKey. */
module KeyTree {
  import opened Common
  import opened HiveFormat

  const NULL: int := -1
  const ROOT: int := 0
  const BACKSLASH: Wchar := 0x5C

  datatype Node = Node(name: seq<Wchar>, parent: int, childHead: int, nextSibling: int,
                       subKeyCount: nat, values: seq<Stored>, valueCount: nat)

  /** The character at each position of each buffer in memory. Key names are copied into buffers of their own, but a
      value keeps a reference to the buffer that its name lay in when it was set. */
  type Memory = (nat, nat) -> Wchar

  datatype NameRef = NameRef(buffer: nat, length: nat)

  datatype Stored = Stored(name: NameRef, kind: nat, data: Bytes)

  /** The name, and the value, as memory shows it now. */
  function Text(mem: Memory, r: NameRef): (s: seq<Wchar>)
    ensures |s| == r.length
  {
    seq(r.length, i requires 0 <= i => mem(r.buffer, i))
  }

  function Shown(mem: Memory, v: Stored): Value { Value(Text(mem, v.name), v.kind, v.data) }

  function ShownAll(mem: Memory, vs: seq<Stored>): (r: seq<Value>)
    ensures |r| == |vs| && forall i :: 0 <= i < |vs| ==> r[i] == Shown(mem, vs[i])
  {
    seq(|vs|, i requires 0 <= i < |vs| => Shown(mem, vs[i]))
  }

  // ---- Names and paths ----------------------------------------------------

  /** RtlpUpcase. */
  function Upcase(c: Wchar): Wchar { if 0x61 <= c <= 0x7A then c - 32 else c }

  /** RtlEqualUnicodeString, ignoring case. */
  predicate SameName(a: seq<Wchar>, b: seq<Wchar>) {
    |a| == |b| && forall i :: 0 <= i < |a| ==> Upcase(a[i]) == Upcase(b[i])
  }

  /** Position of the first backslash, or the length. */
  function Slash(s: seq<Wchar>): (i: nat)
    ensures i <= |s| && (i < |s| ==> s[i] == BACKSLASH) && forall j :: 0 <= j < i ==> s[j] != BACKSLASH
  {
    if s == [] || s[0] == BACKSLASH then 0 else 1 + Slash(s[1..])
  }

  /** The segment that the scan of lines 112-119 takes: up to the first backslash, but everything if that would
      be empty. */
  function Segment(rest: seq<Wchar>): seq<Wchar> {
    if Slash(rest) == 0 then rest else rest[..Slash(rest)]
  }

  function Segments(rest: seq<Wchar>): seq<seq<Wchar>>
    decreases |rest|
  {
    if rest == [] then []
    else [Segment(rest)] + if Slash(rest) < |rest| then Segments(rest[Slash(rest) + 1..]) else []
  }

  lemma SegmentsAdvance(rest: seq<Wchar>, done: seq<seq<Wchar>>)
    requires rest != []
    ensures var left := if Slash(rest) < |rest| then rest[Slash(rest) + 1..] else [];
            done + Segments(rest) == (done + [Segment(rest)]) + Segments(left)
  {
    var left := if Slash(rest) < |rest| then rest[Slash(rest) + 1..] else [];
    assert Segments(rest) == [Segment(rest)] + Segments(left);
    hide Segments, Segment, Slash;
    assert done + ([Segment(rest)] + Segments(left)) == (done + [Segment(rest)]) + Segments(left);
  }

  /** One leading backslash is skipped. */
  function Path(name: seq<Wchar>): seq<seq<Wchar>> {
    Segments(if |name| > 0 && name[0] == BACKSLASH then name[1..] else name)
  }

  // ---- The tree that the links spell out ----------------------------------

  ghost function At(s: seq<int>, i: int): int { if 0 <= i < |s| then s[i] else NULL }

  /** `ks` are the children of node `i`: ChildHead and NextSibling visit them in order, SubKeyCount counts
      them, and each is younger than its parent. */
  ghost predicate ChildList(ns: seq<Node>, i: int, ks: seq<int>)
    requires 0 <= i < |ns|
  {
    && ns[i].childHead == At(ks, 0)
    && ns[i].subKeyCount == |ks|
    && ns[i].valueCount == |ns[i].values|
    && (forall j :: 0 <= j < |ks| ==> i < ks[j] < |ns| && ns[ks[j]].parent == i)
    && (forall j {:trigger ns[ks[j]].nextSibling} :: 0 <= j < |ks| ==> ns[ks[j]].nextSibling == At(ks, j + 1))
  }

  ghost predicate Linked(ns: seq<Node>, kids: seq<seq<int>>) {
    && 0 < |ns| == |kids| && ns[ROOT].name == [BACKSLASH]
    && (forall i :: 0 <= i < |ns| ==> ChildList(ns, i, kids[i]) && Distinct(kids[i]))
  }

  /** The key tree below node `i`, with value names as memory shows them. */
  ghost function Tree(ns: seq<Node>, kids: seq<seq<int>>, mem: Memory, i: int): (k: Key)
    requires Linked(ns, kids) && 0 <= i < |ns|
    decreases |ns| - i, 1
  {
    assert ChildList(ns, i, kids[i]);
    Key(ns[i].name, Trees(ns, kids, mem, i, kids[i]), ShownAll(mem, ns[i].values))
  }

  ghost function Trees(ns: seq<Node>, kids: seq<seq<int>>, mem: Memory, i: int, ks: seq<int>): (r: seq<Key>)
    requires Linked(ns, kids) && 0 <= i < |ns| && forall j :: 0 <= j < |ks| ==> i < ks[j] < |ns|
    ensures |r| == |ks|
    decreases |ns| - i, 0, |ks|
  {
    if ks == [] then [] else [Tree(ns, kids, mem, ks[0])] + Trees(ns, kids, mem, i, ks[1..])
  }

  /** The first child with a matching name, or NULL. */
  ghost function FindKid(ns: seq<Node>, ks: seq<int>, name: seq<Wchar>): (r: int)
    requires forall j :: 0 <= j < |ks| ==> 0 <= ks[j] < |ns|
    ensures r == NULL || r in ks
  {
    if ks == [] then NULL else if SameName(ns[ks[0]].name, name) then ks[0] else FindKid(ns, ks[1..], name)
  }

  ghost predicate FirstMatch(ns: seq<Node>, ks: seq<int>, name: seq<Wchar>, j: int)
    requires forall l :: 0 <= l < |ks| ==> 0 <= ks[l] < |ns|
  {
    && 0 <= j < |ks| && SameName(ns[ks[j]].name, name)
    && forall l :: 0 <= l < j ==> !SameName(ns[ks[l]].name, name)
  }

  /** It is the first child whose name matches; there is none exactly when no child's name does. */
  lemma {:induction false} FindKidMeans(ns: seq<Node>, ks: seq<int>, name: seq<Wchar>)
    requires forall j :: 0 <= j < |ks| ==> 0 <= ks[j] < |ns|
    ensures FindKid(ns, ks, name) == NULL <==> forall j :: 0 <= j < |ks| ==> !SameName(ns[ks[j]].name, name)
    ensures forall j :: FirstMatch(ns, ks, name, j) ==> FindKid(ns, ks, name) == ks[j]
    decreases |ks|
  {
    if ks != [] {
      var rest := ks[1..];
      assert forall j :: 1 <= j < |ks| ==> ks[j] == rest[j - 1];
      FindKidMeans(ns, rest, name);
      forall j | FirstMatch(ns, ks, name, j) ensures FindKid(ns, ks, name) == ks[j] {
        assert j > 0 ==> FirstMatch(ns, rest, name, j - 1) by {
          assert forall l :: 0 <= l < |rest| ==> rest[l] == ks[l + 1];
        }
      }
      assert FindKid(ns, rest, name) == NULL || exists j :: 0 <= j < |rest| && rest[j] == FindKid(ns, rest, name);
    }
  }

  /** Where a path leads from node `i`, or NULL. */
  ghost function Lookup(ns: seq<Node>, kids: seq<seq<int>>, i: int, path: seq<seq<Wchar>>): (r: int)
    requires Linked(ns, kids) && 0 <= i < |ns|
    ensures r == NULL || i <= r < |ns|
    ensures r == i ==> path == []
    decreases |path|
  {
    if path == [] then i else
    assert ChildList(ns, i, kids[i]);
    var c := FindKid(ns, kids[i], path[0]);
    if c == NULL then NULL else Lookup(ns, kids, c, path[1..])
  }

  lemma {:induction false} LookupInSteps(ns: seq<Node>, kids: seq<seq<int>>, i: int, a: seq<seq<Wchar>>, b: seq<seq<Wchar>>)
    requires Linked(ns, kids) && 0 <= i < |ns|
    ensures var m := Lookup(ns, kids, i, a);
            Lookup(ns, kids, i, a + b) == if m == NULL then NULL else Lookup(ns, kids, m, b)
    decreases |a|
  {
    if a == [] {
      assert a + b == b;
    } else {
      assert (a + b)[1..] == a[1..] + b;
      assert ChildList(ns, i, kids[i]);
      var c := FindKid(ns, kids[i], a[0]);
      if c != NULL {
        LookupInSteps(ns, kids, c, a[1..], b);
      }
    }
  }

  // ---- Letter case and paths ----------------------------------------------

  /** The same character, or the same letter A to Z in the other case. */
  predicate CaseVariant(a: Wchar, b: Wchar) {
    a == b || (0x41 <= a <= 0x5A && b == a + 32) || (0x41 <= b <= 0x5A && a == b + 32)
  }

  /** Names match exactly when they differ in the case of ASCII letters only. */
  lemma SameNameMeans(a: seq<Wchar>, b: seq<Wchar>)
    ensures SameName(a, b) <==> |a| == |b| && forall i :: 0 <= i < |a| ==> CaseVariant(a[i], b[i])
  {
    assert forall i :: 0 <= i < |a| && i < |b| ==> (Upcase(a[i]) == Upcase(b[i]) <==> CaseVariant(a[i], b[i]));
  }

  lemma {:induction false} FindKidIgnoresCase(ns: seq<Node>, ks: seq<int>, a: seq<Wchar>, b: seq<Wchar>)
    requires (forall j :: 0 <= j < |ks| ==> 0 <= ks[j] < |ns|) && SameName(a, b)
    ensures FindKid(ns, ks, a) == FindKid(ns, ks, b)
    decreases |ks|
  {
    if ks != [] {
      assert SameName(ns[ks[0]].name, a) <==> SameName(ns[ks[0]].name, b);
      FindKidIgnoresCase(ns, ks[1..], a, b);
    }
  }

  /** Changing the case of letters anywhere in a path leads to the same key. */
  lemma {:induction false} LookupIgnoresCase(ns: seq<Node>, kids: seq<seq<int>>, i: int, p: seq<seq<Wchar>>, q: seq<seq<Wchar>>)
    requires Linked(ns, kids) && 0 <= i < |ns| && |p| == |q|
    requires forall j :: 0 <= j < |p| ==> |p[j]| == |q[j]| && forall k :: 0 <= k < |p[j]| ==> CaseVariant(p[j][k], q[j][k])
    ensures Lookup(ns, kids, i, p) == Lookup(ns, kids, i, q)
    decreases |p|
  {
    if p != [] {
      assert ChildList(ns, i, kids[i]);
      SameNameMeans(p[0], q[0]);
      FindKidIgnoresCase(ns, kids[i], p[0], q[0]);
      var c := FindKid(ns, kids[i], p[0]);
      if c != NULL {
        LookupIgnoresCase(ns, kids, c, p[1..], q[1..]);
      }
    }
  }

  /** Segments with a backslash between them. */
  function Joined(segments: seq<seq<Wchar>>): seq<Wchar> {
    if segments == [] then []
    else if |segments| == 1 then segments[0]
    else segments[0] + [BACKSLASH] + Joined(segments[1..])
  }

  ghost predicate Plain(segments: seq<seq<Wchar>>) {
    forall j :: 0 <= j < |segments| ==> segments[j] != [] && BACKSLASH !in segments[j]
  }

  lemma {:induction false} SlashAfter(a: seq<Wchar>, b: seq<Wchar>)
    requires BACKSLASH !in a && (b == [] || b[0] == BACKSLASH)
    ensures Slash(a + b) == |a|
    decreases |a|
  {
    if a != [] {
      assert (a + b)[1..] == a[1..] + b;
      SlashAfter(a[1..], b);
    } else {
      assert a + b == b;
    }
  }

  lemma SegmentsCons(s: seq<Wchar>, rest: seq<Wchar>)
    requires s != [] && BACKSLASH !in s
    ensures Segments(s) == [s] && Segments(s + [BACKSLASH] + rest) == [s] + Segments(rest)
  {
    SlashAfter(s, []);
    assert s + [] == s;
    SlashAfter(s, [BACKSLASH] + rest);
    var all := s + [BACKSLASH] + rest;
    assert all == s + ([BACKSLASH] + rest) && all[..|s|] == s && all[|s| + 1..] == rest;
  }

  lemma {:induction false} SegmentsOfJoined(segments: seq<seq<Wchar>>)
    requires Plain(segments)
    ensures Segments(Joined(segments)) == segments
    decreases |segments|
  {
    if segments != [] {
      hide Segments, Slash;
      SegmentsCons(segments[0], Joined(segments[1..]));
      SegmentsOfJoined(segments[1..]);
      assert segments == [segments[0]] + segments[1..];
    }
  }

  /** A path written out with or without a leading backslash is read as its segments. */
  lemma PathOfJoined(segments: seq<seq<Wchar>>)
    requires Plain(segments)
    ensures Path([BACKSLASH] + Joined(segments)) == segments && Path(Joined(segments)) == segments
  {
    SegmentsOfJoined(segments);
    assert ([BACKSLASH] + Joined(segments))[1..] == Joined(segments);
    if segments != [] {
      assert Joined(segments)[0] == segments[0][0];
    }
  }

  /** A segment that would be empty is taken to be all that is left of the path, which is then read on as well. */
  lemma EmptySegment(rest: seq<Wchar>)
    ensures var all := [BACKSLASH] + rest; Segments(all) == [all] + Segments(rest)
  {
    var all := [BACKSLASH] + rest;
    assert Slash(all) == 0 && all[1..] == rest;
  }

  // ---- Appending a child --------------------------------------------------

  /** The nodes after lines 129-141 append a new node named `name` to the children of `p`. */
  function Appended(ns: seq<Node>, p: int, last: int, name: seq<Wchar>): (r: seq<Node>)
    requires 0 <= p < |ns| && -1 <= last < |ns|
    ensures |r| == |ns| + 1
  {
    var node := Node(name, p, NULL, NULL, 0, [], 0);
    var linked := if last == NULL then ns[p := ns[p].(childHead := |ns|)]
                  else ns[last := ns[last].(nextSibling := |ns|)];
    linked[p := linked[p].(subKeyCount := linked[p].subKeyCount + 1)] + [node]
  }

  /** Appending keeps every child list but that of `p`, which gains the new node at its end. */
  lemma AppendKeepsLinks(ns: seq<Node>, kids: seq<seq<int>>, p: int, name: seq<Wchar>)
    requires Linked(ns, kids) && 0 <= p < |ns|
    ensures var last := At(kids[p], |kids[p]| - 1);
            && -1 <= last < |ns|
            && Linked(Appended(ns, p, last, name), kids[p := kids[p] + [|ns|]] + [[]])
  {
    assert ChildList(ns, p, kids[p]);
    var last, n := At(kids[p], |kids[p]| - 1), |ns|;
    var ns', kids' := Appended(ns, p, last, name), kids[p := kids[p] + [n]] + [[]];
    forall i | 0 <= i < |ns'| ensures ChildList(ns', i, kids'[i]) && Distinct(kids'[i]) {
      if i == p {
        AppendOwn(ns, p, kids[p], name);
      } else if i < n {
        AppendOther(ns, p, kids[p], name, i, kids[i]);
      }
    }
  }

  lemma AppendOther(ns: seq<Node>, p: int, kp: seq<int>, name: seq<Wchar>, i: int, ks: seq<int>)
    requires 0 <= p < |ns| && 0 <= i < |ns| && i != p
    requires ChildList(ns, p, kp) && ChildList(ns, i, ks) && -1 <= At(kp, |kp| - 1) < |ns|
    ensures ChildList(Appended(ns, p, At(kp, |kp| - 1), name), i, ks)
  {
    var last := At(kp, |kp| - 1);
    var ns' := Appended(ns, p, last, name);
    assert last != NULL ==> ns[last].parent == p;
    forall j | 0 <= j < |ks| ensures i < ks[j] < |ns| && ns'[ks[j]].parent == i && ns'[ks[j]].nextSibling == At(ks, j + 1) {
      var c := ks[j];
      assert ns[ks[j]].nextSibling == At(ks, j + 1) && ns[c].parent == i;
      assert c != last && ns'[c].nextSibling == ns[c].nextSibling && ns'[c].parent == ns[c].parent;
    }
  }

  lemma AppendOwn(ns: seq<Node>, p: int, ks: seq<int>, name: seq<Wchar>)
    requires 0 <= p < |ns| && ChildList(ns, p, ks) && Distinct(ks) && -1 <= At(ks, |ks| - 1) < |ns|
    ensures ChildList(Appended(ns, p, At(ks, |ks| - 1), name), p, ks + [|ns|])
    ensures Distinct(ks + [|ns|])
  {
    var last, n := At(ks, |ks| - 1), |ns|;
    var ns', ks' := Appended(ns, p, last, name), ks + [n];
    forall j | 0 <= j < |ks'| ensures p < ks'[j] < |ns'| && ns'[ks'[j]].parent == p && ns'[ks'[j]].nextSibling == At(ks', j + 1) {
      if j < |ks| {
        var c := ks[j];
        assert ks'[j] == c && ns[ks[j]].nextSibling == At(ks, j + 1) && ns[c].parent == p;
        assert ns'[c].nextSibling == if c == last then n else ns[c].nextSibling;
      }
    }
  }

  // ---- Lookup after appending ---------------------------------------------

  /** Names, values and parents of existing nodes are untouched, and child lists only grow at the end. */
  ghost predicate Extends(ns: seq<Node>, kids: seq<seq<int>>, ns': seq<Node>, kids': seq<seq<int>>) {
    && |ns| == |kids| <= |ns'| == |kids'|
    && (forall i :: 0 <= i < |ns| ==>
          ns'[i].name == ns[i].name && ns'[i].values == ns[i].values && ns'[i].parent == ns[i].parent)
    && (forall i :: 0 <= i < |kids| ==> kids[i] <= kids'[i])
  }

  lemma {:induction false} FindKidSameNames(ns: seq<Node>, ns': seq<Node>, ks: seq<int>, name: seq<Wchar>)
    requires |ns| <= |ns'| && forall j :: 0 <= j < |ks| ==> 0 <= ks[j] < |ns|
    requires forall i :: 0 <= i < |ns| ==> ns'[i].name == ns[i].name
    ensures FindKid(ns', ks, name) == FindKid(ns, ks, name)
  {
    if ks != [] {
      FindKidSameNames(ns, ns', ks[1..], name);
    }
  }

  lemma {:induction false} FindKidAppended(ns: seq<Node>, ks: seq<int>, c: int, name: seq<Wchar>)
    requires (forall j :: 0 <= j < |ks| ==> 0 <= ks[j] < |ns|) && 0 <= c < |ns|
    requires FindKid(ns, ks, name) == NULL && SameName(ns[c].name, name)
    ensures FindKid(ns, ks + [c], name) == c
  {
    if ks != [] {
      assert (ks + [c])[1..] == ks[1..] + [c];
      FindKidAppended(ns, ks[1..], c, name);
    }
  }

  /** A lookup that ends in `p` does not notice a new child of `p`. */
  lemma {:induction false} LookupKept(ns: seq<Node>, kids: seq<seq<int>>, ns': seq<Node>, kids': seq<seq<int>>,
                                      p: int, i: int, path: seq<seq<Wchar>>)
    requires Linked(ns, kids) && Linked(ns', kids') && Extends(ns, kids, ns', kids')
    requires 0 <= i < |ns| && Lookup(ns, kids, i, path) == p != NULL
    requires forall a :: 0 <= a < |ns| && a != p ==> kids'[a] == kids[a]
    ensures Lookup(ns', kids', i, path) == p
    decreases |path|
  {
    if path != [] {
      assert ChildList(ns, i, kids[i]) && i != p;
      FindKidSameNames(ns, ns', kids[i], path[0]);
      LookupKept(ns, kids, ns', kids', p, FindKid(ns, kids[i], path[0]), path[1..]);
    }
  }

  lemma ExtendsTwice(a: seq<Node>, ka: seq<seq<int>>, b: seq<Node>, kb: seq<seq<int>>, c: seq<Node>, kc: seq<seq<int>>)
    requires Extends(a, ka, b, kb) && Extends(b, kb, c, kc)
    ensures Extends(a, ka, c, kc)
  {
    forall i | 0 <= i < |ka| ensures ka[i] <= kc[i] {
      assert ka[i] <= kb[i] && kb[i] <= kc[i];
    }
  }

  /** How many segments of a path lead somewhere. */
  ghost function Found(ns: seq<Node>, kids: seq<seq<int>>, i: int, path: seq<seq<Wchar>>): (n: nat)
    requires Linked(ns, kids) && 0 <= i < |ns|
    ensures n <= |path|
    decreases |path|
  {
    if path == [] then 0 else
    assert ChildList(ns, i, kids[i]);
    var c := FindKid(ns, kids[i], path[0]);
    if c == NULL then 0 else 1 + Found(ns, kids, c, path[1..])
  }

  lemma {:induction false} FoundInSteps(ns: seq<Node>, kids: seq<seq<int>>, i: int, a: seq<seq<Wchar>>, b: seq<seq<Wchar>>)
    requires Linked(ns, kids) && 0 <= i < |ns| && Lookup(ns, kids, i, a) != NULL
    ensures Found(ns, kids, i, a + b) == |a| + Found(ns, kids, Lookup(ns, kids, i, a), b)
    decreases |a|
  {
    if a == [] {
      assert a + b == b;
    } else {
      assert (a + b)[1..] == a[1..] + b;
      assert ChildList(ns, i, kids[i]);
      FoundInSteps(ns, kids, FindKid(ns, kids[i], a[0]), a[1..], b);
    }
  }

  /** While a path is followed from `ns0`: either nothing is missing so far, or every segment from the first missing one
      on has a new key without values or children of its own. */
  ghost predicate Counted(ns0: seq<Node>, kids0: seq<seq<int>>, path: seq<seq<Wchar>>,
                          ns: seq<Node>, kids: seq<seq<int>>, node: int, done: seq<seq<Wchar>>)
    requires Linked(ns0, kids0)
  {
    var found := Found(ns0, kids0, ROOT, path);
    && |ns0| <= |ns| == |kids| && (forall i :: |ns0| <= i < |ns| ==> ns[i].values == [])
    && ((ns == ns0 && kids == kids0 && |done| <= found)
        || (0 <= node < |kids| && kids[node] == [] && found < |done| && |ns| == |ns0| + |done| - found))
  }

  function Trimmed(name: seq<Wchar>): seq<Wchar> { if |name| > 0 && name[0] == BACKSLASH then name[1..] else name }

  lemma Begins(ns: seq<Node>, kids: seq<seq<int>>, name: seq<Wchar>)
    requires Linked(ns, kids)
    ensures Extends(ns, kids, ns, kids) && Lookup(ns, kids, ROOT, []) == ROOT
    ensures [] + Segments(Trimmed(name)) == Path(name) && Counted(ns, kids, Path(name), ns, kids, ROOT, [])
  {
  }

  lemma Ends(ns0: seq<Node>, kids0: seq<seq<int>>, path: seq<seq<Wchar>>,
             ns: seq<Node>, kids: seq<seq<int>>, node: int, done: seq<seq<Wchar>>)
    requires Linked(ns0, kids0) && Counted(ns0, kids0, path, ns, kids, node, done) && done + Segments([]) == path
    ensures done == path && |ns| == |ns0| + |path| - Found(ns0, kids0, ROOT, path)
    ensures forall i :: |ns0| <= i < |ns| ==> ns[i].values == []
  {
    assert done + [] == done;
  }

  lemma CountedStep(ns0: seq<Node>, kids0: seq<seq<int>>, path: seq<seq<Wchar>>,
                    ns: seq<Node>, kids: seq<seq<int>>, from: int, done: seq<seq<Wchar>>, segment: seq<Wchar>,
                    left: seq<seq<Wchar>>, ns': seq<Node>, kids': seq<seq<int>>, node: int)
    requires Linked(ns0, kids0) && Linked(ns, kids) && Linked(ns', kids') && Counted(ns0, kids0, path, ns, kids, from, done)
    requires path == done + [segment] + left && Lookup(ns, kids, ROOT, done) == from != NULL
    requires Extends(ns, kids, ns', kids')
    requires Lookup(ns, kids, ROOT, done + [segment]) != NULL ==> ns' == ns && kids' == kids
    requires Lookup(ns, kids, ROOT, done + [segment]) == NULL ==>
               |ns'| == |ns| + 1 && node == |ns| && kids'[node] == [] && ns'[node].values == []
    ensures Counted(ns0, kids0, path, ns', kids', node, done + [segment])
  {
    hide Linked, Extends, Lookup, Found;
    ExtendsValues(ns, kids, ns', kids');
    NextSegment(ns, kids, from, done, segment, left);
    assert path == done + ([segment] + left);
  }

  lemma ExtendsValues(ns: seq<Node>, kids: seq<seq<int>>, ns': seq<Node>, kids': seq<seq<int>>)
    requires Linked(ns', kids') && Extends(ns, kids, ns', kids')
    ensures |ns| <= |ns'| == |kids'| && forall i :: 0 <= i < |ns| ==> ns'[i].values == ns[i].values
  {
  }

  /** The next segment is missing exactly when the path ends before it; a key without children has none. */
  lemma NextSegment(ns: seq<Node>, kids: seq<seq<int>>, from: int, done: seq<seq<Wchar>>, segment: seq<Wchar>,
                    left: seq<seq<Wchar>>)
    requires Linked(ns, kids) && Lookup(ns, kids, ROOT, done) == from != NULL
    ensures Lookup(ns, kids, ROOT, done + [segment]) == NULL ==> Found(ns, kids, ROOT, done + ([segment] + left)) == |done|
    ensures Lookup(ns, kids, ROOT, done + [segment]) != NULL ==> Found(ns, kids, ROOT, done + ([segment] + left)) > |done|
    ensures 0 <= from < |kids| && (kids[from] == [] ==> Lookup(ns, kids, ROOT, done + [segment]) == NULL)
  {
    assert ChildList(ns, from, kids[from]);
    LookupInSteps(ns, kids, ROOT, done, [segment]);
    assert [segment][1..] == [] && ([segment] + left)[1..] == left;
    FoundInSteps(ns, kids, ROOT, done, [segment] + left);
  }

  class Registry {
    var nodes: seq<Node>
    ghost var kids: seq<seq<int>>

    ghost predicate Valid()
      reads this
    {
      Linked(nodes, kids)
    }

    /** CmInitSystem. */
    constructor ()
      ensures Valid() && nodes == [Node([BACKSLASH], NULL, NULL, NULL, 0, [], 0)] && kids == [[]]
    {
      nodes := [Node([BACKSLASH], NULL, NULL, NULL, 0, [], 0)];
      kids := [[]];
    }

    /** CmFindChild. */
    method FindChild(p: int, name: seq<Wchar>) returns (child: int)
      requires Valid() && 0 <= p < |nodes|
      ensures forall j :: 0 <= j < |kids[p]| ==> 0 <= kids[p][j] < |nodes|
      ensures child == FindKid(nodes, kids[p], name)
    {
      ghost var ks, j := kids[p], 0;
      assert ChildList(nodes, p, ks);
      child := nodes[p].childHead;
      while child != NULL
        invariant 0 <= j <= |ks| && child == At(ks, j)
        invariant FindKid(nodes, ks, name) == FindKid(nodes, ks[j..], name)
        decreases |ks| - j
      {
        assert child == ks[j] && nodes[ks[j]].nextSibling == At(ks, j + 1);
        if SameName(nodes[child].name, name) {
          return;
        }
        assert ks[j..][1..] == ks[j + 1..];
        child := nodes[child].nextSibling;
        j := j + 1;
      }
    }

    /** The walk to the end of a child list. */
    method LastChild(p: int) returns (last: int)
      requires Valid() && 0 <= p < |nodes|
      ensures last == At(kids[p], |kids[p]| - 1)
    {
      ghost var ks, j := kids[p], 0;
      assert ChildList(nodes, p, ks);
      last := nodes[p].childHead;
      if last == NULL {
        return;
      }
      while nodes[last].nextSibling != NULL
        invariant 0 <= j < |ks| && last == ks[j]
        decreases |ks| - j
      {
        assert nodes[ks[j]].nextSibling == At(ks, j + 1);
        last := nodes[last].nextSibling;
        j := j + 1;
      }
      assert nodes[ks[j]].nextSibling == At(ks, j + 1);
    }

    /** Lines 124-141. */
    method AddChild(p: int, name: seq<Wchar>) returns (node: int)
      requires Valid() && 0 <= p < |nodes|
      modifies this
      ensures Valid() && node == |old(nodes)| && Extends(old(nodes), old(kids), nodes, kids)
      ensures kids == old(kids)[p := old(kids)[p] + [node]] + [[]]
      ensures -1 <= At(old(kids)[p], |old(kids)[p]| - 1) < node
      ensures nodes == Appended(old(nodes), p, At(old(kids)[p], |old(kids)[p]| - 1), name) && nodes[node].name == name
    {
      AppendKeepsLinks(nodes, kids, p, name);
      var last := LastChild(p);
      node := |nodes|;
      nodes := Appended(nodes, p, last, name);
      kids := kids[p := kids[p] + [node]] + [[]];
    }

    /** One iteration of the CmCreateKey loop: step into the child named `segment`, creating it if needed. */
    method Step(p: int, segment: seq<Wchar>, ghost done: seq<seq<Wchar>>) returns (node: int)
      requires Valid() && 0 <= p < |nodes| && Lookup(nodes, kids, ROOT, done) == p
      modifies this
      ensures Valid() && Extends(old(nodes), old(kids), nodes, kids)
      ensures 0 <= node < |nodes| && Lookup(nodes, kids, ROOT, done + [segment]) == node
      ensures old(Lookup(nodes, kids, ROOT, done + [segment])) != NULL ==> nodes == old(nodes) && kids == old(kids)
      ensures old(Lookup(nodes, kids, ROOT, done + [segment])) == NULL ==>
                && |nodes| == |old(nodes)| + 1 && node == |old(nodes)| && kids[node] == []
                && nodes[node].name == segment && nodes[node].values == []
    {
      ghost var ns, ks := nodes, kids;
      LookupInSteps(ns, ks, ROOT, done, [segment]);
      node := FindChild(p, segment);
      if node == NULL {
        assert ChildList(ns, p, ks[p]);
        node := AddChild(p, segment);
        LookupKept(ns, ks, nodes, kids, p, ROOT, done);
        LookupInSteps(nodes, kids, ROOT, done, [segment]);
        FindKidSameNames(ns, nodes, ks[p], segment);
        FindKidAppended(nodes, ks[p], node, segment);
      }
    }

    /** CmCreateKey. Afterwards the path leads to the returned key; existing keys keep their names, values and
        child order; one key without values is created for each segment from the first missing one on, and no other;
        so if the path already led somewhere nothing changes, and creating again is opening. */
    method CreateKey(name: seq<Wchar>) returns (node: int)
      requires Valid()
      modifies this
      ensures Valid() && Extends(old(nodes), old(kids), nodes, kids)
      ensures 0 <= node < |nodes| && Lookup(nodes, kids, ROOT, Path(name)) == node
      ensures old(Lookup(nodes, kids, ROOT, Path(name))) != NULL ==> nodes == old(nodes) && kids == old(kids)
      ensures |nodes| == |old(nodes)| + |Path(name)| - old(Found(nodes, kids, ROOT, Path(name)))
      ensures forall i :: |old(nodes)| <= i < |nodes| ==> nodes[i].values == []
    {
      hide Extends, Linked, Lookup, Segments, Path, Counted, Found;
      var rest := Trimmed(name);
      ghost var path, done := Path(name), [];
      Begins(nodes, kids, name);
      node := ROOT;
      while rest != []
        invariant Valid() && Extends(old(nodes), old(kids), nodes, kids)
        invariant Reaches(node, rest, done, path) && Counted(old(nodes), old(kids), path, nodes, kids, node, done)
        invariant old(Lookup(nodes, kids, ROOT, path)) != NULL ==> nodes == old(nodes) && kids == old(kids)
        decreases |rest|
      {
        ghost var ns, ks := nodes, kids;
        node, rest, done := Advance(node, rest, done, path, old(nodes), old(kids));
        ExtendsTwice(old(nodes), old(kids), ns, ks, nodes, kids);
      }
      Ends(old(nodes), old(kids), path, nodes, kids, node, done);
    }

    /** The segments consumed so far lead to `node`, and with the rest of the path make up `path`. */
    ghost predicate Reaches(node: int, rest: seq<Wchar>, done: seq<seq<Wchar>>, path: seq<seq<Wchar>>)
      requires Valid()
      reads this
    {
      0 <= node < |nodes| && Lookup(nodes, kids, ROOT, done) == node && done + Segments(rest) == path
    }

    /** One iteration of the CmCreateKey loop. */
    method Advance(from: int, rest: seq<Wchar>, ghost done: seq<seq<Wchar>>, ghost path: seq<seq<Wchar>>,
                   ghost ns0: seq<Node>, ghost kids0: seq<seq<int>>)
      returns (node: int, left: seq<Wchar>, ghost now: seq<seq<Wchar>>)
      requires Valid() && rest != [] && Reaches(from, rest, done, path)
      requires Linked(ns0, kids0) && Counted(ns0, kids0, path, nodes, kids, from, done)
      modifies this
      ensures Valid() && Extends(old(nodes), old(kids), nodes, kids)
      ensures Reaches(node, left, now, path) && |left| < |rest|
      ensures Counted(ns0, kids0, path, nodes, kids, node, now)
      ensures old(Lookup(nodes, kids, ROOT, path)) != NULL ==> nodes == old(nodes) && kids == old(kids)
    {
      hide Extends, Linked, Lookup, Segments, Segment, Counted, Found;
      var i, segment := Slash(rest), Segment(rest);
      left := if i < |rest| then rest[i + 1..] else [];
      now := done + [segment];
      SegmentsAdvance(rest, done);
      LookupInSteps(nodes, kids, ROOT, now, Segments(left));
      ghost var ns, ks := nodes, kids;
      node := Step(from, segment, done);
      CountedStep(ns0, kids0, path, ns, ks, from, done, segment, Segments(left), nodes, kids, node);
    }

    /** CmSetValue: appends, unless there is no data, for which the pool returns no buffer. The data is a copy, the name
        still the caller's buffer. */
    method SetValue(node: int, v: Stored) returns (ok: bool)
      requires Valid() && 0 <= node < |nodes|
      modifies this`nodes
      ensures Valid()
      ensures ok <==> |v.data| > 0
      ensures !ok ==> nodes == old(nodes)
      ensures ok ==> nodes == old(nodes)[node := old(nodes)[node].(values := old(nodes)[node].values + [v],
                                                                   valueCount := old(nodes)[node].valueCount + 1)]
    {
      if |v.data| == 0 {
        return false;
      }
      ghost var ns := nodes;
      nodes := nodes[node := nodes[node].(values := nodes[node].values + [v], valueCount := nodes[node].valueCount + 1)];
      forall i | 0 <= i < |nodes| ensures ChildList(nodes, i, kids[i]) {
        assert ChildList(ns, i, kids[i]);
        forall j | 0 <= j < |kids[i]| ensures nodes[kids[i][j]].nextSibling == At(kids[i], j + 1) {
          assert ns[kids[i][j]].nextSibling == At(kids[i], j + 1);
        }
      }
      return true;
    }
  }
}
