/** LIST_ENTRY (include/nt/ntdef.h): circular doubly linked lists whose links lie in the members, and exactly when
    inserting a member leaves them lists. The dispatcher and the timers use sequences for what is proved here. */
module ListEntry {
  import opened Common

  datatype Links = Links(flink: nat, blink: nat)

  /** The links of list heads and members by address. */
  type Heap = map<nat, Links>

  /** The `i`-th member, or the head beyond either end. */
  function At(head: nat, s: seq<nat>, i: int): nat { if 0 <= i < |s| then s[i] else head }

  /** From `head` the links visit exactly `s` and return, in both directions. */
  ghost predicate IsList(h: Heap, head: nat, s: seq<nat>) {
    && Distinct(s) && head !in s && head in h
    && h[head] == Links(At(head, s, 0), At(head, s, |s| - 1))
    && (forall i :: 0 <= i < |s| ==> s[i] in h)
    && (forall i {:trigger h[s[i]]} :: 0 <= i < |s| ==> h[s[i]] == Links(At(head, s, i + 1), At(head, s, i - 1)))
  }

  /** No address is a head or member of both. */
  ghost predicate Separate(a: nat, s: seq<nat>, b: nat, t: seq<nat>) {
    a != b && a !in t && b !in s && forall x :: x in s ==> x !in t
  }

  /** InsertTailList, store by store. */
  function InsertTail(h: Heap, head: nat, e: nat): Heap
    requires head in h && h[head].blink in h
  {
    var blink := h[head].blink;
    var h1 := h[e := Links(head, blink)];
    var h2 := h1[blink := h1[blink].(flink := e)];
    h2[head := h2[head].(blink := e)]
  }

  /** RemoveEntryList. */
  function RemoveEntry(h: Heap, e: nat): Heap
    requires e in h && h[e].flink in h && h[e].blink in h
  {
    var flink, blink := h[e].flink, h[e].blink;
    var h1 := h[blink := h[blink].(flink := flink)];
    h1[flink := h1[flink].(blink := blink)]
  }

  lemma Neighbours(h: Heap, head: nat, s: seq<nat>)
    requires IsList(h, head, s)
    ensures h[head].blink in h && h[head].flink in h
    ensures forall x :: x in s ==> x in h && h[x].flink in h && h[x].blink in h
  {
    forall i | 0 <= i < |s| ensures s[i] in h && h[s[i]].flink in h && h[s[i]].blink in h {
      assert h[s[i]] == Links(At(head, s, i + 1), At(head, s, i - 1));
    }
  }

  /** A list none of whose addresses changed is unchanged. */
  lemma Untouched(h: Heap, h': Heap, head: nat, s: seq<nat>)
    requires IsList(h, head, s) && head in h' && h'[head] == h[head]
    requires forall x :: x in s && x in h ==> x in h' && h'[x] == h[x]
    ensures IsList(h', head, s)
  {
    forall i | 0 <= i < |s| ensures s[i] in h' && h'[s[i]] == Links(At(head, s, i + 1), At(head, s, i - 1)) {
      assert h[s[i]] == Links(At(head, s, i + 1), At(head, s, i - 1));
    }
  }

  /** Inserting an unlinked entry appends it. */
  lemma InsertAppends(h: Heap, head: nat, s: seq<nat>, e: nat)
    requires IsList(h, head, s) && e != head && e !in s
    ensures h[head].blink in h && IsList(InsertTail(h, head, e), head, s + [e])
  {
    Neighbours(h, head, s);
    var h', t := InsertTail(h, head, e), s + [e];
    forall i | 0 <= i < |t| ensures t[i] in h' && h'[t[i]] == Links(At(head, t, i + 1), At(head, t, i - 1)) {
      if i < |s| { assert h[s[i]] == Links(At(head, s, i + 1), At(head, s, i - 1)); }
    }
  }

  /** Removing a member drops it and nothing else. */
  lemma RemoveDrops(h: Heap, head: nat, s: seq<nat>, k: nat)
    requires IsList(h, head, s) && k < |s|
    ensures s[k] in h && h[s[k]].flink in h && h[s[k]].blink in h
    ensures IsList(RemoveEntry(h, s[k]), head, s[..k] + s[k + 1..])
  {
    Neighbours(h, head, s);
    RemovedMembers(s, k);
    var h', t := RemoveEntry(h, s[k]), s[..k] + s[k + 1..];
    assert h[s[k]] == Links(At(head, s, k + 1), At(head, s, k - 1));
    forall i | 0 <= i < |t| ensures t[i] in h' && h'[t[i]] == Links(At(head, t, i + 1), At(head, t, i - 1)) {
      var j := if i < k then i else i + 1;
      Closing(head, s, k, i);
      assert h[s[j]] == Links(At(head, s, j + 1), At(head, s, j - 1));
      Relinked(h, head, s, k, j);
    }
    Closing(head, s, k, -1);
    Relinked(h, head, s, k, -1);
    if t != [] { Closing(head, s, k, |t| - 1); }
  }

  /** The links of position `j` (-1 for the head) after member `k` was removed. */
  lemma Relinked(h: Heap, head: nat, s: seq<nat>, k: nat, j: int)
    requires IsList(h, head, s) && k < |s| && -1 <= j < |s| && j != k
    requires h[s[k]].flink in h && h[s[k]].blink in h
    ensures var x := At(head, s, j);
            && x in h && x in RemoveEntry(h, s[k])
            && RemoveEntry(h, s[k])[x].flink == (if j == k - 1 then At(head, s, k + 1) else h[x].flink)
            && RemoveEntry(h, s[k])[x].blink == (if j == k + 1 || (j == -1 && k == |s| - 1) then At(head, s, k - 1) else h[x].blink)
  {
    assert h[s[k]] == Links(At(head, s, k + 1), At(head, s, k - 1));
  }

  /** The neighbours of position `i` of a sequence from which member `k` was dropped. */
  lemma Closing(head: nat, s: seq<nat>, k: nat, i: int)
    requires k < |s| && -1 <= i < |s| - 1
    ensures var t, j := s[..k] + s[k + 1..], if i < k then i else i + 1;
            && At(head, t, i) == At(head, s, j)
            && At(head, t, i + 1) == At(head, s, if j + 1 == k then k + 1 else j + 1)
            && (i >= 0 ==> At(head, t, i - 1) == At(head, s, if j - 1 == k then k - 1 else j - 1))
  {
  }

  /** What a list must still visit if only links behind member `k` have changed. */
  lemma {:induction false} SamePrefix(h: Heap, h': Heap, head: nat, s: seq<nat>, t: seq<nat>, k: nat, j: nat)
    requires IsList(h, head, s) && IsList(h', head, t) && j <= k < |s|
    requires h'[head].flink == h[head].flink
    requires forall i :: 0 <= i < k ==> s[i] in h && s[i] in h' && h'[s[i]].flink == h[s[i]].flink
    ensures j < |t| && t[j] == s[j]
    decreases j
  {
    if j > 0 {
      SamePrefix(h, h', head, s, t, k, j - 1);
      assert h[s[j - 1]] == Links(At(head, s, j), At(head, s, j - 2));
      assert h'[t[j - 1]] == Links(At(head, t, j), At(head, t, j - 2));
    }
  }

  /** Inserting a member of a list, into that list or another one, destroys the list it was a member of: afterwards its
      links visit no sequence at all and return. */
  lemma InsertingMemberBreaks(h: Heap, a: nat, s: seq<nat>, b: nat, t: seq<nat>, e: nat, t': seq<nat>)
    requires IsList(h, a, s) && IsList(h, b, t) && e in t
    requires (a == b && s == t) || Separate(a, s, b, t)
    ensures h[a].blink in h && !IsList(InsertTail(h, a, e), b, t')
  {
    Neighbours(h, a, s);
    var k :| 0 <= k < |t| && t[k] == e;
    var h' := InsertTail(h, a, e);
    var last := h[a].blink;
    assert last == At(a, s, |s| - 1) && h'[e].blink == last;
    if IsList(h', b, t') {
      forall i | 0 <= i < k ensures t[i] in h && t[i] in h' && h'[t[i]].flink == h[t[i]].flink {
        assert h[t[i]] == Links(At(b, t, i + 1), At(b, t, i - 1)) && t[i] != e && t[i] != last;
      }
      SamePrefix(h, h', b, t, t', k, k);
      if k > 0 { SamePrefix(h, h', b, t, t', k, k - 1); }
    }
  }

  /** Of two lists both are still lists after an insertion if and only if the inserted entry was in neither. */
  lemma InsertKeepsBoth(h: Heap, a: nat, s: seq<nat>, b: nat, t: seq<nat>, e: nat)
    requires IsList(h, a, s) && IsList(h, b, t) && Separate(a, s, b, t) && e != a && e != b
    ensures h[a].blink in h
    ensures (exists s', t' :: IsList(InsertTail(h, a, e), a, s') && IsList(InsertTail(h, a, e), b, t')) <==>
              e !in s && e !in t
  {
    Neighbours(h, a, s);
    var h' := InsertTail(h, a, e);
    if e in s {
      forall s' ensures !IsList(h', a, s') { InsertingMemberBreaks(h, a, s, a, s, e, s'); }
    } else if e in t {
      forall t' ensures !IsList(h', b, t') { InsertingMemberBreaks(h, a, s, b, t, e, t'); }
    } else {
      InsertAppends(h, a, s, e);
      Untouched(h, h', b, t);
    }
  }
}
