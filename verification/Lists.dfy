/** The intrusive doubly linked list of list.h.  A node is named by an integer,
    and the memory that holds every node's two links is a pair of maps.  A list
    is a ring: the sequence of nodes met by following `next` from the head. */
module Lists {

  /** The position after `i` on a ring of `n` nodes. */
  function Succ(i: nat, n: nat): (j: nat)
    requires i < n
    ensures j < n
  {
    if i + 1 < n then i + 1 else 0
  }

  function Pred(i: nat, n: nat): (j: nat)
    requires i < n
    ensures j < n && Succ(j, n) == i
  {
    if i == 0 then n - 1 else i - 1
  }

  /** Position `j` steps from `h`, going round; `n` steps lead back to `h`. */
  function Round(h: nat, j: nat, n: nat): (i: nat)
    requires h < n && j <= n
    ensures i < n
  {
    if h + j < n then h + j else h + j - n
  }

  ghost predicate Distinct(s: seq<int>) {
    forall i, j :: 0 <= i < j < |s| ==> s[i] != s[j]
  }

  /** `next` runs once through `ring` and returns to its first node. */
  ghost predicate Cycle(next: map<int, int>, ring: seq<int>) {
    |ring| > 0 && Distinct(ring) && Forward(next, ring)
  }

  ghost predicate Forward(next: map<int, int>, ring: seq<int>) {
    && (forall i {:trigger ring[i] in next} {:trigger next[ring[i]]} :: 0 <= i < |ring| ==> ring[i] in next)
    && forall i {:trigger next[ring[i]]} :: 0 <= i < |ring| ==> next[ring[i]] == ring[Succ(i, |ring|)]
  }

  ghost predicate Backward(prev: map<int, int>, ring: seq<int>) {
    && (forall i {:trigger ring[i] in prev} {:trigger prev[ring[i]]} :: 0 <= i < |ring| ==> ring[i] in prev)
    && forall i {:trigger prev[ring[i]]} :: 0 <= i < |ring| ==> prev[ring[i]] == ring[Pred(i, |ring|)]
  }

  /** The two link maps agree that `ring` is a doubly linked list. */
  ghost predicate Ring(next: map<int, int>, prev: map<int, int>, ring: seq<int>) {
    Cycle(next, ring) && Backward(prev, ring)
  }

  /** The ring after `e` has been put behind the node at position `i`. */
  function Insert(ring: seq<int>, i: nat, e: int): seq<int>
    requires i < |ring|
  {
    ring[..i + 1] + [e] + ring[i + 1..]
  }

  function Remove(ring: seq<int>, i: nat): seq<int>
    requires i < |ring|
  {
    ring[..i] + ring[i + 1..]
  }

  /** `r` is `ring` with `e` behind position `i`, said node by node. */
  ghost predicate IsInserted(ring: seq<int>, i: nat, e: int, r: seq<int>) {
    && i < |ring| && |r| == |ring| + 1 && r[i + 1] == e
    && (forall j :: 0 <= j <= i ==> r[j] == ring[j])
    && forall j :: i + 1 < j < |r| ==> r[j] == ring[j - 1]
  }

  ghost predicate IsRemoved(ring: seq<int>, i: nat, r: seq<int>) {
    && i < |ring| && |r| == |ring| - 1
    && (forall j :: 0 <= j < i ==> r[j] == ring[j])
    && forall j :: i <= j < |r| ==> r[j] == ring[j + 1]
  }

  /** __list_add between a node of the ring and its successor. */
  lemma InsertKeepsRing(next: map<int, int>, prev: map<int, int>, ring: seq<int>, i: nat, e: int)
    requires Ring(next, prev, ring) && i < |ring| && e !in ring
    ensures var n := ring[Succ(i, |ring|)];
            Ring(next[ring[i] := e][e := n], prev[n := e][e := ring[i]], Insert(ring, i, e))
  {
    InsertedIsRing(next, prev, ring, i, e, Insert(ring, i, e));
  }

  lemma InsertedIsRing(next: map<int, int>, prev: map<int, int>, ring: seq<int>, i: nat, e: int, r: seq<int>)
    requires Ring(next, prev, ring) && e !in ring && IsInserted(ring, i, e, r)
    ensures var n := ring[Succ(i, |ring|)];
            Ring(next[ring[i] := e][e := n], prev[n := e][e := ring[i]], r)
  {
    InsertedForward(next, ring, i, e, r);
    InsertedBackward(prev, ring, i, e, r);
  }

  lemma InsertedForward(next: map<int, int>, ring: seq<int>, i: nat, e: int, r: seq<int>)
    requires Distinct(ring) && Forward(next, ring) && e !in ring && IsInserted(ring, i, e, r)
    ensures Cycle(next[ring[i] := e][e := ring[Succ(i, |ring|)]], r)
  {
    var m, next' := |ring|, next[ring[i] := e][e := ring[Succ(i, |ring|)]];
    assert Distinct(r);
    forall j | 0 <= j < |r| ensures r[j] in next' && next'[r[j]] == r[Succ(j, |r|)] {
      if j != i + 1 {
        var k := if j <= i then j else j - 1;
        assert r[j] == ring[k] && next[ring[k]] == ring[Succ(k, m)];
      }
    }
  }

  lemma InsertedBackward(prev: map<int, int>, ring: seq<int>, i: nat, e: int, r: seq<int>)
    requires Distinct(ring) && Backward(prev, ring) && e !in ring && IsInserted(ring, i, e, r)
    ensures Backward(prev[ring[Succ(i, |ring|)] := e][e := ring[i]], r)
  {
    var m, prev' := |ring|, prev[ring[Succ(i, |ring|)] := e][e := ring[i]];
    forall j | 0 <= j < |r| ensures r[j] in prev' && prev'[r[j]] == r[Pred(j, |r|)] {
      if j != i + 1 {
        var k := if j <= i then j else j - 1;
        assert r[j] == ring[k] && prev[ring[k]] == ring[Pred(k, m)];
      }
    }
  }

  /** __list_del of a node of the ring. */
  lemma RemoveKeepsRing(next: map<int, int>, prev: map<int, int>, ring: seq<int>, i: nat)
    requires Ring(next, prev, ring) && i < |ring| && |ring| > 1
    ensures var p, n := ring[Pred(i, |ring|)], ring[Succ(i, |ring|)];
            Ring(next[p := n], prev[n := p], Remove(ring, i))
  {
    RemovedIsRing(next, prev, ring, i, Remove(ring, i));
  }

  lemma RemovedIsRing(next: map<int, int>, prev: map<int, int>, ring: seq<int>, i: nat, r: seq<int>)
    requires Ring(next, prev, ring) && |ring| > 1 && IsRemoved(ring, i, r)
    ensures var p, n := ring[Pred(i, |ring|)], ring[Succ(i, |ring|)];
            Ring(next[p := n], prev[n := p], r)
  {
    RemovedForward(next, ring, i, r);
    RemovedBackward(prev, ring, i, r);
  }

  lemma RemovedForward(next: map<int, int>, ring: seq<int>, i: nat, r: seq<int>)
    requires Distinct(ring) && Forward(next, ring) && |ring| > 1 && IsRemoved(ring, i, r)
    ensures Cycle(next[ring[Pred(i, |ring|)] := ring[Succ(i, |ring|)]], r)
  {
    var m := |ring|;
    var p, n := ring[Pred(i, m)], ring[Succ(i, m)];
    var next' := next[p := n];
    assert Distinct(r);
    forall j | 0 <= j < |r| ensures r[j] in next' && next'[r[j]] == r[Succ(j, |r|)] {
      var k := if j < i then j else j + 1;
      assert r[j] == ring[k] && next[ring[k]] == ring[Succ(k, m)];
      assert ring[k] == p <==> k == Pred(i, m);
    }
  }

  lemma RemovedBackward(prev: map<int, int>, ring: seq<int>, i: nat, r: seq<int>)
    requires Distinct(ring) && Backward(prev, ring) && |ring| > 1 && IsRemoved(ring, i, r)
    ensures Backward(prev[ring[Succ(i, |ring|)] := ring[Pred(i, |ring|)]], r)
  {
    var m := |ring|;
    var p, n := ring[Pred(i, m)], ring[Succ(i, m)];
    var prev' := prev[n := p];
    forall j | 0 <= j < |r| ensures r[j] in prev' && prev'[r[j]] == r[Pred(j, |r|)] {
      var k := if j < i then j else j + 1;
      assert r[j] == ring[k] && prev[ring[k]] == ring[Pred(k, m)];
      assert ring[k] == n <==> k == Succ(i, m);
    }
  }

  /** list_add behind the node at position `i`. */
  lemma InsertBehind(next: map<int, int>, prev: map<int, int>, ring: seq<int>, i: nat, e: int)
    requires Ring(next, prev, ring) && i < |ring| && e !in ring
    ensures var q := ring[i];
            q in next && Ring(next[q := e][e := next[q]], prev[next[q] := e][e := q], Insert(ring, i, e))
  {
    assert next[ring[i]] == ring[Succ(i, |ring|)];
    InsertKeepsRing(next, prev, ring, i, e);
  }

  /** list_del of the node at position `i`. */
  lemma Unlink(next: map<int, int>, prev: map<int, int>, ring: seq<int>, i: nat)
    requires Ring(next, prev, ring) && i < |ring| && |ring| > 1
    ensures var e := ring[i];
            && e in next && e in prev && prev[e] == ring[Pred(i, |ring|)] && next[e] == ring[Succ(i, |ring|)]
            && Ring(next[prev[e] := next[e]], prev[next[e] := prev[e]], Remove(ring, i))
  {
    assert next[ring[i]] == ring[Succ(i, |ring|)] && prev[ring[i]] == ring[Pred(i, |ring|)];
    RemoveKeepsRing(next, prev, ring, i);
  }

  /** Nodes reached by following `next` from a node of a ring stay on the ring. */
  lemma {:induction false} PathStaysOnRing(next: map<int, int>, ring: seq<int>, path: seq<int>, k: nat)
    requires Cycle(next, ring) && k < |path| && path[0] in ring
    requires forall i :: 0 <= i < |path| - 1 ==> path[i] in next && next[path[i]] == path[i + 1]
    ensures path[k] in ring
  {
    if k > 0 {
      PathStaysOnRing(next, ring, path, k - 1);
      var j :| 0 <= j < |ring| && ring[j] == path[k - 1];
      assert next[ring[j]] == ring[Succ(j, |ring|)];
    }
  }

  /** On a doubly linked list only a one-node ring can have a node that is its own predecessor. */
  lemma SelfPrevIsAlone(next: map<int, int>, prev: map<int, int>, ring: seq<int>, e: int)
    requires Ring(next, prev, ring) && e in ring && prev[e] == e
    ensures ring == [e]
  {
    var j :| 0 <= j < |ring| && ring[j] == e;
    assert ring[Pred(j, |ring|)] == e;
  }

  /** Node `x` points where it pointed. */
  ghost predicate SameLinks(next: map<int, int>, prev: map<int, int>, next': map<int, int>, prev': map<int, int>,
                            x: int) {
    && (x in next ==> x in next' && next'[x] == next[x])
    && (x in prev ==> x in prev' && prev'[x] == prev[x])
  }

  /** The memory that holds the links. */
  class ListStore {
    var next: map<int, int>
    var prev: map<int, int>

    constructor ()
      ensures next == map[] && prev == map[]
    {
      next, prev := map[], map[];
    }

    /** list_init: a list of its own, hence empty. */
    method Init(elm: int)
      modifies this
      ensures next == old(next)[elm := elm] && prev == old(prev)[elm := elm]
      ensures Ring(next, prev, [elm])
    {
      prev := prev[elm := elm];
      next := next[elm := elm];
    }

    /** __list_add, one assignment at a time, in the order of the C statements. */
    method Link(elm: int, p: int, n: int)
      modifies this
      ensures next == old(next)[p := elm][elm := n]
      ensures prev == old(prev)[n := elm][elm := p]
    {
      prev := prev[n := elm];
      next := next[p := elm];
      next := next[elm := n];
      prev := prev[elm := p];
    }

    /** list_add, also called list_add_after, of a new node on a list. */
    method AddAfter(listelm: int, elm: int, ghost ring: seq<int>, ghost i: nat)
      requires Ring(next, prev, ring) && i < |ring| && ring[i] == listelm && elm !in ring
      modifies this
      ensures Ring(next, prev, Insert(ring, i, elm))
      ensures forall x :: x !in ring && x != elm ==> SameLinks(old(next), old(prev), next, prev, x)
    {
      assert next[ring[i]] == ring[Succ(i, |ring|)];
      InsertBehind(next, prev, ring, i, elm);
      Link(elm, listelm, next[listelm]);
    }

    method AddBefore(listelm: int, elm: int, ghost ring: seq<int>, ghost i: nat)
      requires Ring(next, prev, ring) && i < |ring| && ring[i] == listelm && elm !in ring
      modifies this
      ensures Ring(next, prev, Insert(ring, Pred(i, |ring|), elm))
    {
      InsertKeepsRing(next, prev, ring, Pred(i, |ring|), elm);
      assert prev[ring[i]] == ring[Pred(i, |ring|)];
      Link(elm, prev[listelm], listelm);
    }

    /** list_del: the neighbours point past the node, whose own links stay as they were.  On a
        node that is alone it changes nothing. */
    method Del(listelm: int, ghost ring: seq<int>, ghost i: nat)
      requires Ring(next, prev, ring) && i < |ring| && ring[i] == listelm
      modifies this
      ensures |ring| > 1 ==> Ring(next, prev, Remove(ring, i))
      ensures |ring| == 1 ==> next == old(next) && prev == old(prev)
    {
      if |ring| > 1 {
        Unlink(next, prev, ring, i);
      } else {
        assert next[ring[0]] == ring[Succ(0, 1)] && prev[ring[0]] == ring[Pred(0, 1)];
      }
      Bypass(prev[listelm], next[listelm]);
    }

    /** __list_del. */
    method Bypass(p: int, n: int)
      modifies this
      ensures next == old(next)[p := n] && prev == old(prev)[n := p]
    {
      next := next[p := n];
      prev := prev[n := p];
    }

    /** What list_empty tests. */
    predicate Empty(head: int)
      requires head in next
      reads this
    {
      next[head] == head
    }
  }
}
