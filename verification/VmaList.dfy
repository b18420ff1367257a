/** The list of virtual memory areas of vmm.c: kept in address order, searched with a
    one-entry cache. */
module VmaList {
  import opened Lists

  const HEAD: int := -1

  /** The null pointer, as a value of `mmap_cache` and as the answer of a search. */
  const NULL: int := -2

  datatype Vma = Vma(start: nat, end: nat, writable: bool)

  predicate Contains(v: Vma, addr: nat) {
    v.start <= addr < v.end
  }

  ghost predicate Disjoint(v: Vma, w: Vma) {
    forall addr: nat :: !(Contains(v, addr) && Contains(w, addr))
  }

  /** The areas of `list` are not empty, in address order, and pairwise disjoint. */
  ghost predicate Sorted(list: seq<int>, vmas: map<int, Vma>) {
    && (forall i :: 0 <= i < |list| ==> list[i] >= 0 && list[i] in vmas && vmas[list[i]].start < vmas[list[i]].end)
    && forall i, j :: 0 <= i < j < |list| && list[i] in vmas && list[j] in vmas ==>
         vmas[list[i]].end <= vmas[list[j]].start
  }

  /** What a search without the cache answers: the first area that contains the address. */
  function Scan(list: seq<int>, vmas: map<int, Vma>, addr: nat): (v: int)
    ensures v == NULL || (v in list && v in vmas && Contains(vmas[v], addr))
  {
    if list == [] then NULL
    else if list[0] in vmas && Contains(vmas[list[0]], addr) then list[0]
    else Scan(list[1..], vmas, addr)
  }

  /** The answer is the only area that contains the address. */
  lemma {:induction false} ScanIsUnique(list: seq<int>, vmas: map<int, Vma>, addr: nat, i: nat)
    requires Sorted(list, vmas) && i < |list| && Contains(vmas[list[i]], addr)
    ensures Scan(list, vmas, addr) == list[i]
  {
    if i > 0 {
      assert vmas[list[0]].end <= vmas[list[i]].start;
      assert forall j :: 0 <= j < |list| - 1 ==> list[1..][j] == list[j + 1];
      ScanIsUnique(list[1..], vmas, addr, i - 1);
    }
  }

  lemma ScanFindsNone(list: seq<int>, vmas: map<int, Vma>, addr: nat)
    requires forall i :: 0 <= i < |list| && list[i] in vmas ==> !Contains(vmas[list[i]], addr)
    ensures Scan(list, vmas, addr) == NULL
  {
  }

  function Nodes(list: seq<int>): seq<int> {
    [HEAD] + list
  }

  function NodeAt(list: seq<int>, k: int): int {
    if 0 < k <= |list| then list[k - 1] else HEAD
  }

  lemma NodeStep(next: map<int, int>, prev: map<int, int>, list: seq<int>, k: nat)
    requires Ring(next, prev, Nodes(list)) && k <= |list|
    ensures NodeAt(list, k) in next && next[NodeAt(list, k)] == NodeAt(list, k + 1)
    ensures Nodes(list)[k] == NodeAt(list, k)
  {
    var ring := Nodes(list);
    assert next[ring[k]] == ring[Succ(k, |ring|)];
  }

  /** Inserting behind position `k`. */
  function InsertAt(list: seq<int>, k: nat, v: int): seq<int>
    requires k <= |list|
  {
    list[..k] + [v] + list[k..]
  }

  ghost predicate MeetsNone(list: seq<int>, vmas: map<int, Vma>, v: Vma) {
    forall i :: 0 <= i < |list| && list[i] in vmas ==> Disjoint(v, vmas[list[i]])
  }

  /** The two neighbour checks pass exactly when the new area meets no area of the list. */
  lemma ChecksSuffice(list: seq<int>, vmas: map<int, Vma>, k: nat, v: Vma)
    requires Sorted(list, vmas) && k <= |list| && v.start < v.end
    requires forall i :: 0 <= i < k ==> vmas[list[i]].start <= v.start
    requires forall i :: k <= i < |list| ==> v.start < vmas[list[i]].start
    ensures (k > 0 ==> vmas[list[k - 1]].end <= v.start) && (k < |list| ==> v.end <= vmas[list[k]].start)
            <==> MeetsNone(list, vmas, v)
  {
    if (k > 0 ==> vmas[list[k - 1]].end <= v.start) && (k < |list| ==> v.end <= vmas[list[k]].start) {
      forall i | 0 <= i < |list| ensures Disjoint(v, vmas[list[i]]) {
        if i < k - 1 { assert vmas[list[i]].end <= vmas[list[k - 1]].start; }
        if k < i { assert vmas[list[k]].end <= vmas[list[i]].start; }
      }
    }
    if k > 0 && v.start < vmas[list[k - 1]].end {
      assert Contains(v, v.start) && Contains(vmas[list[k - 1]], v.start);
      assert !Disjoint(v, vmas[list[k - 1]]);
    }
    if k < |list| && vmas[list[k]].start < v.end {
      assert Contains(v, vmas[list[k]].start) && Contains(vmas[list[k]], vmas[list[k]].start);
      assert !Disjoint(v, vmas[list[k]]);
    }
  }

  lemma InsertKeepsSorted(list: seq<int>, vmas: map<int, Vma>, k: nat, id: int)
    requires Sorted(list, vmas) && k <= |list| && id >= 0 && id in vmas && id !in list
    requires vmas[id].start < vmas[id].end
    requires k > 0 ==> vmas[list[k - 1]].end <= vmas[id].start
    requires k < |list| ==> vmas[id].end <= vmas[list[k]].start
    ensures Sorted(InsertAt(list, k, id), vmas) && Nodes(InsertAt(list, k, id)) == Insert(Nodes(list), k, id)
    ensures id !in Nodes(list)
  {
    BetweenNeighbours(list, vmas, k, vmas[id]);
    InsertAtNodes(list, k, id);
    hide InsertAt;
    InsertedIsSorted(list, vmas, k, id, InsertAt(list, k, id));
    hide Sorted;
    assert forall i :: 0 <= i < |list| ==> Nodes(list)[i + 1] == list[i];
  }

  lemma InsertAtNodes(list: seq<int>, k: nat, id: int)
    requires k <= |list|
    ensures var r := InsertAt(list, k, id);
            && |r| == |list| + 1 && r[k] == id
            && (forall i :: 0 <= i < k ==> r[i] == list[i])
            && (forall i :: k < i < |r| ==> r[i] == list[i - 1])
            && Nodes(r) == Insert(Nodes(list), k, id)
  {
  }

  lemma BetweenNeighbours(list: seq<int>, vmas: map<int, Vma>, k: nat, v: Vma)
    requires Sorted(list, vmas) && k <= |list|
    requires k > 0 ==> vmas[list[k - 1]].end <= v.start
    requires k < |list| ==> v.end <= vmas[list[k]].start
    ensures forall i :: 0 <= i < k ==> vmas[list[i]].end <= v.start
    ensures forall i :: k <= i < |list| ==> v.end <= vmas[list[i]].start
  {
    forall i | 0 <= i < k ensures vmas[list[i]].end <= v.start {
      if i < k - 1 { assert vmas[list[i]].end <= vmas[list[k - 1]].start; }
    }
    forall i | k <= i < |list| ensures v.end <= vmas[list[i]].start {
      if k < i { assert vmas[list[k]].end <= vmas[list[i]].start; }
    }
  }

  lemma InsertedIsSorted(list: seq<int>, vmas: map<int, Vma>, k: nat, id: int, r: seq<int>)
    requires Sorted(list, vmas) && k <= |list| && id >= 0 && id in vmas && vmas[id].start < vmas[id].end
    requires forall i :: 0 <= i < k ==> vmas[list[i]].end <= vmas[id].start
    requires forall i :: k <= i < |list| ==> vmas[id].end <= vmas[list[i]].start
    requires |r| == |list| + 1 && r[k] == id
    requires forall i :: 0 <= i < k ==> r[i] == list[i]
    requires forall i :: k < i < |r| ==> r[i] == list[i - 1]
    ensures Sorted(r, vmas)
  {
    forall i | 0 <= i < |r| ensures r[i] >= 0 && r[i] in vmas && vmas[r[i]].start < vmas[r[i]].end {
      if i != k {
        var x := if i < k then i else i - 1;
        assert r[i] == list[x] && list[x] in vmas;
      }
    }
    forall i, j | 0 <= i < j < |r| && r[i] in vmas && r[j] in vmas ensures vmas[r[i]].end <= vmas[r[j]].start {
      var x, y := if i < k then i else i - 1, if j < k then j else j - 1;
      assert i != k ==> r[i] == list[x] && list[x] in vmas;
      assert j != k ==> r[j] == list[y] && list[y] in vmas;
    }
  }

  class MmStruct {
    const links: ListStore
    var vmas: map<int, Vma>
    var mmapCache: int
    var mapCount: int
    ghost var list: seq<int>

    ghost predicate Valid()
      reads this, links
    {
      && Ring(links.next, links.prev, Nodes(list))
      && Sorted(list, vmas)
      && mapCount == |list|
      && (mmapCache == NULL || mmapCache in list)
    }

    /** mm_create. */
    constructor ()
      ensures Valid() && list == [] && mmapCache == NULL && vmas == map[] && fresh(links)
    {
      var store := new ListStore();
      links := store;
      vmas, mmapCache, mapCount, list := map[], NULL, 0, [];
      new;
      links.Init(HEAD);
    }

    /** vma_create: `block` is what kmalloc returned, and the record there is on no list yet. */
    method CreateVma(block: int, v: Vma) returns (r: int)
      requires Valid() && (block == NULL || (block >= 0 && block !in vmas))
      modifies this`vmas
      ensures Valid() && r == block
      ensures vmas == if block == NULL then old(vmas) else old(vmas)[block := v]
    {
      r := block;
      if r != NULL {
        vmas := vmas[r := v];
      }
    }

    /** find_vma.  The cache never shows: the answer is that of a plain scan. */
    method FindVma(addr: nat) returns (v: int)
      requires Valid()
      modifies this`mmapCache
      ensures Valid() && v == Scan(list, vmas, addr)
      ensures v != NULL ==> v in vmas && Contains(vmas[v], addr)
      ensures mmapCache == if v != NULL then v else old(mmapCache)
    {
      v := mmapCache;
      if v != NULL && vmas[v].start <= addr && vmas[v].end > addr {
        ghost var i :| 0 <= i < |list| && list[i] == v;
        ScanIsUnique(list, vmas, addr, i);
      } else {
        v := ScanList(addr);
      }
      if v != NULL {
        mmapCache := v;
      }
    }

    /** The loop of find_vma. */
    method ScanList(addr: nat) returns (v: int)
      requires Valid()
      ensures v == Scan(list, vmas, addr)
    {
      var le := HEAD;
      ghost var k := 0;
      while true
        invariant k <= |list| && le == NodeAt(list, k)
        invariant forall i :: 0 <= i < k ==> !Contains(vmas[list[i]], addr)
        decreases |list| - k
      {
        NodeStep(links.next, links.prev, list, k);
        le := links.next[le];
        if le == HEAD {
          ScanFindsNone(list, vmas, addr);
          return NULL;
        }
        if vmas[le].start <= addr && addr < vmas[le].end {
          ScanIsUnique(list, vmas, addr, k);
          return le;
        }
        k := k + 1;
      }
    }

    /** insert_vma_struct.  `ok` is false when one of its assertions fails. */
    method InsertVma(id: int) returns (ok: bool, ghost k: nat)
      requires Valid() && id >= 0 && id in vmas && id !in list
      modifies this, links
      ensures ok <==> old(vmas)[id].start < old(vmas)[id].end && MeetsNone(old(list), old(vmas), old(vmas)[id])
      ensures Valid() && vmas == old(vmas) && mmapCache == old(mmapCache)
      ensures ok ==> k <= |old(list)| && list == InsertAt(old(list), k, id) && mapCount == old(mapCount) + 1
      ensures !ok ==> list == old(list)
    {
      var v := vmas[id];
      ok, k := true, 0;
      if !(v.start < v.end) {
        return false, k;
      }
      var lePrev, leNext;
      lePrev, leNext, k := FindPlace(v);
      NodeStep(links.next, links.prev, list, k);
      ChecksSuffice(list, vmas, k, v);
      if lePrev != HEAD && !(vmas[lePrev].start < vmas[lePrev].end && vmas[lePrev].end <= v.start && v.start < v.end) {
        return false, k;
      }
      if leNext != HEAD && !(v.start < v.end && v.end <= vmas[leNext].start && vmas[leNext].start < vmas[leNext].end) {
        return false, k;
      }
      InsertKeepsSorted(list, vmas, k, id);
      hide Ring, Sorted, InsertAt;
      links.AddAfter(lePrev, id, Nodes(list), k);
      mapCount := mapCount + 1;
      list := InsertAt(list, k, id);
    }

    /** The loop of insert_vma_struct: behind the last area that starts no later than `v`. */
    method FindPlace(v: Vma) returns (lePrev: int, leNext: int, ghost k: nat)
      requires Valid()
      ensures k <= |list| && lePrev == NodeAt(list, k) && leNext == NodeAt(list, k + 1)
      ensures forall i :: 0 <= i < k ==> vmas[list[i]].start <= v.start
      ensures forall i :: k <= i < |list| ==> v.start < vmas[list[i]].start
    {
      lePrev, k := HEAD, 0;
      var le := HEAD;
      while true
        invariant k <= |list| && le == NodeAt(list, k) && lePrev == le
        invariant forall i :: 0 <= i < k ==> vmas[list[i]].start <= v.start
        decreases |list| - k
      {
        NodeStep(links.next, links.prev, list, k);
        le := links.next[le];
        if le == HEAD || vmas[le].start > v.start {
          break;
        }
        lePrev := le;
        k := k + 1;
      }
      NodeStep(links.next, links.prev, list, k);
      leNext := links.next[lePrev];
    }
  }
}
