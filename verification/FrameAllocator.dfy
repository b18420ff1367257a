/** The page-frame allocators of best_fit_pmm.c and default_pmm.c (first fit):
    one array of frame descriptors, one address-ordered free list threaded
    through it.  The two differ only in how allocation picks a block. */
module FrameAllocator {
  import opened Lists
  import opened FreeBlocks
  import opened Wrappers

  /** A frame descriptor; `head` is the flag PG_property. */
  datatype Page = Page(reserved: bool, head: bool, property: nat, ref: int)

  /** The node of the list head `free_list`; frame `p` is node `p`. */
  const HEAD: int := -1

  /** The nodes of a free list, head first. */
  function Nodes(bs: seq<Block>): seq<int> {
    [HEAD] + Addrs(bs)
  }

  /** The node `k` steps from the head. */
  function NodeAt(bs: seq<Block>, k: int): int {
    if 0 < k <= |bs| then bs[k - 1].addr else HEAD
  }

  lemma StepAlong(next: map<int, int>, prev: map<int, int>, bs: seq<Block>, k: nat)
    requires Ring(next, prev, Nodes(bs)) && k <= |bs|
    ensures NodeAt(bs, k) in next && next[NodeAt(bs, k)] == NodeAt(bs, k + 1)
    ensures NodeAt(bs, k + 1) in prev && prev[NodeAt(bs, k + 1)] == NodeAt(bs, k)
  {
    var ring := Nodes(bs);
    assert next[ring[k]] == ring[Succ(k, |ring|)];
    var j := Succ(k, |ring|);
    assert prev[ring[j]] == ring[Pred(j, |ring|)];
  }

  /** Block `i` is the lowest of the smallest blocks with at least `n` pages. */
  ghost predicate IsBestFit(bs: seq<Block>, n: nat, i: nat) {
    IsBestAmong(bs, |bs|, n, i)
  }

  /** The same, of the first `k` blocks only. */
  ghost predicate IsBestAmong(bs: seq<Block>, k: nat, n: nat, i: nat) {
    && i < k <= |bs| && bs[i].size >= n
    && forall j :: 0 <= j < k && bs[j].size >= n ==> bs[i].size < bs[j].size || (bs[i].size == bs[j].size && i <= j)
  }

  /** Block `i` is the lowest block with at least `n` pages. */
  ghost predicate IsFirstFit(bs: seq<Block>, n: nat, i: nat) {
    i < |bs| && bs[i].size >= n && forall j :: 0 <= j < i ==> bs[j].size < n
  }

  ghost predicate NoFit(bs: seq<Block>, n: nat) {
    forall j :: 0 <= j < |bs| ==> bs[j].size < n
  }

  /** A free at `base` meets the list where the insertion loop works: the list is
      empty, or some free block lies above `base`. */
  predicate BelowTop(bs: seq<Block>, base: int) {
    bs == [] || base < bs[|bs| - 1].addr
  }

  /** After `k` blocks the best-fit search holds the best block so far, or the sentinel. */
  ghost predicate Scanned(bs: seq<Block>, k: nat, n: nat, i: nat, found: bool, minSize: int, nrFree: nat) {
    && k <= |bs|
    && if found then IsBestAmong(bs, k, n, i) && minSize == bs[i].size
       else minSize == nrFree + 1 && forall j :: 0 <= j < k ==> bs[j].size < n
  }

  lemma ScanStart(bs: seq<Block>, n: nat, nrFree: nat)
    ensures Scanned(bs, 0, n, 0, false, nrFree + 1, nrFree)
  {
  }

  lemma ScanEnd(bs: seq<Block>, n: nat, i: nat, found: bool, minSize: int, nrFree: nat)
    requires Scanned(bs, |bs|, n, i, found, minSize, nrFree)
    ensures found ==> IsBestFit(bs, n, i)
    ensures !found <==> NoFit(bs, n)
  {
  }

  /** The sentinel is above every block because the counter is the sum of the sizes. */
  lemma ScanStep(bs: seq<Block>, k: nat, n: nat, i: nat, found: bool, minSize: int)
    requires k < |bs| && Scanned(bs, k, n, i, found, minSize, Total(bs))
    ensures if n <= bs[k].size < minSize then Scanned(bs, k + 1, n, k, true, bs[k].size, Total(bs))
            else Scanned(bs, k + 1, n, i, found, minSize, Total(bs))
  {
    SizeAtMostTotal(bs, k);
  }

  /** Some doubly linked list starts at the head: `next` and `prev` agree on it. */
  ghost predicate LinksAgree(next: map<int, int>, prev: map<int, int>) {
    exists ring :: Ring(next, prev, ring) && HEAD in ring
  }

  /** No block of `bs` abuts the `n` frames from `base`. */
  ghost predicate Apart(bs: seq<Block>, base: int, n: nat) {
    forall i :: 0 <= i < |bs| ==> bs[i].End() != base && base + n != bs[i].addr
  }

  ghost predicate Unlisted(bs: seq<Block>, base: int) {
    base >= 0 && forall i :: 0 <= i < |bs| ==> bs[i].addr != base
  }

  /** The links that the insertion loop leaves when `base` is above every free block. */
  function TailNext(next: map<int, int>, last: int, base: int): map<int, int> {
    next[last := base][base := HEAD]
  }

  function TailPrev(prev: map<int, int>, base: int): map<int, int> {
    prev[HEAD := base][base := base]
  }

  /** What the insertion loop leaves behind when `base` is above every free block. */
  lemma TailInsertDisagrees(next: map<int, int>, prev: map<int, int>, bs: seq<Block>, base: int)
    requires Ring(next, prev, Nodes(bs)) && bs != [] && Unlisted(bs, base)
    ensures !LinksAgree(TailNext(next, bs[|bs| - 1].addr, base), TailPrev(prev, base))
  {
    forall ring | HEAD in ring
      ensures !Ring(TailNext(next, bs[|bs| - 1].addr, base), TailPrev(prev, base), ring)
    {
      TailInsertIsNoRing(next, prev, bs, base, ring);
    }
  }

  lemma TailInsertIsNoRing(next: map<int, int>, prev: map<int, int>, bs: seq<Block>, base: int, ring: seq<int>)
    requires Ring(next, prev, Nodes(bs)) && bs != [] && Unlisted(bs, base) && HEAD in ring
    ensures !Ring(TailNext(next, bs[|bs| - 1].addr, base), TailPrev(prev, base), ring)
  {
    var last := bs[|bs| - 1].addr;
    var next', prev', path := TailNext(next, last, base), TailPrev(prev, base), Nodes(bs) + [base];
    forall i | 0 <= i < |path| - 1
      ensures path[i] in next' && next'[path[i]] == path[i + 1]
    {
      StepAlong(next, prev, bs, i);
      assert path[i] == Nodes(bs)[i] == NodeAt(bs, i) && last == Nodes(bs)[|bs|];
    }
    if Cycle(next', ring) {
      PathStaysOnRing(next', ring, path, |path| - 1);
      assert base in ring && prev'[base] == base;
      if Ring(next', prev', ring) {
        SelfPrevIsAlone(next', prev', ring, base);
      }
    }
  }

  lemma TakeNodes(bs: seq<Block>, i: nat, n: nat)
    requires i < |bs| && n <= bs[i].size
    ensures Nodes(Take(bs, i, n)) ==
            if n == bs[i].size then Remove(Nodes(bs), i + 1)
            else Insert(Remove(Nodes(bs), i + 1), i, bs[i].addr + n)
  {
    hide Take, Nodes, Remove, Insert;
    var t, ring := Take(bs, i, n), Nodes(bs);
    TakeCuts(bs, i, n);
    NodesAre(bs);
    NodesAre(t);
    var cut := Remove(ring, i + 1);
    Removed(ring, i + 1, 0);
    var r := if n == bs[i].size then cut else Insert(cut, i, bs[i].addr + n);
    assert |r| == |t| + 1 by { if n < bs[i].size { Inserted(cut, i, bs[i].addr + n, 0); } }
    forall j | 0 <= j < |r| ensures Nodes(t)[j] == r[j] {
      if n == bs[i].size {
        Removed(ring, i + 1, j);
      } else {
        Inserted(cut, i, bs[i].addr + n, j);
        if j != i + 1 {
          Removed(ring, i + 1, if j <= i then j else j - 1);
        }
      }
    }
  }

  lemma Removed(s: seq<int>, i: nat, j: nat)
    requires i < |s|
    ensures |Remove(s, i)| == |s| - 1 && (j < |s| - 1 ==> Remove(s, i)[j] == s[if j < i then j else j + 1])
  {
  }

  lemma Inserted(s: seq<int>, i: nat, e: int, j: nat)
    requires i < |s|
    ensures |Insert(s, i, e)| == |s| + 1
    ensures j <= |s| ==> Insert(s, i, e)[j] == if j <= i then s[j] else if j == i + 1 then e else s[j - 1]
  {
  }

  lemma NodesAre(bs: seq<Block>)
    ensures |Nodes(bs)| == |bs| + 1 && forall j :: 0 <= j <= |bs| ==> Nodes(bs)[j] == NodeAt(bs, j)
  {
  }

  ghost predicate IsHead(bs: seq<Block>, p: int) {
    exists i :: 0 <= i < |bs| && bs[i].addr == p
  }

  /** Descriptor `p` is a head exactly when a block starts there, and then holds its size. */
  ghost predicate Described(pages: seq<Page>, bs: seq<Block>) {
    && (forall i :: 0 <= i < |bs| ==> 0 <= bs[i].addr && bs[i].addr + bs[i].size <= |pages|)
    && (forall i :: 0 <= i < |bs| && bs[i].addr < |pages| ==> pages[bs[i].addr].property == bs[i].size)
    && forall p :: 0 <= p < |pages| ==> (pages[p].head <==> IsHead(bs, p))
  }

  /** Replacing blocks `l..h` by `m` needs these changes to the descriptors and no others. */
  lemma SplicedDescribed(pages: seq<Page>, bs: seq<Block>, l: nat, h: nat, m: Block, r: seq<Block>, pages': seq<Page>)
    requires Described(pages, bs) && IsSpliced(bs, l, h, m, r) && |pages| == |pages'|
    requires 0 <= m.addr < m.addr + m.size <= |pages'| && pages'[m.addr].head && pages'[m.addr].property == m.size
    requires forall p :: 0 <= p < |pages| && !Holds(m, p) ==>
               pages'[p].head == pages[p].head && pages'[p].property == pages[p].property
    requires forall p :: 0 <= p < |pages| && Holds(m, p) && p != m.addr ==> !pages'[p].head
    requires forall i :: 0 <= i < |bs| ==> if l <= i < h then Holds(m, bs[i].addr) else !Holds(m, bs[i].addr)
    ensures Described(pages', r)
  {
    forall i | 0 <= i < |r|
      ensures 0 <= r[i].addr && r[i].addr + r[i].size <= |pages'|
      ensures r[i].addr < |pages'| ==> pages'[r[i].addr].property == r[i].size
    {
      if i != l {
        assert r[i] == bs[if i < l then i else i - l - 1 + h];
      }
    }
    forall p | 0 <= p < |pages'|
      ensures pages'[p].head <==> IsHead(r, p)
    {
      SplicedHeads(bs, l, h, m, r, p);
    }
  }

  lemma SplicedHeads(bs: seq<Block>, l: nat, h: nat, m: Block, r: seq<Block>, p: int)
    requires IsSpliced(bs, l, h, m, r)
    requires forall i :: 0 <= i < |bs| ==> if l <= i < h then Holds(m, bs[i].addr) else !Holds(m, bs[i].addr)
    requires m.size > 0
    ensures IsHead(r, p) <==> if Holds(m, p) then p == m.addr else IsHead(bs, p)
  {
    if IsHead(r, p) {
      var i :| 0 <= i < |r| && r[i].addr == p;
      if i != l {
        assert bs[if i < l then i else i - l - 1 + h].addr == p;
      }
    }
    if p == m.addr {
      assert r[l].addr == p;
    }
    if IsHead(bs, p) && !Holds(m, p) {
      var i :| 0 <= i < |bs| && bs[i].addr == p;
      assert r[if i < l then i else i + l + 1 - h].addr == p;
    }
  }

  /** Address order with no overlap; blocks may abut. */
  ghost predicate Ordered(bs: seq<Block>) {
    && (forall i :: 0 <= i < |bs| ==> bs[i].addr >= 0 && bs[i].size > 0)
    && forall i, j :: 0 <= i < j < |bs| ==> bs[i].addr + bs[i].size <= bs[j].addr
  }

  /** The list right after an insertion, before any merging. */
  function Plain(bs: seq<Block>, k: nat, a: int, n: nat): seq<Block>
    requires k <= |bs|
  {
    bs[..k] + [Block(a, n)] + bs[k..]
  }

  /** Blocks `i` and `i + 1` made one. */
  function Fuse(bs: seq<Block>, i: nat): seq<Block>
    requires i + 1 < |bs|
  {
    bs[..i] + [Block(bs[i].addr, bs[i].size + bs[i + 1].size)] + bs[i + 2..]
  }

  lemma FuseMiddle(p: seq<Block>, x: Block, q: seq<Block>)
    requires q != []
    ensures Fuse(p + [x] + q, |p|) == p + [Block(x.addr, x.size + q[0].size)] + q[1..]
  {
    var s := p + [x] + q;
    assert s[..|p|] == p && s[|p|] == x && s[|p| + 1] == q[0] && s[|p| + 2..] == q[1..];
  }

  /** The two neighbours of an inserted block. */
  lemma PlainNeighbours(bs: seq<Block>, k: nat, a: int, n: nat)
    requires k <= |bs|
    ensures var xs := Plain(bs, k, a, n);
            xs[k] == Block(a, n) && (k > 0 ==> xs[k - 1] == bs[k - 1]) && (k < |bs| ==> xs[k + 1] == bs[k])
    ensures k > 0 ==> Plain(bs, k, a, n) == bs[..k - 1] + [bs[k - 1]] + ([Block(a, n)] + bs[k..])
  {
  }

  /** Freeing is insertion followed by at most two fusions, the left one first. */
  lemma GiveIsFusion(bs: seq<Block>, k: nat, a: int, n: nat)
    requires k <= |bs|
    ensures Coalesced(Plain(bs, k, a, n), k) == Give(bs, k, a, n)
  {
    PlainNeighbours(bs, k, a, n);
    if JoinsLeft(bs, k, a) {
      FusedLeft(bs, k, a, n);
    } else if JoinsRight(bs, k, a, n) {
      FuseMiddle(bs[..k], Block(a, n), bs[k..]);
      assert bs[k..][1..] == bs[k + 1..];
    }
  }

  lemma FusedLeft(bs: seq<Block>, k: nat, a: int, n: nat)
    requires k <= |bs| && JoinsLeft(bs, k, a)
    ensures FuseRight(Fuse(Plain(bs, k, a, n), k - 1), k - 1) == Give(bs, k, a, n)
  {
    var p, m := bs[..k - 1], Block(bs[k - 1].addr, bs[k - 1].size + n);
    PlainNeighbours(bs, k, a, n);
    hide Plain, Fuse, FuseRight, Give;
    var q := [Block(a, n)] + bs[k..];
    assert q[1..] == bs[k..];
    FuseMiddle(p, bs[k - 1], q);
    var ys := p + [m] + bs[k..];
    FuseRightOf(bs, k, a, n, p, m, ys);
  }

  lemma FuseRightOf(bs: seq<Block>, k: nat, a: int, n: nat, p: seq<Block>, m: Block, ys: seq<Block>)
    requires k <= |bs| && JoinsLeft(bs, k, a) && p == bs[..k - 1] && m == Block(bs[k - 1].addr, bs[k - 1].size + n)
    requires ys == p + [m] + bs[k..]
    ensures FuseRight(ys, k - 1) == Give(bs, k, a, n)
  {
    hide Fuse;
    assert ys[k - 1] == m && (k < |bs| ==> ys[k] == bs[k]);
    if JoinsRight(bs, k, a, n) {
      FuseMiddle(p, m, bs[k..]);
      assert bs[k..][1..] == bs[k + 1..];
    }
  }

  /** An inserted block leaves the list canonical exactly if it touches no neighbour; then
      inserting is all there is to giving back. */
  lemma PlainApart(bs: seq<Block>, k: nat, a: int, n: nat)
    requires Canonical(bs) && Gap(bs, k, a, n) && n > 0
    ensures var r := Plain(bs, k, a, n);
            && (Canonical(r) <==> Apart(bs, a, n)) && Total(r) == Total(bs) + n
            && (Apart(bs, a, n) ==> r == Give(bs, k, a, n))
  {
    hide Plain, Total, Canonical, Gap, Give;
    GapIsPlace(bs, k, a, n);
    PlainTotal(bs, k, a, n);
    if Apart(bs, a, n) {
      PlainIsGive(bs, k, a, n);
      GiveAdds(bs, k, a, n);
    } else {
      PlainTouches(bs, k, a, n);
    }
  }

  lemma PlainTouches(bs: seq<Block>, k: nat, a: int, n: nat)
    requires Gap(bs, k, a, n) && n > 0 && !Apart(bs, a, n)
    ensures !Canonical(Plain(bs, k, a, n))
  {
    hide Apart;
    var r := Plain(bs, k, a, n);
    var i := Neighbour(bs, a, n);
    assert r[k] == Block(a, n) && r[if i < k then i else i + 1] == bs[i];
  }

  lemma Neighbour(bs: seq<Block>, a: int, n: nat) returns (i: nat)
    requires !Apart(bs, a, n)
    ensures i < |bs| && (bs[i].End() == a || a + n == bs[i].addr)
  {
    i :| 0 <= i < |bs| && (bs[i].End() == a || a + n == bs[i].addr);
  }

  lemma PlainTotal(bs: seq<Block>, k: nat, a: int, n: nat)
    requires k <= |bs|
    ensures Total(Plain(bs, k, a, n)) == Total(bs) + n
  {
    hide Total;
    TotalMiddle(bs[..k], Block(a, n), bs[k..]);
    TotalSplit(bs, k);
  }

  lemma PlainIsGive(bs: seq<Block>, k: nat, a: int, n: nat)
    requires k <= |bs| && Apart(bs, a, n)
    ensures Plain(bs, k, a, n) == Give(bs, k, a, n)
  {
  }

  lemma RingAgrees(next: map<int, int>, prev: map<int, int>, bs: seq<Block>)
    requires Ring(next, prev, Nodes(bs))
    ensures LinksAgree(next, prev)
  {
    assert Nodes(bs)[0] == HEAD;
  }

  lemma PlainInserts(bs: seq<Block>, k: nat, a: int, n: nat)
    requires Canonical(bs) && Gap(bs, k, a, n) && n > 0 && a >= 0
    requires forall i :: 0 <= i < |bs| ==> bs[i].addr >= 0
    ensures Ordered(Plain(bs, k, a, n)) && IsSpliced(bs, k, k, Block(a, n), Plain(bs, k, a, n))
    ensures Nodes(Plain(bs, k, a, n)) == Insert(Nodes(bs), k, a)
  {
    hide Canonical, Ordered, Gap, Nodes, Insert;
    GapIsPlace(bs, k, a, n);
    var r := Plain(bs, k, a, n);
    SpliceConcat(bs, k, k, Block(a, n));
    PlainIsOrdered(bs, k, a, n, r);
    NodesAre(bs);
    NodesAre(r);
    Inserted(Nodes(bs), k, a, 0);
    forall j | 0 <= j < |r| + 1 ensures Nodes(r)[j] == Insert(Nodes(bs), k, a)[j] {
      Inserted(Nodes(bs), k, a, j);
    }
  }

  lemma PlainIsOrdered(bs: seq<Block>, k: nat, a: int, n: nat, r: seq<Block>)
    requires Canonical(bs) && Gap(bs, k, a, n) && n > 0 && a >= 0
    requires forall i :: 0 <= i < |bs| ==> bs[i].addr >= 0
    requires IsSpliced(bs, k, k, Block(a, n), r)
    ensures Ordered(r)
  {
    forall i, j | 0 <= i < j < |r| ensures r[i].addr + r[i].size <= r[j].addr {
      assert i < k ==> r[i] == bs[i];
      assert j > k ==> r[j] == bs[j - 1];
      assert j < k ==> r[j] == bs[j];
      assert i > k ==> r[i] == bs[i - 1];
    }
  }

  lemma FuseRemoves(bs: seq<Block>, i: nat)
    requires Ordered(bs) && i + 1 < |bs| && bs[i].addr + bs[i].size == bs[i + 1].addr
    ensures Ordered(Fuse(bs, i)) && Nodes(Fuse(bs, i)) == Remove(Nodes(bs), i + 2)
    ensures IsSpliced(bs, i, i + 2, Block(bs[i].addr, bs[i].size + bs[i + 1].size), Fuse(bs, i))
  {
    var m, r := Block(bs[i].addr, bs[i].size + bs[i + 1].size), Fuse(bs, i);
    SpliceConcat(bs, i, i + 2, m);
    FusedIsOrdered(bs, i, r);
    FusedNodes(bs, i, r);
  }

  /** The descriptor changes that go with a fusion. */
  ghost predicate FuseMarks(pages: seq<Page>, lo: int, hi: int, size: nat, pages': seq<Page>) {
    && |pages'| == |pages| && 0 <= lo < hi < |pages|
    && pages'[lo].head == pages[lo].head && pages'[lo].property == size && !pages'[hi].head
    && forall p :: 0 <= p < |pages| && p != lo && p != hi ==> pages'[p] == pages[p]
  }

  lemma FuseDescribed(pages: seq<Page>, bs: seq<Block>, i: nat, pages': seq<Page>)
    requires Described(pages, bs) && Ordered(bs) && i + 1 < |bs| && bs[i].addr + bs[i].size == bs[i + 1].addr
    requires FuseMarks(pages, bs[i].addr, bs[i + 1].addr, bs[i].size + bs[i + 1].size, pages')
    ensures Described(pages', Fuse(bs, i))
  {
    var m := Block(bs[i].addr, bs[i].size + bs[i + 1].size);
    FuseRemoves(bs, i);
    FusedHeads(pages, bs, i);
    SplicedDescribed(pages, bs, i, i + 2, m, Fuse(bs, i), pages');
  }

  lemma FuseReads(pages: seq<Page>, bs: seq<Block>, i: nat)
    requires Ordered(bs) && Described(pages, bs) && i + 1 < |bs|
    ensures 0 <= bs[i].addr < bs[i + 1].addr < |pages| && |Nodes(bs)| == |bs| + 1 && Nodes(bs)[i + 2] == bs[i + 1].addr
    ensures pages[bs[i].addr].property == bs[i].size && pages[bs[i + 1].addr].property == bs[i + 1].size
  {
  }

  lemma FusedHeads(pages: seq<Page>, bs: seq<Block>, i: nat)
    requires Described(pages, bs) && Ordered(bs) && i + 1 < |bs| && bs[i].addr + bs[i].size == bs[i + 1].addr
    ensures var m := Block(bs[i].addr, bs[i].size + bs[i + 1].size);
            && 0 <= m.addr < m.addr + m.size <= |pages| && pages[m.addr].head
            && (forall j :: 0 <= j < |bs| ==> if i <= j < i + 2 then Holds(m, bs[j].addr) else !Holds(m, bs[j].addr))
            && forall p :: 0 <= p < |pages| && Holds(m, p) && p != m.addr && p != bs[i + 1].addr ==> !pages[p].head
  {
    assert IsHead(bs, bs[i].addr);
  }

  lemma FusedIsOrdered(bs: seq<Block>, i: nat, r: seq<Block>)
    requires Ordered(bs) && i + 1 < |bs| && bs[i].addr + bs[i].size == bs[i + 1].addr
    requires IsSpliced(bs, i, i + 2, Block(bs[i].addr, bs[i].size + bs[i + 1].size), r)
    ensures Ordered(r)
  {
  }

  lemma FusedNodes(bs: seq<Block>, i: nat, r: seq<Block>)
    requires i + 1 < |bs| && IsSpliced(bs, i, i + 2, Block(bs[i].addr, bs[i].size + bs[i + 1].size), r)
    ensures Nodes(r) == Remove(Nodes(bs), i + 2)
  {
    assert forall j :: 0 <= j < |r| ==> r[j].addr == bs[if j <= i then j else j + 1].addr;
  }

  /** What merging makes of the block at `i`: first its left neighbour, then its right. */
  function Coalesced(bs: seq<Block>, i: nat): seq<Block>
    requires i < |bs|
  {
    var left := i > 0 && bs[i - 1].addr + bs[i - 1].size == bs[i].addr;
    var l := if left then i - 1 else i;
    FuseRight(if left then Fuse(bs, l) else bs, l)
  }

  function FuseRight(bs: seq<Block>, i: nat): seq<Block>
    requires i < |bs|
  {
    if i + 1 < |bs| && bs[i].addr + bs[i].size == bs[i + 1].addr then Fuse(bs, i) else bs
  }

  /** The descriptors of the run from `base` made a single free block, at boot with the sizes of
      the other pages cleared. */
  ghost predicate Marked(pages: seq<Page>, base: nat, n: nat, sizes: bool, pages': seq<Page>) {
    && |pages'| == |pages| && base + n <= |pages| && n > 0
    && (forall p :: 0 <= p < |pages| && !(base <= p < base + n) ==> pages'[p] == pages[p])
    && (forall p :: base < p < base + n ==>
          pages'[p] == Page(false, false, if sizes then 0 else pages[p].property, 0))
    && pages'[base] == Page(false, true, n, 0)
  }

  lemma PositiveSizes(bs: seq<Block>)
    requires Canonical(bs)
    ensures forall i :: 0 <= i < |bs| ==> bs[i].size > 0
  {
  }

  /** The node after `k` steps, if it is not the head, is frame `bs[k].addr`. */
  lemma NodeIsBlock(pages: seq<Page>, bs: seq<Block>, k: nat)
    requires Described(pages, bs) && k <= |bs|
    ensures NodeAt(bs, k + 1) == HEAD <==> k == |bs|
    ensures k < |bs| ==>
              && 0 <= NodeAt(bs, k + 1)
              && (NodeAt(bs, k + 1) < |pages| ==> pages[NodeAt(bs, k + 1)].property == bs[k].size)
    ensures k < |bs| && bs[k].size > 0 ==> NodeAt(bs, k + 1) < |pages|
  {
  }

  lemma UnlistedNodes(bs: seq<Block>, e: int)
    requires Unlisted(bs, e)
    ensures e !in Nodes(bs) && e >= 0 && forall i :: 0 <= i < |bs| ==> bs[i].addr != e
    ensures |Nodes(bs)| == |bs| + 1 && forall i :: 0 <= i <= |bs| ==> Nodes(bs)[i] == NodeAt(bs, i)
  {
    assert forall i :: 0 <= i < |bs| ==> Nodes(bs)[i + 1] == bs[i].addr;
  }

  lemma ClearIsUnlisted(pages: seq<Page>, bs: seq<Block>, base: nat, n: nat)
    requires Canonical(bs) && Described(pages, bs) && Clear(bs, base, n) && n > 0
    ensures Unlisted(bs, base) && Ascending(bs)
  {
  }

  lemma ClearIsGap(bs: seq<Block>, k: nat, base: nat, n: nat)
    requires Canonical(bs) && Clear(bs, base, n) && k <= |bs|
    requires forall i :: 0 <= i < k ==> bs[i].addr < base
    requires forall i :: k <= i < |bs| ==> base < bs[i].addr
    ensures Gap(bs, k, base, n)
  {
  }

  lemma MarkedDescribed(pages: seq<Page>, bs: seq<Block>, k: nat, base: nat, n: nat, pages': seq<Page>)
    requires Canonical(bs) && Described(pages, bs) && Gap(bs, k, base, n)
    requires exists sizes :: Marked(pages, base, n, sizes, pages')
    ensures Ordered(Plain(bs, k, base, n)) && Described(pages', Plain(bs, k, base, n))
    ensures Nodes(Plain(bs, k, base, n)) == Insert(Nodes(bs), k, base)
  {
    PlainInserts(bs, k, base, n);
    SplicedDescribed(pages, bs, k, k, Block(base, n), Plain(bs, k, base, n), pages');
  }

  ghost predicate Ascending(bs: seq<Block>) {
    && (forall i :: 0 <= i < |bs| ==> bs[i].addr >= 0)
    && forall i, j :: 0 <= i < j < |bs| ==> bs[i].addr < bs[j].addr
  }

  /** The state of the insertion loop once it has linked `base` behind the last block. */
  ghost predicate AfterAppend(next0: map<int, int>, prev0: map<int, int>, last: int, base: int,
                              le: int, next: map<int, int>, prev: map<int, int>) {
    && next == TailNext(next0, last, base)
    && (le == last || le == base)
    && prev == if le == base then TailPrev(prev0, base) else prev0[HEAD := base][base := last]
  }

  /** list_add(base, base): the one more insertion done after an insertion at the tail. */
  lemma AppendTwice(next0: map<int, int>, prev0: map<int, int>, last: int, base: int)
    requires base != last && base != HEAD
    ensures var next, prev := TailNext(next0, last, base), prev0[HEAD := base][base := last];
            && next[last] == base && next[base] == HEAD
            && next[base := base][base := next[base]] == next
            && prev[next[base] := base][base := base] == TailPrev(prev0, base)
  {
  }

  /** What cutting block `i` relies on. */
  lemma CutFacts(next: map<int, int>, prev: map<int, int>, pages: seq<Page>, bs: seq<Block>, i: nat, n: nat)
    requires Canonical(bs) && Described(pages, bs) && Ring(next, prev, Nodes(bs))
    requires i < |bs| && 0 < n <= bs[i].size
    ensures 0 <= bs[i].addr && bs[i].addr + bs[i].size <= |pages| && pages[bs[i].addr].property == bs[i].size
    ensures bs[i].addr in prev
    ensures var ring, e := Nodes(bs), bs[i].addr;
            && i + 1 < |ring| && ring[i + 1] == e
            && var rest := Remove(ring, i + 1);
            && i < |rest| && rest[i] == prev[e]
            && (n < bs[i].size ==> e + n !in rest && Insert(rest, i, e + n) == Nodes(Take(bs, i, n)))
            && (n == bs[i].size ==> rest == Nodes(Take(bs, i, n)))
  {
    StepAlong(next, prev, bs, i);
    RestIsNew(bs, i, n);
    TakeNodes(bs, i, n);
  }

  lemma RestIsNew(bs: seq<Block>, i: nat, n: nat)
    requires Canonical(bs) && i < |bs|
    requires forall j :: 0 <= j < |bs| ==> bs[j].addr >= 0
    ensures 0 < n < bs[i].size ==> bs[i].addr + n !in Remove(Nodes(bs), i + 1)
  {
    var ring := Remove(Nodes(bs), i + 1);
    forall j | 0 <= j < |ring| && 0 < n < bs[i].size ensures ring[j] != bs[i].addr + n {
      var m := if j <= i then j else j + 1;
      assert ring[j] == Nodes(bs)[m];
      if m > 0 {
        assert ring[j] == bs[m - 1].addr && m - 1 != i;
      }
    }
  }

  /** The frames of the run are unreserved and unreferenced, the others as before. */
  ghost predicate Released(pages: seq<Page>, base: nat, n: nat, pages': seq<Page>) {
    && |pages'| == |pages|
    && forall p :: 0 <= p < |pages| ==>
         if base <= p < base + n then !pages'[p].reserved && pages'[p].ref == 0
         else pages'[p].reserved == pages[p].reserved && pages'[p].ref == pages[p].ref
  }

  /** No frame on the free list is reserved. */
  ghost predicate Usable(pages: seq<Page>, bs: seq<Block>) {
    forall p :: 0 <= p < |pages| && Covers(bs, p) ==> !pages[p].reserved
  }

  lemma TakeUsable(pages: seq<Page>, bs: seq<Block>, i: nat, n: nat, pages': seq<Page>)
    requires Canonical(bs) && i < |bs| && 0 < n <= bs[i].size
    requires Usable(pages, bs) && SameFrames(pages, pages')
    ensures Usable(pages', Take(bs, i, n))
  {
    hide Take, Canonical;
    TakeRemoves(bs, i, n);
  }

  lemma GiveUsable(pages: seq<Page>, bs: seq<Block>, k: nat, base: nat, n: nat, pages': seq<Page>)
    requires Canonical(bs) && Gap(bs, k, base, n) && n > 0
    requires Usable(pages, bs) && Released(pages, base, n, pages')
    ensures Usable(pages', Give(bs, k, base, n))
  {
    hide Give, Canonical;
    GiveAdds(bs, k, base, n);
  }

  lemma PlainUsable(pages: seq<Page>, bs: seq<Block>, k: nat, base: nat, n: nat, pages': seq<Page>)
    requires k <= |bs| && Usable(pages, bs) && Released(pages, base, n, pages')
    ensures Usable(pages', Plain(bs, k, base, n))
  {
    SpliceConcat(bs, k, k, Block(base, n));
    var r := Plain(bs, k, base, n);
    forall p | 0 <= p < |pages'| && Covers(r, p) && !(base <= p < base + n) ensures Covers(bs, p) {
      var i :| 0 <= i < |r| && Holds(r[i], p);
      assert Holds(bs[if i < k then i else i - 1], p);
    }
  }

  lemma MarkedFrames(pages: seq<Page>, base: nat, n: nat, mid: seq<Page>, pages': seq<Page>)
    requires (exists sizes :: Marked(pages, base, n, sizes, mid)) && SameFrames(mid, pages')
    ensures Released(pages, base, n, pages')
  {
  }

  lemma PlainHolds(bs: seq<Block>, k: nat, a: int, n: nat)
    requires k <= |bs|
    ensures k < |Plain(bs, k, a, n)| && Plain(bs, k, a, n)[k] == Block(a, n)
  {
  }

  /** Reservation and reference counts are as before. */
  ghost predicate SameFrames(pages: seq<Page>, pages': seq<Page>) {
    |pages'| == |pages| &&
    forall p :: 0 <= p < |pages| ==> pages'[p].reserved == pages[p].reserved && pages'[p].ref == pages[p].ref
  }

  lemma TotalBoundsAll(bs: seq<Block>)
    ensures forall i :: 0 <= i < |bs| ==> bs[i].size <= Total(bs)
  {
    forall i | 0 <= i < |bs| ensures bs[i].size <= Total(bs) {
      SizeAtMostTotal(bs, i);
    }
  }

  /** The descriptor changes that go with cutting `n` pages off the block at `a`. */
  ghost predicate CutMarks(pages: seq<Page>, a: int, s: nat, n: nat, pages': seq<Page>) {
    && |pages'| == |pages| && 0 <= a && a + s <= |pages| && 0 < n <= s
    && !pages'[a].head
    && (n < s ==> pages'[a + n].head && pages'[a + n].property == s - n)
    && forall p :: 0 <= p < |pages| && p != a && !(n < s && p == a + n) ==> pages'[p] == pages[p]
  }

  lemma CutDescribed(pages: seq<Page>, bs: seq<Block>, i: nat, n: nat, t: seq<Block>, pages': seq<Page>)
    requires Described(pages, bs) && Canonical(bs) && i < |bs| && IsCut(bs, i, n, t)
    requires CutMarks(pages, bs[i].addr, bs[i].size, n, pages')
    ensures Described(pages', t)
  {
    var whole := n == bs[i].size;
    forall j | 0 <= j < |t|
      ensures 0 <= t[j].addr && t[j].addr + t[j].size <= |pages'|
      ensures t[j].addr < |pages'| ==> pages'[t[j].addr].property == t[j].size
    {
      if whole || j != i {
        var m := if whole && j >= i then j + 1 else j;
        assert t[j] == bs[m] && m != i;
      }
    }
    forall p | 0 <= p < |pages'|
      ensures pages'[p].head <==> IsHead(t, p)
    {
      CutHeads(bs, i, n, t, p);
    }
  }

  lemma CutHeads(bs: seq<Block>, i: nat, n: nat, t: seq<Block>, p: int)
    requires Canonical(bs) && i < |bs| && 0 < n <= bs[i].size && IsCut(bs, i, n, t)
    ensures IsHead(t, p) <==> (IsHead(bs, p) && p != bs[i].addr) || (n < bs[i].size && p == bs[i].addr + n)
  {
    if n == bs[i].size { CutHeadsWhole(bs, i, t, p); } else { CutHeadsRest(bs, i, n, t, p); }
  }

  lemma CutHeadsWhole(bs: seq<Block>, i: nat, t: seq<Block>, p: int)
    requires Canonical(bs) && i < |bs| && 0 < bs[i].size && IsCut(bs, i, bs[i].size, t)
    ensures IsHead(t, p) <==> IsHead(bs, p) && p != bs[i].addr
  {
    hide Canonical, IsCut;
    if IsHead(t, p) {
      var j :| 0 <= j < |t| && t[j].addr == p;
      KeptHead(bs, i, t, j);
    }
    if IsHead(bs, p) && p != bs[i].addr {
      var j :| 0 <= j < |bs| && bs[j].addr == p;
      OtherHead(bs, i, t, j);
    }
  }

  lemma KeptHead(bs: seq<Block>, i: nat, t: seq<Block>, j: nat)
    requires Canonical(bs) && i < |bs| && IsCut(bs, i, bs[i].size, t) && j < |t|
    ensures IsHead(bs, t[j].addr) && t[j].addr != bs[i].addr
  {
    assert t[j] == bs[if j >= i then j + 1 else j];
  }

  lemma OtherHead(bs: seq<Block>, i: nat, t: seq<Block>, j: nat)
    requires i < |bs| && IsCut(bs, i, bs[i].size, t) && j < |bs| && j != i
    ensures IsHead(t, bs[j].addr)
  {
    assert t[if j > i then j - 1 else j] == bs[j];
  }

  lemma CutHeadsRest(bs: seq<Block>, i: nat, n: nat, t: seq<Block>, p: int)
    requires Canonical(bs) && i < |bs| && 0 < n < bs[i].size && IsCut(bs, i, n, t)
    ensures IsHead(t, p) <==> (IsHead(bs, p) && p != bs[i].addr) || p == bs[i].addr + n
  {
    if IsHead(t, p) && p != bs[i].addr + n {
      var j :| 0 <= j < |t| && t[j].addr == p;
      assert j != i && bs[j].addr == p;
    }
    if IsHead(bs, p) && p != bs[i].addr {
      var j :| 0 <= j < |bs| && bs[j].addr == p;
      assert t[j].addr == p;
    }
    if p == bs[i].addr + n {
      assert t[i].addr == p;
    }
  }

  class FrameArea {
    const links: ListStore
    var pages: seq<Page>
    var nrFree: nat
    ghost var blocks: seq<Block>

    /** The free list links exactly the heads of `blocks`, whose descriptors hold
        the block sizes; the flag is set on heads only; the counter is the sum;
        no free frame is reserved. */
    ghost predicate Valid()
      reads this, links
    {
      && Usable(pages, blocks)
      && Canonical(blocks)
      && Ring(links.next, links.prev, Nodes(blocks))
      && Described(pages, blocks)
      && nrFree == Total(blocks)
    }

    /** page_init marks every frame reserved; default_init empties the list. */
    constructor (npage: nat)
      ensures Valid() && blocks == [] && |pages| == npage && fresh(links)
      ensures forall p :: 0 <= p < npage ==> pages[p].reserved
    {
      var store := new ListStore();
      links := store;
      pages := seq(npage, _ => Page(true, false, 0, 0));
      nrFree, blocks := 0, [];
      new;
      links.Init(HEAD);
    }

    /** default_init_memmap (best_fit_init_memmap is the same): like a free, but without
        merging, so the list is sound again exactly if the run touches no free block. */
    method InitMemmap(base: nat, n: nat) returns (ghost k: nat)
      requires Valid() && n > 0 && base + n <= |pages|
      requires forall p :: base <= p < base + n ==> pages[p].reserved
      requires Clear(blocks, base, n)
      modifies this, links
      ensures Marked(old(pages), base, n, true, pages) && nrFree == old(nrFree) + n
      ensures LinksAgree(links.next, links.prev) <==> BelowTop(old(blocks), base)
      ensures BelowTop(old(blocks), base) ==>
                && Gap(old(blocks), k, base, n) && blocks == Plain(old(blocks), k, base, n)
                && Ordered(blocks) && Described(pages, blocks) && Usable(pages, blocks)
                && Ring(links.next, links.prev, Nodes(blocks))
      ensures BelowTop(old(blocks), base) ==> (Valid() <==> Apart(old(blocks), base, n))
    {
      hide Ring, Described, Canonical, Usable, Released, Apart, LinksAgree;
      k := LinkRun(base, n, true);
      MarkedFrames(old(pages), base, n, pages, pages);
      PlainUsable(old(pages), blocks, k, base, n, pages);
      PlainApart(blocks, k, base, n);
      if !BelowTop(blocks, base) {
        TailInsertDisagrees(old(links.next), old(links.prev), blocks, base);
      } else {
        RingAgrees(links.next, links.prev, Plain(blocks, k, base, n));
        blocks := Plain(blocks, k, base, n);
      }
    }

    /** What the init and free routines have in common: reset the run's descriptors,
        make it a block, count it, link it in address order. */
    method LinkRun(base: nat, n: nat, sizes: bool) returns (ghost k: nat)
      requires Valid() && n > 0 && base + n <= |pages| && Clear(blocks, base, n)
      modifies this`pages, this`nrFree, links
      ensures Marked(old(pages), base, n, sizes, pages)
      ensures nrFree == old(nrFree) + n
      ensures Gap(blocks, k, base, n) && Ordered(Plain(blocks, k, base, n))
      ensures Described(pages, Plain(blocks, k, base, n))
      ensures BelowTop(blocks, base) ==> Ring(links.next, links.prev, Nodes(Plain(blocks, k, base, n)))
      ensures !BelowTop(blocks, base) ==> Unlisted(blocks, base)
      ensures !BelowTop(blocks, base) ==>
                && links.next == TailNext(old(links.next), blocks[|blocks| - 1].addr, base)
                && links.prev == TailPrev(old(links.prev), base)
    {
      hide Ring, Canonical, Described, Usable, Marked, Unlisted, Ordered, Plain, Insert, Nodes, Clear, Gap, Ascending;
      ClearIsUnlisted(pages, blocks, base, n);
      MarkRun(base, n, sizes);
      nrFree := nrFree + n;
      k := LinkSorted(base);
      ClearIsGap(blocks, k, base, n);
      MarkedDescribed(old(pages), blocks, k, base, n, pages);
    }

    method MarkRun(base: nat, n: nat, sizes: bool)
      requires n > 0 && base + n <= |pages|
      modifies this`pages
      ensures Marked(old(pages), base, n, sizes, pages)
    {
      Reset(base, n, sizes);
      pages := pages[base := pages[base].(property := n)];
      pages := pages[base := pages[base].(head := true)];
    }

    /** The loop over the frames of a run: clear the flags, the counter and, at boot, the size. */
    method Reset(base: nat, n: nat, sizes: bool)
      requires base + n <= |pages|
      modifies this`pages
      ensures |pages| == |old(pages)|
      ensures forall p :: 0 <= p < |pages| && !(base <= p < base + n) ==> pages[p] == old(pages)[p]
      ensures forall p :: base <= p < base + n ==>
                pages[p] == Page(false, false, if sizes then 0 else old(pages)[p].property, 0)
    {
      var p := base;
      while p != base + n
        invariant base <= p <= base + n && |pages| == |old(pages)|
        invariant forall q :: 0 <= q < |pages| && !(base <= q < p) ==> pages[q] == old(pages)[q]
        invariant forall q :: base <= q < p ==>
                    pages[q] == Page(false, false, if sizes then 0 else old(pages)[q].property, 0)
      {
        pages := pages[p := Page(false, false, if sizes then 0 else pages[p].property, 0)];
        p := p + 1;
      }
    }

    /** The insertion loop shared by the init and free routines.  It has no exit
        after an insertion at the tail, so there it links `base` behind itself. */
    method LinkSorted(base: nat) returns (ghost k: nat)
      requires Ring(links.next, links.prev, Nodes(blocks)) && Ascending(blocks)
      requires Unlisted(blocks, base)
      modifies links
      ensures k <= |blocks|
      ensures forall i :: 0 <= i < k ==> blocks[i].addr < base
      ensures forall i :: k <= i < |blocks| ==> base < blocks[i].addr
      ensures BelowTop(blocks, base) ==> Ring(links.next, links.prev, Insert(Nodes(blocks), k, base))
      ensures !BelowTop(blocks, base) ==>
                && links.next == TailNext(old(links.next), blocks[|blocks| - 1].addr, base)
                && links.prev == TailPrev(old(links.prev), base)
    {
      hide Ring, Insert, Nodes, Unlisted;
      ghost var bs, next0, prev0 := blocks, links.next, links.prev;
      ghost var last := NodeAt(bs, |bs|);
      k := 0;
      StepAlong(next0, prev0, bs, 0);
      UnlistedNodes(bs, base);
      if links.Empty(HEAD) {
        assert bs == [];
        links.AddAfter(HEAD, base, Nodes(bs), 0);
      } else {
        assert bs != [];
        var le := HEAD;
        ghost var appended := false;
        while true
          invariant !appended ==> k < |bs| && le == NodeAt(bs, k) && links.next == next0 && links.prev == prev0
          invariant appended ==> k == |bs| && AfterAppend(next0, prev0, last, base, le, links.next, links.prev)
          invariant forall i :: 0 <= i < k ==> bs[i].addr < base
          decreases |bs| - k, if le == base then 0 else 1
        {
          if appended {
            AppendTwice(next0, prev0, last, base);
          } else {
            StepAlong(next0, prev0, bs, k);
            StepAlong(next0, prev0, bs, k + 1);
          }
          le := links.next[le];
          if le == HEAD { break; }
          if base < le {
            links.AddBefore(le, base, Nodes(bs), k + 1);
            break;
          } else if links.next[le] == HEAD {
            links.Link(base, le, links.next[le]);
            appended, k := true, |bs|;
          } else {
            k := k + 1;
          }
        }
      }
    }

    /** Merging block `hi` into block `lo`, which it abuts. */
    method Absorb(lo: nat, hi: nat, ghost bs: seq<Block>, ghost i: nat)
      requires Ordered(bs) && i + 1 < |bs| && bs[i].addr + bs[i].size == bs[i + 1].addr
      requires lo == bs[i].addr && hi == bs[i + 1].addr
      requires Described(pages, bs) && Ring(links.next, links.prev, Nodes(bs))
      modifies this`pages, links
      ensures Described(pages, Fuse(bs, i)) && Ring(links.next, links.prev, Nodes(Fuse(bs, i)))
      ensures Ordered(Fuse(bs, i)) && SameFrames(old(pages), pages)
    {
      hide Ring, Ordered, Described, Fuse, Nodes, Remove;
      FuseRemoves(bs, i);
      FuseReads(pages, bs, i);
      pages := pages[lo := pages[lo].(property := pages[lo].property + pages[hi].property)];
      pages := pages[hi := pages[hi].(head := false)];
      links.Del(hi, Nodes(bs), i + 2);
      FuseDescribed(old(pages), bs, i, pages);
    }

    /** The two merge tests at the end of the free routine.  `i` is the block of `base`
        in the list `bs`, unless the list was broken by an insertion at the tail. */
    method Coalesce(base: nat, ghost bs: seq<Block>, ghost i: nat, ghost broken: bool)
      requires Ordered(bs) && i < |bs| && base == bs[i].addr && Described(pages, bs)
      requires !broken ==> Ring(links.next, links.prev, Nodes(bs))
      requires broken ==>
                base in links.prev && links.prev[base] == base && base in links.next && links.next[base] == HEAD
      modifies this`pages, links
      ensures SameFrames(old(pages), pages)
      ensures !broken ==> Described(pages, Coalesced(bs, i)) && Ring(links.next, links.prev, Nodes(Coalesced(bs, i)))
      ensures broken ==> pages == old(pages) && links.next == old(links.next) && links.prev == old(links.prev)
    {
      ghost var xs, l := bs, i;
      var b := MergeLeft(base, bs, i, broken);
      if b != base {
        xs, l := Fuse(bs, i - 1), i - 1;
      }
      MergeRight(b, xs, l, broken);
    }

    method MergeLeft(base: nat, ghost bs: seq<Block>, ghost i: nat, ghost broken: bool) returns (b: nat)
      requires Ordered(bs) && i < |bs| && base == bs[i].addr && Described(pages, bs)
      requires !broken ==> Ring(links.next, links.prev, Nodes(bs))
      requires broken ==> base in links.prev && links.prev[base] == base
      modifies this`pages, links
      ensures SameFrames(old(pages), pages)
      ensures var left := !broken && i > 0 && bs[i - 1].addr + bs[i - 1].size == base;
              && (left ==> b == bs[i - 1].addr && Ordered(Fuse(bs, i - 1)) && Described(pages, Fuse(bs, i - 1)))
              && (left ==> Ring(links.next, links.prev, Nodes(Fuse(bs, i - 1))))
              && (!left ==>
                    && b == base && pages == old(pages)
                    && links.next == old(links.next) && links.prev == old(links.prev))
    {
      b := base;
      if !broken {
        StepAlong(links.next, links.prev, bs, i);
      }
      var le := links.prev[b];
      if le != HEAD {
        if le + pages[le].property == b {
          Absorb(le, b, bs, i - 1);
          b := le;
        }
      }
    }

    method MergeRight(base: nat, ghost bs: seq<Block>, ghost i: nat, ghost broken: bool)
      requires Ordered(bs) && i < |bs| && base == bs[i].addr && Described(pages, bs)
      requires !broken ==> Ring(links.next, links.prev, Nodes(bs))
      requires broken ==> base in links.next && links.next[base] == HEAD
      modifies this`pages, links
      ensures SameFrames(old(pages), pages)
      ensures !broken ==> Described(pages, FuseRight(bs, i)) && Ring(links.next, links.prev, Nodes(FuseRight(bs, i)))
      ensures broken ==> pages == old(pages) && links.next == old(links.next) && links.prev == old(links.prev)
    {
      if !broken {
        StepAlong(links.next, links.prev, bs, i + 1);
      }
      var le := links.next[base];
      if le != HEAD {
        if base + pages[base].property == le {
          Absorb(base, le, bs, i);
        }
      }
    }

    /** default_free_pages and best_fit_free_pages.  The run goes back into the list as
        the canonical list of all free frames, provided it is below the topmost free
        block or the list is empty; otherwise the links no longer form a list. */
    method FreePages(base: nat, n: nat)
      requires Valid() && n > 0 && base + n <= |pages|
      requires forall p :: base <= p < base + n ==> !pages[p].reserved && !pages[p].head
      requires Clear(blocks, base, n)
      modifies this, links
      ensures |pages| == |old(pages)|
      ensures Released(old(pages), base, n, pages)
      ensures nrFree == old(nrFree) + n
      ensures LinksAgree(links.next, links.prev) <==> BelowTop(old(blocks), base)
      ensures !BelowTop(old(blocks), base) ==> Marked(old(pages), base, n, false, pages)
      ensures BelowTop(old(blocks), base) ==>
                && Valid()
                && exists k :: Gap(old(blocks), k, base, n) && blocks == Give(old(blocks), k, base, n)
    {
      hide Ring, Described, Canonical, Usable, Clear, Marked, Ordered, Plain, Give, Gap, Released, LinksAgree;
      hide Coalesced;
      ghost var k := LinkRun(base, n, false);
      GapIsPlace(blocks, k, base, n);
      PlainHolds(blocks, k, base, n);
      ghost var xs := Plain(blocks, k, base, n);
      ghost var broken := !BelowTop(blocks, base);
      if broken {
        TailInsertDisagrees(old(links.next), old(links.prev), blocks, base);
      }
      label Linked:
      Coalesce(base, xs, k, broken);
      MarkedFrames(old(pages), base, n, old@Linked(pages), pages);
      if !broken {
        GiveIsFusion(blocks, k, base, n);
        GiveUsable(old(pages), blocks, k, base, n, pages);
        GiveAdds(blocks, k, base, n);
        RingAgrees(links.next, links.prev, Give(blocks, k, base, n));
        blocks := Give(blocks, k, base, n);
      }
    }

    /** best_fit_alloc_pages. */
    method AllocBestFit(n: nat) returns (page: Option<nat>, ghost i: nat)
      requires Valid() && n > 0
      modifies this, links
      ensures Valid() && SameFrames(old(pages), pages)
      ensures page.None? <==> NoFit(old(blocks), n)
      ensures page.None? ==> blocks == old(blocks) && nrFree == old(nrFree)
      ensures page.Some? ==> IsBestFit(old(blocks), n, i) && page.value == old(blocks)[i].addr
      ensures page.Some? ==> blocks == Take(old(blocks), i, n) && nrFree == old(nrFree) - n
    {
      i := 0;
      if n > nrFree {
        TotalBoundsAll(blocks);
        return None, i;
      }
      page, i := ScanBestFit(n);
      if page.Some? {
        CutBlock(page.value, n, i);
      }
    }

    /** The best-fit search: it visits every block and keeps the smallest that fits. */
    method ScanBestFit(n: nat) returns (page: Option<nat>, ghost i: nat)
      requires Valid() && n > 0
      ensures page.None? <==> NoFit(blocks, n)
      ensures page.Some? ==> IsBestFit(blocks, n, i) && page.value == blocks[i].addr
    {
      hide Ring, Canonical, Described, Usable, Scanned, NoFit, IsBestFit, Total;
      ghost var bs := blocks;
      PositiveSizes(bs);
      page, i := None, 0;
      var le := HEAD;
      var minSize := nrFree + 1;
      ghost var k := 0;
      ScanStart(bs, n, nrFree);
      while true
        invariant k <= |bs| && le == NodeAt(bs, k)
        invariant Scanned(bs, k, n, i, page.Some?, minSize, nrFree)
        invariant page.Some? ==> i < |bs| && page.value == bs[i].addr
        decreases |bs| - k
      {
        StepAlong(links.next, links.prev, bs, k);
        le := links.next[le];
        NodeIsBlock(pages, bs, k);
        if le == HEAD { break; }
        ScanStep(bs, k, n, i, page.Some?, minSize);
        if pages[le].property >= n && pages[le].property < minSize {
          page, i := Some(le), k;
          minSize := pages[le].property;
        }
        k := k + 1;
      }
      ScanEnd(bs, n, i, page.Some?, minSize, nrFree);
    }

    /** default_alloc_pages. */
    method AllocFirstFit(n: nat) returns (page: Option<nat>, ghost i: nat)
      requires Valid() && n > 0
      modifies this, links
      ensures Valid() && SameFrames(old(pages), pages)
      ensures page.None? <==> NoFit(old(blocks), n)
      ensures page.None? ==> blocks == old(blocks) && nrFree == old(nrFree)
      ensures page.Some? ==> IsFirstFit(old(blocks), n, i) && page.value == old(blocks)[i].addr
      ensures page.Some? ==> blocks == Take(old(blocks), i, n) && nrFree == old(nrFree) - n
    {
      i := 0;
      if n > nrFree {
        TotalBoundsAll(blocks);
        return None, i;
      }
      page, i := ScanFirstFit(n);
      if page.Some? {
        CutBlock(page.value, n, i);
      }
    }

    /** The first-fit search: it stops at the first block that fits. */
    method ScanFirstFit(n: nat) returns (page: Option<nat>, ghost i: nat)
      requires Valid() && n > 0
      ensures page.None? <==> NoFit(blocks, n)
      ensures page.Some? ==> IsFirstFit(blocks, n, i) && page.value == blocks[i].addr
    {
      hide Ring, Canonical, Described, Usable;
      PositiveSizes(blocks);
      page, i := None, 0;
      var le := HEAD;
      ghost var k := 0;
      while true
        invariant k <= |blocks| && le == NodeAt(blocks, k) && (k > 0 ==> le != HEAD) && page.None?
        invariant forall j :: 0 <= j < k ==> blocks[j].size < n
        decreases |blocks| - k
      {
        StepAlong(links.next, links.prev, blocks, k);
        le := links.next[le];
        NodeIsBlock(pages, blocks, k);
        if le == HEAD { break; }
        if pages[le].property >= n {
          page, i := Some(le), k;
          break;
        }
        k := k + 1;
      }
    }

    /** What both allocation routines do with the block they chose. */
    method CutBlock(page: nat, n: nat, ghost i: nat)
      requires Valid() && i < |blocks| && page == blocks[i].addr && 0 < n <= blocks[i].size
      modifies this, links
      ensures Valid() && SameFrames(old(pages), pages)
      ensures blocks == Take(old(blocks), i, n) && nrFree == old(nrFree) - n
    {
      hide Ring, Described, Canonical, Usable, Take, CutMarks, IsCut;
      ghost var bs, ps := blocks, pages;
      TakeRemoves(bs, i, n);
      RelinkRest(page, n, bs, i);
      nrFree := nrFree - n;
      pages := pages[page := pages[page].(head := false)];
      blocks := Take(bs, i, n);
      TakeCuts(bs, i, n);
      CutDescribed(ps, bs, i, n, blocks, pages);
      TakeUsable(ps, bs, i, n, pages);
    }

    /** Unlink the chosen block and link what is left of it in its place. */
    method RelinkRest(page: nat, n: nat, ghost bs: seq<Block>, ghost i: nat)
      requires Canonical(bs) && Described(pages, bs) && Ring(links.next, links.prev, Nodes(bs))
      requires i < |bs| && page == bs[i].addr && 0 < n <= bs[i].size
      modifies this`pages, links
      ensures Ring(links.next, links.prev, Nodes(Take(bs, i, n)))
      ensures |pages| == |old(pages)| && page < |pages|
      ensures CutMarks(old(pages), page, bs[i].size, n, pages[page := pages[page].(head := false)])
      ensures SameFrames(old(pages), pages)
    {
      hide Ring, Described, Canonical, Take, Nodes, Insert, Remove;
      ghost var ring := Nodes(bs);
      CutFacts(links.next, links.prev, pages, bs, i, n);
      var prev := links.prev[page];
      links.Del(page, ring, i + 1);
      if pages[page].property > n {
        var p := page + n;
        pages := pages[p := pages[p].(property := pages[page].property - n)];
        pages := pages[p := pages[p].(head := true)];
        links.AddAfter(prev, p, Remove(ring, i + 1), i);
      }
    }

    /** Allocating and freeing again.  If the block was split, or was not the topmost
        one, the free list is restored exactly: same blocks, sizes and order. */
    method AllocThenFree(n: nat) returns (page: Option<nat>, ghost i: nat)
      requires Valid() && n > 0
      modifies this, links
      ensures page.None? <==> NoFit(old(blocks), n)
      ensures page.None? ==> Valid() && blocks == old(blocks)
      ensures page.Some? ==> IsBestFit(old(blocks), n, i) && page.value == old(blocks)[i].addr
      ensures page.Some? && (n < old(blocks)[i].size || i < |old(blocks)| - 1 || |old(blocks)| == 1) ==>
                Valid() && blocks == old(blocks) && nrFree == old(nrFree)
      ensures page.Some? && !(n < old(blocks)[i].size || i < |old(blocks)| - 1 || |old(blocks)| == 1) ==>
                !LinksAgree(links.next, links.prev)
    {
      hide Ring, Canonical, Clear, Take, Give, LinksAgree, BelowTop, Released;
      ghost var bs := blocks;
      page, i := AllocBestFit(n);
      if page.Some? {
        RestoreFacts(pages, bs, i, n);
        FreePages(page.value, n);
        if BelowTop(Take(bs, i, n), page.value) {
          ghost var k :| Gap(Take(bs, i, n), k, page.value, n) && blocks == Give(Take(bs, i, n), k, page.value, n);
          GiveUndoesTake(bs, i, n, k);
        }
      }
    }
  }

  /** A block just cut off may be freed, and where it then stands. */
  lemma RestoreFacts(pages: seq<Page>, bs: seq<Block>, i: nat, n: nat)
    requires Canonical(bs) && i < |bs| && 0 < n <= bs[i].size && Usable(pages, bs)
    requires Described(pages, Take(bs, i, n))
    requires forall j :: 0 <= j < |bs| ==> 0 <= bs[j].addr && bs[j].addr + bs[j].size <= |pages|
    ensures var base, t := bs[i].addr, Take(bs, i, n);
            && Clear(t, base, n)
            && (forall p :: base <= p < base + n ==> !pages[p].reserved && !pages[p].head)
            && (BelowTop(t, base) <==> n < bs[i].size || i < |bs| - 1 || |bs| == 1)
  {
    var base, t := bs[i].addr, Take(bs, i, n);
    TakenLiesInGap(bs, i, n);
    TakeCuts(bs, i, n);
    forall p | base <= p < base + n ensures !pages[p].reserved && !pages[p].head {
      assert Holds(bs[i], p);
      assert forall j :: 0 <= j < |t| ==> t[j].addr != p;
    }
  }

  /** The clauses that pick the best block leave no choice. */
  lemma BestFitIsUnique(bs: seq<Block>, n: nat, i: nat, j: nat)
    requires IsBestFit(bs, n, i) && IsBestFit(bs, n, j)
    ensures i == j
  {
    assert bs[i].size >= n && bs[j].size >= n;
  }

  lemma ExamplePlains(bs: seq<Block>, k: nat)
    ensures Gap([], k, 4, 4) && bs == Plain([], k, 4, 4) ==> bs == [Block(4, 4)]
    ensures Gap([Block(4, 4)], k, 0, 2) && bs == Plain([Block(4, 4)], k, 0, 2) ==> bs == [Block(0, 2), Block(4, 4)]
    ensures Apart([], 4, 4) && Apart([Block(4, 4)], 0, 2)
  {
    if Gap([Block(4, 4)], k, 0, 2) {
      assert [Block(4, 4)][0].addr == 4;
    }
  }

  lemma ExampleFits(bs: seq<Block>, i: nat)
    requires bs == [Block(0, 2), Block(4, 4)]
    ensures !NoFit(bs, 4) && (IsBestFit(bs, 4, i) ==> i == 1)
  {
    assert bs[1].size == 4;
  }

  /** Eight frames with 0, 1 and 4..7 free: taking all of 4..7 and freeing them breaks the links. */
  method TailFreeExample() returns (area: FrameArea)
    ensures fresh(area) && !LinksAgree(area.links.next, area.links.prev)
  {
    hide Ring, Described, Usable, LinksAgree, Plain, Apart, Gap, Canonical, IsBestFit, NoFit;
    area := new FrameArea(8);
    ghost var k := area.InitMemmap(4, 4);
    ExamplePlains(area.blocks, k);
    k := area.InitMemmap(0, 2);
    ghost var bs := area.blocks;
    ExamplePlains(bs, k);
    var page, i := area.AllocThenFree(4);
    ExampleFits(bs, i);
  }
}
