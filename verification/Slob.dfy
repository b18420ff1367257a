/** The SLOB heap of kmalloc.c: one circular list of free blocks in address order
    with a roving start pointer.  Addresses count units of 16 bytes. */
module Slob {
  import opened Lists
  import opened FreeBlocks

  const SLOB_UNIT: nat := 16
  const PAGE_SIZE: nat := 4096
  const PAGE_UNITS: nat := 256

  /** SLOB_UNITS: bytes to units, rounding up. */
  function Units(size: nat): (n: nat)
    ensures n * 16 >= size > (n - 1) * 16 || n == size == 0
  {
    (size + SLOB_UNIT - 1) / SLOB_UNIT
  }

  /** The outcome of an allocation: a failed assertion, a null pointer, or an address. */
  datatype Outcome = Panic | Null | At(addr: int)

  datatype Supply = NoPage | Page(addr: int)

  /** `next` links each block of `bs` to the one after it, the last to the first. */
  ghost predicate Linked(next: map<int, int>, bs: seq<Block>) {
    && (forall i {:trigger bs[i].addr in next} {:trigger next[bs[i].addr]} :: 0 <= i < |bs| ==> bs[i].addr in next)
    && forall i {:trigger next[bs[i].addr]} :: 0 <= i < |bs| ==> next[bs[i].addr] == bs[Succ(i, |bs|)].addr
  }

  /** Each free block's header holds its size. */
  ghost predicate Sized(units: map<int, int>, bs: seq<Block>) {
    && (forall i {:trigger bs[i].addr in units} {:trigger units[bs[i].addr]} :: 0 <= i < |bs| ==> bs[i].addr in units)
    && forall i {:trigger units[bs[i].addr]} :: 0 <= i < |bs| ==> units[bs[i].addr] == bs[i].size
  }

  ghost predicate HasArena(bs: seq<Block>, arena: int) {
    exists i :: 0 <= i < |bs| && bs[i].addr == arena && bs[i].size == 1
  }

  /** The first unit of the page that unit `u` lies in. */
  function PageOf(u: int): int { u - u % PAGE_UNITS }

  /** The heap owns the arena and its pages. */
  ghost predicate Owned(arena: int, pages: set<int>, u: int) {
    u == arena || PageOf(u) in pages
  }

  /** A page address is aligned and not null, and the page neither meets nor abuts the arena. */
  ghost predicate GoodPage(arena: int, p: int) {
    p % PAGE_UNITS == 0 && p > 0 && (p + PAGE_UNITS < arena || arena + 1 < p)
  }

  ghost predicate LiveHolds(live: map<int, nat>, a: int, u: int) {
    a in live && a <= u < a + live[a]
  }

  ghost predicate LiveCovers(live: map<int, nat>, u: int) {
    exists a :: LiveHolds(live, a, u)
  }

  /** Every unit the heap owns is in exactly one free block or exactly one live block. */
  ghost predicate Tiled(arena: int, pages: set<int>, bs: seq<Block>, live: map<int, nat>) {
    && (forall u :: Owned(arena, pages, u) <==> Covers(bs, u) || LiveCovers(live, u))
    && (forall u :: Covers(bs, u) ==> !LiveCovers(live, u))
    && (forall a, b, u :: LiveHolds(live, a, u) && LiveHolds(live, b, u) ==> a == b)
  }

  ghost function Pick(m: map<int, nat>): (k: int)
    requires exists k :: k in m
    ensures k in m
  {
    var k :| k in m; k
  }

  ghost function Sum(m: map<int, nat>): nat
    decreases |m|
  {
    if exists k :: k in m then m[Pick(m)] + Sum(m - {Pick(m)}) else 0
  }

  /** Any key may be taken first. */
  lemma {:induction false} SumRemove(m: map<int, nat>, k: int)
    requires k in m
    ensures Sum(m) == m[k] + Sum(m - {k})
    decreases |m|
  {
    var j := Pick(m);
    if j != k {
      SumRemove(m - {j}, k);
      SumRemove(m - {k}, j);
      assert m - {j} - {k} == m - {k} - {j};
    }
  }

  lemma SumAdd(m: map<int, nat>, k: int, n: nat)
    requires k !in m
    ensures Sum(m[k := n]) == Sum(m) + n
  {
    SumRemove(m[k := n], k);
    assert m[k := n] - {k} == m;
  }

  // ---------------------------------------------------------------- freeing

  /** Position of the block behind which units at `k` are inserted. */
  function Before(k: nat, n: nat): (t: nat)
    requires n > 0 && k <= n
    ensures t < n
  {
    if k > 0 then k - 1 else n - 1
  }

  /** The two exit tests of the search loop hold at exactly one block. */
  lemma ExitTest(bs: seq<Block>, k: nat, b: int, n: nat, c: nat)
    requires Canonical(bs) && Gap(bs, k, b, n) && n > 0 && c < |bs|
    ensures var cur, nxt := bs[c].addr, bs[Succ(c, |bs|)].addr;
            ((b > cur && b < nxt) || (cur >= nxt && (b > cur || b < nxt))) <==> c == Before(k, |bs|)
  {
    if c + 1 == |bs| && c > 0 {
      assert bs[0].End() < bs[c].addr;
    }
  }

  /** The `next` links after slob_free has linked the block at `b` behind block `t`. */
  function FreedNext(next: map<int, int>, bs: seq<Block>, k: nat, b: int, n: nat): map<int, int>
    requires 0 < |bs| && k <= |bs|
  {
    var cur := bs[Before(k, |bs|)].addr;
    var tail := if JoinsRight(bs, k, b, n) then bs[Succ(k, |bs|)].addr else bs[Succ(Before(k, |bs|), |bs|)].addr;
    next[b := tail][cur := if JoinsLeft(bs, k, b) then tail else b]
  }

  lemma FreedLinked(next: map<int, int>, bs: seq<Block>, k: nat, b: int, n: nat, m: Block, r: seq<Block>)
    requires Canonical(bs) && Linked(next, bs) && 0 < |bs| && Gap(bs, k, b, n) && n > 0
    requires JoinsRight(bs, k, b, n) ==> |bs| > 1
    requires m.addr == (if JoinsLeft(bs, k, b) then bs[k - 1].addr else b)
    requires IsSpliced(bs, Low(bs, k, b), High(bs, k, b, n), m, r)
    ensures Linked(FreedNext(next, bs, k, b, n), r)
  {
    var next' := FreedNext(next, bs, k, b, n);
    forall j | 0 <= j < |r|
      ensures r[j].addr in next' && next'[r[j].addr] == r[Succ(j, |r|)].addr
    {
      hide *;
      FreedAt(next, bs, k, b, n, m, r, j);
    }
  }

  lemma FreedAt(next: map<int, int>, bs: seq<Block>, k: nat, b: int, n: nat, m: Block, r: seq<Block>, j: nat)
    requires Canonical(bs) && Linked(next, bs) && 0 < |bs| && Gap(bs, k, b, n) && n > 0
    requires JoinsRight(bs, k, b, n) ==> |bs| > 1
    requires m.addr == (if JoinsLeft(bs, k, b) then bs[k - 1].addr else b)
    requires IsSpliced(bs, Low(bs, k, b), High(bs, k, b, n), m, r) && j < |r|
    ensures var next' := FreedNext(next, bs, k, b, n);
            r[j].addr in next' && next'[r[j].addr] == r[Succ(j, |r|)].addr
  {
    hide FreedNext, Canonical, Gap, DistinctAddrs, Linked;
    GapIsPlace(bs, k, b, n);
    NewAddress(bs, k, b, n);
    var l, h := Low(bs, k, b), High(bs, k, b, n);
    if j == l {
      FreedSelf(next, bs, k, b, n, m, r);
    } else {
      var x := if j < l then j else j - l - 1 + h;
      assert x < |bs| && r[j] == bs[x];
      StayingBlock(next, bs, k, b, x);
      FreedOther(next, bs, k, b, n, m, r, x);
    }
  }

  lemma StayingBlock(next: map<int, int>, bs: seq<Block>, k: nat, b: int, x: nat)
    requires Linked(next, bs) && DistinctAddrs(bs) && k <= |bs| && x < |bs|
    ensures bs[x].addr in next && next[bs[x].addr] == bs[Succ(x, |bs|)].addr
    ensures bs[x].addr == bs[Before(k, |bs|)].addr ==> x == Before(k, |bs|)
  {
  }

  /** `b` is no block's address, and no two blocks share one. */
  lemma NewAddress(bs: seq<Block>, k: nat, b: int, n: nat)
    requires Canonical(bs) && Gap(bs, k, b, n) && n > 0
    ensures forall i :: 0 <= i < |bs| ==> bs[i].addr != b
    ensures DistinctAddrs(bs)
  {
  }

  ghost predicate DistinctAddrs(bs: seq<Block>) {
    forall i, j :: 0 <= i < j < |bs| ==> bs[i].addr != bs[j].addr
  }

  lemma FreedSelf(next: map<int, int>, bs: seq<Block>, k: nat, b: int, n: nat, m: Block, r: seq<Block>)
    requires 0 < |bs| && k <= |bs|
    requires forall i :: 0 <= i < |bs| ==> bs[i].addr != b
    requires JoinsRight(bs, k, b, n) ==> |bs| > 1
    requires m.addr == (if JoinsLeft(bs, k, b) then bs[k - 1].addr else b)
    requires IsSpliced(bs, Low(bs, k, b), High(bs, k, b, n), m, r)
    ensures var l, next' := Low(bs, k, b), FreedNext(next, bs, k, b, n);
            r[l].addr in next' && next'[r[l].addr] == r[Succ(l, |r|)].addr
  {
    var l, h := Low(bs, k, b), High(bs, k, b, n);
    if l + 1 < |r| {
      assert r[l + 1] == bs[h];
    } else if l > 0 {
      assert r[0] == bs[0];
    }
  }

  /** Block `x` stays; `j` is its new position. */
  lemma FreedOther(next: map<int, int>, bs: seq<Block>, k: nat, b: int, n: nat, m: Block, r: seq<Block>, x: nat)
    requires 0 < |bs| && k <= |bs| && x < |bs| && !(Low(bs, k, b) <= x < High(bs, k, b, n))
    requires bs[x].addr in next && next[bs[x].addr] == bs[Succ(x, |bs|)].addr && bs[x].addr != b
    requires bs[x].addr == bs[Before(k, |bs|)].addr ==> x == Before(k, |bs|)
    requires JoinsRight(bs, k, b, n) ==> |bs| > 1
    requires m.addr == (if JoinsLeft(bs, k, b) then bs[k - 1].addr else b)
    requires IsSpliced(bs, Low(bs, k, b), High(bs, k, b, n), m, r)
    ensures var l, h, next' := Low(bs, k, b), High(bs, k, b, n), FreedNext(next, bs, k, b, n);
            var j := if x < l then x else x + l + 1 - h;
            bs[x].addr in next' && next'[bs[x].addr] == r[Succ(j, |r|)].addr
  {
    var l, h := Low(bs, k, b), High(bs, k, b, n);
    var y := Succ(x, |bs|);
    if x != Before(k, |bs|) {
      if l <= y < h {
        assert y == l && r[l].addr == bs[l].addr;
      } else {
        assert r[if y < l then y else y + l + 1 - h] == bs[y];
      }
    }
  }

  lemma FreedSized(units: map<int, int>, bs: seq<Block>, l: nat, h: nat, m: Block, r: seq<Block>, units': map<int, int>)
    requires Sized(units, bs) && IsSpliced(bs, l, h, m, r)
    requires m.addr in units' && units'[m.addr] == m.size
    requires forall i :: 0 <= i < |bs| && !(l <= i < h) ==>
               bs[i].addr in units' && (bs[i].addr in units ==> units'[bs[i].addr] == units[bs[i].addr])
    ensures Sized(units', r)
  {
    forall j | 0 <= j < |r|
      ensures r[j].addr in units' && units'[r[j].addr] == r[j].size
    {
      if j != l {
        var x := if j < l then j else j - l - 1 + h;
        assert r[j] == bs[x] && units[bs[x].addr] == bs[x].size;
      }
    }
  }

  /** What the two merge tests of slob_free compare. */
  lemma MergeTests(next: map<int, int>, units: map<int, int>, bs: seq<Block>, k: nat, b: int, n: nat)
    requires Canonical(bs) && Linked(next, bs) && Sized(units, bs) && 0 < |bs| && Gap(bs, k, b, n) && n > 0
    ensures var cur := bs[Before(k, |bs|)].addr;
            && cur in next && cur in units && cur != b
            && next[cur] == bs[Succ(Before(k, |bs|), |bs|)].addr
            && (b + n == next[cur] <==> JoinsRight(bs, k, b, n))
            && (cur + units[cur] == b <==> JoinsLeft(bs, k, b))
            && (JoinsLeft(bs, k, b) ==> units[cur] == bs[k - 1].size)
            && (JoinsRight(bs, k, b, n) ==>
                  && next[cur] in next && next[cur] in units && units[next[cur]] == bs[k].size
                  && next[next[cur]] == bs[Succ(k, |bs|)].addr)
  {
    var t := Before(k, |bs|);
    assert next[bs[t].addr] == bs[Succ(t, |bs|)].addr && units[bs[t].addr] == bs[t].size;
    if k < |bs| {
      assert next[bs[k].addr] == bs[Succ(k, |bs|)].addr && units[bs[k].addr] == bs[k].size;
    }
    if k == 0 && |bs| > 1 {
      assert bs[0].End() < bs[t].addr;
    }
    if k == |bs| {
      assert t == |bs| - 1 && bs[t].End() <= b;
      if |bs| > 1 { assert bs[0].End() < bs[t].addr; }
    }
  }

  /** The headers after slob_free: those of the merged block and of a stale `b` changed. */
  ghost predicate FreedHeaders(units: map<int, int>, bs: seq<Block>, k: nat, b: int, n: nat, units': map<int, int>)
    requires 0 < |bs| && k <= |bs|
  {
    && units.Keys <= units'.Keys
    && (forall a :: a in units && a != b && a != bs[Before(k, |bs|)].addr ==> units'[a] == units[a])
    && (!JoinsLeft(bs, k, b) && bs[Before(k, |bs|)].addr in units ==>
          units'[bs[Before(k, |bs|)].addr] == units[bs[Before(k, |bs|)].addr])
    && var m := Merged(bs, k, b, n);
    && m.addr in units' && units'[m.addr] == m.size
  }

  lemma FreedListed(next: map<int, int>, units: map<int, int>, bs: seq<Block>, k: nat, b: int, n: nat,
                    units': map<int, int>)
    requires Canonical(bs) && Linked(next, bs) && Sized(units, bs) && 0 < |bs| && Gap(bs, k, b, n) && n > 0
    requires JoinsRight(bs, k, b, n) ==> |bs| > 1
    requires FreedHeaders(units, bs, k, b, n, units')
    ensures Linked(FreedNext(next, bs, k, b, n), Give(bs, k, b, n)) && Sized(units', Give(bs, k, b, n))
  {
    var l, h, m, r := Low(bs, k, b), High(bs, k, b, n), Merged(bs, k, b, n), Give(bs, k, b, n);
    GiveSplices(bs, k, b, n);
    hide FreedNext, IsSpliced, Give;
    NewAddress(bs, k, b, n);
    FreedLinked(next, bs, k, b, n, m, r);
    forall i | 0 <= i < |bs| && !(l <= i < h)
      ensures bs[i].addr in units' && units'[bs[i].addr] == units[bs[i].addr]
    {
      assert bs[i].addr in units && bs[i].addr != b;
      if bs[i].addr == bs[Before(k, |bs|)].addr { assert i == Before(k, |bs|); }
    }
    FreedSized(units, bs, l, h, m, r, units');
  }

  /** A block that does not abut the arena leaves it alone. */
  lemma ArenaStays(bs: seq<Block>, k: nat, b: int, n: nat, arena: int)
    requires Canonical(bs) && Gap(bs, k, b, n) && n > 0 && HasArena(bs, arena)
    requires b + n != arena && b != arena + 1
    ensures HasArena(Give(bs, k, b, n), arena)
    ensures JoinsRight(bs, k, b, n) ==> |bs| > 1
  {
    GiveSplices(bs, k, b, n);
    SplicedArena(bs, Low(bs, k, b), High(bs, k, b, n), Merged(bs, k, b, n), Give(bs, k, b, n), arena);
  }

  lemma SplicedArena(bs: seq<Block>, l: nat, h: nat, m: Block, r: seq<Block>, arena: int)
    requires IsSpliced(bs, l, h, m, r) && HasArena(bs, arena)
    requires forall i :: l <= i < h && bs[i].size == 1 ==> bs[i].addr != arena
    ensures HasArena(r, arena)
  {
    var i :| 0 <= i < |bs| && bs[i].addr == arena && bs[i].size == 1;
    assert r[if i < l then i else i + l + 1 - h] == bs[i];
  }

  /** Where the rover block stands after a free. */
  function RoverAfter(bs: seq<Block>, k: nat, b: int, n: nat): int
    requires k <= |bs|
  {
    if k > 0 then k - 1 else |bs| - (if JoinsRight(bs, k, b, n) then 1 else 0)
  }

  lemma RoverStays(bs: seq<Block>, k: nat, b: int, n: nat)
    requires 0 < |bs| && k <= |bs| && (JoinsRight(bs, k, b, n) ==> |bs| > 1)
    ensures var r, j := Give(bs, k, b, n), RoverAfter(bs, k, b, n);
            0 <= j < |r| && r[j].addr == bs[Before(k, |bs|)].addr
  {
    GiveSplices(bs, k, b, n);
    var l, h, r := Low(bs, k, b), High(bs, k, b, n), Give(bs, k, b, n);
    hide Give;
    if k == 0 {
      assert r[|r| - 1] == bs[|bs| - 1];
    }
  }

  /** A live block lies in pages, so it does not abut the arena. */
  lemma LiveApartFromArena(arena: int, pages: set<int>, bs: seq<Block>, live: map<int, nat>, b: int)
    requires Tiled(arena, pages, bs, live) && HasArena(bs, arena) && b in live && live[b] > 0
    requires forall p :: p in pages ==> GoodPage(arena, p)
    ensures b + live[b] != arena && b != arena + 1
  {
    var i :| 0 <= i < |bs| && bs[i].addr == arena && bs[i].size == 1;
    assert Holds(bs[i], arena) && Covers(bs, arena);
    forall u | b <= u < b + live[b] ensures PageOf(u) in pages {
      assert LiveHolds(live, b, u) && LiveCovers(live, u);
      assert Owned(arena, pages, u);
    }
    assert PageOf(b) in pages && PageOf(b + live[b] - 1) in pages;
  }

  lemma LiveIsClear(arena: int, pages: set<int>, bs: seq<Block>, live: map<int, nat>, b: int)
    requires Tiled(arena, pages, bs, live) && Canonical(bs) && b in live && live[b] > 0
    ensures Clear(bs, b, live[b])
  {
    forall u | b <= u < b + live[b] ensures !Covers(bs, u) {
      assert LiveHolds(live, b, u) && LiveCovers(live, u);
    }
    ClearMeansUncovered(bs, b, live[b]);
  }

  lemma TiledFree(arena: int, pages: set<int>, bs: seq<Block>, live: map<int, nat>, b: int, bs': seq<Block>)
    requires Tiled(arena, pages, bs, live) && b in live
    requires forall u :: Covers(bs', u) <==> Covers(bs, u) || b <= u < b + live[b]
    ensures Tiled(arena, pages, bs', live - {b})
  {
    var live' := live - {b};
    forall u
      ensures LiveCovers(live, u) <==> LiveCovers(live', u) || b <= u < b + live[b]
      ensures b <= u < b + live[b] ==> !LiveCovers(live', u)
    {
      if LiveCovers(live, u) {
        var a :| LiveHolds(live, a, u);
        assert a != b ==> LiveHolds(live', a, u);
      }
      if b <= u < b + live[b] {
        assert LiveHolds(live, b, u);
      }
      if LiveCovers(live', u) {
        var a :| LiveHolds(live', a, u);
        assert LiveHolds(live, a, u);
      }
    }
    assert forall a, u :: LiveHolds(live', a, u) ==> LiveHolds(live, a, u);
  }

  lemma TiledTake(arena: int, pages: set<int>, bs: seq<Block>, live: map<int, nat>, b: int, n: nat, bs': seq<Block>)
    requires Tiled(arena, pages, bs, live) && n > 0
    requires forall u :: b <= u < b + n ==> Covers(bs, u)
    requires forall u :: Covers(bs', u) <==> Covers(bs, u) && !(b <= u < b + n)
    requires forall a :: a in live ==> live[a] > 0
    ensures b !in live && Tiled(arena, pages, bs', live[b := n])
  {
    var live' := live[b := n];
    if b in live {
      assert LiveHolds(live, b, b) && LiveCovers(live, b) && Covers(bs, b);
      assert false;
    }
    forall u ensures LiveCovers(live', u) <==> LiveCovers(live, u) || b <= u < b + n {
      if LiveCovers(live', u) {
        var a :| LiveHolds(live', a, u);
        assert a != b ==> LiveHolds(live, a, u);
      }
      if LiveCovers(live, u) {
        var a :| LiveHolds(live, a, u);
        assert LiveHolds(live', a, u);
      }
      if b <= u < b + n {
        assert LiveHolds(live', b, u);
      }
    }
    forall x, y, u | LiveHolds(live', x, u) && LiveHolds(live', y, u) ensures x == y {
      if x != b { assert LiveHolds(live, x, u) && LiveCovers(live, u); }
      if y != b { assert LiveHolds(live, y, u) && LiveCovers(live, u); }
    }
  }

  lemma TiledGrow(arena: int, pages: set<int>, bs: seq<Block>, live: map<int, nat>, p: int, bs': seq<Block>)
    requires Tiled(arena, pages, bs, live) && GoodPage(arena, p) && p !in pages
    requires forall u :: Covers(bs', u) <==> Covers(bs, u) || p <= u < p + PAGE_UNITS
    ensures Tiled(arena, pages + {p}, bs', live)
  {
    forall u ensures PageOf(u) == p <==> p <= u < p + PAGE_UNITS {
      SamePage(p, u);
    }
  }

  lemma SamePage(p: int, u: int)
    requires p % PAGE_UNITS == 0
    ensures PageOf(u) == p <==> p <= u < p + PAGE_UNITS
  {
  }

  lemma PageIsClear(arena: int, pages: set<int>, bs: seq<Block>, live: map<int, nat>, p: int)
    requires Tiled(arena, pages, bs, live) && Canonical(bs) && GoodPage(arena, p) && p !in pages
    ensures Clear(bs, p, PAGE_UNITS)
  {
    forall u | p <= u < p + PAGE_UNITS ensures !Covers(bs, u) {
      SamePage(p, u);
      assert !Owned(arena, pages, u);
    }
    ClearMeansUncovered(bs, p, PAGE_UNITS);
  }

  /** A free block's header is no live block's header. */
  lemma LiveIsNoBlock(arena: int, pages: set<int>, bs: seq<Block>, live: map<int, nat>, i: nat)
    requires Tiled(arena, pages, bs, live) && Canonical(bs) && i < |bs|
    requires forall a :: a in live ==> live[a] > 0
    ensures bs[i].addr !in live
  {
    assert Holds(bs[i], bs[i].addr) && Covers(bs, bs[i].addr);
    if bs[i].addr in live {
      assert LiveHolds(live, bs[i].addr, bs[i].addr) && LiveCovers(live, bs[i].addr);
    }
  }

  // ------------------------------------------------------------- allocating

  /** `s` steps from block `r` is the first block met with at least `n` units. */
  ghost predicate FirstFrom(bs: seq<Block>, r: nat, n: nat, s: nat) {
    && r < |bs| && 1 <= s <= |bs| && bs[Round(r, s, |bs|)].size >= n
    && forall t :: 1 <= t < s ==> bs[Round(r, t, |bs|)].size < n
  }

  ghost predicate NoneFits(bs: seq<Block>, n: nat) {
    forall i :: 0 <= i < |bs| ==> bs[i].size < n
  }

  /** The block at `a` was the first fit from the rover at position `r`, and `n` units were cut
      off it; the rover ends on the block before it, which is at `f`. */
  ghost predicate CutFrom(bs: seq<Block>, r: nat, n: nat, s: nat, a: int, bs': seq<Block>, f: int) {
    && FirstFrom(bs, r, n, s)
    && var i := Round(r, s, |bs|);
    bs[i].addr == a && bs' == Take(bs, i, n) && f == bs[Pred(i, |bs|)].addr
  }

  /** Nothing fitted; page `p` was added, and then the block at `a` was the first fit from
      where the growth had left the rover. */
  ghost predicate GrownCut(bs: seq<Block>, k: nat, p: int, n: nat, s: nat, a: int, bs': seq<Block>, f: int) {
    && NoneFits(bs, n) && Gap(bs, k, p, PAGE_UNITS) && RoverAfter(bs, k, p, PAGE_UNITS) >= 0
    && CutFrom(Give(bs, k, p, PAGE_UNITS), RoverAfter(bs, k, p, PAGE_UNITS), n, s, a, bs', f)
  }

  lemma FirstCut(bs: seq<Block>, r: nat, n: nat, s: nat)
    requires FirstFrom(bs, r, n, s)
    ensures var i := Round(r, s, |bs|);
            CutFrom(bs, r, n, s, bs[i].addr, Take(bs, i, n), bs[Pred(i, |bs|)].addr)
  {
  }

  lemma LaterCut(bs: seq<Block>, k: nat, p: int, n: nat, s: nat, a: int, bs': seq<Block>, f: int)
    requires NoneFits(bs, n) && Gap(bs, k, p, PAGE_UNITS) && RoverAfter(bs, k, p, PAGE_UNITS) >= 0
    requires CutFrom(Give(bs, k, p, PAGE_UNITS), RoverAfter(bs, k, p, PAGE_UNITS), n, s, a, bs', f)
    ensures GrownCut(bs, k, p, n, s, a, bs', f)
  {
  }

  lemma FoundFits(bs: seq<Block>, r: nat, n: nat, s: nat)
    ensures FirstFrom(bs, r, n, s) ==> s <= |bs| && r < |bs| && bs[Round(r, s, |bs|)].size >= n && !NoneFits(bs, n)
  {
  }

  lemma FullCircle(bs: seq<Block>, r: nat, n: nat)
    requires r < |bs| && forall t :: 1 <= t <= |bs| ==> bs[Round(r, t, |bs|)].size < n
    ensures NoneFits(bs, n)
  {
    forall i | 0 <= i < |bs| ensures bs[i].size < n {
      var t := if i > r then i - r else i - r + |bs|;
      assert Round(r, t, |bs|) == i;
    }
  }

  /** Growth leaves a block of a whole page or more. */
  lemma GrownFits(bs: seq<Block>, k: nat, p: int, n: nat)
    requires k <= |bs| && n <= PAGE_UNITS
    ensures !NoneFits(Give(bs, k, p, PAGE_UNITS), n)
  {
    GiveSplices(bs, k, p, PAGE_UNITS);
    assert Give(bs, k, p, PAGE_UNITS)[Low(bs, k, p)].size >= n;
  }

  /** The `next` links after `n` units have been cut off block `i`. */
  function CutNext(next: map<int, int>, bs: seq<Block>, i: nat, n: nat): map<int, int>
    requires i < |bs|
  {
    var prev, cur, after := bs[Pred(i, |bs|)].addr, bs[i].addr, bs[Succ(i, |bs|)].addr;
    if n == bs[i].size then next[prev := after] else next[prev := cur + n][cur + n := after]
  }

  lemma CutLinked(next: map<int, int>, bs: seq<Block>, i: nat, n: nat, t: seq<Block>)
    requires Canonical(bs) && Linked(next, bs) && i < |bs| && |bs| > 1 && 0 < n <= bs[i].size && IsCut(bs, i, n, t)
    ensures Linked(CutNext(next, bs, i, n), t)
  {
    forall j | 0 <= j < |t|
      ensures t[j].addr in CutNext(next, bs, i, n) && CutNext(next, bs, i, n)[t[j].addr] == t[Succ(j, |t|)].addr
    {
      hide *;
      CutLinkedAt(next, bs, i, n, t, j);
    }
  }

  lemma CutLinkedAt(next: map<int, int>, bs: seq<Block>, i: nat, n: nat, t: seq<Block>, j: nat)
    requires Canonical(bs) && Linked(next, bs) && i < |bs| && |bs| > 1 && 0 < n <= bs[i].size && IsCut(bs, i, n, t)
    requires j < |t|
    ensures var next' := CutNext(next, bs, i, n);
            t[j].addr in next' && next'[t[j].addr] == t[Succ(j, |t|)].addr
  {
    hide Canonical, Linked, IsCut;
    var whole := n == bs[i].size;
    CutUnitAt(bs, i, n, t, j);
    CutUnitAt(bs, i, n, t, Succ(j, |t|));
    LinkAt(next, bs, Pred(i, |bs|));
    LinkAt(next, bs, i);
    if whole || j != i {
      var x := if whole && j >= i then j + 1 else j;
      LinkAt(next, bs, x);
      CutAddresses(bs, i, n, x);
    } else {
      CutAddresses(bs, i, n, Pred(i, |bs|));
    }
  }

  /** The blocks of a cut list, one at a time. */
  lemma CutUnitAt(bs: seq<Block>, i: nat, n: nat, t: seq<Block>, j: nat)
    requires i < |bs| && 0 < n <= bs[i].size && IsCut(bs, i, n, t) && j < |t|
    ensures |t| == if n == bs[i].size then |bs| - 1 else |bs|
    ensures if n == bs[i].size then t[j] == bs[if j >= i then j + 1 else j]
            else t[j] == if j == i then Block(bs[i].addr + n, bs[i].size - n) else bs[j]
  {
  }

  lemma LinkAt(next: map<int, int>, bs: seq<Block>, i: nat)
    requires Linked(next, bs) && i < |bs|
    ensures bs[i].addr in next && next[bs[i].addr] == bs[Succ(i, |bs|)].addr
  {
  }

  /** No block but `i` reaches into block `i`, and no two share an address. */
  lemma CutAddresses(bs: seq<Block>, i: nat, n: nat, x: nat)
    requires Canonical(bs) && i < |bs| && x < |bs| && x != i && 0 < n <= bs[i].size
    ensures bs[x].addr != bs[i].addr && (n < bs[i].size ==> bs[x].addr != bs[i].addr + n)
    ensures bs[x].addr == bs[Pred(i, |bs|)].addr ==> x == Pred(i, |bs|)
  {
  }

  function CutUnits(units: map<int, int>, bs: seq<Block>, i: nat, n: nat): map<int, int>
    requires i < |bs|
  {
    if n == bs[i].size then units else units[bs[i].addr + n := bs[i].size - n][bs[i].addr := n]
  }

  lemma CutSized(units: map<int, int>, bs: seq<Block>, i: nat, n: nat, t: seq<Block>)
    requires Canonical(bs) && Sized(units, bs) && i < |bs| && 0 < n <= bs[i].size && IsCut(bs, i, n, t)
    ensures Sized(CutUnits(units, bs, i, n), t)
  {
    var units' := CutUnits(units, bs, i, n);
    forall j | 0 <= j < |t|
      ensures t[j].addr in units' && units'[t[j].addr] == t[j].size
    {
      var whole := n == bs[i].size;
      if whole || j != i {
        var x := if whole && j >= i then j + 1 else j;
        assert t[j] == bs[x] && units[bs[x].addr] == bs[x].size;
        CutAddresses(bs, i, n, x);
      }
    }
  }

  /** A cut writes no live block's header and forgets none. */
  lemma CutHeaders(next: map<int, int>, units: map<int, int>, bs: seq<Block>, i: nat, n: nat, live: map<int, nat>)
    requires i < |bs| && n <= bs[i].size && bs[i].addr !in live && bs[Pred(i, |bs|)].addr !in live
    requires n < bs[i].size ==> bs[i].addr + n !in live
    ensures SameHeaders(next, units, CutNext(next, bs, i, n), CutUnits(units, bs, i, n), live)
    ensures next.Keys <= CutNext(next, bs, i, n).Keys && units.Keys <= CutUnits(units, bs, i, n).Keys
  {
    var next', units' := CutNext(next, bs, i, n), CutUnits(units, bs, i, n);
    forall a | a in live
      ensures a in next ==> a in next' && next'[a] == next[a]
      ensures a in units ==> a in units' && units'[a] == units[a]
    {
      assert a != bs[i].addr && a != bs[Pred(i, |bs|)].addr;
    }
  }

  lemma ArenaUncut(bs: seq<Block>, i: nat, n: nat, t: seq<Block>, arena: int)
    requires i < |bs| && 1 < n <= bs[i].size && IsCut(bs, i, n, t) && HasArena(bs, arena)
    ensures HasArena(t, arena) && |bs| > 1
  {
    var a :| 0 <= a < |bs| && bs[a].addr == arena && bs[a].size == 1;
    var j := if n == bs[i].size && a > i then a - 1 else a;
    assert t[j].addr == arena && t[j].size == 1;
  }

  /** Where the block before block `i` stands after the cut. */
  function PredAfter(bs: seq<Block>, i: nat, n: nat): int
    requires i < |bs|
  {
    if i > 0 then i - 1 else if n == bs[i].size then |bs| - 2 else |bs| - 1
  }

  lemma PredStays(bs: seq<Block>, i: nat, n: nat, t: seq<Block>)
    requires i < |bs| && |bs| > 1 && 0 < n <= bs[i].size && IsCut(bs, i, n, t)
    ensures var j := PredAfter(bs, i, n); 0 <= j < |t| && t[j].addr == bs[Pred(i, |bs|)].addr
  {
  }

  lemma BlockCovers(bs: seq<Block>, i: nat)
    requires i < |bs|
    ensures forall u :: bs[i].addr <= u < bs[i].addr + bs[i].size ==> Covers(bs, u)
  {
    forall u | bs[i].addr <= u < bs[i].addr + bs[i].size ensures Covers(bs, u) {
      assert Holds(bs[i], u);
    }
  }

  class SlobHeap {
    const arena: int
    var next: map<int, int>
    var units: map<int, int>
    var slobfree: int
    ghost var blocks: seq<Block>
    ghost var rover: nat
    ghost var pages: set<int>
    ghost var live: map<int, nat>

    /** The free list proper: one address-ordered cycle through the arena. */
    ghost predicate Listed()
      reads this
    {
      && Canonical(blocks) && Linked(next, blocks) && Sized(units, blocks)
      && rover < |blocks| && slobfree == blocks[rover].addr
      && HasArena(blocks, arena)
    }

    ghost predicate Valid()
      reads this
    {
      && Listed()
      && Tiled(arena, pages, blocks, live)
      && (forall p :: p in pages ==> GoodPage(arena, p))
      && (forall a :: a in live ==> live[a] > 0 && a in units && a in next)
      && Total(blocks) + Sum(live) == 1 + PAGE_UNITS * |pages|
    }

    constructor (arena: int)
      ensures Valid() && this.arena == arena && blocks == [Block(arena, 1)] && pages == {} && live == map[]
    {
      this.arena := arena;
      next, units := map[arena := arena], map[arena := 1];
      slobfree := arena;
      blocks, rover, pages, live := [Block(arena, 1)], 0, {}, map[];
      new;
      assert blocks[0].addr == arena;
      assert Total(blocks[1..]) == 0;
      forall u ensures Owned(arena, pages, u) <==> Covers(blocks, u) || LiveCovers(live, u) {
        if u == arena { assert Holds(blocks[0], u); }
      }
    }

    /** The search of slob_free for the block behind which `b` belongs. */
    method FindSpot(b: int, ghost n: nat) returns (cur: int, ghost k: nat)
      requires Listed() && Clear(blocks, b, n) && n > 0
      ensures Gap(blocks, k, b, n) && cur == blocks[Before(k, |blocks|)].addr
    {
      k := GapExists(blocks, b, n);
      ghost var t := Before(k, |blocks|);
      ghost var c: nat := rover;
      cur := slobfree;
      while true
        invariant c < |blocks| && cur == blocks[c].addr
        decreases if c <= t then t - c else t - c + |blocks|
      {
        ExitTest(blocks, k, b, n, c);
        assert next[blocks[c].addr] == blocks[Succ(c, |blocks|)].addr;
        if b > cur && b < next[cur] { break; }
        if cur >= next[cur] && (b > cur || b < next[cur]) { break; }
        cur := next[cur];
        c := Succ(c, |blocks|);
      }
    }

    /** slob_free once the block's header holds its size `n`: link it in address order,
        merged with either neighbour it abuts, and start the next search here. */
    method Insert(b: int, ghost n: nat) returns (ghost k: nat)
      requires Listed() && Clear(blocks, b, n) && n > 0 && b in units && units[b] == n
      requires b + n != arena && b != arena + 1
      modifies this`next, this`units, this`slobfree, this`blocks, this`rover
      ensures Listed()
      ensures Gap(old(blocks), k, b, n) && blocks == Give(old(blocks), k, b, n)
      ensures slobfree == old(blocks)[Before(k, |old(blocks)|)].addr && rover == RoverAfter(old(blocks), k, b, n)
      ensures Untouched(old(next), old(units), next, units, {b, slobfree})
    {
      hide Canonical, Linked, Sized, Give, HasArena, Clear, Gap, Untouched, FreedNext, FreedHeaders, RoverAfter;
      ghost var bs, next0, units0 := blocks, next, units;
      var cur;
      cur, k := FindSpot(b, n);
      GapIsPlace(bs, k, b, n);
      ArenaStays(bs, k, b, n, arena);
      InsertWrites(cur, b, n, k);
      FreedListed(next0, units0, bs, k, b, n, units);
      GiveAdds(bs, k, b, n);
      RoverStays(bs, k, b, n);
      blocks, rover := Give(bs, k, b, n), RoverAfter(bs, k, b, n);
    }

    /** The assignments of that part of slob_free. */
    method InsertWrites(cur: int, b: int, ghost n: nat, ghost k: nat)
      requires Canonical(blocks) && Linked(next, blocks) && Sized(units, blocks) && 0 < |blocks|
      requires Gap(blocks, k, b, n) && n > 0 && b in units && units[b] == n
      requires cur == blocks[Before(k, |blocks|)].addr
      modifies this`next, this`units, this`slobfree
      ensures k <= |blocks| && next == FreedNext(old(next), blocks, k, b, n) && slobfree == cur
      ensures FreedHeaders(old(units), blocks, k, b, n, units)
      ensures Untouched(old(next), old(units), next, units, {b, cur})
    {
      hide Canonical, Linked, Sized, Gap;
      GapIsPlace(blocks, k, b, n);
      MergeTests(next, units, blocks, k, b, n);
      if b + units[b] == next[cur] {
        units := units[b := units[b] + units[next[cur]]];
        next := next[b := next[next[cur]]];
      } else {
        next := next[b := next[cur]];
      }
      if cur + units[cur] == b {
        units := units[cur := units[cur] + units[b]];
        next := next[cur := next[b]];
      } else {
        next := next[cur := b];
      }
      slobfree := cur;
    }

    /** The part of slob_alloc that unlinks a block or splits it, and moves the rover back. */
    method CutAt(prev: int, cur: int, n: nat, ghost i: nat)
      requires Valid() && i < |blocks| && 1 < n <= blocks[i].size
      requires cur == blocks[i].addr && prev == blocks[Pred(i, |blocks|)].addr
      modifies this
      ensures Valid() && pages == old(pages)
      ensures cur !in old(live) && live == old(live)[cur := n] && units[cur] == n
      ensures blocks == Take(old(blocks), i, n) && slobfree == prev
      ensures SameHeaders(old(next), old(units), next, units, old(live))
    {
      hide Canonical, Linked, Sized, Take, HasArena, Tiled, IsCut, CutNext, CutUnits, PredAfter, SameHeaders, Covers;
      hide Sum, Total, Pred;
      ghost var bs, units0, next0, t := blocks, units, next, Take(blocks, i, n);
      TakeCuts(bs, i, n);
      ArenaUncut(bs, i, n, t, arena);
      CutIsNotLive(arena, pages, bs, live, i, n);
      CutWrites(prev, cur, n, i);
      CutLinked(next0, bs, i, n, t);
      CutSized(units0, bs, i, n, t);
      CutHeaders(next0, units0, bs, i, n, live);
      TakeRemoves(bs, i, n);
      PredStays(bs, i, n, t);
      BlockCovers(bs, i);
      TiledTake(arena, pages, bs, live, cur, n, t);
      SumAdd(live, cur, n);
      blocks, rover, live := t, PredAfter(bs, i, n), live[cur := n];
    }

    /** The assignments of that part, in the order of the C statements. */
    method CutWrites(prev: int, cur: int, n: nat, ghost i: nat)
      requires Listed() && i < |blocks| && |blocks| > 1 && 0 < n <= blocks[i].size
      requires cur == blocks[i].addr && prev == blocks[Pred(i, |blocks|)].addr
      modifies this`next, this`units, this`slobfree
      ensures next == CutNext(old(next), blocks, i, n) && units == CutUnits(old(units), blocks, i, n)
      ensures slobfree == prev
      ensures cur in units && units[cur] == n && cur in next
    {
      hide Canonical, Linked, Sized;
      CutReads(next, units, blocks, i);
      CutAddressesOf(blocks, i, n);
      if units[cur] == n {
        next := next[prev := next[cur]];
      } else {
        next := next[prev := cur + n];
        units := units[cur + n := units[cur] - n];
        next := next[cur + n := next[cur]];
        units := units[cur := n];
      }
      slobfree := prev;
    }

    /** slob_alloc with `align` zero: next-fit from the rover, growing by at most one page.
        `supply` is what the page allocator would answer; `asked` counts the requests. */
    method SlobAlloc(size: nat, supply: Supply) returns (r: Outcome, asked: nat, ghost s: nat, ghost k: nat)
      requires Valid() && size > 16
      requires supply.Page? ==> GoodPage(arena, supply.addr) && supply.addr !in pages
      modifies this
      ensures Valid()
      ensures r.Panic? <==> size >= 4080
      ensures asked == if !r.Panic? && NoneFits(old(blocks), Units(size)) then 1 else 0
      ensures r.Null? <==> asked == 1 && supply.NoPage?
      ensures !r.At? ==> blocks == old(blocks) && live == old(live) && pages == old(pages)
      ensures r.At? ==> r.addr !in old(live) && live == old(live)[r.addr := Units(size)] && units[r.addr] == Units(size)
      ensures r.At? && asked == 0 ==>
                pages == old(pages) && CutFrom(old(blocks), old(rover), Units(size), s, r.addr, blocks, slobfree)
      ensures r.At? && asked == 1 ==>
                && pages == old(pages) + {supply.addr}
                && GrownCut(old(blocks), k, supply.addr, Units(size), s, r.addr, blocks, slobfree)
      ensures SameHeaders(old(next), old(units), next, units, old(live))
    {
      asked, s, k := 0, 1, 0;
      if size + SLOB_UNIT >= PAGE_SIZE {
        return Panic, asked, s, k;
      }
      hide Canonical, Linked, Sized, Take, Give, HasArena, Tiled, Gap, NoneFits, FirstFrom, CutFrom, GrownCut;
      hide RoverAfter, SameHeaders;
      SameIsSame(next, units, live);
      var n := Units(size);
      ghost var bs := blocks;
      while true
        invariant Valid() && live == old(live) && SameHeaders(old(next), old(units), next, units, live)
        invariant asked == 0 ==> blocks == bs && rover == old(rover) && pages == old(pages)
        invariant asked != 0 ==> asked == 1 && NoneFits(bs, n) && supply.Page? && pages == old(pages) + {supply.addr}
        invariant asked == 1 ==> k <= |bs| && Gap(bs, k, supply.addr, PAGE_UNITS)
        invariant asked == 1 ==> blocks == Give(bs, k, supply.addr, PAGE_UNITS)
        invariant asked == 1 ==> rover == RoverAfter(bs, k, supply.addr, PAGE_UNITS)
        decreases 1 - asked
      {
        var found, prev, cur;
        found, prev, cur, s := Walk(n);
        FoundFits(blocks, rover, n, s);
        if found {
          ghost var i := Round(rover, s, |blocks|);
          FirstCut(blocks, rover, n, s);
          ghost var next1, units1 := next, units;
          CutAt(prev, cur, n, i);
          if asked == 1 { LaterCut(bs, k, supply.addr, n, s, cur, blocks, slobfree); }
          SameHeadersChain(old(next), old(units), next1, units1, next, units, old(live));
          r := At(cur);
          return;
        }
        assert size != PAGE_SIZE;
        assert asked == 0 by {
          if asked == 1 { GrownFits(bs, k, supply.addr, n); }
        }
        asked := asked + 1;
        if supply.NoPage? {
          return Null, asked, s, k;
        }
        ghost var next1, units1 := next, units;
        k := Grow(supply.addr);
        SameHeadersChain(old(next), old(units), next1, units1, next, units, old(live));
      }
    }

    /** One walk of slob_alloc's loop: from behind the rover to the first block with
        room, or once round to the rover itself. */
    method Walk(n: nat) returns (found: bool, prev: int, cur: int, ghost s: nat)
      requires Listed()
      ensures found <==> !NoneFits(blocks, n)
      ensures 1 <= s <= |blocks|
      ensures found ==> FirstFrom(blocks, rover, n, s)
      ensures var i := Round(rover, s, |blocks|);
              cur == blocks[i].addr && prev == blocks[Pred(i, |blocks|)].addr
    {
      ghost var bs := blocks;
      hide Canonical, Linked, Sized, HasArena;
      prev := slobfree;
      StepNext(next, bs, rover);
      cur, s := next[prev], 1;
      while true
        invariant 1 <= s <= |bs|
        invariant var i := Round(rover, s, |bs|); cur == bs[i].addr && prev == bs[Pred(i, |bs|)].addr
        invariant forall t :: 1 <= t < s ==> bs[Round(rover, t, |bs|)].size < n
        decreases |bs| - s
      {
        ghost var i := Round(rover, s, |bs|);
        SizeOf(units, bs, i);
        if units[cur] >= n {
          return true, prev, cur, s;
        }
        if cur == slobfree {
          RoverIsFull(bs, rover, s);
          FullCircle(bs, rover, n);
          return false, prev, cur, s;
        }
        StepNext(next, bs, i);
        assert s < |bs|;
        prev := cur;
        cur, s := next[cur], s + 1;
      }
    }

    /** slob_free of a live block.  A nonzero `size` overrides the header. */
    method SlobFree(b: int, size: nat) returns (ghost k: nat)
      requires Valid() && b in live
      requires if size > 0 then Units(size) == live[b] else units[b] == live[b]
      modifies this
      ensures Valid() && pages == old(pages) && live == old(live) - {b}
      ensures Gap(old(blocks), k, b, old(live)[b]) && blocks == Give(old(blocks), k, b, old(live)[b])
      ensures SameHeaders(old(next), old(units), next, units, live)
    {
      hide Canonical, Linked, Sized, Give, HasArena, Tiled, Clear, Gap, RoverAfter, Untouched, SameHeaders, Sum, Total;
      ghost var bs, n := blocks, live[b];
      LiveApartFromArena(arena, pages, bs, live, b);
      LiveIsClear(arena, pages, bs, live, b);
      if size != 0 {
        units := units[b := Units(size)];
      }
      assert Sized(units, bs) by { SizedElsewhere(arena, pages, old(units), bs, live, b, units); }
      ghost var units1 := units;
      k := Insert(b, n);
      GapIsPlace(bs, k, b, n);
      GiveAdds(bs, k, b, n);
      TiledFree(arena, pages, bs, live, b, blocks);
      LiveIsNoBlock(arena, pages, bs, live, Before(k, |bs|));
      SumRemove(live, b);
      UntouchedHeaders(old(next), old(units), units1, next, units, live - {b}, b, slobfree);
      live := live - {b};
    }

    /** The owner of a live block stores into its first unit, over the header. */
    method Store(b: int, word0: int, word1: int)
      requires Valid() && b in live
      modifies this`next, this`units
      ensures Valid() && units == old(units)[b := word0] && next == old(next)[b := word1]
    {
      hide Canonical, Linked, Sized, HasArena, Tiled;
      StoreApart(arena, pages, next, units, blocks, live, b, word0, word1);
      units := units[b := word0];
      next := next[b := word1];
    }

    /** The growth step: slob_free of a page fresh from the page allocator. */
    method Grow(p: int) returns (ghost k: nat)
      requires Valid() && GoodPage(arena, p) && p !in pages
      modifies this
      ensures Valid() && pages == old(pages) + {p} && live == old(live)
      ensures k <= |old(blocks)|
      ensures Gap(old(blocks), k, p, PAGE_UNITS) && blocks == Give(old(blocks), k, p, PAGE_UNITS)
      ensures rover == RoverAfter(old(blocks), k, p, PAGE_UNITS)
      ensures SameHeaders(old(next), old(units), next, units, live)
    {
      hide Canonical, Linked, Sized, Give, HasArena, Tiled, Clear, Gap, RoverAfter, Untouched, SameHeaders, Sum, Total;
      ghost var bs := blocks;
      PageIsClear(arena, pages, bs, live, p);
      PageIsNotLive(arena, pages, bs, live, p);
      PageIsNoBlock(bs, p);
      units := units[p := Units(PAGE_SIZE)];
      assert Sized(units, bs) by { SizedUpdate(old(units), bs, p, PAGE_UNITS); }
      ghost var units1 := units;
      k := Insert(p, PAGE_UNITS);
      GapIsPlace(bs, k, p, PAGE_UNITS);
      GiveAdds(bs, k, p, PAGE_UNITS);
      TiledGrow(arena, pages, bs, live, p, blocks);
      LiveIsNoBlock(arena, pages, bs, live, Before(k, |bs|));
      UntouchedHeaders(old(next), old(units), units1, next, units, live, p, slobfree);
      pages := pages + {p};
    }
  }

  /** The headers of the blocks in `live` are as before. */
  ghost predicate SameHeaders(next: map<int, int>, units: map<int, int>, next': map<int, int>, units': map<int, int>,
                              live: map<int, nat>) {
    forall a :: a in live ==>
      && (a in next ==> a in next' && next'[a] == next[a])
      && (a in units ==> a in units' && units'[a] == units[a])
  }

  /** An insertion of `b` behind `cur` leaves the headers of blocks that are neither alone. */
  lemma UntouchedHeaders(next: map<int, int>, units: map<int, int>, units1: map<int, int>, next': map<int, int>,
                         units': map<int, int>, live: map<int, nat>, b: int, cur: int)
    requires Untouched(next, units1, next', units', {b, cur}) && b !in live && cur !in live
    requires units.Keys <= units1.Keys && forall a :: a in units && a != b ==> units1[a] == units[a]
    ensures SameHeaders(next, units, next', units', live)
  {
  }

  /** What slob_alloc reads at the block it has chosen. */
  lemma CutReads(next: map<int, int>, units: map<int, int>, bs: seq<Block>, i: nat)
    requires Canonical(bs) && Linked(next, bs) && Sized(units, bs) && i < |bs|
    ensures var cur, prev := bs[i].addr, bs[Pred(i, |bs|)].addr;
            && cur in units && cur in next && prev in next && prev in units
            && units[cur] == bs[i].size && next[cur] == bs[Succ(i, |bs|)].addr && next[prev] == cur
  {
    var p := Pred(i, |bs|);
    assert next[bs[p].addr] == bs[Succ(p, |bs|)].addr && next[bs[i].addr] == bs[Succ(i, |bs|)].addr;
    assert units[bs[i].addr] == bs[i].size && units[bs[p].addr] == bs[p].size;
  }

  lemma CutAddressesOf(bs: seq<Block>, i: nat, n: nat)
    requires Canonical(bs) && i < |bs| && |bs| > 1 && 0 < n <= bs[i].size
    ensures bs[Pred(i, |bs|)].addr != bs[i].addr
    ensures n < bs[i].size ==> bs[Pred(i, |bs|)].addr != bs[i].addr + n
  {
    CutAddresses(bs, i, n, Pred(i, |bs|));
  }

  /** The headers that a cut writes are no live block's. */
  lemma CutIsNotLive(arena: int, pages: set<int>, bs: seq<Block>, live: map<int, nat>, i: nat, n: nat)
    requires Tiled(arena, pages, bs, live) && Canonical(bs) && i < |bs| && 0 < n <= bs[i].size
    requires forall a :: a in live ==> live[a] > 0
    ensures bs[i].addr !in live && bs[Pred(i, |bs|)].addr !in live
    ensures n < bs[i].size ==> bs[i].addr + n !in live
  {
    LiveIsNoBlock(arena, pages, bs, live, i);
    LiveIsNoBlock(arena, pages, bs, live, Pred(i, |bs|));
    BlockCovers(bs, i);
    var a := bs[i].addr + n;
    assert a in live ==> LiveHolds(live, a, a) && LiveCovers(live, a);
  }

  lemma StepNext(next: map<int, int>, bs: seq<Block>, i: nat)
    requires Linked(next, bs) && i < |bs|
    ensures bs[i].addr in next && next[bs[i].addr] == bs[Succ(i, |bs|)].addr
  {
    assert next[bs[i].addr] == bs[Succ(i, |bs|)].addr;
  }

  lemma SizeOf(units: map<int, int>, bs: seq<Block>, i: nat)
    requires Sized(units, bs) && i < |bs|
    ensures bs[i].addr in units && units[bs[i].addr] == bs[i].size
  {
    assert units[bs[i].addr] == bs[i].size;
  }

  lemma RoverIsFull(bs: seq<Block>, r: nat, s: nat)
    requires Canonical(bs) && r < |bs| && 1 <= s <= |bs| && bs[Round(r, s, |bs|)].addr == bs[r].addr
    ensures s == |bs|
  {
    SameAddress(bs, Round(r, s, |bs|), r);
  }

  lemma SameAddress(bs: seq<Block>, i: nat, j: nat)
    requires Canonical(bs) && i < |bs| && j < |bs| && bs[i].addr == bs[j].addr
    ensures i == j
  {
  }

  lemma SameIsSame(next: map<int, int>, units: map<int, int>, live: map<int, nat>)
    ensures SameHeaders(next, units, next, units, live)
  {
  }

  lemma SameHeadersChain(next: map<int, int>, units: map<int, int>, next1: map<int, int>, units1: map<int, int>,
                         next2: map<int, int>, units2: map<int, int>, live: map<int, nat>)
    requires SameHeaders(next, units, next1, units1, live) && SameHeaders(next1, units1, next2, units2, live)
    ensures SameHeaders(next, units, next2, units2, live)
  {
  }

  lemma SizedUpdate(units: map<int, int>, bs: seq<Block>, b: int, n: int)
    requires Sized(units, bs) && forall i :: 0 <= i < |bs| ==> bs[i].addr != b
    ensures Sized(units[b := n], bs)
  {
  }

  lemma SizedElsewhere(arena: int, pages: set<int>, units: map<int, int>, bs: seq<Block>, live: map<int, nat>, b: int,
                       units': map<int, int>)
    requires Tiled(arena, pages, bs, live) && Canonical(bs) && Sized(units, bs) && b in live
    requires forall a :: a in live ==> live[a] > 0
    requires units' == units || units' == units[b := live[b]]
    ensures Sized(units', bs)
  {
    forall i | 0 <= i < |bs| ensures bs[i].addr != b {
      LiveIsNoBlock(arena, pages, bs, live, i);
    }
    SizedUpdate(units, bs, b, live[b]);
  }

  lemma StoreApart(arena: int, pages: set<int>, next: map<int, int>, units: map<int, int>, bs: seq<Block>,
                   live: map<int, nat>, b: int, word0: int, word1: int)
    requires Tiled(arena, pages, bs, live) && Canonical(bs) && Linked(next, bs) && Sized(units, bs) && b in live
    requires forall a :: a in live ==> live[a] > 0
    ensures Linked(next[b := word1], bs) && Sized(units[b := word0], bs)
  {
    forall i | 0 <= i < |bs| ensures bs[i].addr != b {
      LiveIsNoBlock(arena, pages, bs, live, i);
    }
  }

  /** Every unit of a live block lies in a page. */
  lemma LiveInPages(arena: int, pages: set<int>, bs: seq<Block>, live: map<int, nat>, b: int, u: int)
    requires Tiled(arena, pages, bs, live) && HasArena(bs, arena) && LiveHolds(live, b, u)
    ensures PageOf(u) in pages
  {
    var i :| 0 <= i < |bs| && bs[i].addr == arena && bs[i].size == 1;
    assert Holds(bs[i], arena) && Covers(bs, arena);
    assert LiveCovers(live, u) && Owned(arena, pages, u);
  }

  lemma PageIsNoBlock(bs: seq<Block>, p: int)
    requires Canonical(bs) && Clear(bs, p, PAGE_UNITS)
    ensures forall i :: 0 <= i < |bs| ==> bs[i].addr != p
  {
  }

  lemma PageIsNotLive(arena: int, pages: set<int>, bs: seq<Block>, live: map<int, nat>, p: int)
    requires Tiled(arena, pages, bs, live) && GoodPage(arena, p) && p !in pages
    requires forall a :: a in live ==> live[a] > 0
    ensures p !in live
  {
    SamePage(p, p);
    assert !Owned(arena, pages, p);
    assert p in live ==> LiveHolds(live, p, p);
  }

  /** Only the headers at `changed` differ. */
  ghost predicate Untouched(next: map<int, int>, units: map<int, int>, next': map<int, int>, units': map<int, int>,
                            changed: set<int>) {
    && next.Keys <= next'.Keys && units.Keys <= units'.Keys
    && (forall a :: a in next && a !in changed ==> next'[a] == next[a])
    && forall a :: a in units && a !in changed ==> units'[a] == units[a]
  }
}
