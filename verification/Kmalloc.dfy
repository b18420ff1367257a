/** kmalloc and kfree on top of the SLOB heap: small requests carry a one-unit
    header, large ones take whole pages and are remembered on the bigblock list. */
module Kmalloc {
  import opened FreeBlocks
  import Lists
  import opened Powers
  import opened Slob

  const NULL: int := 0

  /** sizeof(bigblock_t): an int and two pointers, padded. */
  const BIGBLOCK_SIZE: nat := 24

  /** The order is the least number of halvings that brings the size to a page or less. */
  ghost predicate IsOrder(size: nat, order: nat) {
    Shr(size, order) <= 4096 && (order > 0 ==> Shr(size, order - 1) > 4096)
  }

  method FindOrder(size: int) returns (order: nat)
    ensures IsOrder(if size > 0 then size else 0, order)
  {
    order := 0;
    var rest := size;
    while rest > PAGE_SIZE
      invariant if size > 0 then rest == Shr(size, order) else rest == size && order == 0
      invariant order > 0 ==> Shr(size, order - 1) > PAGE_SIZE
      decreases rest
    {
      rest := rest / 2;
      order := order + 1;
    }
  }

  lemma {:induction false} ShrFalls(size: nat, j: nat, k: nat)
    requires j <= k
    ensures Shr(size, k) <= Shr(size, j)
  {
    if j < k { ShrFalls(size, j, k - 1); }
  }

  lemma OrderIsUnique(size: nat, j: nat, k: nat)
    requires IsOrder(size, j) && IsOrder(size, k)
    ensures j == k
  {
    if j < k { ShrFalls(size, j, k - 1); }
    if k < j { ShrFalls(size, k, j - 1); }
  }

  /** Fewer than `2^k` bytes above `2^k` pages. */
  ghost predicate JustAbove(size: nat, k: nat) {
    4096 * Pow2(k) < size < 4097 * Pow2(k)
  }

  lemma JustAboveOrder(size: nat, k: nat)
    requires JustAbove(size, k)
    ensures IsOrder(size, k)
  {
    var q, p := Shr(size, k), Pow2(k);
    ShrBounds(size, k);
    if q > PAGE_SIZE { ScaleUp(PAGE_SIZE + 1, q, p); }
    if q < PAGE_SIZE { ScaleUp(q + 1, PAGE_SIZE, p); }
  }

  /** A size_t passed as an int. */
  function ToInt(size: nat): (i: int)
    ensures -0x8000_0000 <= i < 0x8000_0000 && (size - i) % 0x1_0000_0000 == 0
    ensures size < 0x8000_0000 ==> i == size
  {
    (size + 0x8000_0000) % 0x1_0000_0000 - 0x8000_0000
  }

  /** The order that kmalloc records for a size: that of the size as an int. */
  ghost predicate RecordsOrder(size: nat, order: nat) {
    IsOrder(if ToInt(size) > 0 then ToInt(size) else 0, order)
  }

  /** The halvings drop low bits and the conversion drops high ones, so the pages can be too few:
      exactly for the sizes just above a power of two of pages and those of 2^31 and more. */
  lemma OrderCovers(size: nat, order: nat)
    requires RecordsOrder(size, order)
    ensures size <= 4096 * Pow2(order) <==> size < 0x8000_0000 && forall k: nat :: !JustAbove(size, k)
  {
    if size < 0x8000_0000 {
      SmallOrderCovers(size, order);
    } else if order > 0 {
      var t: nat := if ToInt(size) > 0 then ToInt(size) else 0;
      ShrBounds(t, order - 1);
      ScaleUp(PAGE_SIZE + 1, Shr(t, order - 1), Pow2(order - 1));
      assert PAGE_SIZE * Pow2(order) < 2 * t < 0x1_0000_0000;
      assert size < 0x1_0000_0000 ==> ToInt(size) < 0;
    }
  }

  lemma SmallOrderCovers(size: nat, order: nat)
    requires IsOrder(size, order)
    ensures size <= 4096 * Pow2(order) <==> forall k: nat :: !JustAbove(size, k)
  {
    var q, p := Shr(size, order), Pow2(order);
    ShrBounds(size, order);
    ScaleUp(q + 1, PAGE_SIZE + 1, p);
    if size > PAGE_SIZE * p {
      assert JustAbove(size, order);
    } else {
      forall k: nat ensures !JustAbove(size, k) {
        if JustAbove(size, k) {
          JustAboveOrder(size, k);
          OrderIsUnique(size, order, k);
        }
      }
    }
  }

  lemma ScaleUp(a: nat, b: nat, p: nat)
    requires a <= b
    ensures a * p <= b * p
  {
  }

  /** 8193 bytes get two pages. */
  lemma OrderFallsShort()
    ensures RecordsOrder(8193, 1) && 4096 * Pow2(1) < 8193
  {
    assert Pow2(1) == 2 && Shr(8193, 0) == 8193;
  }

  /** `next` leads from `head` through `bigs` to the null pointer. */
  ghost predicate Chain(next: map<int, int>, head: int, bigs: seq<int>)
    decreases |bigs|
  {
    if bigs == [] then head == NULL
    else head == bigs[0] && head != NULL && head in next && Chain(next, next[head], bigs[1..])
  }

  /** The first unit of the pages of the big block at `b` stands in its second word. */
  ghost predicate BigRun(units: map<int, int>, next: map<int, int>, b: int, u: int) {
    && b in units && b in next && units[b] >= 0
    && next[b] <= u < next[b] + PAGE_UNITS * Pow2(units[b])
  }

  lemma {:induction false} ChainAt(next: map<int, int>, head: int, bigs: seq<int>, k: nat)
    requires Chain(next, head, bigs) && k < |bigs|
    ensures bigs[k] != NULL && bigs[k] in next
    ensures next[bigs[k]] == if k + 1 < |bigs| then bigs[k + 1] else NULL
    decreases k
  {
    if k > 0 {
      ChainAt(next, next[head], bigs[1..], k - 1);
    } else if |bigs| > 1 {
      assert bigs[1..][0] == bigs[1];
    }
  }

  /** Links off the chain do not matter to it. */
  lemma {:induction false} ChainFrame(next: map<int, int>, head: int, bigs: seq<int>, b: int, v: int)
    requires Chain(next, head, bigs) && b !in bigs
    ensures Chain(next[b := v], head, bigs)
    decreases |bigs|
  {
    if bigs != [] {
      ChainFrame(next, next[head], bigs[1..], b, v);
    }
  }

  /** `*last = bb->next`, with `last` the head pointer or the link of the block before. */
  lemma {:induction false} ChainUnlink(next: map<int, int>, head: int, bigs: seq<int>, k: nat)
    requires Chain(next, head, bigs) && Lists.Distinct(bigs) && k < |bigs|
    ensures bigs[k] in next
    ensures k == 0 ==> Chain(next, next[bigs[0]], bigs[1..])
    ensures k > 0 ==> Chain(next[bigs[k - 1] := next[bigs[k]]], head, bigs[..k] + bigs[k + 1..])
    decreases k
  {
    ChainAt(next, head, bigs, k);
    if k == 1 {
      assert bigs[1..][1..] == bigs[2..];
      assert bigs[0] !in bigs[2..];
      ChainFrame(next, next[bigs[1]], bigs[2..], bigs[0], next[bigs[1]]);
      assert bigs[..1] + bigs[2..] == [bigs[0]] + bigs[2..];
    } else if k > 1 {
      ChainUnlink(next, next[head], bigs[1..], k - 1);
      assert bigs[1..][..k - 1] + bigs[1..][k..] == (bigs[..k] + bigs[k + 1..])[1..];
    }
  }

  /** Every record on the bigblock list is a live two-unit block whose pages are outside
      the SLOB heap and meet no other record's. */
  ghost predicate BigsOk(arena: int, pages: set<int>, units: map<int, int>, next: map<int, int>,
                         live: map<int, nat>, bigs: seq<int>) {
    && Lists.Distinct(bigs)
    && (forall b :: b in bigs ==> BigOk(units, next, live, b))
    && (forall b, u :: b in bigs && BigRun(units, next, b, u) ==> !Owned(arena, pages, u))
    && forall b, c, u :: b in bigs && c in bigs && BigRun(units, next, b, u) && BigRun(units, next, c, u) ==> b == c
  }

  ghost predicate BigOk(units: map<int, int>, next: map<int, int>, live: map<int, nat>, b: int) {
    && b in live && live[b] == 2 && b in units && b in next
    && units[b] >= 0 && next[b] > 0 && next[b] % PAGE_UNITS == 0
  }

  /** Every other live block has its size in its header, and room behind it. */
  ghost predicate HeadersOk(units: map<int, int>, live: map<int, nat>, bigs: seq<int>) {
    forall a :: a in live && a !in bigs ==> a in units && units[a] == live[a] && live[a] >= 2
  }

  /** No big block's pages contain the page at `p`. */
  ghost predicate PageApart(units: map<int, int>, next: map<int, int>, bigs: seq<int>, p: int) {
    forall b, u :: b in bigs && BigRun(units, next, b, u) ==> PageOf(u) != p
  }

  /** The run of `2^order` pages at `p` is aligned and met by nothing the heap uses. */
  ghost predicate RunApart(arena: int, pages: set<int>, units: map<int, int>, next: map<int, int>, bigs: seq<int>,
                           p: int, order: nat) {
    && p > 0 && p % PAGE_UNITS == 0
    && forall u :: p <= u < p + PAGE_UNITS * Pow2(order) ==>
         !Owned(arena, pages, u) && forall b :: b in bigs ==> !BigRun(units, next, b, u)
  }

  /** The records survive what leaves their two words alone. */
  lemma BigsKept(arena: int, pages: set<int>, units: map<int, int>, next: map<int, int>, live: map<int, nat>,
                 bigs: seq<int>,
                 pages': set<int>, units': map<int, int>, next': map<int, int>, live': map<int, nat>, bigs': seq<int>)
    requires BigsOk(arena, pages, units, next, live, bigs) && Lists.Distinct(bigs')
    requires forall b :: b in bigs' ==> b in bigs && b in live' && live'[b] == live[b]
    requires forall b :: b in bigs' ==>
               b in units && b in next && b in units' && b in next' && units'[b] == units[b] && next'[b] == next[b]
    requires forall b, u :: b in bigs' && BigRun(units, next, b, u) ==> !Owned(arena, pages', u)
    ensures BigsOk(arena, pages', units', next', live', bigs')
  {
    forall b, u | b in bigs' ensures BigRun(units', next', b, u) <==> BigRun(units, next, b, u) {
    }
    forall b | b in bigs' ensures BigOk(units', next', live', b) {
      assert BigOk(units, next, live, b);
    }
  }

  lemma BigAdded(arena: int, pages: set<int>, units: map<int, int>, next: map<int, int>, live: map<int, nat>,
                 bigs: seq<int>,
                 b: int, order: nat, p: int)
    requires BigsOk(arena, pages, units, next, live, bigs) && b !in bigs && b in live && live[b] == 2
    requires RunApart(arena, pages, units, next, bigs, p, order)
    ensures BigsOk(arena, pages, units[b := order], next[b := p], live, [b] + bigs)
  {
    var units', next', bigs' := units[b := order], next[b := p], [b] + bigs;
    assert forall i :: 0 <= i < |bigs| ==> bigs'[i + 1] == bigs[i] && bigs[i] in bigs;
    assert Lists.Distinct(bigs');
    forall c, u | c in bigs ensures BigRun(units', next', c, u) <==> BigRun(units, next, c, u) {
    }
    forall c | c in bigs' ensures BigOk(units', next', live, c) {
      assert c in bigs ==> BigOk(units, next, live, c);
    }
    forall u ensures BigRun(units', next', b, u) <==> p <= u < p + PAGE_UNITS * Pow2(order) {
    }
  }

  /** A block just allocated is no record, and its header does not hide one. */
  lemma SmallAdded(arena: int, pages: set<int>, units: map<int, int>, next: map<int, int>, live: map<int, nat>,
                   bigs: seq<int>,
                   pages': set<int>, units': map<int, int>, next': map<int, int>, a: int, n: nat)
    requires BigsOk(arena, pages, units, next, live, bigs) && HeadersOk(units, live, bigs)
    requires a !in live && SameHeaders(next, units, next', units', live)
    requires pages' == pages || exists p :: pages' == pages + {p} && PageApart(units, next, bigs, p)
    ensures a !in bigs && BigsOk(arena, pages', units', next', live[a := n], bigs)
    ensures a in units' && units'[a] == n && n >= 2 ==> HeadersOk(units', live[a := n], bigs)
  {
    forall b | b in bigs ensures b in live && b in units && b in next {
      assert BigOk(units, next, live, b);
    }
    BigsKept(arena, pages, units, next, live, bigs, pages', units', next', live[a := n], bigs);
  }

  /** Taking back a block leaves the other records and headers. */
  lemma SmallRemoved(arena: int, pages: set<int>, units: map<int, int>, next: map<int, int>, live: map<int, nat>,
                     bigs: seq<int>,
                     units': map<int, int>, next': map<int, int>, a: int, bigs': seq<int>)
    requires BigsOk(arena, pages, units, next, live, bigs) && HeadersOk(units, live, bigs)
    requires SameHeaders(next, units, next', units', live - {a})
    requires Lists.Distinct(bigs') && a !in bigs' && forall b :: b in bigs' <==> b in bigs && b != a
    ensures BigsOk(arena, pages, units', next', live - {a}, bigs') && HeadersOk(units', live - {a}, bigs')
  {
    forall b | b in bigs' ensures b in live && b != a && b in units && b in next {
      assert BigOk(units, next, live, b);
    }
    BigsKept(arena, pages, units, next, live, bigs, pages, units', next', live - {a}, bigs');
  }

  lemma RunApartKept(arena: int, pages: set<int>, units: map<int, int>, next: map<int, int>, live: map<int, nat>,
                     bigs: seq<int>,
                     units': map<int, int>, next': map<int, int>, p: int, order: nat)
    requires RunApart(arena, pages, units, next, bigs, p, order) && SameHeaders(next, units, next', units', live)
    requires forall b :: b in bigs ==> BigOk(units, next, live, b)
    ensures RunApart(arena, pages, units', next', bigs, p, order)
  {
    forall b, u | b in bigs ensures BigRun(units', next', b, u) <==> BigRun(units, next, b, u) {
      assert BigOk(units, next, live, b);
    }
  }

  lemma BigsAreOk(arena: int, pages: set<int>, units: map<int, int>, next: map<int, int>, live: map<int, nat>,
                  bigs: seq<int>)
    requires BigsOk(arena, pages, units, next, live, bigs)
    ensures forall b :: b in bigs ==> BigOk(units, next, live, b)
    ensures Lists.Distinct(bigs)
  {
  }

  lemma HeaderAt(units: map<int, int>, live: map<int, nat>, bigs: seq<int>, b: int)
    requires HeadersOk(units, live, bigs) && b in live && b !in bigs
    ensures b in units && units[b] == live[b]
  {
  }

  /** The units kmalloc takes from the SLOB heap for a request: the bytes and a header, or a record. */
  function BlockUnits(size: nat): nat {
    if size < 4080 then Units(size + 16) else 2
  }

  /** Behind the header there is room for the bytes asked for. */
  lemma RoomForRequest(size: nat)
    requires 0 < size < 4080
    ensures (BlockUnits(size) - 1) * 16 >= size && BlockUnits(size) >= 2
  {
    assert Units(size + SLOB_UNIT) * SLOB_UNIT >= size + SLOB_UNIT;
  }

  lemma OnlyRecord(next: map<int, int>, bigs: seq<int>, p: int, i: nat)
    requires Lists.Distinct(bigs) && i < |bigs| && bigs[i] in next && next[bigs[i]] == p
    requires forall b, c :: b in bigs && c in bigs && b in next && c in next && next[b] == next[c] ==> b == c
    ensures forall j :: 0 <= j < |bigs| && bigs[j] in next && next[bigs[j]] == p ==> j == i
  {
  }

  /** Pointers to big blocks are not null. */
  lemma BigPointers(arena: int, pages: set<int>, units: map<int, int>, next: map<int, int>, live: map<int, nat>,
                    bigs: seq<int>)
    requires BigsOk(arena, pages, units, next, live, bigs)
    ensures forall b :: b in bigs ==> b in next && b in units && next[b] != NULL && next[b] % PAGE_UNITS == 0
    ensures forall b :: b in bigs ==> b in live
    ensures forall b, c :: b in bigs && c in bigs && next[b] == next[c] ==> b == c
    ensures Lists.Distinct(bigs)
  {
    forall b | b in bigs ensures BigOk(units, next, live, b) && BigRun(units, next, b, next[b]) {
      assert BigOk(units, next, live, b);
    }
  }

  /** A pointer behind a header lies in a page of the heap, a big block's pages do not. */
  lemma SmallIsNotBig(arena: int, pages: set<int>, units: map<int, int>, next: map<int, int>, bs: seq<Block>,
                      live: map<int, nat>, bigs: seq<int>, p: int)
    requires Tiled(arena, pages, bs, live) && HasArena(bs, arena)
    requires BigsOk(arena, pages, units, next, live, bigs) && HeadersOk(units, live, bigs)
    requires p - 1 in live && p - 1 !in bigs
    ensures forall b :: b in bigs && b in next ==> next[b] != p
  {
    assert LiveHolds(live, p - 1, p);
    LiveInPages(arena, pages, bs, live, p - 1, p);
    forall b | b in bigs && b in next ensures next[b] != p {
      assert BigOk(units, next, live, b);
      assert BigRun(units, next, b, next[b]);
    }
  }

  lemma NotNull(arena: int, pages: set<int>, units: map<int, int>, next: map<int, int>, bs: seq<Block>,
                live: map<int, nat>, bigs: seq<int>)
    requires Tiled(arena, pages, bs, live) && HasArena(bs, arena)
    requires BigsOk(arena, pages, units, next, live, bigs)
    requires forall a :: a in live ==> live[a] > 0
    requires forall p :: p in pages ==> GoodPage(arena, p)
    ensures forall a :: a in live ==> a + 1 != NULL
    ensures forall b :: b in bigs ==> b in next && next[b] != NULL
  {
    BigPointers(arena, pages, units, next, live, bigs);
    forall a | a in live ensures a > 0 {
      LiveIsPositive(arena, pages, bs, live, a);
    }
  }

  lemma ChainHead(next: map<int, int>, head: int, bigs: seq<int>)
    requires Chain(next, head, bigs)
    ensures head == NULL <==> bigs == []
    ensures bigs != [] ==> head == bigs[0]
  {
  }

  lemma RestOfBigs(bigs: seq<int>, i: nat)
    requires Lists.Distinct(bigs) && i < |bigs|
    ensures var rest := bigs[..i] + bigs[i + 1..];
            Lists.Distinct(rest) && forall c :: c in rest <==> c in bigs && c != bigs[i]
  {
    var rest := bigs[..i] + bigs[i + 1..];
    assert forall j :: 0 <= j < |rest| ==> rest[j] == bigs[if j < i then j else j + 1];
    forall c | c in bigs && c != bigs[i] ensures c in rest {
      var j :| 0 <= j < |bigs| && bigs[j] == c;
      assert rest[if j < i then j else j - 1] == c;
    }
  }

  lemma LiveIsPositive(arena: int, pages: set<int>, bs: seq<Block>, live: map<int, nat>, b: int)
    requires Tiled(arena, pages, bs, live) && HasArena(bs, arena) && b in live && live[b] > 0
    requires forall p :: p in pages ==> GoodPage(arena, p)
    ensures b > 0
  {
    assert LiveHolds(live, b, b);
    LiveInPages(arena, pages, bs, live, b, b);
  }

  lemma HeadersBut(units: map<int, int>, live: map<int, nat>, bigs: seq<int>, b: int, v: int)
    requires HeadersOk(units, live, bigs)
    ensures HeadersOk(units[b := v], live, [b] + bigs)
  {
    assert forall a :: a in [b] + bigs <==> a == b || a in bigs;
  }

  lemma ChainCons(next: map<int, int>, head: int, bigs: seq<int>, b: int)
    requires Chain(next, head, bigs) && b != NULL && b in next && next[b] == head
    ensures Chain(next, b, [b] + bigs)
  {
    assert ([b] + bigs)[1..] == bigs;
  }

  /** Overwriting the header of a block that is no record. */
  lemma BigsAside(arena: int, pages: set<int>, units: map<int, int>, next: map<int, int>, live: map<int, nat>,
                  bigs: seq<int>,
                  b: int, v: int, w: int)
    requires BigsOk(arena, pages, units, next, live, bigs) && HeadersOk(units, live, bigs) && b !in bigs
    ensures BigsOk(arena, pages, units[b := v], next[b := w], live, bigs) && HeadersOk(units[b := v], live, [b] + bigs)
  {
    HeadersBut(units, live, bigs, b, v);
    forall c | c in bigs ensures c in live && c in units && c in next {
      assert BigOk(units, next, live, c);
    }
    BigsKept(arena, pages, units, next, live, bigs, pages, units[b := v], next[b := w], live, bigs);
  }

  lemma BigAsideRemoved(arena: int, pages: set<int>, units: map<int, int>, next: map<int, int>, live: map<int, nat>,
                        bigs: seq<int>,
                        units': map<int, int>, next': map<int, int>, b: int)
    requires BigsOk(arena, pages, units, next, live, bigs) && HeadersOk(units, live, [b] + bigs) && b !in bigs
    requires SameHeaders(next, units, next', units', live - {b})
    ensures BigsOk(arena, pages, units', next', live - {b}, bigs) && HeadersOk(units', live - {b}, bigs)
  {
    assert forall a :: a in [b] + bigs <==> a == b || a in bigs;
    forall c | c in bigs ensures c in live && c in units && c in next {
      assert BigOk(units, next, live, c);
    }
    BigsKept(arena, pages, units, next, live, bigs, pages, units', next', live - {b}, bigs);
  }

  /** Freeing a block at once restores the free list. */
  lemma CutRestored(bs: seq<Block>, r: nat, n: nat, s: nat, a: int, cut: seq<Block>, f: int, k: nat)
    requires Canonical(bs) && n > 0 && CutFrom(bs, r, n, s, a, cut, f) && Gap(cut, k, a, n)
    ensures Give(cut, k, a, n) == bs
  {
    GiveUndoesTake(bs, Lists.Round(r, s, |bs|), n, k);
  }

  class KernelHeap {
    const heap: SlobHeap
    var bigblocks: int
    var bigNext: map<int, int>
    ghost var bigs: seq<int>

    ghost predicate Valid()
      reads this, heap
    {
      && heap.Valid() && heap.arena > 0
      && Chain(bigNext, bigblocks, bigs)
      && BigsOk(heap.arena, heap.pages, heap.units, heap.next, heap.live, bigs)
      && HeadersOk(heap.units, heap.live, bigs)
    }

    constructor (arena: int)
      requires arena > 0
      ensures Valid() && bigs == [] && heap.live == map[] && heap.blocks == [Block(arena, 1)] && fresh(heap)
    {
      heap := new SlobHeap(arena);
      bigblocks, bigNext, bigs := NULL, map[], [];
    }

    /** A pointer that kmalloc handed out and kfree has not taken back. */
    ghost predicate IsSmall(p: int)
      reads this, heap
    {
      p - 1 in heap.live && p - 1 !in bigs
    }

    ghost predicate IsBig(p: int, b: int)
      reads this, heap
    {
      b in bigs && b in heap.next && heap.next[b] == p
    }

    ghost predicate Supplied(size: nat, slob: Supply, big: Supply)
      reads this, heap
    {
      && (slob.Page? ==>
            && GoodPage(heap.arena, slob.addr) && slob.addr !in heap.pages
            && PageApart(heap.units, heap.next, bigs, slob.addr))
      && (big.Page? ==> forall order: nat | RecordsOrder(size, order) ::
            && RunApart(heap.arena, heap.pages, heap.units, heap.next, bigs, big.addr, order)
            && (slob.Page? ==>
                  RunApart(heap.arena, heap.pages + {slob.addr}, heap.units, heap.next, bigs, big.addr, order)))
    }

    /** __kmalloc below the page limit: one unit of header, the pointer is behind it. */
    method KmallocSmall(size: nat, slob: Supply, ghost big: Supply)
      returns (r: Outcome, asked: nat, ghost s: nat, ghost k: nat)
      requires Valid() && 0 < size < 4080 && Supplied(size, slob, big)
      modifies heap
      ensures Valid() && bigs == old(bigs)
      ensures r.Panic? <==> 4064 <= size
      ensures asked == if !r.Panic? && NoneFits(old(heap.blocks), Units(size + 16)) then 1 else 0
      ensures r.Null? <==> asked == 1 && slob.NoPage?
      ensures !r.At? ==> heap.live == old(heap.live) && heap.blocks == old(heap.blocks) && heap.pages == old(heap.pages)
      ensures r.At? ==>
                r.addr - 1 !in old(heap.live) && heap.live == old(heap.live)[r.addr - 1 := Units(size + 16)]
      ensures r.At? ==> IsSmall(r.addr) && (heap.live[r.addr - 1] - 1) * 16 >= size
      ensures r.At? && asked == 0 ==>
                CutFrom(old(heap.blocks), old(heap.rover), Units(size + 16), s, r.addr - 1,
                        heap.blocks, heap.slobfree)
      ensures r.At? && asked == 1 ==>
                GrownCut(old(heap.blocks), k, slob.addr, Units(size + 16), s, r.addr - 1,
                         heap.blocks, heap.slobfree)
    {
      hide BigsOk, HeadersOk, Chain, RunApart, PageApart, CutFrom, GrownCut, NoneFits, SameHeaders;
      hide Canonical, Linked, Sized, Tiled, HasArena;
      RoomForRequest(size);
      r, asked, s, k := heap.SlobAlloc(size + SLOB_UNIT, slob);
      if r.At? {
        var m := r.addr;
        SmallAdded(heap.arena, old(heap.pages), old(heap.units), old(heap.next), old(heap.live), bigs,
                   heap.pages, heap.units, heap.next, m, Units(size + SLOB_UNIT));
        r := At(m + 1);
      } else {
        SmallAddedNone(heap.arena, heap.pages, old(heap.units), old(heap.next), heap.live, bigs, heap.units, heap.next);
      }
    }

    lemma HeapFacts()
      requires heap.Valid()
      ensures Canonical(heap.blocks) && forall a :: a in heap.live ==> a in heap.units
    {
    }

    /** __kmalloc from the page limit on: a record from the SLOB heap, whole pages for the caller. */
    method KmallocBig(size: nat, slob: Supply, big: Supply)
      returns (r: Outcome, asked: nat, ghost s: nat, ghost bb: int, ghost k: nat)
      requires Valid() && size >= 4080 && Supplied(size, slob, big)
      modifies this, heap
      ensures Valid() && !r.Panic?
      ensures asked == if NoneFits(old(heap.blocks), 2) then 1 else 0
      ensures r.Null? <==> big.NoPage? || (asked == 1 && slob.NoPage?)
      ensures r.Null? ==> heap.live == old(heap.live) && bigs == old(bigs)
      ensures r.Null? && asked == 0 ==> heap.blocks == old(heap.blocks)
      ensures r.At? ==> big.Page? && r.addr == big.addr && bb !in old(heap.live) && heap.live == old(heap.live)[bb := 2]
      ensures r.At? ==> bigs == [bb] + old(bigs) && IsBig(r.addr, bb)
      ensures r.At? ==> bb in heap.units && heap.units[bb] >= 0 && RecordsOrder(size, heap.units[bb])
      ensures r.At? && asked == 0 ==>
                CutFrom(old(heap.blocks), old(heap.rover), 2, s, bb, heap.blocks, heap.slobfree)
      ensures r.At? && asked == 1 ==>
                GrownCut(old(heap.blocks), k, slob.addr, 2, s, bb, heap.blocks, heap.slobfree)
    {
      hide BigsOk, HeadersOk, Chain, RunApart, PageApart, CutFrom, GrownCut, NoneFits, SameHeaders;
      hide Canonical, Gap, Give, SlobHeap.Valid, IsOrder, ToInt;
      HeapFacts();
      r, asked, s, k := heap.SlobAlloc(BIGBLOCK_SIZE, slob);
      if !r.At? {
        bb := 0;
        SmallAddedNone(heap.arena, heap.pages, old(heap.units), old(heap.next), heap.live, bigs, heap.units, heap.next);
        return;
      }
      HeapFacts();
      bb := r.addr;
      var b := r.addr;
      SmallAdded(heap.arena, old(heap.pages), old(heap.units), old(heap.next), old(heap.live), bigs,
                 heap.pages, heap.units, heap.next, b, 2);
      var order := FindOrder(ToInt(size));
      if big.Page? {
        BigsAreOk(heap.arena, old(heap.pages), old(heap.units), old(heap.next), old(heap.live), bigs);
        RunApartKept(heap.arena, heap.pages, old(heap.units), old(heap.next), old(heap.live), bigs,
                     heap.units, heap.next, big.addr, order);
        Remember(b, order, big.addr);
        r := At(big.addr);
      } else {
        ghost var blocks1, f := heap.blocks, heap.slobfree;
        ghost var j := GiveBack(b, order);
        if asked == 0 {
          CutRestored(old(heap.blocks), old(heap.rover), Units(BIGBLOCK_SIZE), s, b, blocks1, f, j);
        }
        r := Null;
      }
    }

    /** kmalloc.  The sizes from 4064 to 4079 take the small path and fail the assertion
        there; every other size is answered by a pointer or, when a page request fails, by null. */
    method Kmalloc(size: nat, slob: Supply, big: Supply)
      returns (r: Outcome, asked: nat, ghost s: nat, ghost b: int, ghost k: nat)
      requires Valid() && size > 0 && Supplied(size, slob, big)
      modifies this, heap
      ensures Valid()
      ensures r.Panic? <==> 4064 <= size < 4080
      ensures asked <= 1
      ensures r.Null? <==> (asked == 1 && slob.NoPage?) || (size >= 4080 && big.NoPage?)
      ensures !r.At? ==> heap.live == old(heap.live) && bigs == old(bigs)
      ensures !r.At? && asked == 0 ==> heap.blocks == old(heap.blocks)
      ensures r.At? ==> b !in old(heap.live) && heap.live == old(heap.live)[b := BlockUnits(size)]
      ensures r.At? ==> if size < 4080 then b == r.addr - 1 && IsSmall(r.addr) && bigs == old(bigs)
                        else IsBig(r.addr, b) && bigs == [b] + old(bigs)
      ensures r.At? && size < 4080 ==> (heap.live[b] - 1) * 16 >= size
      ensures r.At? && asked == 0 ==>
                CutFrom(old(heap.blocks), old(heap.rover), BlockUnits(size), s, b, heap.blocks, heap.slobfree)
      ensures r.At? && asked == 1 ==>
                GrownCut(old(heap.blocks), k, slob.addr, BlockUnits(size), s, b, heap.blocks, heap.slobfree)
    {
      hide BigsOk, HeadersOk, Chain, RunApart, PageApart, CutFrom, GrownCut, Canonical, Linked, Sized, Tiled;
      hide HasArena, NoneFits;
      if size < PAGE_SIZE - SLOB_UNIT {
        r, asked, s, k := KmallocSmall(size, slob, big);
        b := if r.At? then r.addr - 1 else 0;
      } else {
        r, asked, s, b, k := KmallocBig(size, slob, big);
      }
    }

    /** kfree.  `order` tells how many pages went back to the page allocator: none if negative. */
    method Kfree(p: int) returns (order: int, ghost b: int, ghost k: nat)
      requires Valid()
      requires p == NULL || IsSmall(p) || exists c :: IsBig(p, c)
      modifies this, heap
      ensures Valid()
      ensures p == NULL ==> heap.live == old(heap.live) && bigs == old(bigs) && heap.blocks == old(heap.blocks)
      ensures p != NULL ==> b in old(heap.live) && heap.live == old(heap.live) - {b}
      ensures p != NULL ==> Gap(old(heap.blocks), k, b, old(heap.live)[b])
      ensures p != NULL ==> heap.blocks == Give(old(heap.blocks), k, b, old(heap.live)[b])
      ensures p != NULL && old(IsSmall(p)) ==> b == p - 1 && order < 0 && bigs == old(bigs)
      ensures forall c :: old(IsBig(p, c)) ==> b == c && c in old(heap.units) && order == old(heap.units)[c]
      ensures forall i :: 0 <= i < |old(bigs)| && old(IsBig(p, bigs[i])) ==> bigs == Lists.Remove(old(bigs), i)
    {
      hide BigsOk, HeadersOk, Chain, Canonical, Linked, Sized, Tiled, HasArena, Gap, Give, SameHeaders;
      order, b, k := -1, 0, 0;
      BigPointers(heap.arena, heap.pages, heap.units, heap.next, heap.live, bigs);
      if IsSmall(p) {
        SmallIsNotBig(heap.arena, heap.pages, heap.units, heap.next, heap.blocks, heap.live, bigs, p);
      }
      if p == NULL {
        return;
      }
      ghost var c := 0;
      if !IsSmall(p) {
        c :| IsBig(p, c);
      }
      ghost var i := |bigs|;
      if p % PAGE_UNITS == 0 {
        var bb, last;
        bb, last, i := FindBig(p);
        if bb != NULL {
          order := heap.units[bb];
          b := bb;
          OnlyRecord(heap.next, bigs, p, i);
          k := FreeBig(bb, last, i);
          return;
        }
      }
      assert !IsBig(p, c);
      b := p - 1;
      k := FreeSmall(p - 1);
    }

    /** kfree's walk along the bigblock list. */
    method FindBig(p: int) returns (bb: int, last: int, ghost i: nat)
      requires Valid()
      ensures i <= |bigs| && bb == (if i < |bigs| then bigs[i] else NULL)
      ensures last == (if i > 0 then bigs[i - 1] else NULL)
      ensures bb == NULL <==> i == |bigs|
      ensures bb != NULL ==> IsBig(p, bb)
      ensures bb == NULL ==> forall c :: !IsBig(p, c)
    {
      hide HeadersOk, BigsOk, Chain, SlobHeap.Valid;
      BigsAreOk(heap.arena, heap.pages, heap.units, heap.next, heap.live, bigs);
      bb, last, i := bigblocks, NULL, 0;
      ChainHead(bigNext, bigblocks, bigs);
      while bb != NULL
        invariant i <= |bigs| && bb == (if i < |bigs| then bigs[i] else NULL)
        invariant last == (if i > 0 then bigs[i - 1] else NULL)
        invariant bb == NULL <==> i == |bigs|
        invariant forall j :: 0 <= j < i ==> !IsBig(p, bigs[j])
        decreases |bigs| - i
      {
        ChainAt(bigNext, bigblocks, bigs, i);
        assert BigOk(heap.units, heap.next, heap.live, bigs[i]);
        if heap.next[bb] == p {
          return;
        }
        last, bb, i := bb, bigNext[bb], i + 1;
        if i < |bigs| {
          ChainAt(bigNext, bigblocks, bigs, i);
        }
      }
    }

    /** Unlink a record, give its pages back, and free the record itself. */
    method FreeBig(bb: int, last: int, ghost i: nat) returns (ghost k: nat)
      requires Valid() && i < |bigs| && bb == bigs[i] && last == (if i > 0 then bigs[i - 1] else NULL)
      modifies this, heap
      ensures Valid() && bb in old(heap.live) && heap.live == old(heap.live) - {bb}
      ensures Gap(old(heap.blocks), k, bb, old(heap.live)[bb])
      ensures heap.blocks == Give(old(heap.blocks), k, bb, old(heap.live)[bb])
      ensures bigs == Lists.Remove(old(bigs), i)
    {
      hide BigsOk, HeadersOk, Chain, Gap, Give, SameHeaders, SlobHeap.Valid, Lists.Distinct;
      BigsAreOk(heap.arena, heap.pages, heap.units, heap.next, heap.live, bigs);
      assert BigOk(heap.units, heap.next, heap.live, bigs[i]);
      ghost var rest := Lists.Remove(bigs, i);
      RestOfBigs(bigs, i);
      ChainUnlink(bigNext, bigblocks, bigs, i);
      ChainAt(bigNext, bigblocks, bigs, i);
      if i > 0 { ChainAt(bigNext, bigblocks, bigs, i - 1); }
      assert i == 0 ==> rest == bigs[1..] && bb == bigs[0];
      if last == NULL {
        bigblocks := bigNext[bb];
      } else {
        bigNext := bigNext[last := bigNext[bb]];
      }
      ghost var units0, next0, live0, bigs0 := heap.units, heap.next, heap.live, bigs;
      bigs := rest;
      k := heap.SlobFree(bb, BIGBLOCK_SIZE);
      SmallRemoved(heap.arena, heap.pages, units0, next0, live0, bigs0, heap.units, heap.next, bb, rest);
    }

    method FreeSmall(b: int) returns (ghost k: nat)
      requires Valid() && b in heap.live && b !in bigs
      modifies heap
      ensures Valid() && heap.live == old(heap.live) - {b}
      ensures Gap(old(heap.blocks), k, b, old(heap.live)[b])
      ensures heap.blocks == Give(old(heap.blocks), k, b, old(heap.live)[b])
    {
      hide BigsOk, HeadersOk, Chain, SlobHeap.Valid, Gap, Give, SameHeaders, Lists.Distinct;
      BigsAreOk(heap.arena, heap.pages, heap.units, heap.next, heap.live, bigs);
      HeaderAt(heap.units, heap.live, bigs, b);
      ghost var units0, next0, live0 := heap.units, heap.next, heap.live;
      k := heap.SlobFree(b, 0);
      SmallRemoved(heap.arena, heap.pages, units0, next0, live0, bigs, heap.units, heap.next, b, bigs);
    }

    /** Allocating without growth and freeing again restores the free list, the live
        blocks and the bigblock records exactly. */
    method KmallocThenKfree(size: nat, slob: Supply, big: Supply) returns (r: Outcome, asked: nat)
      requires Valid() && size > 0 && Supplied(size, slob, big)
      modifies this, heap
      ensures Valid() && heap.live == old(heap.live) && bigs == old(bigs)
      ensures asked == 0 ==> heap.blocks == old(heap.blocks)
      ensures asked == 0 && (size < 4064 || (size >= 4080 && big.Page?)) ==> r.At?
    {
      hide BigsOk, HeadersOk, Chain, RunApart, PageApart, CutFrom, GrownCut, Canonical, Linked, Sized, Tiled;
      hide HasArena, NoneFits, Gap, Give;
      ghost var bs, r0 := heap.blocks, heap.rover;
      BigPointers(heap.arena, heap.pages, heap.units, heap.next, heap.live, bigs);
      ghost var s, b, g;
      r, asked, s, b, g := Kmalloc(size, slob, big);
      if r.At? {
        ghost var cut, f := heap.blocks, heap.slobfree;
        NotNull(heap.arena, heap.pages, heap.units, heap.next, heap.blocks, heap.live, bigs);
        var order;
        ghost var c, k;
        order, c, k := Kfree(r.addr);
        assert c == b;
        assert heap.live == old(heap.live);
        if asked == 0 {
          CutRestored(bs, r0, BlockUnits(size), s, b, cut, f, k);
        }
      }
    }

    /** Fill in the record at `b` and put it first on the bigblock list. */
    method Remember(b: int, order: nat, p: int)
      requires Valid() && b in heap.live && heap.live[b] == 2 && b !in bigs
      requires RunApart(heap.arena, heap.pages, heap.units, heap.next, bigs, p, order)
      modifies this, heap`next, heap`units
      ensures Valid() && bigs == [b] + old(bigs)
      ensures heap.units == old(heap.units)[b := order] && heap.next == old(heap.next)[b := p]
    {
      hide BigsOk, HeadersOk, Chain, RunApart, Canonical, Linked, Sized, Tiled, HasArena;
      LiveIsPositive(heap.arena, heap.pages, heap.blocks, heap.live, b);
      BigAdded(heap.arena, heap.pages, heap.units, heap.next, heap.live, bigs, b, order, p);
      HeadersBut(heap.units, heap.live, bigs, b, order);
      ChainFrame(bigNext, bigblocks, bigs, b, bigblocks);
      heap.Store(b, order, p);
      bigNext := bigNext[b := bigblocks];
      ChainCons(bigNext, bigblocks, bigs, b);
      bigblocks := b;
      bigs := [b] + bigs;
    }

    /** The record block of a failed request, its order already stored, goes back to the SLOB heap. */
    method GiveBack(b: int, order: int) returns (ghost k: nat)
      requires Valid() && b !in bigs && b in heap.live && heap.live[b] == 2
      modifies heap
      ensures Valid() && heap.live == old(heap.live) - {b} && heap.pages == old(heap.pages)
      ensures Gap(old(heap.blocks), k, b, 2) && heap.blocks == Give(old(heap.blocks), k, b, 2)
    {
      hide BigsOk, HeadersOk, Chain, SameHeaders, SlobHeap.Valid, Gap, Give;
      BigsAside(heap.arena, heap.pages, heap.units, heap.next, heap.live, bigs, b, order, NULL);
      heap.Store(b, order, NULL);
      ghost var units0, next0 := heap.units, heap.next;
      k := heap.SlobFree(b, BIGBLOCK_SIZE);
      BigAsideRemoved(heap.arena, heap.pages, units0, next0, old(heap.live), bigs, heap.units, heap.next, b);
    }
  }

  lemma SmallAddedNone(arena: int, pages: set<int>, units: map<int, int>, next: map<int, int>, live: map<int, nat>,
                       bigs: seq<int>,
                       units': map<int, int>, next': map<int, int>)
    requires BigsOk(arena, pages, units, next, live, bigs) && HeadersOk(units, live, bigs)
    requires SameHeaders(next, units, next', units', live)
    ensures BigsOk(arena, pages, units', next', live, bigs) && HeadersOk(units', live, bigs)
  {
    forall b | b in bigs ensures b in live && b in units && b in next {
      assert BigOk(units, next, live, b);
    }
    BigsKept(arena, pages, units, next, live, bigs, pages, units', next', live, bigs);
  }

  /** The smallest size that is small enough for the small path and too large for the heap. */
  method AssertionExample(arena: int) returns (r: Outcome)
    requires arena > 0
    ensures r == Panic
  {
    var kernel := new KernelHeap(arena);
    var asked;
    ghost var s, b, k;
    r, asked, s, b, k := kernel.Kmalloc(4064, NoPage, NoPage);
  }
}
