/** What the paging code keeps about user pages, as values: where a page's bytes are, which
    frames are resident, and what the single steps of an eviction or a reload change. */
module PageViews {
  import opened Sv39
  import opened Wrappers
  import opened PageTables
  import opened SwapDisk
  import Clocks = Replacement

  type Data = map<nat, seq<Byte>>

  /** Everything a page's bytes depend on: the tables, the frames' contents and the swap device. */
  datatype View = View(root: nat, boot: set<nat>, mem: Memory, data: Data, ide: seq<Byte>)

  predicate UserPage(boot: set<nat>, p: nat) {
    p < PAGES && User(boot, p)
  }

  /** READ_WRITE for user mode: what do_pgfault grants in a writable area. */
  const PERM: nat := PTE_U + PTE_R + PTE_W

  /** Sv39 translates 39 bits. */
  const ADDRESSES: nat := 0x80_0000_0000

  /** The number of the first page frame of RAM. */
  const NBASE: nat := 0x8_0000

  /** The rights that do_pgfault gives to a page: in an area that is not writable, none but the
      user bit. */
  function Grant(writable: bool): nat {
    if writable then PERM else PTE_U
  }

  /** Entry `e` makes its page present with those rights. */
  predicate Granted(e: nat, writable: bool) {
    Sv39.Valid(e) && Bits(e) == Grant(writable) + PTE_V
  }

  /** The bits of such an entry: valid and user, and read and write only if the area is writable. */
  lemma GrantBits(e: nat, writable: bool)
    ensures Granted(e, writable) <==>
              && e % 2 == 1 && e / 2 % 2 == e / 4 % 2 == (if writable then 1 else 0)
              && e / 8 % 2 == 0 && e / 16 % 2 == 1 && e / 32 % 32 == 0
  {
    BitsAdd(e);
  }

  /** The ten flag bits of an entry, the five lowest one by one. */
  lemma BitsAdd(e: nat)
    ensures Bits(e) == e % 2 + 2 * (e / 2 % 2) + 4 * (e / 4 % 2) + 8 * (e / 8 % 2) + 16 * (e / 16 % 2)
                       + 32 * (e / 32 % 32)
  {
    Halves(e);
    var low, h := e % 2 + 2 * (e / 2 % 2) + 4 * (e / 4 % 2) + 8 * (e / 8 % 2) + 16 * (e / 16 % 2), e / 32;
    TenBits(h / 32, low + 32 * (h % 32));
  }

  lemma Halves(e: nat)
    ensures e == e % 2 + 2 * (e / 2 % 2) + 4 * (e / 4 % 2) + 8 * (e / 8 % 2) + 16 * (e / 16 % 2) + 32 * (e / 32)
  {
    assert e / 4 == e / 2 / 2;
    assert e / 8 == e / 4 / 2;
    assert e / 16 == e / 8 / 2;
    assert e / 32 == e / 16 / 2;
  }

  function EntryOf(v: View, p: nat): nat {
    Entry(v.root, v.mem, p)
  }

  function TableOf(v: View, p: nat): Option<nat> {
    LeafTable(v.root, v.mem, p)
  }

  /** Frame `f` is mapped by the page that its `pra_vaddr` names. */
  ghost predicate Home(v: View, pra: map<int, nat>, f: int) {
    && f >= 0 && f in pra && UserPage(v.boot, Page(pra[f])) && pra[f] == Page(pra[f]) * PGSIZE
    && Sv39.Valid(EntryOf(v, Page(pra[f]))) && Ppn(EntryOf(v, Page(pra[f]))) == f
  }

  /** A present page's frame is on the swappable list and names that page; any other
      nonzero entry is the page's own swap slot. */
  ghost predicate PageOk(v: View, queue: seq<int>, pra: map<int, nat>, p: nat) {
    var e := EntryOf(v, p);
    if Sv39.Valid(e) then
      (Granted(e, true) || Granted(e, false)) && Ppn(e) in queue && Ppn(e) in pra && pra[Ppn(e)] == p * PGSIZE
    else e == 0 || (e == SwapEntry(p) && p <= 5)
  }

  /** The swappable list holds exactly the frames of the present pages, each under the one
      page that maps it. */
  ghost predicate Residency(v: View, queue: seq<int>, pra: map<int, nat>) {
    && (forall i :: 0 <= i < |queue| ==> Home(v, pra, queue[i]))
    && forall p: nat :: UserPage(v.boot, p) ==> PageOk(v, queue, pra, p)
  }

  /** The bytes of a page, wherever they are; none if it was never touched. */
  function Content(v: View, p: nat): Option<seq<Byte>> {
    var e := EntryOf(v, p);
    if Sv39.Valid(e) then (if Ppn(e) in v.data then Some(v.data[Ppn(e)]) else None)
    else if e != 0 && GoodSlot(Slot(e)) && |v.ide| == MAX_DISK_NSECS * SECTSIZE then Some(SlotData(v.ide, Slot(e)))
    else None
  }

  /** The same address space, at two moments. */
  ghost predicate SameSpace(v: View, w: View) {
    w.root == v.root && w.boot == v.boot
  }

  ghost predicate SameContents(v: View, w: View) {
    SameSpace(v, w) && forall p: nat :: UserPage(v.boot, p) ==> Content(w, p) == Content(v, p)
  }

  /** Page `q` has the entry it had, unless it was present and is not any more. */
  ghost predicate Kept(v: View, w: View, q: nat) {
    EntryOf(w, q) == EntryOf(v, q) || (Sv39.Valid(EntryOf(v, q)) && !Sv39.Valid(EntryOf(w, q)))
  }

  /** All pages but one hold the bytes they held, and none of them became present. */
  ghost predicate OtherContents(v: View, w: View, p: nat) {
    && SameSpace(v, w)
    && forall q: nat :: UserPage(v.boot, q) && q != p ==> Content(w, q) == Content(v, q) && Kept(v, w, q)
  }

  /** Every table is where it was, and the kernel's own root entries are as before. */
  ghost predicate KeepsTables(v: View, w: View) {
    && SameSpace(v, w) && SameBoot(v.root, v.boot, v.mem, w.mem)
    && forall p: nat :: UserPage(v.boot, p) && TableOf(v, p).Some? ==> TableOf(w, p) == TableOf(v, p)
  }

  /** Tables stay in their places, and no page became present. */
  ghost predicate KeepsAbsent(v: View, w: View) {
    KeepsTables(v, w) && forall p: nat :: UserPage(v.boot, p) ==> Kept(v, w, p)
  }

  /** The page of frame `f`, and no other page, is no longer present. */
  ghost predicate OneLeft(v: View, w: View, f: int) {
    forall p: nat :: UserPage(v.boot, p) ==>
      (Sv39.Valid(EntryOf(w, p)) <==> Sv39.Valid(EntryOf(v, p)) && Ppn(EntryOf(v, p)) != f)
  }

  /** Every page that was ever touched has a slot on the swap device. */
  ghost predicate TouchedFit(v: View) {
    forall p: nat :: UserPage(v.boot, p) && Content(v, p).Some? ==> p <= 5
  }

  /** Page `p` is present with the rights granted, and with the bytes it had if it was ever
      touched; the other pages' bytes and the places of all tables are as before. */
  ghost predicate Served(v: View, w: View, p: nat, writable: bool) {
    && Granted(EntryOf(w, p), writable) && Content(w, p).Some?
    && (Content(v, p).Some? ==> Content(w, p) == Content(v, p))
    && OtherContents(v, w, p) && KeepsTables(v, w)
  }

  /** The frames are those of RAM, and each holds a page of bytes. */
  ghost predicate Stored(data: Data, refs: map<nat, int>) {
    forall f :: f in refs ==> f >= NBASE && f in data && |data[f]| == PGSIZE
  }

  ghost predicate AllClear(queue: seq<int>, visited: map<int, bool>) {
    forall q :: q in queue ==> !Clocks.Vis(visited, q)
  }

  lemma NothingPresent(v: View, pra: map<int, nat>)
    requires forall p: nat :: UserPage(v.boot, p) ==> EntryOf(v, p) == 0
    ensures Residency(v, [], pra) && forall p: nat :: UserPage(v.boot, p) ==> Content(v, p) == None
  {
  }

  // -------------------------------------------------------------- evictions

  lemma SwappedEntry(p: nat)
    ensures Slot(SwapEntry(p)) == p + 1 && !Sv39.Valid(SwapEntry(p)) && SwapEntry(p) != 0
  {
    SwapEntryRoundTrip(p);
  }

  /** An eviction moves the oldest page's bytes to its slot, and nothing else. */
  lemma Evicted(v: View, w: View, queue: seq<int>, pra: map<int, nat>, f: nat, p: nat)
    requires Residency(v, queue, pra) && Clocks.Frames(queue) && queue != [] && f == queue[0]
    requires f in pra && p == Page(pra[f]) && p <= 5
    requires SameSpace(v, w) && w.data == v.data && OneEntry(v.root, v.boot, v.mem, w.mem, p, SwapEntry(p))
    requires f in v.data && |v.data[f]| == PGSIZE && |v.ide| == MAX_DISK_NSECS * SECTSIZE
    requires w.ide == Splice(v.ide, (p + 1) * PGSIZE, v.data[f])
    ensures Residency(w, queue[1..], pra) && SameContents(v, w)
  {
    assert Home(v, pra, queue[0]);
    SwappedEntry(p);
    forall i | 0 <= i < |queue| - 1 ensures Home(w, pra, queue[1..][i]) {
      assert queue[1..][i] == queue[i + 1] && Home(v, pra, queue[i + 1]);
    }
    forall q: nat | UserPage(v.boot, q) ensures PageOk(w, queue[1..], pra, q) && Content(w, q) == Content(v, q) {
      EvictedPage(v, w, queue, pra, f, p, q);
    }
  }

  lemma EvictedPage(v: View, w: View, queue: seq<int>, pra: map<int, nat>, f: nat, p: nat, q: nat)
    requires Clocks.Frames(queue) && queue != [] && f == queue[0] && UserPage(v.boot, q)
    requires PageOk(v, queue, pra, q) && Home(v, pra, f)
    requires p == Page(pra[f]) && p <= 5
    requires SameSpace(v, w) && w.data == v.data && OneEntry(v.root, v.boot, v.mem, w.mem, p, SwapEntry(p))
    requires f in v.data && |v.data[f]| == PGSIZE && |v.ide| == MAX_DISK_NSECS * SECTSIZE
    requires w.ide == Splice(v.ide, (p + 1) * PGSIZE, v.data[f])
    ensures PageOk(w, queue[1..], pra, q) && Content(w, q) == Content(v, q)
  {
    hide Splice, SwapEntry, Slot, Entry, SlotData, Clocks.Frames;
    SwappedEntry(p);
    SwappedEntry(q);
    SlotRange(p + 1);
    SlotRange(q + 1);
    if q == p {
      SlotsAreApart(v.ide, p + 1, v.data[f], p + 1);
    } else {
      var e := EntryOf(v, q);
      if Sv39.Valid(e) {
        assert Ppn(e) in queue;
        assert Ppn(e) != f ==> Ppn(e) in queue[1..];
      } else if e != 0 {
        SlotsAreApart(v.ide, p + 1, v.data[f], q + 1);
      }
    }
  }

  /** The oldest frame's page, as swap_out computes with it. */
  lemma FrontFacts(v: View, queue: seq<int>, pra: map<int, nat>)
    requires Residency(v, queue, pra) && queue != []
    ensures queue[0] >= 0 && queue[0] in pra
    ensures var p := Page(pra[queue[0]]);
            && UserPage(v.boot, p) && pra[queue[0]] / PGSIZE == p && pra[queue[0]] == p * PGSIZE
            && TableOf(v, p).Some? && Sv39.Valid(EntryOf(v, p))
            && Slot(SwapEntry(p)) == p + 1 && !Sv39.Valid(SwapEntry(p))
  {
    assert Home(v, pra, queue[0]);
    SwappedEntry(Page(pra[queue[0]]));
  }

  /** The write of a swap entry changes that page's entry only, and no table's place. */
  lemma SwapWrite(v: View, w: View, kind: Kinds, p: nat, l: nat)
    requires Tree(v.root, v.boot, v.mem, kind) && UserPage(v.boot, p) && TableOf(v, p) == Some(l)
    requires Sv39.Valid(EntryOf(v, p)) && SameSpace(v, w)
    requires l in v.mem && It(p) < |v.mem[l]| && w.mem == WithEntry(v.mem, l, It(p), SwapEntry(p))
    ensures OneEntry(v.root, v.boot, v.mem, w.mem, p, SwapEntry(p)) && KeepsAbsent(v, w)
  {
    WriteIsOne(v.root, v.boot, v.mem, kind, p, l, SwapEntry(p));
  }

  /** What the two writes of an eviction, to the slot and to the entry, achieve together. */
  lemma Eviction(v: View, w: View, kind: Kinds, queue: seq<int>, pra: map<int, nat>, f: nat, l: nat)
    requires Tree(v.root, v.boot, v.mem, kind) && Residency(v, queue, pra)
    requires Clocks.Frames(queue) && queue != [] && f == queue[0] && f in pra
    requires TableOf(v, Page(pra[f])) == Some(l) && Page(pra[f]) <= 5 && SameSpace(v, w) && w.data == v.data
    requires l in v.mem && It(Page(pra[f])) < |v.mem[l]|
    requires w.mem == WithEntry(v.mem, l, It(Page(pra[f])), SwapEntry(Page(pra[f])))
    requires f in v.data && |v.data[f]| == PGSIZE && |v.ide| == MAX_DISK_NSECS * SECTSIZE
    requires w.ide == Splice(v.ide, (Page(pra[f]) + 1) * PGSIZE, v.data[f])
    ensures Residency(w, queue[1..], pra) && SameContents(v, w) && KeepsAbsent(v, w)
    ensures Departed(w, pra, f) && OneLeft(v, w, f)
    ensures EntryOf(w, Page(pra[f])) == (Page(pra[f]) + 1) * 256
  {
    hide Residency, Tree, Splice, WithEntry, LeafTable, Entry, SameContents, SwapEntry, Page, It, OneLeft;
    FrontFacts(v, queue, pra);
    var p := Page(pra[f]);
    SwapWrite(v, w, kind, p, l);
    Evicted(v, w, queue, pra, f, p);
    OwnerLeaves(v, w, queue, pra, f, p);
    SwapEntryRoundTrip(p);
  }

  /** Only one page has the oldest frame. */
  lemma OwnerLeaves(v: View, w: View, queue: seq<int>, pra: map<int, nat>, f: nat, p: nat)
    requires Residency(v, queue, pra) && queue != [] && f == queue[0] && f in pra && p == Page(pra[f])
    requires SameSpace(v, w) && OneEntry(v.root, v.boot, v.mem, w.mem, p, SwapEntry(p))
    ensures OneLeft(v, w, f)
  {
    SwappedEntry(p);
    assert Home(v, pra, queue[0]);
    forall q: nat | UserPage(v.boot, q)
      ensures Sv39.Valid(EntryOf(w, q)) <==> Sv39.Valid(EntryOf(v, q)) && Ppn(EntryOf(v, q)) != f
    {
      assert PageOk(v, queue, pra, q);
      PageOfStart(q);
    }
  }

  lemma LeftAt(v: View, w: View, f: int, p: nat)
    requires OneLeft(v, w, f) && UserPage(v.boot, p)
    ensures Sv39.Valid(EntryOf(w, p)) <==> Sv39.Valid(EntryOf(v, p)) && Ppn(EntryOf(v, p)) != f
  {
  }

  /** Frame `f` still names the page that was last mapped to it, and that page is absent. */
  ghost predicate Departed(v: View, pra: map<int, nat>, f: int) {
    && f in pra && UserPage(v.boot, Page(pra[f]))
    && TableOf(v, Page(pra[f])).Some? && !Sv39.Valid(EntryOf(v, Page(pra[f])))
  }

  // ---------------------------------------------------------------- reloads

  /** Mapping a frame that no page uses makes one absent page present. */
  lemma Loaded(v: View, w: View, queue: seq<int>, pra: map<int, nat>, f: nat, p: nat, writable: bool)
    requires Residency(v, queue, pra) && UserPage(v.boot, p) && !Sv39.Valid(EntryOf(v, p))
    requires SameSpace(v, w) && w.data == v.data && w.ide == v.ide && f !in queue && f in v.data
    requires OneEntry(v.root, v.boot, v.mem, w.mem, p, PteCreate(f, Grant(writable)))
    ensures Residency(w, queue + [f], pra[f := p * PGSIZE])
    ensures Content(w, p) == Some(v.data[f]) && Granted(EntryOf(w, p), writable)
    ensures OtherContents(v, w, p) && KeepsTables(v, w)
  {
    var queue', pra' := queue + [f], pra[f := p * PGSIZE];
    PageOfStart(p);
    PteRoundTrip(f, Grant(writable));
    forall i | 0 <= i < |queue'| ensures Home(w, pra', queue'[i]) {
      if i < |queue| {
        assert queue'[i] == queue[i] && Home(v, pra, queue[i]);
      }
    }
    forall q: nat | UserPage(v.boot, q) ensures PageOk(w, queue', pra', q) {
      assert PageOk(v, queue, pra, q);
    }
  }

  lemma PageOfStart(p: nat)
    requires p < PAGES
    ensures Page(p * PGSIZE) == p
  {
  }

  lemma PageStart(addr: nat)
    requires addr < ADDRESSES
    ensures Page(addr / PGSIZE * PGSIZE) == Page(addr) && Page(addr) * PGSIZE == addr / PGSIZE * PGSIZE
    ensures PGOFF(addr) < PGSIZE
  {
  }

  /** Writing to a frame that is not on the list changes no page. */
  lemma FrameWrite(v: View, queue: seq<int>, pra: map<int, nat>, f: nat, d: seq<Byte>)
    requires Residency(v, queue, pra) && f !in queue
    ensures SameContents(v, v.(data := v.data[f := d])) && Residency(v.(data := v.data[f := d]), queue, pra)
  {
    var w := v.(data := v.data[f := d]);
    forall i | 0 <= i < |queue| ensures Home(w, pra, queue[i]) {
      assert Home(v, pra, queue[i]);
    }
    forall p: nat | UserPage(v.boot, p) ensures PageOk(w, queue, pra, p) && Content(w, p) == Content(v, p) {
      assert PageOk(v, queue, pra, p);
    }
  }

  /** No two pages share a frame, so writing a present page's frame changes no other page. */
  lemma FramesAreApart(v: View, queue: seq<int>, pra: map<int, nat>, p: nat, d: seq<Byte>)
    requires Residency(v, queue, pra) && UserPage(v.boot, p) && Sv39.Valid(EntryOf(v, p))
    ensures var w := v.(data := v.data[Ppn(EntryOf(v, p)) := d]);
            OtherContents(v, w, p) && Content(w, p) == Some(d) && Residency(w, queue, pra)
  {
    var w := v.(data := v.data[Ppn(EntryOf(v, p)) := d]);
    assert PageOk(v, queue, pra, p);
    forall i | 0 <= i < |queue| ensures Home(w, pra, queue[i]) {
      assert Home(v, pra, queue[i]);
    }
    forall q: nat | UserPage(v.boot, q)
      ensures PageOk(w, queue, pra, q)
      ensures q != p && Sv39.Valid(EntryOf(v, q)) ==> Ppn(EntryOf(v, q)) != Ppn(EntryOf(v, p))
    {
      assert PageOk(v, queue, pra, q);
    }
  }

  /** The entry of a present page, read as a swap entry, names a slot far beyond the device. */
  lemma FrameIsNoSlot(e: nat)
    requires Sv39.Valid(e) && Ppn(e) >= NBASE
    ensures !GoodSlot(Slot(e))
  {
  }

  /** An entry that is neither zero nor valid is the page's swap entry, and its slot exists. */
  lemma SlotContent(v: View, queue: seq<int>, pra: map<int, nat>, p: nat)
    requires Residency(v, queue, pra) && UserPage(v.boot, p) && |v.ide| == MAX_DISK_NSECS * SECTSIZE
    requires !Sv39.Valid(EntryOf(v, p)) && EntryOf(v, p) != 0
    ensures GoodSlot(Slot(EntryOf(v, p))) && Slot(EntryOf(v, p)) < MAX_SWAP_OFFSET
    ensures Content(v, p) == Some(SlotData(v.ide, Slot(EntryOf(v, p))))
  {
    assert PageOk(v, queue, pra, p);
    SwappedEntry(p);
  }

  /** An empty entry means that the page was never touched. */
  lemma EmptyEntry(v: View, p: nat)
    ensures EntryOf(v, p) == 0 ==> Content(v, p) == None
  {
  }

  // ------------------------------------------------------------- new tables

  /** Tables that were added without changing an entry show in no page. */
  lemma TableAdded(v: View, w: View, queue: seq<int>, pra: map<int, nat>)
    requires Residency(v, queue, pra) && SameSpace(v, w) && w.data == v.data && w.ide == v.ide
    requires SameEntries(v.root, v.boot, v.mem, w.mem)
    ensures Residency(w, queue, pra) && SameContents(v, w)
  {
    forall i | 0 <= i < |queue| ensures Home(w, pra, queue[i]) {
      assert Home(v, pra, queue[i]);
    }
    forall p: nat | UserPage(v.boot, p) ensures PageOk(w, queue, pra, p) {
      assert PageOk(v, queue, pra, p);
    }
  }

  lemma SameKeepsAbsent(v: View, w: View)
    requires SameSpace(v, w) && SameEntries(v.root, v.boot, v.mem, w.mem)
    ensures KeepsAbsent(v, w)
  {
  }

  lemma DepartedStays(v: View, w: View, pra: map<int, nat>, f: int)
    requires Departed(v, pra, f) && KeepsAbsent(v, w)
    ensures Departed(w, pra, f)
  {
  }

  lemma TableIsThere(v: View, p: nat)
    ensures TableOf(v, p).Some? <==> Missing(v.root, v.mem, p) == 0
  {
  }

  // --------------------------------------------------------- frames and sites

  /** The page with the given indices. */
  lemma PageWithIndices(i1: nat, i0: nat, t: nat) returns (p: nat)
    requires i1 < 512 && i0 < 512 && t < 512
    ensures p < PAGES && I1(p) == i1 && I0(p) == i0 && It(p) == t
  {
    p := i1 * 0x4_0000 + i0 * 512 + t;
    assert p / 512 == i1 * 512 + i0 && p / 0x4_0000 == i1;
  }

  /** Every page-table entry belongs to some user page. */
  lemma SiteHasPage(v: View, kind: Kinds, l: nat, t: nat) returns (p: nat)
    requires Tree(v.root, v.boot, v.mem, kind) && l in kind && kind[l].Leaf? && t < NPTEENTRY
    ensures UserPage(v.boot, p) && It(p) == t && TableOf(v, p) == Some(l)
    ensures l in v.mem && t < |v.mem[l]| && EntryOf(v, p) == v.mem[l][t]
  {
    assert UpOk(v.root, v.boot, v.mem, kind, l);
    var i1, i0 := kind[l].i1, kind[l].i0;
    var m :| m in kind && kind[m] == Mid(i1) && PointsTo(v.mem, m, i0, l);
    assert UpOk(v.root, v.boot, v.mem, kind, m);
    p := PageWithIndices(i1, i0, t);
  }

  /** A resident frame is mapped by exactly one entry of the tables. */
  lemma ResidentSites(v: View, kind: Kinds, queue: seq<int>, pra: map<int, nat>, f: nat, l: nat)
    requires Tree(v.root, v.boot, v.mem, kind) && Residency(v, queue, pra) && f in queue
    requires f in pra && TableOf(v, Page(pra[f])) == Some(l)
    ensures Sites(v.mem, kind, f) == {(l, It(Page(pra[f])))} && Home(v, pra, f)
    ensures l in kind && kind[l].Leaf?
  {
    var p := Page(pra[f]);
    var k :| 0 <= k < |queue| && queue[k] == f;
    assert Home(v, pra, queue[k]);
    WalkKinds(v.root, v.boot, v.mem, kind, p);
    assert Maps(v.mem, kind, l, It(p), f);
    forall x: nat, y: nat | Maps(v.mem, kind, x, y, f) ensures x == l && y == It(p) {
      var q := SiteHasPage(v, kind, x, y);
      assert PageOk(v, queue, pra, q);
    }
  }

  /** A frame that no entry maps is not on the list. */
  lemma UnmappedIsUnlisted(v: View, kind: Kinds, queue: seq<int>, pra: map<int, nat>, f: nat)
    requires Tree(v.root, v.boot, v.mem, kind) && Residency(v, queue, pra) && Sites(v.mem, kind, f) == {}
    ensures f !in queue
  {
    if f in queue {
      var i :| 0 <= i < |queue| && queue[i] == f;
      assert Home(v, pra, queue[i]);
      ResidentSites(v, kind, queue, pra, f, TableOf(v, Page(pra[f])).value);
    }
  }

  lemma ResidentIsData(mem: Memory, kind: Kinds, refs: map<nat, int>, free: set<nat>, f: nat, l: nat, t: nat)
    requires Counted(mem, kind, refs, free) && Sites(mem, kind, f) == {(l, t)}
    ensures f in refs && f !in kind && f !in free && refs[f] == 1
    ensures l in mem && t < NPTEENTRY && t < |mem[l]| && Sv39.Valid(mem[l][t])
  {
    assert (l, t) in Sites(mem, kind, f);
    assert Maps(mem, kind, l, t, f);
  }

  /** A present page's bytes are in the frame that its entry names. */
  lemma AlreadyPresent(v: View, kind: Kinds, refs: map<nat, int>, free: set<nat>, p: nat)
    requires Tree(v.root, v.boot, v.mem, kind) && Counted(v.mem, kind, refs, free)
    requires UserPage(v.boot, p) && Stored(v.data, refs)
    ensures forall writable :: Granted(EntryOf(v, p), writable) ==> Served(v, v, p, writable)
    ensures Sv39.Valid(EntryOf(v, p)) ==>
              var f := Ppn(EntryOf(v, p));
              f in v.data && |v.data[f]| == PGSIZE && Content(v, p) == Some(v.data[f])
  {
    if Sv39.Valid(EntryOf(v, p)) {
      WalkEnd(v.root, v.boot, v.mem, kind, refs, free, p, TableOf(v, p).value);
    }
  }

  // --------------------------------------------------------------- sequences

  lemma Unchanged(v: View)
    ensures SameContents(v, v) && KeepsAbsent(v, v)
  {
  }

  lemma SameTwice(v: View, w: View, x: View)
    requires SameContents(v, w) && SameContents(w, x)
    ensures SameContents(v, x)
  {
    hide Content;
  }

  lemma AbsentTwice(v: View, w: View, x: View)
    requires KeepsAbsent(v, w) && KeepsAbsent(w, x)
    ensures KeepsAbsent(v, x)
  {
  }

  lemma SameAt(v: View, w: View, p: nat)
    requires SameContents(v, w) && UserPage(v.boot, p)
    ensures Content(w, p) == Content(v, p)
  {
    hide Content;
  }

  lemma Absent(v: View, w: View, p: nat)
    requires KeepsAbsent(v, w) && UserPage(v.boot, p)
    ensures TableOf(v, p).Some? ==> TableOf(w, p) == TableOf(v, p)
    ensures Kept(v, w, p)
  {
  }

  /** An eviction or a new table, followed by the filling of page `p`. */
  lemma Composed(v: View, w: View, x: View, p: nat)
    requires SameContents(v, w) && KeepsAbsent(v, w) && UserPage(v.boot, p)
    requires OtherContents(w, x, p) && KeepsTables(w, x)
    ensures OtherContents(v, x, p) && KeepsTables(v, x) && Content(w, p) == Content(v, p)
  {
    hide Content;
  }

  lemma AbsentTables(v: View, w: View)
    requires KeepsAbsent(v, w)
    ensures KeepsTables(v, w)
  {
  }

  /** The frames' contents do not show in the tables. */
  lemma DataShowsNot(v: View, w: View, x: View)
    requires KeepsAbsent(v, w) && SameSpace(w, x) && x.mem == w.mem
    ensures KeepsAbsent(v, x)
  {
  }

  lemma DepartedData(v: View, pra: map<int, nat>, f: int, data: Data)
    ensures Departed(v.(data := data), pra, f) == Departed(v, pra, f)
  {
  }

  lemma OthersTwice(v: View, w: View, x: View, p: nat)
    requires OtherContents(v, w, p) && OtherContents(w, x, p)
    ensures OtherContents(v, x, p)
  {
    hide Content;
  }

  lemma StoredPage(data: Data, refs: map<nat, int>, f: nat)
    requires Stored(data, refs) && f in refs
    ensures f in data && |data[f]| == PGSIZE && f >= NBASE
  {
  }

  lemma StoredStays(data: Data, refs: map<nat, int>, refs0: map<nat, int>)
    requires Stored(data, refs0) && refs.Keys == refs0.Keys
    ensures Stored(data, refs)
  {
  }

  lemma StoredWrite(data: Data, refs: map<nat, int>, f: nat, bytes: seq<Byte>)
    requires Stored(data, refs) && |bytes| == PGSIZE
    ensures Stored(data[f := bytes], refs)
  {
  }

  // -------------------------------------------------------- the clock's shape

  lemma OldestEvicted(queue: seq<int>, visited: map<int, bool>, h: nat,
                      victim: int, queue': seq<int>, visited': map<int, bool>, inspected: nat)
    requires Clocks.Frames(queue) && Clocks.FifoShape(queue, visited, h)
    requires Clocks.Evicts(queue, visited, h, victim, queue', visited', inspected)
    ensures queue != [] && victim == queue[0] && queue' == queue[1..] && AllClear(queue', visited')
  {
    Clocks.ShapeEvictsOldest(queue, visited, h, victim, queue', visited', inspected);
  }

  /** A frame put at the back leaves the list in first-in first-out shape, wherever the hand is. */
  lemma ShapeAtBack(queue: seq<int>, visited: map<int, bool>, h: nat, hand: int, f: int)
    requires f !in queue && f >= 0
    requires if hand == f then AllClear(queue, visited)
             else Clocks.FifoShape(queue, visited, h) && (if hand == Clocks.HEAD then h == 0 else h < |queue|)
    ensures Clocks.FifoShape(queue + [f], visited[f := true], if hand == f then |queue| else h)
  {
    if hand == f {
      assert forall j :: 0 <= j < |queue| ==> queue[j] in queue;
    } else {
      Clocks.ShapeMapped(queue, visited, h, f);
    }
  }
}
