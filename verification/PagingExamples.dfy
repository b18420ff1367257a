/** Short runs in which a page fault ends in a panic or never grants the access. */
module PagingExamples {
  import opened Sv39
  import opened Wrappers
  import opened PageTables
  import opened SwapDisk
  import opened PageViews
  import opened Paging
  import Clocks = Replacement
  import Areas = VmaList

  function BlankPage(): (d: seq<Byte>)
    ensures |d| == PGSIZE
  {
    seq(PGSIZE, i => 0)
  }

  /** The frames beside the root's: three, or with a spare one four. */
  function Pooled(spare: bool): (s: set<nat>)
    ensures |s| == if spare then 4 else 3
  {
    var three := {NBASE + 1, NBASE + 2, NBASE + 3};
    if spare then three + {NBASE + 4} else three
  }

  /** What the kernel starts with: a pool of frames, and one area. */
  datatype Setup = Setup(spare: bool, start: nat, end: nat, writable: bool)

  ghost predicate OneArea(list: seq<int>, vmas: map<int, Areas.Vma>, s: Setup) {
    list == [0] && 0 in vmas && vmas[0] == Areas.Vma(s.start, s.end, s.writable)
  }

  /** Nothing present yet, a root table, free frames, and the area. */
  ghost predicate Starting(vm: Vm, s: Setup)
    reads vm, vm.space, vm.clock, vm.clock.links, vm.mm, vm.mm.links, vm.disk, vm.disk.ide
  {
    && vm.Valid() && vm.space.boot == {} && vm.space.refs.Keys == {NBASE} + Pooled(s.spare)
    && vm.space.free == Pooled(s.spare) && vm.clock.queue == [] && OneArea(vm.mm.list, vm.mm.vmas, s)
    && forall p: nat :: EntryOf(vm.Now(), p) == 0 && Missing(vm.space.root, vm.space.mem, p) == 2
  }

  method MakeArea(s: Setup) returns (mm: Areas.MmStruct)
    requires s.start < s.end
    ensures mm.Valid() && OneArea(mm.list, mm.vmas, s) && fresh(mm) && fresh(mm.links)
  {
    mm := new Areas.MmStruct();
    var vma := mm.CreateVma(0, Areas.Vma(s.start, s.end, s.writable));
    var ok;
    ghost var k;
    ok, k := mm.InsertVma(vma);
    assert mm.list == [0];
  }

  method Start(s: Setup) returns (vm: Vm)
    requires s.start < s.end
    ensures Starting(vm, s)
    ensures fresh(vm) && fresh(vm.space) && fresh(vm.clock) && fresh(vm.clock.links)
    ensures fresh(vm.mm) && fresh(vm.disk) && fresh(vm.disk.ide)
  {
    hide OneArea, Pooled, Entry, Missing, Content, Vm.Valid, AddressSpace.Valid, Areas.MmStruct.Valid;
    assert NBASE !in Pooled(s.spare) by { RootIsNotPooled(s.spare); }
    var mm := MakeArea(s);
    var space := new AddressSpace(NBASE, {}, Pooled(s.spare));
    var blank := BlankPage();
    var data: Data := map f | f in Pooled(s.spare) + {NBASE} :: blank;
    assert Stored(data, space.refs) by { FramesAreRam(s.spare); }
    vm := new Vm(space, mm, data);
  }

  lemma RootIsNotPooled(spare: bool)
    ensures NBASE !in Pooled(spare)
  {
  }

  lemma FramesAreRam(spare: bool)
    ensures forall f :: f in Pooled(spare) ==> f >= NBASE
  {
  }

  lemma InTheArea(list: seq<int>, vmas: map<int, Areas.Vma>, s: Setup, addr: nat)
    requires OneArea(list, vmas, s) && s.start <= addr < s.end
    ensures Areas.Scan(list, vmas, addr) == 0 && vmas[0].writable == s.writable
  {
  }

  /** What FirstTouch leaves. */
  ghost predicate Touched(vm: Vm, addr: nat, s: Setup)
    reads vm, vm.space, vm.clock, vm.clock.links, vm.mm, vm.mm.links, vm.disk, vm.disk.ide
  {
    && vm.Valid() && Granted(EntryOf(vm.Now(), Page(addr)), s.writable) && vm.space.boot == {}
    && (vm.space.free == {} <==> !s.spare) && vm.space.refs.Keys == {NBASE} + Pooled(s.spare)
    && |vm.clock.queue| == 1 && vm.clock.queue[0] in vm.pra && vm.pra[vm.clock.queue[0]] == Page(addr) * PGSIZE
    && OneArea(vm.mm.list, vm.mm.vmas, s)
    && forall p: nat :: p < PAGES && p != Page(addr) ==> !Sv39.Valid(EntryOf(vm.Now(), p))
  }

  lemma MayTouch(vm: Vm, addr: nat, s: Setup)
    requires Starting(vm, s) && s.start <= addr < s.end && addr < ADDRESSES
    ensures vm.Reaches(addr) && vm.Outcome(addr) == (if s.writable then Handled else Denied)
    ensures vm.Lacks(addr) == 2 && !vm.Open(addr)
  {
    hide Vm.Valid, Entry, Missing, OneArea, Pooled, Page;
    InTheArea(vm.mm.list, vm.mm.vmas, s, addr);
    assert Page(addr) < PAGES && User({}, Page(addr)) by { PageStart(addr); }
  }

  /** The first page takes two tables and one more frame. */
  method FirstTouch(vm: Vm, addr: nat, ghost s: Setup) returns (r: Fault)
    requires Starting(vm, s) && s.start <= addr < s.end && addr < ADDRESSES
    modifies vm, vm.space, vm.clock, vm.clock.links, vm.mm`mmapCache, vm.disk.ide
    ensures r == (if s.writable then Handled else Denied) && Touched(vm, addr, s)
    ensures s.writable ==> HoldsByte(vm.Now(), addr, 1)
  {
    hide Vm.Valid, Vm.Reaches, Vm.Outcome, Vm.Lacks, Accessed, Served, Drew, EntryOf, Content, Page, OneArea, Pooled;
    hide Missing, PGOFF, HoldsByte;
    MayTouch(vm, addr, s);
    ghost var v, a := vm.Now(), vm.Frames();
    ghost var page;
    r, page := vm.Store(addr, 1);
    FirstDrawn(a, vm.Frames(), Page(addr), s.spare);
    if s.writable {
      AccessLeaves(v, vm.Now(), Page(addr), page, page[PGOFF(addr) := 1]);
      ByteWritten(v, vm.Now(), addr, page, 1);
    } else {
      DenialLeaves(v, vm.Now(), Page(addr));
    }
  }

  lemma FirstDrawn(a: Pool, b: Pool, p: nat, spare: bool)
    requires Drew(false, 2, a, b, p) && a.free == Pooled(spare) && a.queue == []
    ensures (b.free == {} <==> !spare) && |b.queue| == 1 && b.queue[0] in b.pra && b.pra[b.queue[0]] == p * PGSIZE
  {
  }

  lemma ByteWritten(v: View, w: View, addr: nat, page: seq<Byte>, b: Byte)
    requires PGOFF(addr) < |page| && Accessed(v, w, Page(addr), page, page[PGOFF(addr) := b])
    ensures HoldsByte(w, addr, b)
  {
  }

  /** Pages that were never touched are absent. */
  lemma AccessLeaves(v: View, w: View, p: nat, before: seq<Byte>, after: seq<Byte>)
    requires Accessed(v, w, p, before, after) && v.boot == {} && forall q: nat :: EntryOf(v, q) == 0
    ensures Granted(EntryOf(w, p), true)
    ensures forall q: nat :: q < PAGES && q != p ==> !Sv39.Valid(EntryOf(w, q))
  {
    hide Content;
    OthersAbsent(v, w, p);
  }

  lemma DenialLeaves(v: View, w: View, p: nat)
    requires Served(v, w, p, false) && v.boot == {} && forall q: nat :: EntryOf(v, q) == 0
    ensures Granted(EntryOf(w, p), false)
    ensures forall q: nat :: q < PAGES && q != p ==> !Sv39.Valid(EntryOf(w, q))
  {
    hide Content;
    OthersAbsent(v, w, p);
  }

  lemma OthersAbsent(v: View, w: View, p: nat)
    requires OtherContents(v, w, p) && v.boot == {} && forall q: nat :: EntryOf(v, q) == 0
    ensures forall q: nat :: q < PAGES && q != p ==> !Sv39.Valid(EntryOf(w, q))
  {
    hide Content;
    forall q: nat | q < PAGES && q != p ensures !Sv39.Valid(EntryOf(w, q)) {
      assert UserPage(v.boot, q) && Kept(v, w, q);
    }
  }

  /** With a page on the list every address of the area is in reach, and that page's slot decides
      whether an eviction can succeed. */
  lemma SecondTouch(vm: Vm, first: nat, addr: nat, s: Setup)
    requires Touched(vm, first, s) && s.start <= addr < s.end && addr < ADDRESSES
    ensures vm.Reaches(addr) && Areas.Scan(vm.mm.list, vm.mm.vmas, addr) != Areas.NULL
    ensures vm.Writable(addr) == s.writable
    ensures vm.OldestFits() <==> Page(Page(first) * PGSIZE) <= 5
  {
    hide Vm.Valid, Entry, OneArea, Pooled, Page, GoodSlot;
    InTheArea(vm.mm.list, vm.mm.vmas, s, addr);
    assert Page(addr) < PAGES && User({}, Page(addr)) by { PageStart(addr); }
  }

  lemma SlotIsMissing(vm: Vm, s: Setup)
    requires Touched(vm, 6 * PGSIZE, s) && s == Setup(false, 6 * PGSIZE, 8 * PGSIZE, true)
    ensures vm.Reaches(7 * PGSIZE) && vm.Outcome(7 * PGSIZE) == Panicked
  {
    hide Vm.Valid, Entry, Missing, OneArea, Pooled, Page, Vm.Reaches;
    SecondTouch(vm, 6 * PGSIZE, 7 * PGSIZE, s);
    PageOfStart(6);
    PageOfStart(7);
    SameTable(vm.Now(), 6, 7);
  }

  lemma TablesAreMissing(vm: Vm, s: Setup)
    requires Touched(vm, 0, s) && s == Setup(false, 0, 0x4000_1000, true)
    ensures vm.Reaches(0x4000_0000) && vm.Outcome(0x4000_0000) == Panicked
  {
    hide Vm.Valid, Entry, Missing, OneArea, Pooled, Page, Vm.Reaches;
    SecondTouch(vm, 0, 0x4000_0000, s);
    PageOfStart(0);
    PageOfStart(0x4_0000);
    assert Missing(vm.space.root, vm.space.mem, 0x4_0000) == 2 by { NoTableLeft(vm); }
  }

  /** Pages 6 and 7 are touched.  Evicting page 6 would need slot 7, which the device lacks. */
  method SlotExample() returns (first: Fault, second: Fault)
    ensures first == Handled && second == Panicked
  {
    hide Vm.Valid, Vm.Reaches, Vm.Outcome;
    var s := Setup(false, 6 * PGSIZE, 8 * PGSIZE, true);
    var vm := Start(s);
    first := FirstTouch(vm, 6 * PGSIZE, s);
    SlotIsMissing(vm, s);
    ghost var page;
    second, page := vm.Store(7 * PGSIZE, 2);
  }

  /** Pages 5 and 4 are touched with one frame for both, and page 5 is read.  It has been in slot 6,
      the last one, and still holds the byte stored first. */
  method LastSlotExample() returns (first: Fault, second: Fault, third: Fault, b: Byte)
    ensures first == Handled && second == Handled && third == Handled && b == 1
  {
    hide Vm.Valid, Vm.Reaches, Vm.Outcome, Accessed, Drew, HoldsByte;
    var s := Setup(false, 4 * PGSIZE, 6 * PGSIZE, true);
    var vm := Start(s);
    first := FirstTouch(vm, 5 * PGSIZE, s);
    SlotIsThere(vm, s);
    ghost var v, a := vm.Now(), vm.Frames();
    ghost var page, last;
    second, page := vm.Store(4 * PGSIZE, 2);
    PageOfStart(4);
    PageOfStart(5);
    ByteStays(v, vm.Now(), 4, page, page[PGOFF(4 * PGSIZE) := 2], 5 * PGSIZE, 1);
    Returns(vm, v, a, page, page[PGOFF(4 * PGSIZE) := 2], s);
    ghost var w := vm.Now();
    third, b, last := vm.Load(5 * PGSIZE);
    ByteRead(w, vm.Now(), 5 * PGSIZE, last, 1);
  }

  ghost predicate HoldsByte(v: View, addr: nat, b: Byte) {
    var c := Content(v, Page(addr));
    c.Some? && PGOFF(addr) < |c.value| && c.value[PGOFF(addr)] == b
  }

  lemma ByteStays(v: View, w: View, p: nat, before: seq<Byte>, after: seq<Byte>, addr: nat, b: Byte)
    requires Accessed(v, w, p, before, after) && HoldsByte(v, addr, b)
    requires UserPage(v.boot, Page(addr)) && Page(addr) != p
    ensures HoldsByte(w, addr, b)
  {
    hide Content;
  }

  lemma ByteRead(v: View, w: View, addr: nat, page: seq<Byte>, b: Byte)
    requires Accessed(v, w, Page(addr), page, page) && HoldsByte(v, addr, b)
    ensures PGOFF(addr) < |page| && page[PGOFF(addr)] == b
  {
    hide Content;
  }

  lemma SlotIsThere(vm: Vm, s: Setup)
    requires Touched(vm, 5 * PGSIZE, s) && s == Setup(false, 4 * PGSIZE, 6 * PGSIZE, true)
    ensures vm.Reaches(4 * PGSIZE) && vm.Outcome(4 * PGSIZE) == Handled && !vm.Open(4 * PGSIZE)
    ensures vm.Reaches(5 * PGSIZE) && vm.Lacks(4 * PGSIZE) == 0 && UserPage(vm.space.boot, 5)
  {
    hide Vm.Valid, Entry, Missing, OneArea, Pooled, Page, Vm.Reaches;
    SecondTouch(vm, 5 * PGSIZE, 4 * PGSIZE, s);
    SecondTouch(vm, 5 * PGSIZE, 5 * PGSIZE, s);
    PageOfStart(4);
    PageOfStart(5);
    SameTable(vm.Now(), 5, 4);
    assert User({}, 5);
  }

  /** Page 4 can be evicted too. */
  lemma Returns(vm: Vm, v: View, a: Pool, before: seq<Byte>, after: seq<Byte>, s: Setup)
    requires Accessed(v, vm.Now(), 4, before, after) && Drew(false, 0, a, vm.Frames(), 4) && a.free == {}
    requires |a.queue| == 1 && Granted(EntryOf(v, 5), true) && UserPage(v.boot, 5)
    requires OneArea(vm.mm.list, vm.mm.vmas, s) && s == Setup(false, 4 * PGSIZE, 6 * PGSIZE, true)
    ensures vm.Outcome(5 * PGSIZE) == Handled
  {
    hide Content, Entry, Missing, LeafTable, OneArea, Page;
    InTheArea(vm.mm.list, vm.mm.vmas, s, 5 * PGSIZE);
    PageOfStart(4);
    PageOfStart(5);
    PresentHasTables(v, 5);
    TableIsThere(v, 5);
    TableIsThere(vm.Now(), 5);
    assert Kept(v, vm.Now(), 5);
  }

  /** Two pages with the same table. */
  lemma SameTable(v: View, p: nat, q: nat)
    requires p < 512 && q < 512 && Sv39.Valid(EntryOf(v, p))
    ensures Missing(v.root, v.mem, q) == 0
  {
    assert I1(p) == I1(q) && I0(p) == I0(q);
  }

  /** Pages 0 and 0x40000 are touched.  The second needs two tables; the first of them takes the
      frame of page 0, and the next allocation looks for that page in vain. */
  method TableExample() returns (first: Fault, second: Fault)
    ensures first == Handled && second == Panicked
  {
    hide Vm.Valid, Vm.Reaches, Vm.Outcome;
    var s := Setup(false, 0, 0x4000_1000, true);
    var vm := Start(s);
    first := FirstTouch(vm, 0, s);
    TablesAreMissing(vm, s);
    ghost var page;
    second, page := vm.Store(0x4000_0000, 2);
  }

  /** A page in an area that is not writable is touched twice.  The first fault grants no right;
      the second takes the entry for a swap entry and panics. */
  method ClosedExample() returns (first: Fault, second: Fault)
    ensures first == Denied && second == Panicked
  {
    hide Vm.Valid, Vm.Reaches, Vm.Outcome;
    var s := Setup(true, 0, PGSIZE, false);
    var vm := Start(s);
    first := FirstTouch(vm, 0, s);
    ClosedAgain(vm, s);
    ghost var page;
    second, page := vm.Store(0, 2);
  }

  /** The same without a spare frame: the second fault evicts the page itself and reloads it, with
      no more rights than before. */
  method EndlessExample() returns (first: Fault, second: Fault)
    ensures first == Denied && second == Denied
  {
    hide Vm.Valid, Vm.Reaches, Vm.Outcome;
    var s := Setup(false, 0, PGSIZE, false);
    var vm := Start(s);
    first := FirstTouch(vm, 0, s);
    ClosedAgain(vm, s);
    ghost var page;
    second, page := vm.Store(0, 2);
  }

  lemma ClosedAgain(vm: Vm, s: Setup)
    requires Touched(vm, 0, s) && s.start == 0 && s.end == PGSIZE && !s.writable
    ensures vm.Reaches(0) && vm.Outcome(0) == if s.spare then Panicked else Denied
  {
    hide Vm.Valid, Entry, Missing, OneArea, Pooled, Page, Vm.Reaches;
    SecondTouch(vm, 0, 0, s);
    PageOfStart(0);
    PresentHasTables(vm.Now(), 0);
    OnlyFrame(vm, 0);
  }

  /** The only frame on the list is that of the only present page. */
  lemma OnlyFrame(vm: Vm, p: nat)
    requires vm.Valid() && UserPage(vm.space.boot, p) && Sv39.Valid(EntryOf(vm.Now(), p)) && |vm.clock.queue| == 1
    ensures vm.clock.queue[0] == Ppn(EntryOf(vm.Now(), p))
  {
    hide AddressSpace.Valid, Clocks.Clock.Valid, Areas.MmStruct.Valid, Clocks.FifoShape, Stored, Entry;
    assert PageOk(vm.Now(), vm.clock.queue, vm.pra, p);
  }

  lemma NoTableLeft(vm: Vm)
    requires vm.Valid() && vm.space.boot == {} && vm.space.refs.Keys == {NBASE} + Pooled(false)
    requires Sv39.Valid(EntryOf(vm.Now(), 0))
    ensures Missing(vm.space.root, vm.space.mem, 0x4_0000) == 2
  {
    hide Clocks.Clock.Valid, Areas.MmStruct.Valid, Clocks.FifoShape, Stored, Entry, Missing, Residency, Tree, Counted;
    NoTable(vm.Now(), vm.space.kind, vm.space.refs, vm.space.free);
  }

  /** Four frames hold the root, the two tables of page 0 and the page: there is no other table. */
  lemma NoTable(v: View, kind: Kinds, refs: map<nat, int>, free: set<nat>)
    requires Tree(v.root, v.boot, v.mem, kind) && Counted(v.mem, kind, refs, free) && v.boot == {}
    requires refs.Keys == {NBASE} + Pooled(false) && Sv39.Valid(EntryOf(v, 0))
    ensures Missing(v.root, v.mem, 0x4_0000) == 2
  {
    hide Tree, Counted, Pooled;
    TablesAreFrames(v, kind, refs, free);
    assert I1(0x4_0000) == 1 && I1(0) == 0 && I0(0) == 0;
    WalkKinds(v.root, v.boot, v.mem, kind, 0);
    WalkKinds(v.root, v.boot, v.mem, kind, 0x4_0000);
    var m, l, f := Follow(v.mem, v.root, 0).value, TableOf(v, 0).value, Ppn(EntryOf(v, 0));
    WalkEnd(v.root, v.boot, v.mem, kind, refs, free, 0, l);
    var n := Follow(v.mem, v.root, 1);
    if n.Some? {
      FiveOfFour(v.root, m, l, f, n.value, refs.Keys);
    }
  }

  lemma TablesAreFrames(v: View, kind: Kinds, refs: map<nat, int>, free: set<nat>)
    requires Tree(v.root, v.boot, v.mem, kind) && Counted(v.mem, kind, refs, free)
    ensures v.root in kind && kind[v.root] == Root && forall f :: f in kind ==> f in refs
  {
  }

  lemma FiveOfFour(a: nat, b: nat, c: nat, d: nat, e: nat, s: set<nat>)
    requires s == {NBASE} + Pooled(false) && a in s && b in s && c in s && d in s && e in s
    ensures a == b || a == c || a == d || a == e || b == c || b == d || b == e || c == d || c == e || d == e
  {
  }
}
