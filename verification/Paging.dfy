/** Demand paging: do_pgfault, swap_in, swap_out and the evict-and-retry allocation, over
    the page tables, the clock, the area list and the swap device. */
module Paging {
  import opened Sv39
  import opened Wrappers
  import opened PageTables
  import opened SwapDisk
  import opened PageViews
  import Lists
  import Clocks = Replacement
  import Areas = VmaList

  /** How an access ends: the page is open to it, the page is present but closed, the address is
      in no area, or the kernel panicked. */
  datatype Fault = Handled | Denied | NotMapped | Panicked

  /** The page of the first frame has a slot. */
  ghost predicate FrontFits(queue: seq<int>, pra: map<int, nat>) {
    queue != [] && queue[0] in pra && Page(pra[queue[0]]) <= 5
  }

  /** Directories, unlike page tables, are as before. */
  ghost predicate SameDirectories(kind: Kinds, mem: Memory, mem': Memory) {
    forall d :: d in kind && !kind[d].Leaf? && d in mem ==> d in mem' && mem'[d] == mem[d]
  }

  lemma LeafWrite(kind: Kinds, mem: Memory, l: nat, t: nat, e: nat)
    requires l in kind && kind[l].Leaf? && l in mem && t < |mem[l]|
    ensures SameDirectories(kind, mem, WithEntry(mem, l, t, e))
  {
  }

  lemma DirectoryKept(kind: Kinds, mem: Memory, mem': Memory, d: nat, i: nat)
    requires SameDirectories(kind, mem, mem') && d in kind && !kind[d].Leaf? && d in mem
    ensures d in mem' && mem'[d] == mem[d] && Follow(mem', d, i) == Follow(mem, d, i)
  {
  }

  /** Where the frames stand: free, on the swappable list, and the address noted for each. */
  datatype Pool = Pool(free: set<nat>, queue: seq<int>, pra: map<int, nat>)

  /** What serving page `p` does to the frames: nothing if it is open; else `missing` tables
      come out of the pool and one more frame goes to the back of the list, from the pool if
      one is left there and else from the front of the list. */
  ghost predicate Drew(open: bool, missing: nat, a: Pool, b: Pool, p: nat) {
    if open then b == a
    else
      && b.queue != [] && b.pra == a.pra[b.queue[|b.queue| - 1] := p * PGSIZE]
      && if |a.free| == missing then b.free == {} && a.queue != [] && b.queue == a.queue[1..] + [a.queue[0]]
         else |b.free| == |a.free| - missing - 1 && |b.queue| == |a.queue| + 1 && b.queue[..|a.queue|] == a.queue
  }

  /** What an allocation does to them: the frame comes out of the pool, or off the front of the
      list if the pool is empty. */
  ghost predicate Took(f: nat, a: Pool, b: Pool) {
    && b.pra == a.pra
    && if a.free == {} then b.free == {} && a.queue != [] && f == a.queue[0] && b.queue == a.queue[1..]
       else f in a.free && b.free == a.free - {f} && b.queue == a.queue
  }

  lemma TookThenDrew(f: nat, a: Pool, b: Pool, p: nat)
    requires Took(f, a, b)
    ensures Drew(false, 0, a, Pool(b.free, b.queue + [f], b.pra[f := p * PGSIZE]), p)
  {
  }

  lemma DrewListed(missing: nat, a: Pool, b: Pool, p: nat)
    requires Drew(false, missing, a, b, p)
    ensures b.queue != []
  {
  }

  lemma DrewAfterTables(missing: nat, a: Pool, b: Pool, c: Pool, p: nat)
    requires |b.free| == |a.free| - missing && b.queue == a.queue && b.pra == a.pra && Drew(false, 0, b, c, p)
    ensures Drew(false, missing, a, c, p)
  {
  }

  /** Tables came out of the pool, and no page noticed. */
  ghost predicate Grew(v: View, queue: seq<int>, refs: map<nat, int>, w: View, queue': seq<int>, refs': map<nat, int>) {
    && queue' == queue && refs'.Keys == refs.Keys && SameContents(v, w)
    && SameEntries(v.root, v.boot, v.mem, w.mem) && KeepsPointers(v.mem, w.mem)
  }

  lemma GrewQueue(v: View, queue: seq<int>, refs: map<nat, int>, w: View, queue': seq<int>, refs': map<nat, int>)
    requires Grew(v, queue, refs, w, queue', refs')
    ensures queue' == queue
  {
  }

  lemma GrewPointer(v: View, queue: seq<int>, refs: map<nat, int>, w: View, queue': seq<int>, refs': map<nat, int>,
                    d: nat, i: nat)
    requires Grew(v, queue, refs, w, queue', refs') && Follow(v.mem, d, i).Some?
    ensures Follow(w.mem, d, i) == Follow(v.mem, d, i)
  {
  }

  lemma WalkedTo(v: View, p: nat, m: nat, l: nat)
    requires Follow(v.mem, v.root, I1(p)) == Some(m) && Follow(v.mem, m, I0(p)) == Some(l)
    ensures TableOf(v, p) == Some(l)
  {
  }

  lemma GrewTwice(v: View, queue: seq<int>, refs: map<nat, int>, w: View, queue1: seq<int>, refs1: map<nat, int>,
                  x: View, queue2: seq<int>, refs2: map<nat, int>)
    requires Grew(v, queue, refs, w, queue1, refs1) && Grew(w, queue1, refs1, x, queue2, refs2)
    ensures Grew(v, queue, refs, x, queue2, refs2)
    ensures forall d, i :: Follow(w.mem, d, i).Some? ==> Follow(x.mem, d, i) == Follow(w.mem, d, i)
  {
    SameTwice(v, w, x);
    SameEntriesTwice(v.root, v.boot, v.mem, w.mem, x.mem);
  }

  class Vm {
    const space: AddressSpace
    const clock: Clocks.Clock
    const mm: Areas.MmStruct
    const disk: Disk
    var data: Data
    var pra: map<int, nat>

    ghost function Now(): View
      reads this, space, disk, disk.ide
    {
      View(space.root, space.boot, space.mem, data, disk.ide[..])
    }

    ghost function Frames(): Pool
      reads this, space, clock
    {
      Pool(space.free, clock.queue, pra)
    }

    /** The parts are sound and agree, whatever the hand points at. */
    ghost predicate Sound()
      reads this, space, clock, clock.links, mm, mm.links, disk, disk.ide
    {
      && space.Valid() && clock.Valid() && mm.Valid() && clock.links != mm.links
      && disk.ide.Length == MAX_DISK_NSECS * SECTSIZE
      && Residency(Now(), clock.queue, pra) && Stored(data, space.refs)
    }

    /** Between faults: the hand is on the list. */
    ghost predicate Valid()
      reads this, space, clock, clock.links, mm, mm.links, disk, disk.ide
    {
      Sound() && clock.HandListed() && Clocks.FifoShape(clock.queue, clock.visited, clock.at)
    }

    /** A table took the frame of an evicted page: no frame is free, and the hand stands on one
        whose page is gone, so that the next eviction must fail. */
    ghost predicate Lost()
      reads this, space, clock, clock.links, mm, mm.links, disk, disk.ide
    {
      Sound() && space.free == {} && !clock.HandListed() && Departed(Now(), pra, clock.hand)
    }

    lemma NotBoth()
      ensures !(Valid() && Lost())
    {
    }

    /** There is a frame to hand out or to evict. */
    ghost predicate CanDraw()
      reads space, clock
    {
      space.free != {} || clock.queue != []
    }

    /** The page that the next eviction takes, that of the oldest frame, has a swap slot. */
    ghost predicate OldestFits()
      reads this, clock
    {
      FrontFits(clock.queue, pra)
    }

    /** An address space with no user page present yet, over frames with any contents. */
    constructor (space: AddressSpace, mm: Areas.MmStruct, data: Data)
      requires space.Valid() && mm.Valid() && Stored(data, space.refs)
      requires forall p: nat :: UserPage(space.boot, p) ==> Entry(space.root, space.mem, p) == 0
      ensures Valid() && this.space == space && this.mm == mm && this.data == data
      ensures fresh(clock) && fresh(clock.links) && fresh(disk) && fresh(disk.ide)
      ensures clock.queue == [] && forall p: nat :: UserPage(space.boot, p) ==> Content(Now(), p) == None
    {
      hide Residency, Content, Stored, AddressSpace.Valid, Clocks.Clock.Valid, Areas.MmStruct.Valid;
      this.space, this.mm, this.data, pra := space, mm, data, map[];
      clock := new Clocks.Clock();
      disk := new Disk();
      new;
      NothingPresent(Now(), pra);
    }

    // ------------------------------------------------------------- eviction

    /** One pass of swap_out's loop.  False means a panic: the victim's page is gone already, or
        its slot is out of range. */
    method SwapOut() returns (ok: bool)
      requires Lost() || (Valid() && clock.queue != [])
      modifies space, clock, clock.links, disk.ide
      ensures ok <==> old(Valid() && clock.queue != [] && clock.queue[0] in pra && Page(pra[clock.queue[0]]) <= 5)
      ensures ok ==> Sound() && clock.queue == old(clock.queue)[1..] && clock.hand == old(clock.queue)[0]
      ensures ok ==> AllClear(clock.queue, clock.visited)
      ensures ok ==> SwappedOut(clock.hand, old(Now()), old(space.kind), old(space.refs), old(space.free))
    {
      hide Residency, AddressSpace.Valid, Clocks.Clock.Valid, Areas.MmStruct.Valid, Clocks.FifoShape, Clocks.Frames;
      hide SwappedOut, Page, GoodSlot, AllClear, Stored, EntryOf, TableOf, OldestFits, Departed, UserPage;
      ghost var q := clock.queue;
      VictimFacts();
      var victim := ChooseVictim();
      ok := MoveOut(victim, q);
    }

    /** swap_out once the victim is chosen. */
    method MoveOut(victim: int, ghost q: seq<int>) returns (ok: bool)
      requires space.Valid() && disk.ide.Length == MAX_DISK_NSECS * SECTSIZE && Stored(data, space.refs)
      requires victim in pra && UserPage(space.boot, Page(pra[victim])) && TableOf(Now(), Page(pra[victim])).Some?
      requires Sv39.Valid(EntryOf(Now(), Page(pra[victim]))) ==>
                 Residency(Now(), q, pra) && Clocks.Frames(q) && q != [] && victim == q[0]
      modifies space, disk.ide
      ensures ok <==> Sv39.Valid(old(EntryOf(Now(), Page(pra[victim])))) && Page(pra[victim]) <= 5
      ensures ok ==> space.Valid() && Residency(Now(), q[1..], pra) && Stored(data, space.refs)
      ensures ok ==> SwappedOut(victim, old(Now()), old(space.kind), old(space.refs), old(space.free))
    {
      hide Residency, Tree, Counted, SwappedOut, Page, GoodSlot, Stored, EntryOf, TableOf, UserPage, Clocks.Frames;
      var present, l, t := FindEntry(victim);
      ok := present;
      if ok {
        ok := WriteBack(victim, l, t, q);
      }
    }

    /** Where swap_out finds the page of the frame that it will choose. */
    lemma VictimFacts()
      requires Lost() || (Valid() && clock.queue != [])
      ensures var f := if clock.HandListed() then clock.queue[0] else clock.hand;
              && f >= 0 && f in pra && UserPage(space.boot, Page(pra[f])) && TableOf(Now(), Page(pra[f])).Some?
              && (Sv39.Valid(EntryOf(Now(), Page(pra[f]))) <==> Valid()) && (Valid() <==> clock.HandListed())
              && (Valid() ==> (OldestFits() <==> Page(pra[f]) <= 5))
    {
      if Valid() {
        FrontFacts(Now(), clock.queue, pra);
      }
    }

    /** The clock's choice: the oldest frame in the shape that paging keeps the list, and the
        frame under the hand if that is off the list. */
    method ChooseVictim() returns (victim: int)
      requires clock.Valid()
      requires clock.HandListed() ==> clock.queue != [] && Clocks.FifoShape(clock.queue, clock.visited, clock.at)
      modifies clock, clock.links
      ensures clock.Valid() && clock.hand == victim && !clock.HandListed()
      ensures !old(clock.HandListed()) ==> victim == old(clock.hand)
      ensures old(clock.HandListed()) ==> Clocks.Frames(old(clock.queue)) && AllClear(clock.queue, clock.visited)
      ensures old(clock.HandListed()) ==> victim == old(clock.queue)[0] && clock.queue == old(clock.queue)[1..]
    {
      ghost var q, vis, h, listed := clock.queue, clock.visited, clock.at, clock.HandListed();
      hide Clocks.Evicts, Clocks.FifoShape, Clocks.Frames, Clocks.Tracked, AllClear, Lists.Ring;
      ghost var n;
      victim, n := clock.SwapOutVictim();
      if listed {
        OldestEvicted(q, vis, h, victim, clock.queue, clock.visited, n);
      }
    }

    /** swap_out looks the victim's entry up under the address noted for it; `present` is what it
        then asserts. */
    method FindEntry(victim: int) returns (present: bool, l: nat, t: nat)
      requires space.Valid() && victim in pra && UserPage(space.boot, Page(pra[victim]))
      requires TableOf(Now(), Page(pra[victim])).Some?
      modifies space
      ensures space.Valid() && space.mem == old(space.mem) && space.kind == old(space.kind)
      ensures space.refs == old(space.refs) && space.free == old(space.free)
      ensures present <==> Sv39.Valid(EntryOf(Now(), Page(pra[victim])))
      ensures TableOf(Now(), Page(pra[victim])) == Some(l) && t == It(Page(pra[victim]))
    {
      TableIsThere(Now(), Page(pra[victim]));
      hide Tree, Counted, SameEntries, Grown, Page, It, LeafTable, Missing, User;
      ghost var found;
      found, l, t := space.GetPte(pra[victim], false);
      present := Sv39.Valid(space.EntryAt(l, t));
      ghost var p := Page(pra[victim]);
      WalkEnd(space.root, space.boot, space.mem, space.kind, space.refs, space.free, p, l);
    }

    /** What an eviction of frame `f` leaves of the rest of the state. */
    ghost predicate SwappedOut(f: int, v: View, kind: Kinds, refs: map<nat, int>, free: set<nat>)
      reads this, space, disk, disk.ide
    {
      && f >= 0 && space.free == free + {f} && space.kind == kind && space.refs.Keys == refs.Keys
      && SameContents(v, Now()) && KeepsAbsent(v, Now()) && Departed(Now(), pra, f) && OneLeft(v, Now(), f)
      && SameDirectories(kind, v.mem, space.mem) && Written(f, v)
    }

    /** The page's bytes are in its slot, the rest of the device is as before, and the page's entry
        is its swap entry. */
    ghost predicate Written(f: int, v: View)
      reads this, space, disk, disk.ide
    {
      && f in pra && f in data && (Page(pra[f]) + 1) * 4096 + |data[f]| <= |v.ide|
      && disk.ide[..] == Splice(v.ide, (Page(pra[f]) + 1) * 4096, data[f])
      && EntryOf(Now(), Page(pra[f])) == (Page(pra[f]) + 1) * 256
    }

    /** The rest of swap_out: the page goes to the slot that its number names. */
    method WriteBack(victim: int, l: nat, t: nat, ghost q: seq<int>) returns (ok: bool)
      requires space.Valid() && disk.ide.Length == MAX_DISK_NSECS * SECTSIZE && Stored(data, space.refs)
      requires Residency(Now(), q, pra) && Clocks.Frames(q) && q != [] && victim == q[0] && victim in pra
      requires TableOf(Now(), Page(pra[victim])) == Some(l) && t == It(Page(pra[victim]))
      modifies space, disk.ide
      ensures ok <==> Page(pra[victim]) <= 5
      ensures ok ==> space.Valid() && Residency(Now(), q[1..], pra) && Stored(data, space.refs)
      ensures ok ==> SwappedOut(victim, old(Now()), old(space.kind), old(space.refs), old(space.free))
    {
      hide Residency, Tree, Counted, SameContents, KeepsAbsent, Departed, Sites, Stored, SameDirectories, OneLeft;
      hide Page, SwapEntry, Slot, Splice, It, EntryOf, TableOf, GoodSlot, WithEntry, UserPage, Clocks.Frames, Home;
      ghost var v0 := Now();
      FrontFacts(v0, q, pra);
      ResidentSites(v0, space.kind, q, pra, victim, l);
      ResidentIsData(space.mem, space.kind, space.refs, space.free, victim, l, t);
      StoredPage(data, space.refs, victim);
      SwapEntryRoundTrip(Page(pra[victim]));
      var slotEntry := SwapEntry(pra[victim] / PGSIZE);
      ok := disk.SwapfsWrite(slotEntry, data[victim]);
      if ok {
        LeafWrite(space.kind, space.mem, l, t, slotEntry);
        space.SwapOutEntry(l, t, slotEntry, victim);
        Eviction(v0, Now(), space.kind, q, pra, victim, l);
        StoredStays(data, space.refs, old(space.refs));
      }
    }

    // ----------------------------------------------------------- allocation

    /** Frame `f` is out of the pool, mapped by no page, and next to be put on the list. */
    ghost predicate Held(f: nat)
      reads this, space, clock, clock.links, mm, mm.links, disk, disk.ide
    {
      && Sound() && f in space.refs && f !in space.kind && f !in space.free && space.refs[f] == 0
      && Sites(space.mem, space.kind, f) == {} && f !in clock.queue
      && if clock.hand == f then
           AllClear(clock.queue, clock.visited) && space.free == {} && Departed(Now(), pra, f)
         else clock.HandListed() && Clocks.FifoShape(clock.queue, clock.visited, clock.at)
    }

    /** alloc_page: evict and try again while no frame is free.  None means that the kernel
        panicked on the way. */
    method AllocPage() returns (r: Option<nat>, ghost evicted: nat)
      requires Lost() || (Valid() && CanDraw())
      modifies space, clock, clock.links, disk.ide
      ensures r.None? <==> old(Lost()) || (old(space.free) == {} && !old(OldestFits()))
      ensures evicted == if old(space.free) == {} then 1 else 0
      ensures r.Some? ==> Held(r.value) && space.kind == old(space.kind) && space.refs.Keys == old(space.refs).Keys
      ensures r.Some? ==> SameContents(old(Now()), Now()) && KeepsAbsent(old(Now()), Now())
      ensures r.Some? ==> SameDirectories(space.kind, old(space.mem), space.mem)
      ensures r.Some? ==> Took(r.value, old(Frames()), Frames())
      ensures r.Some? && evicted == 0 ==> clock.hand != r.value && Now() == old(Now())
      ensures r.Some? && evicted == 1 ==> clock.hand == r.value && OneLeft(old(Now()), Now(), r.value)
    {
      hide Residency, Tree, Counted, SameContents, KeepsAbsent, Departed, SameDirectories, Sites, Stored, OneLeft;
      hide Clocks.FifoShape, Clocks.Frames, Clocks.Tracked, Clocks.Stale, Lists.Ring, Areas.Sorted;
      hide AllClear, Page;
      ghost var v0, queue0, lost, fits := Now(), clock.queue, Lost(), OldestFits();
      Unchanged(v0);
      SameDirectoriesNow();
      r, evicted := None, 0;
      while true
        invariant evicted <= 1 && space.kind == old(space.kind) && space.refs.Keys == old(space.refs).Keys
        invariant evicted == 0 ==> (Lost() || (Valid() && CanDraw())) && Lost() == lost && OldestFits() == fits
        invariant evicted == 0 ==> Now() == v0 && clock.queue == queue0 && space.free == old(space.free)
        invariant evicted == 1 ==> old(space.free) == {} && !lost && fits && Sound() && clock.queue == queue0[1..]
        invariant evicted == 1 ==> clock.hand == queue0[0] >= 0 && space.free == {clock.hand}
        invariant evicted == 1 ==> AllClear(clock.queue, clock.visited) && Departed(Now(), pra, clock.hand)
        invariant evicted == 1 ==> OneLeft(v0, Now(), clock.hand)
        invariant SameContents(v0, Now()) && KeepsAbsent(v0, Now())
        invariant SameDirectories(space.kind, v0.mem, space.mem)
        decreases 1 - evicted
      {
        r := space.AllocFrame();
        if r.Some? {
          UnmappedIsUnlisted(Now(), space.kind, clock.queue, pra, r.value);
          break;
        }
        evicted := evicted + 1;
        var ok := SwapOut();
        if !ok {
          break;
        }
      }
    }

    lemma SameDirectoriesNow()
      ensures SameDirectories(space.kind, space.mem, space.mem)
    {
    }

    // --------------------------------------------------------------- tables

    /** Entry `i` of directory `d` leads nowhere yet. */
    ghost predicate IsSlot(d: nat, i: nat)
      reads space
    {
      && d in space.kind && !space.kind[d].Leaf? && !Reserved(space.boot, space.kind[d], i)
      && i < NPTEENTRY && d in space.mem && |space.mem[d]| == NPTEENTRY && !Sv39.Valid(space.mem[d][i])
    }

    /** Entry `i` of directory `d` leads to table `child`. */
    ghost predicate LeadsTo(d: nat, i: nat, child: nat)
      reads space
    {
      && d in space.kind && !space.kind[d].Leaf? && Follow(space.mem, d, i) == Some(child)
      && child in space.kind && space.kind[child] == Child(space.kind[d], i)
    }

    ghost predicate Childless(d: nat)
      reads space
    {
      forall j :: Follow(space.mem, d, j).None?
    }

    /** The creation step of get_pte with eviction on: an allocated frame becomes a table. */
    method MakeTable(d: nat, i: nat) returns (ok: bool)
      requires (Lost() || (Valid() && CanDraw())) && IsSlot(d, i)
      modifies space, clock, clock.links, disk.ide
      ensures ok <==> !old(Lost()) && (old(space.free) != {} || old(OldestFits()))
      ensures ok ==> exists f :: LeadsTo(d, i, f) && Childless(f)
      ensures ok ==> d in space.mem && |space.mem[d]| == NPTEENTRY
      ensures ok && old(space.free) == {} ==> Lost()
      ensures ok && old(space.free) != {} ==>
                && Valid() && |space.free| == |old(space.free)| - 1
                && Grew(old(Now()), old(clock.queue), old(space.refs), Now(), clock.queue, space.refs)
    {
      hide Valid, Lost, Held, SameContents, KeepsAbsent, SameDirectories, OldestFits, OneLeft, SameEntries;
      hide Child, KeepsPointers, LeadsTo, Childless;
      ghost var v0 := Now();
      NotBoth();
      var page;
      ghost var n;
      page, n := AllocPage();
      ok := page.Some?;
      if ok {
        DirectoryKept(space.kind, v0.mem, space.mem, d, i);
        ghost var v1 := Now();
        HangHeld(d, i, page.value);
        NotBoth();
        SameTwice(v0, v1, Now());
      }
    }

    /** The table itself, in the frame that was allocated.  It takes the frame from under the hand
        if that is where the frame was found. */
    method HangHeld(d: nat, i: nat, f: nat)
      requires Held(f) && IsSlot(d, i)
      modifies space
      ensures LeadsTo(d, i, f) && Childless(f) && d in space.mem && |space.mem[d]| == NPTEENTRY
      ensures if clock.hand == f then Lost() else Valid()
      ensures space.free == old(space.free) && space.refs.Keys == old(space.refs).Keys
      ensures SameContents(old(Now()), Now()) && KeepsPointers(old(space.mem), space.mem)
      ensures SameEntries(space.root, space.boot, old(space.mem), space.mem)
    {
      hide Residency, AddressSpace.Valid, Clocks.Clock.Valid, Areas.MmStruct.Valid, SameContents, KeepsAbsent, Departed;
      hide Stored, Clocks.FifoShape, AllClear, SameEntries, WithTable, Child, KeepsPointers;
      ghost var v1 := Now();
      space.HangTable(d, i, f);
      StoredStays(data, space.refs, old(space.refs));
      TableAdded(v1, Now(), clock.queue, pra);
      SameKeepsAbsent(v1, Now());
      if clock.hand == f { DepartedStays(v1, Now(), pra, f); }
    }

    /** One level of get_pte's walk with eviction on.  A table made from an evicted frame leaves
        the hand stranded; then the walk goes on, but nothing can be allocated any more. */
    method Descend(d: nat, i: nat) returns (ok: bool, child: nat)
      requires Lost() || (Valid() && (IsSlot(d, i) ==> CanDraw()))
      requires IsSlot(d, i) || (!Lost() && exists f :: LeadsTo(d, i, f))
      modifies space, clock, clock.links, disk.ide
      ensures ok ==> LeadsTo(d, i, child) && (old(IsSlot(d, i)) ==> Childless(child))
      ensures !old(IsSlot(d, i)) ==> ok && Valid() && space.free == old(space.free) && space.mem == old(space.mem)
      ensures old(IsSlot(d, i)) && !old(Lost()) && old(space.free) != {} ==>
                ok && Valid() && |space.free| == |old(space.free)| - 1
      ensures !old(IsSlot(d, i)) || (!old(Lost()) && old(space.free) != {}) ==>
                Grew(old(Now()), old(clock.queue), old(space.refs), Now(), clock.queue, space.refs)
      ensures old(IsSlot(d, i)) && (old(Lost()) || old(space.free) == {}) ==> !ok || (!old(Lost()) && Lost())
    {
      hide Lost, Valid, OldestFits, Grew, Childless;
      SameNow();
      ok, child := true, 0;
      if !Sv39.Valid(space.EntryAt(d, i)) {
        ok := MakeTable(d, i);
        if !ok {
          return;
        }
      }
      child := Ppn(space.EntryAt(d, i));
    }

    lemma SameNow()
      ensures Grew(Now(), clock.queue, space.refs, Now(), clock.queue, space.refs)
    {
      Unchanged(Now());
      SameEntriesNot(space.root, space.boot, space.mem);
    }

    /** An entry of a directory leads nowhere or to a table. */
    lemma SlotOrTable(d: nat, i: nat)
      requires space.Valid() && d in space.kind && !space.kind[d].Leaf? && i < NPTEENTRY
      requires !Reserved(space.boot, space.kind[d], i)
      ensures if Follow(space.mem, d, i).None? then IsSlot(d, i)
              else LeadsTo(d, i, Follow(space.mem, d, i).value) && !IsSlot(d, i)
    {
      DirectoryFacts(space.root, space.boot, space.mem, space.kind, d, i);
    }

    /** How many tables the walk of an address lacks. */
    ghost function Lacks(addr: nat): nat
      reads space
    {
      Missing(space.root, space.mem, Page(addr))
    }

    /** The directory entries that the walk of a page goes through. */
    lemma RootSlot(p: nat)
      requires Valid() && UserPage(space.boot, p)
      ensures space.root in space.kind && !space.kind[space.root].Leaf? && I1(p) < NPTEENTRY
      ensures !Reserved(space.boot, space.kind[space.root], I1(p))
      ensures var m := Follow(space.mem, space.root, I1(p));
              if m.None? then IsSlot(space.root, I1(p)) && Missing(space.root, space.mem, p) == 2
              else LeadsTo(space.root, I1(p), m.value) && !IsSlot(space.root, I1(p))
                   && Missing(space.root, space.mem, p) == if Follow(space.mem, m.value, I0(p)).None? then 1 else 0
    {
      RootIsRoot(space.root, space.boot, space.mem, space.kind);
      SlotOrTable(space.root, I1(p));
    }

    lemma SecondSlot(m: nat, p: nat)
      requires (Valid() || Lost()) && UserPage(space.boot, p) && LeadsTo(space.root, I1(p), m)
      ensures IsSlot(m, I0(p)) <==> Follow(space.mem, m, I0(p)).None?
      ensures IsSlot(m, I0(p)) || exists f :: LeadsTo(m, I0(p), f)
      ensures m in space.kind && !space.kind[m].Leaf? && I0(p) < NPTEENTRY
      ensures !Reserved(space.boot, space.kind[m], I0(p))
    {
      RootIsRoot(space.root, space.boot, space.mem, space.kind);
      SlotOrTable(m, I0(p));
    }

    /** get_pte with `create` set and eviction on.  With too few frames for the tables it panics,
        or leaves a state in which the next allocation does. */
    method WalkCreate(addr: nat) returns (ok: bool, l: nat, t: nat)
      requires Valid() && UserPage(space.boot, Page(addr)) && (clock.queue != [] || Lacks(addr) < |space.free|)
      modifies space, clock, clock.links, disk.ide
      ensures old(Lacks(addr)) > |old(space.free)| ==> !ok || Lost()
      ensures old(Lacks(addr)) <= |old(space.free)| ==> ok && Valid() && TableOf(Now(), Page(addr)) == Some(l)
      ensures old(Lacks(addr)) <= |old(space.free)| ==> |space.free| == |old(space.free)| - old(Lacks(addr))
      ensures old(Lacks(addr)) <= |old(space.free)| ==>
                && clock.queue == old(clock.queue) && space.refs.Keys == old(space.refs).Keys
                && SameContents(old(Now()), Now()) && KeepsAbsent(old(Now()), Now())
                && EntryOf(Now(), Page(addr)) == old(EntryOf(Now(), Page(addr)))
      ensures t == It(Page(addr))
    {
      hide Valid, Lost, Grew, Page, UserPage, IsSlot, Missing, TableOf, EntryOf;
      ghost var p, v0, queue0, refs0 := Page(addr), Now(), clock.queue, space.refs;
      IndicesOfPage(addr);
      RootSlot(p);
      NotBoth();
      var m;
      l, t := 0, PTX(addr);
      ok, m := Descend(space.root, PDX1(addr));
      if ok {
        ghost var v1, queue1, refs1 := Now(), clock.queue, space.refs;
        NotBoth();
        if Valid() {
          GrewQueue(v0, queue0, refs0, v1, queue1, refs1);
        }
        ok, l := LastLevel(m, addr);
        NotBoth();
        if ok && Valid() {
          GrewTwice(v0, queue0, refs0, v1, queue1, refs1, Now(), clock.queue, space.refs);
          GrewEntry(v0, queue0, refs0, Now(), clock.queue, space.refs, p);
        }
      }
    }

    /** The second directory level of the walk. */
    method LastLevel(m: nat, addr: nat) returns (ok: bool, l: nat)
      requires UserPage(space.boot, Page(addr)) && LeadsTo(space.root, I1(Page(addr)), m)
      requires Lost() || (Valid() && (Follow(space.mem, m, I0(Page(addr))).None? ==> CanDraw()))
      requires Lost() ==> Follow(space.mem, m, I0(Page(addr))).None?
      modifies space, clock, clock.links, disk.ide
      ensures old(Lost()) ==> !ok
      ensures !old(Lost()) && (old(Follow(space.mem, m, I0(Page(addr)))).Some? || old(space.free) != {}) ==>
                ok && Valid() && TableOf(Now(), Page(addr)) == Some(l)
      ensures !old(Lost()) && (old(Follow(space.mem, m, I0(Page(addr)))).Some? || old(space.free) != {}) ==>
                && |space.free| ==
                   |old(space.free)| - (if old(Follow(space.mem, m, I0(Page(addr)))).None? then 1 else 0)
                && Grew(old(Now()), old(clock.queue), old(space.refs), Now(), clock.queue, space.refs)
      ensures !old(Lost()) && old(Follow(space.mem, m, I0(Page(addr)))).None? && old(space.free) == {} ==> !ok || Lost()
    {
      hide Valid, Lost, Grew, Page, UserPage, IsSlot, Missing, TableOf, Childless;
      ghost var p, v0, queue0, refs0 := Page(addr), Now(), clock.queue, space.refs;
      IndicesOfPage(addr);
      SecondSlot(m, p);
      NotBoth();
      ok, l := Descend(m, PDX0(addr));
      NotBoth();
      if ok && Valid() {
        GrewPointer(v0, queue0, refs0, Now(), clock.queue, space.refs, space.root, I1(p));
        WalkedTo(Now(), p, m, l);
      }
    }

    // --------------------------------------------------------------- faults

    /** page_insert, swap_map_swappable and the note of the address: frame `f` becomes the page's. */
    method Install(f: nat, addr: nat, writable: bool)
      requires Held(f) && UserPage(space.boot, Page(addr)) && addr == Page(addr) * PGSIZE
      requires TableOf(Now(), Page(addr)).Some? && !Sv39.Valid(EntryOf(Now(), Page(addr)))
      modifies this`pra, space, clock, clock.links
      ensures Valid() && f in space.refs && space.refs[f] == 1 && space.refs.Keys == old(space.refs).Keys
      ensures clock.queue == old(clock.queue) + [f] && pra == old(pra)[f := addr] && space.free == old(space.free)
      ensures f in data && Content(Now(), Page(addr)) == Some(data[f]) && Granted(EntryOf(Now(), Page(addr)), writable)
      ensures OtherContents(old(Now()), Now(), Page(addr)) && KeepsTables(old(Now()), Now())
    {
      hide Residency, Tree, Counted, Content, EntryOf, TableOf, Granted, Clocks.FifoShape, Clocks.Frames;
      hide Clocks.Tracked, Lists.Ring;
      hide Page, UserPage, AllClear, Areas.Sorted, Stored, Sites, OtherContents, KeepsTables, Departed, Clocks.Stale;
      MapFrame(f, addr, writable, clock.queue);
      ShapeAtBack(clock.queue, clock.visited, clock.at, clock.hand, f);
      clock.MapSwappable(f);
      pra := pra[f := addr];
    }

    /** The page-table half: the frame gets its first and only mapping. */
    method MapFrame(f: nat, addr: nat, writable: bool, ghost q: seq<int>)
      requires space.Valid() && Residency(Now(), q, pra) && Stored(data, space.refs)
      requires f in space.refs && f !in space.kind && f !in space.free && space.refs[f] == 0 && f !in q
      requires UserPage(space.boot, Page(addr)) && addr == Page(addr) * PGSIZE
      requires TableOf(Now(), Page(addr)).Some? && !Sv39.Valid(EntryOf(Now(), Page(addr)))
      modifies space
      ensures space.Valid() && Residency(Now(), q + [f], pra[f := addr]) && Stored(data, space.refs)
      ensures f in space.refs && space.refs[f] == 1 && space.refs.Keys == old(space.refs).Keys
      ensures space.free == old(space.free)
      ensures f in data && Content(Now(), Page(addr)) == Some(data[f]) && Granted(EntryOf(Now(), Page(addr)), writable)
      ensures OtherContents(old(Now()), Now(), Page(addr)) && KeepsTables(old(Now()), Now())
    {
      hide Residency, AddressSpace.Valid, Content, OneEntry, Entry, TableOf, Missing, UserPage, Granted, Grant;
      hide Page, User, Stored, OtherContents, KeepsTables, PteCreate, FreedAtLast, SameEntries, Grown;
      ghost var v0, p := Now(), Page(addr);
      TableIsThere(v0, p);
      IsUser(v0, p);
      GrantIsSmall(writable);
      StoredPage(data, space.refs, f);
      var ok := space.PageInsert(f, addr, Grant(writable));
      assert ok;
      StoredStays(data, space.refs, old(space.refs));
      Loaded(v0, Now(), q, pra, f, p, writable);
    }

    /** pgdir_alloc_page with eviction on: the page gets a frame, with whatever bytes are in it. */
    method PgdirAllocPage(addr: nat, writable: bool) returns (ok: bool)
      requires UserPage(space.boot, Page(addr)) && addr == Page(addr) * PGSIZE
      requires Lost() || (Valid() && CanDraw() && TableOf(Now(), Page(addr)).Some? && EntryOf(Now(), Page(addr)) == 0)
      modifies this`pra, space, clock, clock.links, disk.ide
      ensures ok <==> !old(Lost()) && (old(space.free) != {} || old(OldestFits()))
      ensures ok ==> Valid() && Served(old(Now()), Now(), Page(addr), writable)
      ensures ok ==> Drew(false, 0, old(Frames()), Frames(), Page(addr)) && space.refs.Keys == old(space.refs).Keys
    {
      hide Valid, Lost, Held, OldestFits, Took, Drew, Content, EntryOf, TableOf, Page, UserPage, OtherContents;
      hide KeepsTables, KeepsAbsent, SameContents, SameDirectories, Granted;
      ghost var v0, frames0, p := Now(), Frames(), Page(addr);
      EmptyEntry(v0, p);
      ghost var n;
      var page;
      page, n := AllocPage();
      ok := page.Some?;
      if ok {
        ghost var v1 := Now();
        Absent(v0, v1, p);
        TookThenDrew(page.value, frames0, Frames(), p);
        Install(page.value, addr, writable);
        assert space.refs[page.value] == 1;
        AbsentTables(v0, v1);
        Composed(v0, v1, Now(), p);
      }
    }

    /** Page `Page(addr)` is present in the oldest frame, and the next allocation must evict it. */
    ghost predicate OwnTurn(addr: nat)
      reads this, space, clock, disk, disk.ide
    {
      space.free == {} && clock.queue != [] && clock.queue[0] == Ppn(EntryOf(Now(), Page(addr)))
    }

    /** A frame can be had and filled for a page whose tables are there.  A page that is present
        already must first lose its frame to the allocation. */
    ghost predicate Obtains(addr: nat)
      reads this, space, clock, disk, disk.ide
    {
      (space.free != {} || OldestFits()) && (Present(addr) ==> OwnTurn(addr))
    }

    lemma PresentContent(addr: nat)
      requires Valid() && UserPage(space.boot, Page(addr))
      ensures Present(addr) ==> Content(Now(), Page(addr)).Some?
    {
      hide Residency, Tree, Counted, Served, Granted;
      AlreadyPresent(Now(), space.kind, space.refs, space.free, Page(addr));
    }

    /** swap_in: a frame is filled with the bytes of the page's slot.  The entry is looked up
        after the allocation; if it still makes the page present, the slot it seems to name is
        out of range. */
    method SwapIn(addr: nat) returns (r: Option<nat>)
      requires UserPage(space.boot, Page(addr))
      requires Lost() || (Valid() && CanDraw() && TableOf(Now(), Page(addr)).Some? && EntryOf(Now(), Page(addr)) != 0)
      modifies this`data, space, clock, clock.links, disk.ide
      ensures r.None? <==> old(Lost()) || !old(Obtains(addr))
      ensures r.Some? ==> Held(r.value) && r.value in data && space.refs.Keys == old(space.refs).Keys
      ensures r.Some? ==> data == old(data)[r.value := data[r.value]]
      ensures r.Some? ==> Some(data[r.value]) == old(Content(Now(), Page(addr))) && !Present(addr)
      ensures r.Some? ==> SameContents(old(Now()), Now()) && KeepsAbsent(old(Now()), Now())
      ensures r.Some? ==> Took(r.value, old(Frames()), Frames())
    {
      hide Valid, Lost, Held, OldestFits, Content, Entry, TableOf, Page, UserPage, KeepsAbsent, SameContents;
      hide SameDirectories, Took, OneLeft;
      NotBoth();
      if Valid() {
        PresentContent(addr);
      }
      ghost var v0, p, frames0 := Now(), Page(addr), Frames();
      ghost var n;
      r, n := AllocPage();
      if r.Some? {
        ghost var v1 := Now();
        if n == 1 {
          LeftAt(v0, v1, r.value, p);
          TookFront(r.value, frames0, Frames());
        }
        EntryStays(v0, v1, p);
        var ok := FillFrame(r.value, addr);
        if !ok {
          return None;
        }
        SameTwice(v0, v1, Now());
        DataShowsNot(v0, v1, Now());
      }
    }

    /** The rest of swap_in, once a frame has been found. */
    method FillFrame(f: nat, addr: nat) returns (ok: bool)
      requires Held(f) && UserPage(space.boot, Page(addr)) && TableOf(Now(), Page(addr)).Some?
      requires EntryOf(Now(), Page(addr)) != 0
      modifies this`data, space
      ensures ok <==> !old(Present(addr))
      ensures ok ==> Held(f) && space.refs == old(space.refs) && f in data && data == old(data)[f := data[f]]
      ensures ok ==> space.mem == old(space.mem) && Frames() == old(Frames())
      ensures ok ==> Some(data[f]) == old(Content(Now(), Page(addr))) && SameContents(old(Now()), Now())
    {
      hide Residency, AddressSpace.Valid, Content, TableOf, EntryOf, Page, AllClear, Stored, Sites, SameContents;
      hide Clocks.FifoShape, Clocks.Clock.Valid, Areas.MmStruct.Valid, Departed, UserPage;
      var bytes;
      ok, bytes := ReadSlot(addr, clock.queue);
      if ok {
        FrameWrite(Now(), clock.queue, pra, f, bytes);
        DepartedData(Now(), pra, clock.hand, data[f := bytes]);
        StoredWrite(data, space.refs, f, bytes);
        data := data[f := bytes];
      }
    }

    /** Find the entry again and read the slot it names. */
    method ReadSlot(addr: nat, ghost q: seq<int>) returns (ok: bool, bytes: seq<Byte>)
      requires space.Valid() && Residency(Now(), q, pra) && disk.ide.Length == MAX_DISK_NSECS * SECTSIZE
      requires UserPage(space.boot, Page(addr)) && TableOf(Now(), Page(addr)).Some? && Stored(data, space.refs)
      requires EntryOf(Now(), Page(addr)) != 0
      modifies space
      ensures space.Valid() && space.mem == old(space.mem) && space.kind == old(space.kind)
      ensures space.refs == old(space.refs) && space.free == old(space.free)
      ensures ok <==> !old(Present(addr))
      ensures ok ==> |bytes| == PGSIZE && Content(Now(), Page(addr)) == Some(bytes)
    {
      hide Residency, Tree, Counted, Content, Missing, It, Page, GoodSlot, SlotData, SameEntries, Grown, User, Stored;
      hide LeafTable;
      ghost var p := Page(addr);
      TableIsThere(Now(), p);
      IsUser(Now(), p);
      var found, l, t := space.GetPte(addr, false);
      WalkEnd(space.root, space.boot, space.mem, space.kind, space.refs, space.free, p, l);
      if Present(addr) {
        StoredPage(data, space.refs, Ppn(EntryOf(Now(), p)));
        FrameIsNoSlot(EntryOf(Now(), p));
      } else {
        SlotContent(Now(), q, pra, p);
        SlotBytes(disk.ide[..], EntryOf(Now(), p) / 256);
      }
      ok, bytes := disk.SwapfsRead(space.EntryAt(l, t));
    }

    /** swap_in, page_insert and swap_map_swappable for a page that was swapped out. */
    method Reload(addr: nat, writable: bool) returns (ok: bool)
      requires UserPage(space.boot, Page(addr)) && addr == Page(addr) * PGSIZE
      requires Lost() || (Valid() && CanDraw() && TableOf(Now(), Page(addr)).Some? && EntryOf(Now(), Page(addr)) != 0)
      modifies this, space, clock, clock.links, disk.ide
      ensures ok <==> !old(Lost()) && old(Obtains(addr))
      ensures ok ==> Valid() && Served(old(Now()), Now(), Page(addr), writable)
      ensures ok ==> Drew(false, 0, old(Frames()), Frames(), Page(addr)) && space.refs.Keys == old(space.refs).Keys
    {
      hide Valid, Lost, Held, Obtains, Took, Drew, Content, EntryOf, TableOf, Page, UserPage, OtherContents;
      hide KeepsTables, KeepsAbsent, SameContents, Granted;
      ghost var v0, frames0, p := Now(), Frames(), Page(addr);
      var page := SwapIn(addr);
      ok := page.Some?;
      if ok {
        ghost var v1 := Now();
        Absent(v0, v1, p);
        TookThenDrew(page.value, frames0, Frames(), p);
        Install(page.value, addr, writable);
        AbsentTables(v0, v1);
        Composed(v0, v1, Now(), p);
      }
    }

    /** There are frames for the tables and for the page, the last one perhaps by eviction; if the
        page is present already, that eviction must take its frame. */
    ghost predicate Servable(addr: nat)
      reads this, space, clock, disk, disk.ide
    {
      && (Lacks(addr) < |space.free| || (Lacks(addr) == |space.free| && OldestFits()))
      && (Present(addr) ==> OwnTurn(addr))
    }

    ghost predicate Present(addr: nat)
      reads this, space, disk, disk.ide
    {
      Sv39.Valid(EntryOf(Now(), Page(addr)))
    }

    /** do_pgfault behind the search for the area: a fresh frame for an empty entry, else the
        page's slot. */
    method FaultIn(addr: nat, writable: bool) returns (r: Fault)
      requires Valid() && UserPage(space.boot, Page(addr)) && addr == Page(addr) * PGSIZE
      requires clock.queue != [] || Lacks(addr) < |space.free|
      modifies this, space, clock, clock.links, disk.ide
      ensures r == if old(Servable(addr)) then Handled else Panicked
      ensures r.Handled? ==> Valid() && Served(old(Now()), Now(), Page(addr), writable)
      ensures r.Handled? ==> space.refs.Keys == old(space.refs).Keys
      ensures r.Handled? ==> Drew(false, old(Lacks(addr)), old(Frames()), Frames(), Page(addr))
    {
      hide Valid, Lost, FrontFits, Drew, Served, EntryOf, TableOf, Page, UserPage, Missing, SameContents, KeepsAbsent;
      ghost var v0, frames0, n := Now(), Frames(), Lacks(addr);
      PresentHasTables(v0, Page(addr));
      var ok, l, t := WalkCreate(addr);
      if ok {
        NotBoth();
        ok := ServeAfter(addr, writable, l, t, v0, frames0, n);
      }
      r := if ok then Handled else Panicked;
    }

    /** The rest of do_pgfault when the walk has taken `n` frames for tables since `v` and `frames`. */
    method ServeAfter(addr: nat, writable: bool, l: nat, t: nat, ghost v: View, ghost frames: Pool, ghost n: nat)
      returns (ok: bool)
      requires UserPage(space.boot, Page(addr)) && addr == Page(addr) * PGSIZE && (Lost() || Valid())
      requires !Lost() ==> CanDraw() && TableOf(Now(), Page(addr)) == Some(l) && t == It(Page(addr))
      requires !Lost() ==> SameContents(v, Now()) && KeepsAbsent(v, Now())
      requires !Lost() ==> |space.free| == |frames.free| - n && clock.queue == frames.queue && pra == frames.pra
      modifies this, space, clock, clock.links, disk.ide
      ensures ok <==> !old(Lost()) && old(Obtains(addr))
      ensures ok ==> Valid() && Served(v, Now(), Page(addr), writable) && space.refs.Keys == old(space.refs).Keys
      ensures ok ==> Drew(false, n, frames, Frames(), Page(addr))
    {
      hide Valid, Lost, Obtains, Drew, Served, Page, UserPage, SameContents, KeepsAbsent, TableOf;
      ghost var v1, frames1 := Now(), Frames();
      ok := Serve(addr, writable, l, t);
      if ok {
        DrewAfterTables(n, frames, frames1, Frames(), Page(addr));
        ServedAfterTables(v, v1, Now(), Page(addr), writable);
      }
    }

    /** The end of do_pgfault, once the entry has been found. */
    method Serve(addr: nat, writable: bool, l: nat, t: nat) returns (ok: bool)
      requires UserPage(space.boot, Page(addr)) && addr == Page(addr) * PGSIZE
      requires Lost() || (Valid() && CanDraw() && TableOf(Now(), Page(addr)) == Some(l) && t == It(Page(addr)))
      modifies this, space, clock, clock.links, disk.ide
      ensures ok <==> !old(Lost()) && old(Obtains(addr))
      ensures ok ==> Valid() && Served(old(Now()), Now(), Page(addr), writable)
      ensures ok ==> Drew(false, 0, old(Frames()), Frames(), Page(addr)) && space.refs.Keys == old(space.refs).Keys
    {
      hide Valid, Lost, OldestFits, Drew, Served, Page, UserPage, It, OwnTurn;
      if space.EntryAt(l, t) == 0 {
        ok := PgdirAllocPage(addr, writable);
      } else {
        ok := Reload(addr, writable);
      }
    }

    /** A user address; if it lies in an area while nothing is on the list yet, the frames must do
        for its tables and its page. */
    ghost predicate Reaches(addr: nat)
      reads space, clock, mm
    {
      && addr < ADDRESSES && UserPage(space.boot, Page(addr))
      && (Areas.Scan(mm.list, mm.vmas, addr) == Areas.NULL || clock.queue != [] || Lacks(addr) < |space.free|)
    }

    /** The address lies in a writable area. */
    ghost predicate Writable(addr: nat)
      reads mm
    {
      var v := Areas.Scan(mm.list, mm.vmas, addr);
      v != Areas.NULL && mm.vmas[v].writable
    }

    /** The page of the address may be read and written. */
    ghost predicate Open(addr: nat)
      reads this, space, disk, disk.ide
    {
      Granted(EntryOf(Now(), Page(addr)), true)
    }

    /** How a page fault at an address must end. */
    ghost function FaultOutcome(addr: nat): Fault
      reads this, space, clock, mm, disk, disk.ide
    {
      if Areas.Scan(mm.list, mm.vmas, addr) == Areas.NULL then NotMapped
      else if Servable(addr) then Handled
      else Panicked
    }

    /** How an access to an address must end: a fault that grants no rights leaves it denied. */
    ghost function Outcome(addr: nat): Fault
      reads this, space, clock, mm, disk, disk.ide
    {
      if Open(addr) then Handled
      else if FaultOutcome(addr).Handled? && !Writable(addr) then Denied
      else FaultOutcome(addr)
    }

    /** do_pgfault. */
    method DoPgfault(addr: nat) returns (r: Fault)
      requires Valid() && Reaches(addr)
      modifies this, space, clock, clock.links, mm`mmapCache, disk.ide
      ensures r == old(FaultOutcome(addr))
      ensures !r.Panicked? ==> Valid() && (forall a :: old(Reaches(a)) ==> Reaches(a))
      ensures !r.Panicked? ==> space.refs.Keys == old(space.refs).Keys
      ensures r.NotMapped? ==> Now() == old(Now()) && Frames() == old(Frames())
      ensures r.Handled? ==> Served(old(Now()), Now(), Page(addr), Writable(addr))
      ensures r.Handled? ==> Drew(false, old(Lacks(addr)), old(Frames()), Frames(), Page(addr))
      ensures r.Handled? ==>
                var e := EntryOf(Now(), Page(addr));
                && e % 2 == 1 && e / 16 % 2 == 1 && e / 8 % 2 == 0 && e / 32 % 32 == 0
                && (e / 2 % 2 == 1 <==> Writable(addr)) && (e / 4 % 2 == 1 <==> Writable(addr))
    {
      hide Valid, Reaches, Servable, Served, Drew, EntryOf, Page, UserPage, OldestFits, Missing, Granted;
      var vma := FindArea(addr);
      if vma == Areas.NULL || mm.vmas[vma].start > addr {
        return NotMapped;
      }
      var start := addr / PGSIZE * PGSIZE;
      StartsPage(addr, start);
      r := FaultIn(start, mm.vmas[vma].writable);
      if r.Handled? {
        DrewListed(old(Lacks(addr)), old(Frames()), Frames(), Page(addr));
        ServedBits(old(Now()), Now(), Page(addr), Writable(addr));
        forall a | old(Reaches(a)) ensures Reaches(a) {
          StillReaches(a);
        }
      }
    }

    /** The search of do_pgfault, which shows in nothing else. */
    method FindArea(addr: nat) returns (v: int)
      requires Valid()
      modifies mm`mmapCache
      ensures Valid() && Now() == old(Now()) && Frames() == old(Frames()) && v == Areas.Scan(mm.list, mm.vmas, addr)
      ensures v != Areas.NULL ==> v in mm.vmas && Areas.Contains(mm.vmas[v], addr)
      ensures forall a :: Reaches(a) == old(Reaches(a))
      ensures Servable(addr) == old(Servable(addr))
    {
      hide Residency, AddressSpace.Valid, Clocks.Clock.Valid, Page, UserPage, Missing, OldestFits, Stored, EntryOf;
      hide Clocks.FifoShape, OwnTurn;
      v := mm.FindVma(addr);
    }

    /** Whether an address is in reach only depends on the frames until something is listed. */
    twostate lemma StillReaches(a: nat)
      requires old(Reaches(a)) && clock.queue != []
      requires mm.list == old(mm.list) && mm.vmas == old(mm.vmas)
      ensures Reaches(a)
    {
    }

    /** The start of an address's page lacks what the address lacks. */
    lemma StartsPage(addr: nat, start: nat)
      requires Reaches(addr) && start == addr / PGSIZE * PGSIZE
      requires Areas.Scan(mm.list, mm.vmas, addr) != Areas.NULL
      ensures Page(start) == Page(addr) && start == Page(start) * PGSIZE && UserPage(space.boot, Page(start))
      ensures Lacks(start) == Lacks(addr) && Servable(start) == Servable(addr)
      ensures clock.queue != [] || Lacks(start) < |space.free|
    {
      PageStart(addr);
    }

    // ---------------------------------------------------------- user accesses

    /** The walk of the hardware, which shows in nothing.  It faults on a page that gives no right
        to read or write. */
    method Lookup(addr: nat) returns (r: Option<nat>)
      requires Valid() && Reaches(addr)
      modifies space
      ensures Valid() && Now() == old(Now()) && Frames() == old(Frames()) && space.refs == old(space.refs)
      ensures forall a :: Reaches(a) == old(Reaches(a))
      ensures Outcome(addr) == old(Outcome(addr)) && FaultOutcome(addr) == old(FaultOutcome(addr))
      ensures Lacks(addr) == old(Lacks(addr))
      ensures r.Some? <==> Open(addr)
      ensures r.Some? ==> Backs(r.value, addr) && Served(Now(), Now(), Page(addr), true)
    {
      hide Residency, Tree, Counted, Served, Missing, FrontFits, Stored, Content, UserPage, SameEntries, Grown;
      hide Clocks.Clock.Valid, Areas.MmStruct.Valid, Clocks.FifoShape, Page;
      AlreadyPresent(Now(), space.kind, space.refs, space.free, Page(addr));
      IsUser(Now(), Page(addr));
      TableIsThere(Now(), Page(addr));
      var found, l, t := space.GetPte(addr, false);
      if found && Granted(space.EntryAt(l, t), true) {
        r := Some(Ppn(space.EntryAt(l, t)));
      } else {
        r := None;
      }
    }

    /** Frame `f` holds the page of an address, which is open. */
    ghost predicate Backs(f: nat, addr: nat)
      reads this, space, disk, disk.ide
    {
      && Open(addr) && f == Ppn(EntryOf(Now(), Page(addr)))
      && f in data && |data[f]| == PGSIZE && Content(Now(), Page(addr)) == Some(data[f])
    }

    /** A user access as the hardware and the trap handler make it: walk the tables, and on a
        miss fault and walk again.  Denied means that the second walk faults too. */
    method Translate(addr: nat) returns (r: Fault, f: nat)
      requires Valid() && Reaches(addr)
      modifies this, space, clock, clock.links, mm`mmapCache, disk.ide
      ensures r == old(Outcome(addr))
      ensures !r.Panicked? ==> Valid() && (forall a :: old(Reaches(a)) ==> Reaches(a))
      ensures !r.Panicked? ==> space.refs.Keys == old(space.refs).Keys
      ensures r.NotMapped? ==> Now() == old(Now()) && Frames() == old(Frames())
      ensures r.Handled? ==> Backs(f, addr)
      ensures r.Handled? || r.Denied? ==> Served(old(Now()), Now(), Page(addr), r.Handled?)
      ensures r.Handled? || r.Denied? ==>
                Drew(old(Open(addr)), old(Lacks(addr)), old(Frames()), Frames(), Page(addr))
    {
      hide Valid, Reaches, Served, EntryOf, Page, Servable, Backs, Missing, Granted;
      r := Handled;
      var frame := Lookup(addr);
      if frame.None? {
        r := DoPgfault(addr);
        if !r.Handled? {
          return r, 0;
        }
        ServedIsOpen(addr, old(Now()), Writable(addr));
        frame := Lookup(addr);
        if frame.None? {
          return Denied, 0;
        }
      }
      f := frame.value;
    }

    /** An open page is one that user code may read and write but not execute. */
    lemma OpenBits(addr: nat)
      ensures Open(addr) ==>
                var e := EntryOf(Now(), Page(addr));
                e % 2 == 1 && e / 2 % 2 == 1 && e / 4 % 2 == 1 && e / 8 % 2 == 0 && e / 16 % 2 == 1
    {
      GrantBits(EntryOf(Now(), Page(addr)), true);
    }

    lemma ServedIsOpen(addr: nat, v: View, writable: bool)
      requires Served(v, Now(), Page(addr), writable)
      ensures Open(addr) == writable
    {
    }

    /** A user load.  `page` is the page's bytes. */
    method Load(addr: nat) returns (r: Fault, b: Byte, ghost page: seq<Byte>)
      requires Valid() && Reaches(addr)
      modifies this, space, clock, clock.links, mm`mmapCache, disk.ide
      ensures r == old(Outcome(addr))
      ensures !r.Panicked? ==> Valid() && (forall a :: old(Reaches(a)) ==> Reaches(a))
      ensures !r.Panicked? ==> space.refs.Keys == old(space.refs).Keys
      ensures r.NotMapped? ==> Now() == old(Now()) && Frames() == old(Frames())
      ensures r.Handled? ==> Accessed(old(Now()), Now(), Page(addr), page, page)
      ensures r.Handled? ==> PGOFF(addr) < |page| && b == page[PGOFF(addr)]
      ensures r.Denied? ==> Served(old(Now()), Now(), Page(addr), false)
      ensures r.Handled? || r.Denied? ==>
                Drew(old(Open(addr)), old(Lacks(addr)), old(Frames()), Frames(), Page(addr))
    {
      hide Valid, Reaches, Outcome, Content, EntryOf, Page, OtherContents, KeepsTables, Missing, Drew, Granted;
      var f;
      r, f := Translate(addr);
      b, page := 0, [];
      if r.Handled? {
        b, page := data[f][PGOFF(addr)], data[f];
      }
    }

    /** A user store. */
    method Store(addr: nat, b: Byte) returns (r: Fault, ghost page: seq<Byte>)
      requires Valid() && Reaches(addr)
      modifies this, space, clock, clock.links, mm`mmapCache, disk.ide
      ensures r == old(Outcome(addr))
      ensures !r.Panicked? ==> Valid() && (forall a :: old(Reaches(a)) ==> Reaches(a))
      ensures !r.Panicked? ==> space.refs.Keys == old(space.refs).Keys
      ensures r.NotMapped? ==> Now() == old(Now()) && Frames() == old(Frames())
      ensures r.Handled? ==> PGOFF(addr) < |page|
      ensures r.Handled? ==> Accessed(old(Now()), Now(), Page(addr), page, page[PGOFF(addr) := b])
      ensures r.Denied? ==> Served(old(Now()), Now(), Page(addr), false)
      ensures r.Handled? || r.Denied? ==>
                Drew(old(Open(addr)), old(Lacks(addr)), old(Frames()), Frames(), Page(addr))
    {
      hide Valid, Reaches, Outcome, Content, EntryOf, Page, OtherContents, Served, Accessed, Missing, Drew, UserPage;
      hide Backs;
      var f;
      page := [];
      ReachesUser(addr);
      r, f := Translate(addr);
      if r.Handled? {
        ghost var v1 := Now();
        page := Poke(addr, f, b);
        StoredThrough(old(Now()), v1, Now(), Page(addr), page, page[PGOFF(addr) := b]);
      }
    }

    /** The store itself, into the frame of a present page. */
    method Poke(addr: nat, f: nat, b: Byte) returns (ghost page: seq<Byte>)
      requires Valid() && UserPage(space.boot, Page(addr)) && Backs(f, addr)
      modifies this`data
      ensures Valid() && Frames() == old(Frames()) && Now().mem == old(Now()).mem
      ensures OtherContents(old(Now()), Now(), Page(addr))
      ensures PGOFF(addr) < |page| == PGSIZE && old(Content(Now(), Page(addr))) == Some(page)
      ensures Content(Now(), Page(addr)) == Some(page[PGOFF(addr) := b])
    {
      hide Residency, Tree, Counted, Content, OtherContents, Stored, UserPage, Page;
      hide Clocks.FifoShape, Clocks.Frames, Clocks.Tracked, Clocks.Stale, Lists.Ring, Areas.Sorted;
      page := data[f];
      var bytes := data[f][PGOFF(addr) := b];
      FramesAreApart(Now(), clock.queue, pra, Page(addr), bytes);
      StoredWrite(data, space.refs, f, bytes);
      data := data[f := bytes];
    }

    /** While every page ever touched has a slot, no eviction can fail. */
    lemma NeverStuck()
      requires Valid() && TouchedFit(Now()) && clock.queue != []
      ensures OldestFits()
    {
      FrontFacts(Now(), clock.queue, pra);
      AlreadyPresent(Now(), space.kind, space.refs, space.free, Page(pra[clock.queue[0]]));
    }

    lemma ReachesUser(addr: nat)
      requires Reaches(addr)
      ensures addr < ADDRESSES && UserPage(space.boot, Page(addr))
    {
    }
  }

  /** A page's bytes were `before`, unless it was never touched, and are now `after`; every other
      page's bytes, and the tables, are as they were. */
  ghost predicate Accessed(v: View, w: View, p: nat, before: seq<Byte>, after: seq<Byte>) {
    && (Content(v, p).Some? ==> Content(v, p) == Some(before))
    && Content(w, p) == Some(after) && |before| == |after| == PGSIZE && Granted(EntryOf(w, p), true)
    && OtherContents(v, w, p) && KeepsTables(v, w)
  }

  lemma ServedBits(v: View, w: View, p: nat, writable: bool)
    requires Served(v, w, p, writable)
    ensures var e := EntryOf(w, p);
            && e % 2 == 1 && e / 16 % 2 == 1 && e / 8 % 2 == 0 && e / 32 % 32 == 0
            && (e / 2 % 2 == 1 <==> writable) && (e / 4 % 2 == 1 <==> writable)
  {
    GrantBits(EntryOf(w, p), writable);
  }

  lemma PresentHasTables(v: View, p: nat)
    ensures Sv39.Valid(EntryOf(v, p)) ==> Missing(v.root, v.mem, p) == 0
  {
  }

  lemma IsUser(v: View, p: nat)
    ensures UserPage(v.boot, p) <==> p < PAGES && User(v.boot, p)
  {
  }

  lemma GrantIsSmall(writable: bool)
    ensures Grant(writable) < 1024
  {
  }

  /** A page whose entry was not empty still has one that is not. */
  lemma EntryStays(v: View, w: View, p: nat)
    requires SameContents(v, w) && KeepsAbsent(v, w) && UserPage(v.boot, p)
    requires EntryOf(v, p) != 0 && (Sv39.Valid(EntryOf(v, p)) ==> Content(v, p).Some?)
    ensures EntryOf(w, p) != 0 && Content(w, p) == Content(v, p) && (TableOf(v, p).Some? ==> TableOf(w, p).Some?)
  {
  }

  lemma TookFront(f: nat, a: Pool, b: Pool)
    requires Took(f, a, b) && a.free == {}
    ensures a.queue != [] && f == a.queue[0]
  {
  }

  /** A page that was served and then had its frame written. */
  lemma StoredThrough(v: View, w: View, x: View, p: nat, before: seq<Byte>, after: seq<Byte>)
    requires Served(v, w, p, true) && Content(w, p) == Some(before) && |before| == |after| == PGSIZE
    requires OtherContents(w, x, p) && x.mem == w.mem && Content(x, p) == Some(after)
    ensures Accessed(v, x, p, before, after)
  {
    OthersTwice(v, w, x, p);
    hide Content;
  }

  lemma GrewEntry(v: View, queue: seq<int>, refs: map<nat, int>, w: View, queue': seq<int>, refs': map<nat, int>,
                  p: nat)
    requires Grew(v, queue, refs, w, queue', refs') && UserPage(v.boot, p)
    ensures EntryOf(w, p) == EntryOf(v, p)
    ensures queue' == queue && refs'.Keys == refs.Keys && SameContents(v, w) && KeepsAbsent(v, w)
  {
    SameKeepsAbsent(v, w);
  }

  lemma ServedAfterTables(v: View, w: View, x: View, p: nat, writable: bool)
    requires SameContents(v, w) && KeepsAbsent(v, w) && UserPage(w.boot, p) && Served(w, x, p, writable)
    ensures Served(v, x, p, writable)
  {
    AbsentTables(v, w);
    Composed(v, w, x, p);
  }
}
