/** Demand paging refines a flat memory: a whole run of loads and stores returns what an
    array of bytes with some initial contents would return. */
module FlatMemory {
  import opened Sv39
  import opened Wrappers
  import opened PageTables
  import opened SwapDisk
  import opened PageViews
  import opened Paging
  import Clocks = Replacement
  import Areas = VmaList

  datatype Op = Load(addr: nat) | Store(addr: nat, b: Byte)

  /** A plain memory: bytes by page, with no tables, frames or slots. */
  type Flat = map<nat, seq<Byte>>

  function ByteAt(m: Flat, addr: nat): Byte {
    if Page(addr) in m && PGOFF(addr) < |m[Page(addr)]| then m[Page(addr)][PGOFF(addr)] else 0
  }

  function Step(m: Flat, op: Op): Flat {
    if op.Store? && Page(op.addr) in m && PGOFF(op.addr) < |m[Page(op.addr)]|
    then m[Page(op.addr) := m[Page(op.addr)][PGOFF(op.addr) := op.b]] else m
  }

  function Out(m: Flat, op: Op): Option<Byte> {
    if op.Load? then Some(ByteAt(m, op.addr)) else None
  }

  function Outs(m: Flat, ops: seq<Op>): (r: seq<Option<Byte>>)
    ensures |r| == |ops|
  {
    if ops == [] then [] else [Out(m, ops[0])] + Outs(Step(m, ops[0]), ops[1..])
  }

  function After(m: Flat, ops: seq<Op>): Flat {
    if ops == [] then m else After(Step(m, ops[0]), ops[1..])
  }

  /** The byte last stored to an address among the first `i` operations, else the initial one. */
  function LastByte(m: Flat, ops: seq<Op>, i: nat, addr: nat): Byte
    requires i <= |ops|
  {
    if i == 0 then ByteAt(m, addr)
    else if ops[i - 1].Store? && ops[i - 1].addr == addr then ops[i - 1].b
    else LastByte(m, ops, i - 1, addr)
  }

  ghost predicate HasPage(m: Flat, addr: nat) {
    addr < ADDRESSES && Page(addr) in m && |m[Page(addr)]| == PGSIZE
  }

  lemma AddressSplits(a: nat, c: nat)
    requires a < ADDRESSES && c < ADDRESSES && Page(a) == Page(c) && PGOFF(a) == PGOFF(c)
    ensures a == c
  {
  }

  lemma StepKeepsPages(m: Flat, op: Op, addr: nat)
    requires HasPage(m, addr)
    ensures HasPage(Step(m, op), addr)
  {
  }

  lemma StepByte(m: Flat, op: Op, addr: nat)
    requires HasPage(m, addr) && HasPage(m, op.addr)
    ensures ByteAt(Step(m, op), addr) == if op.Store? && op.addr == addr then op.b else ByteAt(m, addr)
  {
    if op.Store? && Page(op.addr) == Page(addr) && PGOFF(op.addr) == PGOFF(addr) {
      AddressSplits(op.addr, addr);
    }
  }

  lemma {:induction false} LastByteShift(m: Flat, ops: seq<Op>, i: nat, addr: nat)
    requires 0 < i <= |ops| && HasPage(m, addr) && HasPage(m, ops[0].addr)
    ensures LastByte(m, ops, i, addr) == LastByte(Step(m, ops[0]), ops[1..], i - 1, addr)
  {
    if i == 1 {
      StepByte(m, ops[0], addr);
    } else {
      LastByteShift(m, ops, i - 1, addr);
      assert ops[1..][i - 2] == ops[i - 1];
    }
  }

  /** The flat memory is what a reader expects: each load returns the byte last stored there. */
  lemma {:induction false} LoadsSeeLastStore(m: Flat, ops: seq<Op>, i: nat)
    requires i < |ops| && ops[i].Load? && forall j :: 0 <= j < |ops| ==> HasPage(m, ops[j].addr)
    ensures Outs(m, ops)[i] == Some(LastByte(m, ops, i, ops[i].addr))
  {
    if i > 0 {
      forall j | 0 <= j < |ops| - 1 ensures HasPage(Step(m, ops[0]), ops[1..][j].addr) {
        assert ops[1..][j] == ops[j + 1];
        StepKeepsPages(m, ops[0], ops[j + 1].addr);
      }
      LoadsSeeLastStore(Step(m, ops[0]), ops[1..], i - 1);
      LastByteShift(m, ops, i, ops[i].addr);
    }
  }

  // ------------------------------------------------------------ the machine

  /** Every page that was touched has in `m` the bytes that the system keeps for it. */
  ghost predicate Mirrors(v: View, m: Flat) {
    forall p: nat :: UserPage(v.boot, p) && Content(v, p).Some? ==> p in m && Content(v, p) == Some(m[p])
  }

  /** One access, seen from the memory that holds the bytes afterwards. */
  lemma OneAccess(v: View, w: View, p: nat, before: seq<Byte>, after: seq<Byte>, m: Flat)
    requires Accessed(v, w, p, before, after) && UserPage(v.boot, p) && Mirrors(w, m)
    ensures Mirrors(v, m[p := before]) && p in m && m[p] == after
  {
    hide Content;
  }

  lemma StepBack(m: Flat, op: Op, before: seq<Byte>)
    requires Page(op.addr) in m && PGOFF(op.addr) < |before|
    requires m[Page(op.addr)] == if op.Store? then before[PGOFF(op.addr) := op.b] else before
    ensures var init := m[Page(op.addr) := before];
            && Step(init, op) == m
            && Out(init, op) == if op.Load? then Some(before[PGOFF(op.addr)]) else None
  {
    var init := m[Page(op.addr) := before];
    assert m == init[Page(op.addr) := m[Page(op.addr)]];
  }

  /** All pages accessed are pages of the memory. */
  ghost predicate Touched(m: Flat, ops: seq<Op>) {
    forall i :: 0 <= i < |ops| ==> HasPage(m, ops[i].addr)
  }

  /** What an access does to the pages, and what it returns. */
  ghost predicate Effect(v: View, w: View, op: Op, out: Option<Byte>, before: seq<Byte>) {
    && op.addr < ADDRESSES && UserPage(v.boot, Page(op.addr)) && PGOFF(op.addr) < |before|
    && Accessed(v, w, Page(op.addr), before, if op.Store? then before[PGOFF(op.addr) := op.b] else before)
    && out == if op.Load? then Some(before[PGOFF(op.addr)]) else None
  }

  /** The addresses lie in writable areas, their tables exist, and their pages have swap slots
      and are not closed by an earlier fault. */
  ghost predicate InAreas(v: View, list: seq<int>, vmas: map<int, Areas.Vma>, ops: seq<Op>) {
    forall i :: 0 <= i < |ops| ==>
      && InWritable(list, vmas, ops[i].addr) && Page(ops[i].addr) <= 5
      && TableOf(v, Page(ops[i].addr)).Some? && UserPage(v.boot, Page(ops[i].addr))
      && !Granted(EntryOf(v, Page(ops[i].addr)), false)
  }

  ghost predicate InWritable(list: seq<int>, vmas: map<int, Areas.Vma>, addr: nat) {
    var a := Areas.Scan(list, vmas, addr);
    a != Areas.NULL && vmas[a].writable
  }

  lemma EffectFits(v: View, w: View, op: Op, out: Option<Byte>, before: seq<Byte>)
    requires Effect(v, w, op, out, before) && TouchedFit(v) && Page(op.addr) <= 5
    ensures TouchedFit(w)
  {
    hide Content;
  }

  lemma EffectKeepsTables(v: View, w: View, op: Op, out: Option<Byte>, before: seq<Byte>, list: seq<int>,
                          vmas: map<int, Areas.Vma>,
                          ops: seq<Op>)
    requires Effect(v, w, op, out, before) && InAreas(v, list, vmas, ops)
    ensures InAreas(w, list, vmas, ops)
  {
    hide Content, EntryOf, TableOf, InWritable, Page, GoodSlot;
  }

  lemma InAreasSplit(v: View, list: seq<int>, vmas: map<int, Areas.Vma>, ops: seq<Op>)
    requires ops != []
    ensures InAreas(v, list, vmas, ops) ==> InAreas(v, list, vmas, [ops[0]]) && InAreas(v, list, vmas, ops[1..])
  {
  }

  /** An access put in front of a run. */
  lemma Prepend(v: View, w: View, before: seq<Byte>, m: Flat, ops: seq<Op>, out: Option<Byte>, outs: seq<Option<Byte>>)
    returns (init: Flat)
    requires ops != [] && Effect(v, w, ops[0], out, before) && Mirrors(w, m)
    requires |outs| < |ops| && outs == Outs(m, ops[1..][..|outs|]) && Touched(m, ops[1..][..|outs|])
    ensures var n := |outs| + 1;
            && [out] + outs == Outs(init, ops[..n]) && Touched(init, ops[..n])
            && After(init, ops[..n]) == After(m, ops[1..][..|outs|])
    ensures Mirrors(v, init)
  {
    var op, p, n := ops[0], Page(ops[0].addr), |outs| + 1;
    OneAccess(v, w, p, before, if op.Store? then before[PGOFF(op.addr) := op.b] else before, m);
    init := m[p := before];
    assert |before| == PGSIZE;
    hide Mirrors, Content, OtherContents, UserPage, Accessed;
    StepBack(m, op, before);
    assert ops[..n][1..] == ops[1..][..|outs|] && ops[..n][0] == op;
    forall i | 0 <= i < n ensures HasPage(init, ops[..n][i].addr) {
      assert i > 0 ==> ops[..n][i] == ops[1..][..|outs|][i - 1];
    }
  }

  /** With its table in place and slots for every page touched, an access inside the areas
      cannot fail. */
  lemma MustSucceed(vm: Vm, op: Op)
    requires vm.Valid() && vm.Reaches(op.addr) && TouchedFit(vm.Now())
    requires InAreas(vm.Now(), vm.mm.list, vm.mm.vmas, [op])
    ensures vm.Outcome(op.addr) == Handled && Page(op.addr) <= 5
  {
    hide AddressSpace.Valid, Clocks.Clock.Valid, Areas.MmStruct.Valid, Clocks.FifoShape, Stored, TouchedFit;
    hide Page, GoodSlot, EntryOf, TableOf, Missing, UserPage;
    assert [op][0] == op;
    TableIsThere(vm.Now(), Page(op.addr));
    NotClosed(vm.Now(), vm.clock.queue, vm.pra, Page(op.addr));
    if vm.clock.queue != [] {
      vm.NeverStuck();
    }
  }

  /** A present page that is not closed is open. */
  lemma NotClosed(v: View, queue: seq<int>, pra: map<int, nat>, p: nat)
    requires Residency(v, queue, pra) && UserPage(v.boot, p) && !Granted(EntryOf(v, p), false)
    ensures Sv39.Valid(EntryOf(v, p)) <==> Granted(EntryOf(v, p), true)
  {
    assert PageOk(v, queue, pra, p);
  }

  lemma LoadEffect(v: View, w: View, addr: nat, page: seq<Byte>)
    requires addr < ADDRESSES && UserPage(v.boot, Page(addr)) && Accessed(v, w, Page(addr), page, page)
    ensures PGOFF(addr) < |page| && Effect(v, w, Load(addr), Some(page[PGOFF(addr)]), page)
  {
  }

  lemma StoreEffect(v: View, w: View, addr: nat, b: Byte, page: seq<Byte>)
    requires addr < ADDRESSES && UserPage(v.boot, Page(addr)) && PGOFF(addr) < |page|
    requires Accessed(v, w, Page(addr), page, page[PGOFF(addr) := b])
    ensures Effect(v, w, Store(addr, b), None, page)
  {
  }

  /** What a failed access leaves: the pages that were touched hold the bytes they held. */
  ghost predicate Unharmed(v: View, w: View) {
    SameSpace(v, w) && forall p: nat :: UserPage(v.boot, p) && Content(v, p).Some? ==> Content(w, p) == Content(v, p)
  }

  lemma DeniedIsUnharmed(v: View, w: View, p: nat)
    requires Served(v, w, p, false)
    ensures Unharmed(v, w)
  {
    hide Content;
  }

  lemma UnharmedMirrors(v: View, w: View, m: Flat)
    requires Unharmed(v, w) && Mirrors(w, m)
    ensures Mirrors(v, m)
  {
    hide Content;
  }

  method DoLoad(vm: Vm, addr: nat) returns (r: Fault, out: Option<Byte>, ghost before: seq<Byte>)
    requires vm.Valid() && vm.Reaches(addr)
    modifies vm, vm.space, vm.clock, vm.clock.links, vm.mm`mmapCache, vm.disk.ide
    ensures r == old(vm.Outcome(addr))
    ensures !r.Panicked? ==> vm.Valid() && (forall a :: old(vm.Reaches(a)) ==> vm.Reaches(a))
    ensures r.NotMapped? || r.Denied? ==> Unharmed(old(vm.Now()), vm.Now())
    ensures r.Handled? ==> Effect(old(vm.Now()), vm.Now(), Load(addr), out, before)
  {
    hide Vm.Valid, Vm.Outcome, Vm.Reaches, Vm.Open, Vm.Lacks, Accessed, UserPage, Drew, Page, PGOFF, Served;
    hide Unharmed, Effect;
    vm.ReachesUser(addr);
    var b;
    r, b, before := vm.Load(addr);
    out := Some(b);
    Endings(r, old(vm.Now()), vm.Now(), Page(addr));
    if r.Handled? {
      LoadEffect(old(vm.Now()), vm.Now(), addr, before);
    }
  }

  lemma Endings(r: Fault, v: View, w: View, p: nat)
    requires r.NotMapped? ==> w == v
    requires r.Denied? ==> Served(v, w, p, false)
    ensures r.NotMapped? || r.Denied? ==> Unharmed(v, w)
  {
    if r.Denied? {
      DeniedIsUnharmed(v, w, p);
    }
  }

  method DoStore(vm: Vm, addr: nat, b: Byte) returns (r: Fault, out: Option<Byte>, ghost before: seq<Byte>)
    requires vm.Valid() && vm.Reaches(addr)
    modifies vm, vm.space, vm.clock, vm.clock.links, vm.mm`mmapCache, vm.disk.ide
    ensures r == old(vm.Outcome(addr))
    ensures !r.Panicked? ==> vm.Valid() && (forall a :: old(vm.Reaches(a)) ==> vm.Reaches(a))
    ensures r.NotMapped? || r.Denied? ==> Unharmed(old(vm.Now()), vm.Now())
    ensures r.Handled? ==> Effect(old(vm.Now()), vm.Now(), Store(addr, b), out, before)
  {
    hide Vm.Valid, Vm.Outcome, Vm.Reaches, Vm.Open, Vm.Lacks, Accessed, UserPage, Drew, Page, PGOFF, Served;
    hide Unharmed, Effect;
    vm.ReachesUser(addr);
    r, before := vm.Store(addr, b);
    out := None;
    Endings(r, old(vm.Now()), vm.Now(), Page(addr));
    if r.Handled? {
      StoreEffect(old(vm.Now()), vm.Now(), addr, b, before);
    }
  }

  /** One access, and why it cannot fail while there are tables and slots. */
  method Access(vm: Vm, op: Op) returns (r: Fault, out: Option<Byte>, ghost before: seq<Byte>)
    requires vm.Valid() && vm.Reaches(op.addr)
    modifies vm, vm.space, vm.clock, vm.clock.links, vm.mm`mmapCache, vm.disk.ide
    ensures r == old(vm.Outcome(op.addr))
    ensures !r.Panicked? ==> vm.Valid() && (forall a :: old(vm.Reaches(a)) ==> vm.Reaches(a))
    ensures r.NotMapped? || r.Denied? ==> Unharmed(old(vm.Now()), vm.Now())
    ensures r.Handled? ==> Effect(old(vm.Now()), vm.Now(), op, out, before)
    ensures TouchedFit(old(vm.Now())) && InAreas(old(vm.Now()), vm.mm.list, vm.mm.vmas, [op]) ==>
              r.Handled? && TouchedFit(vm.Now())
  {
    hide TouchedFit, InAreas, GoodSlot, Vm.Valid, Vm.Outcome, Vm.Reaches, Effect, Unharmed;
    ghost var v := vm.Now();
    ghost var fit := TouchedFit(v) && InAreas(v, vm.mm.list, vm.mm.vmas, [op]);
    if fit {
      MustSucceed(vm, op);
    }
    match op {
      case Load(addr) => r, out, before := DoLoad(vm, addr);
      case Store(addr, b) => r, out, before := DoStore(vm, addr, b);
    }
    if fit {
      EffectFits(v, vm.Now(), op, out, before);
    }
  }

  /** A run of accesses, up to the first one that fails.  `init` is the flat memory it refines. */
  method Run(vm: Vm, ops: seq<Op>) returns (r: Fault, outs: seq<Option<Byte>>, ghost init: Flat)
    requires vm.Valid() && forall i :: 0 <= i < |ops| ==> vm.Reaches(ops[i].addr)
    modifies vm, vm.space, vm.clock, vm.clock.links, vm.mm`mmapCache, vm.disk.ide
    ensures |outs| <= |ops| && (r.Handled? <==> |outs| == |ops|)
    ensures outs == Outs(init, ops[..|outs|]) && Touched(init, ops[..|outs|]) && Mirrors(old(vm.Now()), init)
    ensures !r.Panicked? ==> vm.Valid() && Mirrors(vm.Now(), After(init, ops[..|outs|]))
    ensures TouchedFit(old(vm.Now())) && InAreas(old(vm.Now()), vm.mm.list, vm.mm.vmas, ops) ==> r.Handled?
    decreases |ops|
  {
    hide Vm.Valid, Vm.Reaches, Accessed, Vm.Outcome, Mirrors, Outs, Touched, TouchedFit, InAreas, Effect, Page, PGOFF;
    hide Unharmed;
    ghost var v := vm.Now();
    outs, init := [], Snapshot(v);
    EmptyRun(init, ops);
    r := Handled;
    if ops != [] {
      var out;
      ghost var before;
      InAreasSplit(v, vm.mm.list, vm.mm.vmas, ops);
      r, out, before := Access(vm, ops[0]);
      if r.Handled? {
        ghost var w := vm.Now();
        if InAreas(v, vm.mm.list, vm.mm.vmas, ops) {
          EffectKeepsTables(v, w, ops[0], out, before, vm.mm.list, vm.mm.vmas, ops[1..]);
        }
        r, outs, init := Run(vm, ops[1..]);
        init := Prepend(v, w, before, init, ops, out, outs);
        outs := [out] + outs;
      } else if !r.Panicked? {
        init := Snapshot(vm.Now());
        UnharmedMirrors(v, vm.Now(), init);
        EmptyRun(init, ops);
      }
    }
  }

  lemma EmptyRun(m: Flat, ops: seq<Op>)
    ensures ops[..0] == [] && Outs(m, []) == [] && After(m, []) == m && Touched(m, [])
  {
  }

  /** Every load of a run reads back the byte last stored to its address, however often the
      page was evicted and reloaded in between. */
  method ReadBack(vm: Vm, ops: seq<Op>) returns (r: Fault, outs: seq<Option<Byte>>, ghost init: Flat)
    requires vm.Valid() && forall i :: 0 <= i < |ops| ==> vm.Reaches(ops[i].addr)
    modifies vm, vm.space, vm.clock, vm.clock.links, vm.mm`mmapCache, vm.disk.ide
    ensures |outs| <= |ops| && (r.Handled? <==> |outs| == |ops|) && Mirrors(old(vm.Now()), init)
    ensures forall i :: 0 <= i < |outs| && ops[i].Load? ==> outs[i] == Some(LastByte(init, ops, i, ops[i].addr))
  {
    hide Vm.Valid, Vm.Reaches, Mirrors, TouchedFit, InAreas, Outs, Touched, LastByte;
    r, outs, init := Run(vm, ops);
    ghost var done := ops[..|outs|];
    forall i | 0 <= i < |outs| && ops[i].Load? ensures outs[i] == Some(LastByte(init, ops, i, ops[i].addr)) {
      assert done[i] == ops[i];
      LoadOfRun(init, ops, |outs|, i);
    }
  }

  lemma LoadOfRun(m: Flat, ops: seq<Op>, n: nat, i: nat)
    requires i < n <= |ops| && Touched(m, ops[..n]) && ops[i].Load?
    ensures Outs(m, ops[..n])[i] == Some(LastByte(m, ops, i, ops[i].addr))
  {
    assert ops[..n][i] == ops[i];
    LoadsSeeLastStore(m, ops[..n], i);
    PrefixLast(m, ops, n, i, ops[i].addr);
  }

  lemma {:induction false} PrefixLast(m: Flat, ops: seq<Op>, n: nat, i: nat, addr: nat)
    requires i <= n <= |ops|
    ensures LastByte(m, ops[..n], i, addr) == LastByte(m, ops, i, addr)
  {
    if i > 0 {
      assert ops[..n][i - 1] == ops[i - 1];
      PrefixLast(m, ops, n, i - 1, addr);
    }
  }

  /** The bytes of all touched pages as one flat memory. */
  ghost function Snapshot(v: View): (m: Flat)
    ensures Mirrors(v, m)
  {
    map p | 0 <= p < PAGES && UserPage(v.boot, p) && Content(v, p).Some? :: Content(v, p).value
  }
}
