/** The three-level page tables of pmm.c with the frames' reference counts.  A table is
    the frame that holds it; `kind` records which place in the tree each table frame has. */
module PageTables {
  import opened Sv39
  import opened Wrappers

  datatype Node = Root | Mid(i1: nat) | Leaf(i1: nat, i0: nat)

  type Memory = map<nat, seq<nat>>
  type Kinds = map<nat, Node>

  function Child(n: Node, i: nat): Node
    requires !n.Leaf?
  {
    if n.Root? then Mid(i) else Leaf(n.i1, i)
  }

  /** The entries of directory `f` that hold no table pointer: the kernel's own slots of the root. */
  predicate Reserved(boot: set<nat>, n: Node, i: nat) {
    n.Root? && i in boot
  }

  /** The tables form a tree: every directory entry in use leads to the one table that has
      that place, and every table is reached so. */
  ghost predicate Tree(root: nat, boot: set<nat>, mem: Memory, kind: Kinds) {
    && kind.Keys == mem.Keys && root in kind && kind[root] == Root
    && (forall f :: f in mem ==> |mem[f]| == NPTEENTRY)
    && (forall f, i: nat {:trigger mem[f][i]} ::
          f in kind && f in mem && i < |mem[f]| ==> DownOk(boot, mem, kind, f, i))
    && (forall f :: f in kind ==> UpOk(root, boot, mem, kind, f))
  }

  /** A directory entry in use has the bits of a pointer, valid and user but neither readable,
      writable nor executable (Sv39 would take it for a leaf), and leads to the table of its place. */
  ghost predicate DownOk(boot: set<nat>, mem: Memory, kind: Kinds, f: nat, i: nat)
    requires f in kind && f in mem && i < |mem[f]|
  {
    !kind[f].Leaf? && !Reserved(boot, kind[f], i) && mem[f][i] != 0 ==>
      mem[f][i] % 1024 == 17 && Ppn(mem[f][i]) in kind && kind[Ppn(mem[f][i])] == Child(kind[f], i)
  }

  /** Entry `i` of directory `d` points at table `f`. */
  ghost predicate PointsTo(mem: Memory, d: nat, i: nat, f: nat) {
    d in mem && i < |mem[d]| && Valid(mem[d][i]) && Ppn(mem[d][i]) == f
  }

  ghost predicate UpOk(root: nat, boot: set<nat>, mem: Memory, kind: Kinds, f: nat)
    requires f in kind
  {
    match kind[f]
    case Root => f == root
    case Mid(i1) => i1 !in boot && PointsTo(mem, root, i1, f)
    case Leaf(i1, i0) => i1 !in boot && exists m :: m in kind && kind[m] == Mid(i1) && PointsTo(mem, m, i0, f)
  }

  /** No two tables share a place, so the tree has no aliases. */
  lemma NoAliases(root: nat, boot: set<nat>, mem: Memory, kind: Kinds, f: nat, g: nat)
    requires Tree(root, boot, mem, kind) && f in kind && g in kind && kind[f] == kind[g]
    ensures f == g
  {
    assert UpOk(root, boot, mem, kind, f) && UpOk(root, boot, mem, kind, g);
    if kind[f].Leaf? {
      var m :| m in kind && kind[m] == Mid(kind[f].i1) && PointsTo(mem, m, kind[f].i0, f);
      var n :| n in kind && kind[n] == Mid(kind[f].i1) && PointsTo(mem, n, kind[f].i0, g);
      assert UpOk(root, boot, mem, kind, m) && UpOk(root, boot, mem, kind, n);
    }
  }

  // ------------------------------------------------------------------ walks

  /** The table that entry `i` of `d` leads to. */
  function Follow(mem: Memory, d: nat, i: nat): Option<nat> {
    if d in mem && i < |mem[d]| && Valid(mem[d][i]) then Some(Ppn(mem[d][i])) else None
  }

  /** The page table that the walk of a page ends in, if it exists. */
  function LeafTable(root: nat, mem: Memory, page: nat): Option<nat> {
    var m := Follow(mem, root, I1(page));
    if m.None? then None else Follow(mem, m.value, I0(page))
  }

  /** The entry that the walk of a page ends at; zero if a table is missing. */
  function Entry(root: nat, mem: Memory, page: nat): nat {
    var l := LeafTable(root, mem, page);
    if l.Some? && l.value in mem && It(page) < |mem[l.value]| then mem[l.value][It(page)] else 0
  }

  /** How many tables the walk of a page lacks. */
  function Missing(root: nat, mem: Memory, page: nat): nat {
    var m := Follow(mem, root, I1(page));
    if m.None? then 2 else if Follow(mem, m.value, I0(page)).None? then 1 else 0
  }

  /** Pages outside the kernel's own part of the address space. */
  predicate User(boot: set<nat>, page: nat) {
    I1(page) !in boot
  }

  /** Where the walk of a user page leads. */
  lemma WalkKinds(root: nat, boot: set<nat>, mem: Memory, kind: Kinds, page: nat)
    requires Tree(root, boot, mem, kind) && User(boot, page)
    ensures var m := Follow(mem, root, I1(page));
            && (m.Some? ==> m.value in kind && kind[m.value] == Mid(I1(page)))
            && var l := LeafTable(root, mem, page);
            (l.Some? ==> l.value in kind && kind[l.value] == Leaf(I1(page), I0(page)))
  {
    var m := Follow(mem, root, I1(page));
    if m.Some? {
      assert DownOk(boot, mem, kind, root, I1(page));
      var l := Follow(mem, m.value, I0(page));
      if l.Some? {
        assert DownOk(boot, mem, kind, m.value, I0(page));
      }
    }
  }

  // --------------------------------------------------------- adding a table

  function Zeros(): (z: seq<nat>)
    ensures |z| == NPTEENTRY && forall i :: 0 <= i < |z| ==> z[i] == 0
  {
    seq(NPTEENTRY, i => 0)
  }

  /** Memory after a zeroed table in frame `f` has been hung into entry `i` of `d`. */
  function WithTable(mem: Memory, d: nat, i: nat, f: nat): Memory
    requires d in mem && i < |mem[d]|
  {
    var dir: seq<nat> := mem[d][i := PteCreate(f, PTE_U + PTE_V)];
    mem[f := Zeros()][d := dir]
  }

  /** Entry `i` of directory `d` is free for a table in the new frame `f`. */
  ghost predicate CanHang(boot: set<nat>, mem: Memory, kind: Kinds, d: nat, i: nat, f: nat) {
    && d in kind && d in mem && i < NPTEENTRY && |mem[d]| == NPTEENTRY && !kind[d].Leaf? && !Reserved(boot, kind[d], i)
    && !Valid(mem[d][i]) && f !in kind
  }

  lemma HangKeepsTree(root: nat, boot: set<nat>, mem: Memory, kind: Kinds, d: nat, i: nat, f: nat)
    requires Tree(root, boot, mem, kind) && CanHang(boot, mem, kind, d, i, f)
    ensures Tree(root, boot, WithTable(mem, d, i, f), kind[f := Child(kind[d], i)])
  {
    var mem', kind' := WithTable(mem, d, i, f), kind[f := Child(kind[d], i)];
    PteRoundTrip(f, PTE_U + PTE_V);
    forall g, j: nat | g in kind' && g in mem' && j < |mem'[g]| ensures DownOk(boot, mem', kind', g, j) {
      if g != f && !(g == d && j == i) {
        assert mem'[g][j] == mem[g][j];
        assert DownOk(boot, mem, kind, g, j);
      }
    }
    forall g | g in kind' ensures UpOk(root, boot, mem', kind', g) {
      HangUp(root, boot, mem, kind, d, i, f, g);
    }
  }

  lemma HangUp(root: nat, boot: set<nat>, mem: Memory, kind: Kinds, d: nat, i: nat, f: nat, g: nat)
    requires Tree(root, boot, mem, kind) && CanHang(boot, mem, kind, d, i, f)
    requires g in kind || g == f
    ensures var mem', kind' := WithTable(mem, d, i, f), kind[f := Child(kind[d], i)];
            UpOk(root, boot, mem', kind', g)
  {
    var mem', kind' := WithTable(mem, d, i, f), kind[f := Child(kind[d], i)];
    PteRoundTrip(f, PTE_U + PTE_V);
    assert forall x, j: nat :: x in kind && PointsTo(mem, x, j, g) ==> PointsTo(mem', x, j, g);
    if g == f {
      assert UpOk(root, boot, mem, kind, d);
      assert PointsTo(mem', d, i, f);
    } else {
      assert UpOk(root, boot, mem, kind, g);
      if kind[g].Leaf? {
        var m :| m in kind && kind[m] == Mid(kind[g].i1) && PointsTo(mem, m, kind[g].i0, g);
        assert m in kind' && kind'[m] == Mid(kind'[g].i1) && PointsTo(mem', m, kind'[g].i0, g);
      }
    }
  }

  /** A new table is all zero, so no walk of a user page ends at a different entry. */
  lemma HangKeepsEntries(root: nat, boot: set<nat>, mem: Memory, kind: Kinds, d: nat, i: nat, f: nat, page: nat)
    requires Tree(root, boot, mem, kind) && CanHang(boot, mem, kind, d, i, f) && User(boot, page)
    ensures Entry(root, WithTable(mem, d, i, f), page) == Entry(root, mem, page)
    ensures LeafTable(root, mem, page).Some? ==>
              LeafTable(root, WithTable(mem, d, i, f), page) == LeafTable(root, mem, page)
  {
    var mem' := WithTable(mem, d, i, f);
    PteRoundTrip(f, PTE_U + PTE_V);
    WalkKinds(root, boot, mem, kind, page);
    var m := Follow(mem, root, I1(page));
    if m.Some? {
      assert m.value != root;
      var l := Follow(mem, m.value, I0(page));
      if l.Some? {
        assert mem'[l.value] == mem[l.value];
      }
    }
  }

  // ------------------------------------------------------ writing one entry

  function WithEntry(mem: Memory, l: nat, t: nat, v: nat): Memory
    requires l in mem && t < |mem[l]|
  {
    var table: seq<nat> := mem[l][t := v];
    mem[l := table]
  }

  lemma WriteKeepsTree(root: nat, boot: set<nat>, mem: Memory, kind: Kinds, l: nat, t: nat, v: nat)
    requires Tree(root, boot, mem, kind) && l in kind && kind[l].Leaf? && l in mem && t < |mem[l]|
    ensures Tree(root, boot, WithEntry(mem, l, t, v), kind)
  {
    var mem' := WithEntry(mem, l, t, v);
    forall g, j: nat | g in kind && g in mem' && j < |mem'[g]| ensures DownOk(boot, mem', kind, g, j) {
      assert DownOk(boot, mem, kind, g, j);
    }
    forall g | g in kind ensures UpOk(root, boot, mem', kind, g) {
      assert UpOk(root, boot, mem, kind, g);
      assert forall x, j: nat :: x != l && PointsTo(mem, x, j, g) ==> PointsTo(mem', x, j, g);
      if kind[g].Leaf? {
        var m :| m in kind && kind[m] == Mid(kind[g].i1) && PointsTo(mem, m, kind[g].i0, g);
        assert m in kind && kind[m] == Mid(kind[g].i1) && PointsTo(mem', m, kind[g].i0, g);
      }
    }
  }

  /** One write changes one page's entry: the tables have no aliases. */
  lemma WriteChangesOne(root: nat, boot: set<nat>, mem: Memory, kind: Kinds, page: nat, l: nat, v: nat, other: nat)
    requires Tree(root, boot, mem, kind) && User(boot, page) && User(boot, other)
    requires page < 0x800_0000 && other < 0x800_0000
    requires LeafTable(root, mem, page) == Some(l)
    ensures l in mem && It(page) < |mem[l]|
    ensures LeafTable(root, WithEntry(mem, l, It(page), v), other) == LeafTable(root, mem, other)
    ensures Entry(root, WithEntry(mem, l, It(page), v), other) == if other == page then v else Entry(root, mem, other)
  {
    WalkKinds(root, boot, mem, kind, page);
    WalkKinds(root, boot, mem, kind, other);
    var mem' := WithEntry(mem, l, It(page), v);
    assert Follow(mem', root, I1(other)) == Follow(mem, root, I1(other));
    var m := Follow(mem, root, I1(other));
    if m.Some? {
      assert Follow(mem', m.value, I0(other)) == Follow(mem, m.value, I0(other));
    }
    if LeafTable(root, mem, other) == Some(l) && It(other) == It(page) {
      PageFromIndices(page, other);
    }
  }

  // ------------------------------------------------------- reference counts

  ghost predicate Maps(mem: Memory, kind: Kinds, l: nat, t: nat, f: nat) {
    l in kind && kind[l].Leaf? && l in mem && t < NPTEENTRY && t < |mem[l]| && Valid(mem[l][t]) && Ppn(mem[l][t]) == f
  }

  /** The page-table entries that map frame `f`. */
  ghost function Sites(mem: Memory, kind: Kinds, f: nat): set<(nat, nat)> {
    set l: nat, t: nat | l in kind && t < NPTEENTRY && Maps(mem, kind, l, t, f) :: (l, t)
  }

  /** Every table is counted once, every other frame as often as it is mapped, and the free ones
      are mapped nowhere. */
  ghost predicate Counted(mem: Memory, kind: Kinds, refs: map<nat, int>, free: set<nat>) {
    && (forall f :: f in kind ==> f in refs && f !in free && refs[f] == 1)
    && (forall f :: f in free ==> f in refs)
    && (forall l: nat, t: nat, f: nat :: Maps(mem, kind, l, t, f) ==> f in refs && f !in kind && f !in free)
    && (forall f :: f in refs && f !in kind ==> refs[f] == |Sites(mem, kind, f)|)
  }

  lemma FreeIsUnmapped(mem: Memory, kind: Kinds, refs: map<nat, int>, free: set<nat>, f: nat)
    requires Counted(mem, kind, refs, free) && f in free
    ensures Sites(mem, kind, f) == {} && refs[f] == 0
  {
    assert forall l: nat, t: nat :: !Maps(mem, kind, l, t, f);
  }

  lemma SitesWrite(mem: Memory, kind: Kinds, l: nat, t: nat, v: nat, f: nat)
    requires l in kind && kind[l].Leaf? && l in mem && |mem[l]| == NPTEENTRY && t < NPTEENTRY
    ensures Sites(WithEntry(mem, l, t, v), kind, f) ==
            Sites(mem, kind, f) - {(l, t)} + (if Valid(v) && Ppn(v) == f then {(l, t)} else {})
  {
    var mem' := WithEntry(mem, l, t, v);
    forall x: nat, y: nat
      ensures Maps(mem', kind, x, y, f) <==>
              if x == l && y == t then Valid(v) && Ppn(v) == f else Maps(mem, kind, x, y, f)
    {
    }
  }

  lemma SitesHang(boot: set<nat>, mem: Memory, kind: Kinds, d: nat, i: nat, f: nat, g: nat)
    requires CanHang(boot, mem, kind, d, i, f)
    ensures Sites(WithTable(mem, d, i, f), kind[f := Child(kind[d], i)], g) == Sites(mem, kind, g)
  {
    var mem', kind' := WithTable(mem, d, i, f), kind[f := Child(kind[d], i)];
    forall x: nat, y: nat ensures Maps(mem', kind', x, y, g) <==> Maps(mem, kind, x, y, g) {
    }
  }

  lemma HangKeepsCounts(boot: set<nat>, mem: Memory, kind: Kinds, refs: map<nat, int>, free: set<nat>, d: nat,
                        i: nat, f: nat)
    requires CanHang(boot, mem, kind, d, i, f) && Counted(mem, kind, refs, free) && f in free
    ensures Counted(WithTable(mem, d, i, f), kind[f := Child(kind[d], i)], refs[f := 1], free - {f})
  {
    var mem', kind' := WithTable(mem, d, i, f), kind[f := Child(kind[d], i)];
    FreeIsUnmapped(mem, kind, refs, free, f);
    forall g ensures Sites(mem', kind', g) == Sites(mem, kind, g) {
      SitesHang(boot, mem, kind, d, i, f, g);
    }
    forall x: nat, y: nat, g: nat | Maps(mem', kind', x, y, g) ensures Maps(mem, kind, x, y, g) {
    }
    forall x: nat, y: nat, g: nat | Maps(mem, kind, x, y, g) ensures g != f {
      assert g !in free;
    }
  }

  /** What one write does to the counts: the frame mapped before loses a site, the one
      mapped afterwards gains it. */
  lemma WriteCounts(mem: Memory, kind: Kinds, refs: map<nat, int>, free: set<nat>, l: nat, t: nat, v: nat,
                    refs': map<nat, int>, free': set<nat>)
    requires Counted(mem, kind, refs, free)
    requires l in kind && kind[l].Leaf? && l in mem && |mem[l]| == NPTEENTRY && t < NPTEENTRY
    requires refs'.Keys == refs.Keys && forall f :: f in free' ==> f in refs
    requires forall f :: f in kind && f in refs ==> f !in free' && refs'[f] == refs[f]
    requires Valid(v) ==> Ppn(v) in refs && Ppn(v) !in kind
    requires forall f :: f in refs && f !in kind ==>
               refs'[f] == refs[f] - (if Valid(mem[l][t]) && Ppn(mem[l][t]) == f then 1 else 0)
                                   + (if Valid(v) && Ppn(v) == f then 1 else 0)
    requires forall f :: f in refs && f !in kind && refs'[f] > 0 ==> f !in free'
    ensures Counted(WithEntry(mem, l, t, v), kind, refs', free')
  {
    var mem' := WithEntry(mem, l, t, v);
    forall f | f in refs && f !in kind ensures refs'[f] == |Sites(mem', kind, f)| {
      CountAfterWrite(mem, kind, l, t, v, f);
    }
    forall x: nat, y: nat, f: nat | Maps(mem', kind, x, y, f) ensures f in refs' && f !in kind && f !in free' {
      MapsAfterWrite(mem, kind, l, t, v, x, y, f);
      if f in refs && f !in kind {
        CountAfterWrite(mem, kind, l, t, v, f);
        MappedIsCounted(mem', kind, x, y, f);
      }
    }
  }

  lemma CountAfterWrite(mem: Memory, kind: Kinds, l: nat, t: nat, v: nat, f: nat)
    requires l in kind && kind[l].Leaf? && l in mem && |mem[l]| == NPTEENTRY && t < NPTEENTRY
    ensures |Sites(WithEntry(mem, l, t, v), kind, f)| ==
            |Sites(mem, kind, f)| - (if Valid(mem[l][t]) && Ppn(mem[l][t]) == f then 1 else 0)
                                  + (if Valid(v) && Ppn(v) == f then 1 else 0)
  {
    SitesWrite(mem, kind, l, t, v, f);
    assert (l, t) in Sites(mem, kind, f) <==> Maps(mem, kind, l, t, f);
  }

  lemma MapsAfterWrite(mem: Memory, kind: Kinds, l: nat, t: nat, v: nat, x: nat, y: nat, f: nat)
    requires l in kind && kind[l].Leaf? && l in mem && |mem[l]| == NPTEENTRY && t < NPTEENTRY
    requires Maps(WithEntry(mem, l, t, v), kind, x, y, f)
    ensures Maps(mem, kind, x, y, f) || (Valid(v) && Ppn(v) == f)
  {
  }

  lemma MappedIsCounted(mem: Memory, kind: Kinds, l: nat, t: nat, f: nat)
    requires Maps(mem, kind, l, t, f)
    ensures |Sites(mem, kind, f)| > 0
  {
    assert (l, t) in Sites(mem, kind, f);
  }

  // --------------------------------------------------------- the operations

  const PAGES: nat := 0x800_0000

  function Word(mem: Memory, f: nat, i: nat): nat {
    if f in mem && i < |mem[f]| then mem[f][i] else 0
  }

  /** The kernel's own root entries are as before. */
  ghost predicate SameBoot(root: nat, boot: set<nat>, mem: Memory, mem': Memory) {
    forall i :: i in boot ==> Word(mem', root, i) == Word(mem, root, i)
  }

  /** Every page has the entry it had, and every table is where it was. */
  ghost predicate SameEntries(root: nat, boot: set<nat>, mem: Memory, mem': Memory) {
    && SameBoot(root, boot, mem, mem')
    && forall p: nat :: p < PAGES && User(boot, p) ==>
      && Entry(root, mem', p) == Entry(root, mem, p)
      && (LeafTable(root, mem, p).Some? ==> LeafTable(root, mem', p) == LeafTable(root, mem, p))
  }

  /** Every page but one has the entry it had, and every table is where it was. */
  ghost predicate OneEntry(root: nat, boot: set<nat>, mem: Memory, mem': Memory, page: nat, v: nat) {
    && Entry(root, mem', page) == v && SameBoot(root, boot, mem, mem')
    && forall p: nat :: p < PAGES && User(boot, p) ==>
      && (p != page ==> Entry(root, mem', p) == Entry(root, mem, p))
      && (LeafTable(root, mem, p).Some? ==> LeafTable(root, mem', p) == LeafTable(root, mem, p))
  }

  /** Free frames became tables, and nothing that is mapped noticed. */
  ghost predicate Grown(mem: Memory, kind: Kinds, refs: map<nat, int>, free: set<nat>,
                        mem': Memory, kind': Kinds, refs': map<nat, int>, free': set<nat>) {
    && free' <= free && kind'.Keys == kind.Keys + (free - free') && refs'.Keys == refs.Keys
    && (forall f :: f in refs && f !in free - free' ==> refs'[f] == refs[f])
    && (forall f :: Sites(mem', kind', f) == Sites(mem, kind, f))
  }

  lemma GrownTwice(mem: Memory, kind: Kinds, refs: map<nat, int>, free: set<nat>,
                   mem1: Memory, kind1: Kinds, refs1: map<nat, int>, free1: set<nat>,
                   mem2: Memory, kind2: Kinds, refs2: map<nat, int>, free2: set<nat>)
    requires Grown(mem, kind, refs, free, mem1, kind1, refs1, free1)
    requires Grown(mem1, kind1, refs1, free1, mem2, kind2, refs2, free2)
    ensures Grown(mem, kind, refs, free, mem2, kind2, refs2, free2)
  {
    assert free - free2 == (free - free1) + (free1 - free2);
    forall f ensures Sites(mem2, kind2, f) == Sites(mem, kind, f) {
      assert Sites(mem1, kind1, f) == Sites(mem, kind, f);
    }
  }

  lemma GrownNot(mem: Memory, kind: Kinds, refs: map<nat, int>, free: set<nat>)
    ensures Grown(mem, kind, refs, free, mem, kind, refs, free)
  {
  }

  lemma SameEntriesTwice(root: nat, boot: set<nat>, mem: Memory, mem1: Memory, mem2: Memory)
    requires SameEntries(root, boot, mem, mem1) && SameEntries(root, boot, mem1, mem2)
    ensures SameEntries(root, boot, mem, mem2)
  {
  }

  lemma Hung(root: nat, boot: set<nat>, mem: Memory, kind: Kinds, refs: map<nat, int>, free: set<nat>, d: nat,
             i: nat, f: nat)
    requires Tree(root, boot, mem, kind) && Counted(mem, kind, refs, free) && CanHang(boot, mem, kind, d, i, f)
    requires f in free
    ensures var mem', kind' := WithTable(mem, d, i, f), kind[f := Child(kind[d], i)];
            && Tree(root, boot, mem', kind') && Counted(mem', kind', refs[f := 1], free - {f})
            && SameEntries(root, boot, mem, mem')
            && Grown(mem, kind, refs, free, mem', kind', refs[f := 1], free - {f})
            && Follow(mem', d, i) == Some(f)
  {
    hide Tree, Counted, WithTable, Child, Entry, LeafTable, Sites, CanHang, SameBoot;
    HangsThere(boot, mem, kind, d, i, f);
    var mem', kind' := WithTable(mem, d, i, f), kind[f := Child(kind[d], i)];
    HangKeepsTree(root, boot, mem, kind, d, i, f);
    HangKeepsCounts(boot, mem, kind, refs, free, d, i, f);
    HangKeepsBoot(root, boot, mem, kind, d, i, f);
    FreeIsFrame(mem, kind, refs, free);
    forall p: nat | p < PAGES && User(boot, p)
      ensures Entry(root, mem', p) == Entry(root, mem, p)
      ensures LeafTable(root, mem, p).Some? ==> LeafTable(root, mem', p) == LeafTable(root, mem, p)
    {
      HangKeepsEntries(root, boot, mem, kind, d, i, f, p);
    }
    forall g ensures Sites(mem', kind', g) == Sites(mem, kind, g) {
      SitesHang(boot, mem, kind, d, i, f, g);
    }
    assert free - (free - {f}) == {f};
  }

  lemma HangsThere(boot: set<nat>, mem: Memory, kind: Kinds, d: nat, i: nat, f: nat)
    requires CanHang(boot, mem, kind, d, i, f)
    ensures d in mem && i < |mem[d]| && d in kind && !kind[d].Leaf? && f !in kind
  {
  }

  lemma FreeIsFrame(mem: Memory, kind: Kinds, refs: map<nat, int>, free: set<nat>)
    requires Counted(mem, kind, refs, free)
    ensures forall f :: f in free ==> f in refs
  {
  }

  /** The new pointer is in none of the kernel's own root entries, and leads to the new table. */
  lemma HangKeepsBoot(root: nat, boot: set<nat>, mem: Memory, kind: Kinds, d: nat, i: nat, f: nat)
    requires Tree(root, boot, mem, kind) && CanHang(boot, mem, kind, d, i, f)
    ensures SameBoot(root, boot, mem, WithTable(mem, d, i, f)) && Follow(WithTable(mem, d, i, f), d, i) == Some(f)
  {
    PteRoundTrip(f, PTE_U + PTE_V);
  }

  /** An unmapped frame may be counted among the free ones. */
  lemma Returned(mem: Memory, kind: Kinds, refs: map<nat, int>, free: set<nat>, f: nat)
    requires Counted(mem, kind, refs, free) && f in refs && f !in kind && Sites(mem, kind, f) == {}
    ensures Counted(mem, kind, refs, free + {f})
  {
    forall l: nat, t: nat ensures !Maps(mem, kind, l, t, f) {
      assert Maps(mem, kind, l, t, f) ==> (l, t) in Sites(mem, kind, f);
    }
  }

  lemma FreshHang(boot: set<nat>, mem: Memory, kind: Kinds, refs: map<nat, int>, free: set<nat>, d: nat, i: nat, f: nat)
    requires Counted(mem, kind, refs, free) && d in kind && d in mem && |mem[d]| == NPTEENTRY && i < NPTEENTRY
    requires !kind[d].Leaf? && !Reserved(boot, kind[d], i) && !Valid(mem[d][i]) && f in free
    ensures CanHang(boot, mem, kind, d, i, f)
  {
  }

  lemma EmptyTree(root: nat, boot: set<nat>, refs: map<nat, int>, frames: set<nat>)
    requires root !in frames && refs.Keys == frames + {root} && refs[root] == 1
    requires forall f :: f in frames ==> refs[f] == 0
    ensures var mem: Memory, kind: Kinds := map[root := Zeros()], map[root := Root];
            && Tree(root, boot, mem, kind) && Counted(mem, kind, refs, frames)
            && forall p: nat :: Entry(root, mem, p) == 0 && Missing(root, mem, p) == 2
  {
    var mem: Memory, kind: Kinds := map[root := Zeros()], map[root := Root];
    forall f, i: nat | f in kind && f in mem && i < |mem[f]| ensures DownOk(boot, mem, kind, f, i) {
      assert mem[f][i] == 0;
    }
    forall f | f in kind ensures UpOk(root, boot, mem, kind, f) {
      assert kind[f] == Root;
    }
    forall f ensures Sites(mem, kind, f) == {} {
      assert forall l: nat, t: nat :: !Maps(mem, kind, l, t, f);
    }
  }

  lemma HungPointers(mem: Memory, d: nat, i: nat, f: nat)
    requires d in mem && i < |mem[d]| && !Valid(mem[d][i]) && f !in mem
    ensures var mem' := WithTable(mem, d, i, f);
            KeepsPointers(mem, mem') && Follow(mem', d, i) == Some(f) && forall j :: Follow(mem', f, j).None?
  {
    PteRoundTrip(f, PTE_U + PTE_V);
  }

  /** Frames that hold no table become free exactly when they lose their last mapping. */
  ghost predicate FreedAtLast(kind: Kinds, refs: map<nat, int>, free: set<nat>, refs': map<nat, int>, free': set<nat>) {
    && refs'.Keys == refs.Keys
    && forall f :: f in refs && f !in kind ==> (f in free' <==> f in free || (refs[f] > 0 && refs'[f] == 0))
  }

  lemma NothingFreed(kind: Kinds, refs: map<nat, int>, free: set<nat>)
    ensures FreedAtLast(kind, refs, free, refs, free)
  {
  }

  /** The frame that is no longer mapped once `page` takes the place of entry `e`. */
  function Replaced(refs: map<nat, int>, e: nat, page: nat): set<nat> {
    if e % 2 == 1 && Ppn(e) != page && Ppn(e) in refs && refs[Ppn(e)] == 1 then {Ppn(e)} else {}
  }

  /** It is the same frame before and after tables are built, and it is not free. */
  lemma SameReplaced(root: nat, boot: set<nat>, mem: Memory, mem': Memory, kind: Kinds, refs: map<nat, int>,
                     refs': map<nat, int>, free': set<nat>, p: nat, l: nat, page: nat)
    requires SameEntries(root, boot, mem, mem') && Tree(root, boot, mem', kind) && Counted(mem', kind, refs', free')
    requires SameCounts(kind, refs, refs') && p < PAGES && User(boot, p) && LeafTable(root, mem', p) == Some(l)
    ensures Replaced(refs', Entry(root, mem', p), page) == Replaced(refs, Entry(root, mem, p), page)
    ensures Replaced(refs', Entry(root, mem', p), page) !! free'
  {
    WalkEnd(root, boot, mem', kind, refs', free', p, l);
  }

  /** The counts of the frames that hold no table are as before. */
  ghost predicate SameCounts(kind: Kinds, refs: map<nat, int>, refs': map<nat, int>) {
    refs'.Keys == refs.Keys && forall f :: f in refs && f !in kind ==> refs'[f] == refs[f]
  }

  lemma PageIsSmall(la: nat)
    ensures Page(la) < PAGES
  {
  }

  lemma SizeOfUnion(a: set<nat>, b: set<nat>)
    requires a !! b
    ensures |a + b| == |a| + |b|
  {
  }

  lemma GrownFreesNone(mem: Memory, kind: Kinds, refs: map<nat, int>, free: set<nat>,
                       mem': Memory, kind': Kinds, refs': map<nat, int>, free': set<nat>, page: nat)
    requires Grown(mem, kind, refs, free, mem', kind', refs', free')
    ensures FreedAtLast(kind', refs, free, refs', free') && SameCounts(kind', refs, refs')
    ensures page in refs && page !in kind && page !in free ==> page in refs' && page !in kind' && page !in free'
  {
  }

  lemma FreedTwice(kind: Kinds, refs: map<nat, int>, free: set<nat>, refs1: map<nat, int>, free1: set<nat>,
                   refs2: map<nat, int>, free2: set<nat>)
    requires FreedAtLast(kind, refs, free, refs1, free1) && FreedAtLast(kind, refs1, free1, refs2, free2)
    requires SameCounts(kind, refs, refs1)
    ensures FreedAtLast(kind, refs, free, refs2, free2)
  {
  }

  lemma OneAfterSame(root: nat, boot: set<nat>, mem: Memory, mem1: Memory, mem2: Memory, page: nat, v: nat)
    requires SameEntries(root, boot, mem, mem1) && OneEntry(root, boot, mem1, mem2, page, v)
    ensures OneEntry(root, boot, mem, mem2, page, v)
  {
  }

  lemma WriteTwice(mem: Memory, l: nat, t: nat, v: nat, w: nat)
    requires l in mem && t < |mem[l]|
    ensures WithEntry(WithEntry(mem, l, t, v), l, t, w) == WithEntry(mem, l, t, w)
  {
    assert mem[l][t := v][t := w] == mem[l][t := w];
  }

  lemma WriteDomain(mem: Memory, l: nat, t: nat, v: nat)
    requires l in mem && t < |mem[l]|
    ensures l in WithEntry(mem, l, t, v) && |WithEntry(mem, l, t, v)[l]| == |mem[l]|
  {
  }

  lemma OnlySite(mem: Memory, kind: Kinds, refs: map<nat, int>, free: set<nat>, l: nat, t: nat, f: nat)
    requires Counted(mem, kind, refs, free) && f in refs && f !in kind && Sites(mem, kind, f) == {(l, t)}
    ensures Maps(mem, kind, l, t, f) && refs[f] == 1
  {
    assert (l, t) in Sites(mem, kind, f);
  }

  /** What the operations rely on at a page-table entry. */
  lemma LeafFacts(root: nat, boot: set<nat>, mem: Memory, kind: Kinds, refs: map<nat, int>, free: set<nat>, l: nat,
                  t: nat)
    requires Tree(root, boot, mem, kind) && Counted(mem, kind, refs, free)
    requires l in kind && kind[l].Leaf? && t < NPTEENTRY
    ensures l in mem && |mem[l]| == NPTEENTRY
    ensures Valid(mem[l][t]) ==> var p := Ppn(mem[l][t]); p in refs && p !in kind && p !in free && refs[p] > 0
  {
    if Valid(mem[l][t]) {
      assert Maps(mem, kind, l, t, Ppn(mem[l][t]));
      MappedIsCounted(mem, kind, l, t, Ppn(mem[l][t]));
    }
  }

  /** Where a successful walk ends. */
  lemma WalkEnd(root: nat, boot: set<nat>, mem: Memory, kind: Kinds, refs: map<nat, int>, free: set<nat>, page: nat,
                l: nat)
    requires Tree(root, boot, mem, kind) && Counted(mem, kind, refs, free) && User(boot, page)
    requires LeafTable(root, mem, page) == Some(l)
    ensures l in kind && kind[l].Leaf? && l in mem && |mem[l]| == NPTEENTRY && It(page) < NPTEENTRY
    ensures var e := mem[l][It(page)];
            e == Entry(root, mem, page)
            && (Valid(e) ==> Ppn(e) in refs && Ppn(e) !in kind && Ppn(e) !in free && refs[Ppn(e)] > 0)
  {
    WalkKinds(root, boot, mem, kind, page);
    LeafFacts(root, boot, mem, kind, refs, free, l, It(page));
  }

  lemma Removed(root: nat, boot: set<nat>, mem: Memory, kind: Kinds, refs: map<nat, int>, free: set<nat>, page: nat,
                l: nat,
                refs': map<nat, int>, free': set<nat>)
    requires Tree(root, boot, mem, kind) && Counted(mem, kind, refs, free) && User(boot, page) && page < PAGES
    requires LeafTable(root, mem, page) == Some(l) && l in kind && kind[l].Leaf?
    requires l in mem && |mem[l]| == NPTEENTRY && Valid(mem[l][It(page)])
    requires var p := Ppn(mem[l][It(page)]);
             && p in refs && refs' == refs[p := refs[p] - 1] && free' == if refs[p] == 1 then free + {p} else free
    ensures var mem' := WithEntry(mem, l, It(page), 0);
            && Tree(root, boot, mem', kind) && Counted(mem', kind, refs', free')
            && OneEntry(root, boot, mem, mem', page, 0) && FreedAtLast(kind, refs, free, refs', free')
  {
    hide Tree, Counted, OneEntry, LeafTable, User;
    LeafFacts(root, boot, mem, kind, refs, free, l, It(page));
    FreeIsCounted(mem, kind, refs, free);
    WriteKeepsTree(root, boot, mem, kind, l, It(page), 0);
    WriteIsOne(root, boot, mem, kind, page, l, 0);
    NeverNegative(mem, kind, refs, free);
    WriteCounts(mem, kind, refs, free, l, It(page), 0, refs', free');
  }

  lemma NeverNegative(mem: Memory, kind: Kinds, refs: map<nat, int>, free: set<nat>)
    requires Counted(mem, kind, refs, free)
    ensures forall f :: f in refs && f !in kind ==> refs[f] >= 0
    ensures forall f :: f in free ==> refs[f] == 0
  {
    forall f | f in free ensures refs[f] == 0 {
      FreeIsUnmapped(mem, kind, refs, free, f);
    }
  }

  lemma WriteIsOne(root: nat, boot: set<nat>, mem: Memory, kind: Kinds, page: nat, l: nat, v: nat)
    requires Tree(root, boot, mem, kind) && User(boot, page) && page < PAGES && LeafTable(root, mem, page) == Some(l)
    ensures l in mem && It(page) < |mem[l]|
    ensures OneEntry(root, boot, mem, WithEntry(mem, l, It(page), v), page, v)
  {
    WriteChangesOne(root, boot, mem, kind, page, l, v, page);
    forall p: nat | p < PAGES && User(boot, p)
      ensures p != page ==> Entry(root, WithEntry(mem, l, It(page), v), p) == Entry(root, mem, p)
      ensures LeafTable(root, WithEntry(mem, l, It(page), v), p) == LeafTable(root, mem, p)
    {
      WriteChangesOne(root, boot, mem, kind, page, l, v, p);
    }
  }

  lemma Inserted(root: nat, boot: set<nat>, mem: Memory, kind: Kinds, refs: map<nat, int>, free: set<nat>, page: nat,
                 l: nat,
                 frame: nat, perm: nat, refs': map<nat, int>, free': set<nat>)
    requires Tree(root, boot, mem, kind) && Counted(mem, kind, refs, free) && User(boot, page) && page < PAGES
    requires LeafTable(root, mem, page) == Some(l) && l in kind && kind[l].Leaf?
    requires l in mem && |mem[l]| == NPTEENTRY && frame in refs && frame !in kind && frame !in free && perm < 1024
    requires var e := mem[l][It(page)];
             if !Valid(e) then refs' == refs[frame := refs[frame] + 1] && free' == free
             else if Ppn(e) == frame then refs' == refs && free' == free
             else && Ppn(e) in refs
                  && refs' == refs[frame := refs[frame] + 1][Ppn(e) := refs[Ppn(e)] - 1]
                  && free' == if refs[Ppn(e)] == 1 then free + {Ppn(e)} else free
    ensures var mem' := WithEntry(mem, l, It(page), PteCreate(frame, perm));
            && Tree(root, boot, mem', kind) && Counted(mem', kind, refs', free')
            && OneEntry(root, boot, mem, mem', page, PteCreate(frame, perm))
            && FreedAtLast(kind, refs, free, refs', free')
  {
    hide Tree, Counted, OneEntry, FreedAtLast, LeafTable, User, PteCreate, WithEntry;
    PteRoundTrip(frame, perm);
    LeafFacts(root, boot, mem, kind, refs, free, l, It(page));
    WriteKeepsTree(root, boot, mem, kind, l, It(page), PteCreate(frame, perm));
    WriteIsOne(root, boot, mem, kind, page, l, PteCreate(frame, perm));
    NeverNegative(mem, kind, refs, free);
    FreeIsCounted(mem, kind, refs, free);
    InsertedCounts(kind, refs, free, mem[l][It(page)], frame, refs', free');
    WriteCounts(mem, kind, refs, free, l, It(page), PteCreate(frame, perm), refs', free');
  }

  lemma FreeIsCounted(mem: Memory, kind: Kinds, refs: map<nat, int>, free: set<nat>)
    requires Counted(mem, kind, refs, free)
    ensures forall f :: f in free ==> f in refs && f !in kind
  {
  }

  /** The counts that page_insert leaves: the new frame gains a mapping, the old one loses it. */
  lemma InsertedCounts(kind: Kinds, refs: map<nat, int>, free: set<nat>, e: nat, frame: nat,
                       refs': map<nat, int>, free': set<nat>)
    requires frame in refs && frame !in kind && frame !in free
    requires forall f :: f in refs && f !in kind ==> refs[f] >= 0
    requires forall f :: f in free ==> f in refs && f !in kind && refs[f] == 0
    requires Valid(e) ==> Ppn(e) in refs && Ppn(e) !in kind && Ppn(e) !in free && refs[Ppn(e)] > 0
    requires if !Valid(e) then refs' == refs[frame := refs[frame] + 1] && free' == free
             else if Ppn(e) == frame then refs' == refs && free' == free
             else && refs' == refs[frame := refs[frame] + 1][Ppn(e) := refs[Ppn(e)] - 1]
                  && free' == if refs[Ppn(e)] == 1 then free + {Ppn(e)} else free
    ensures refs'.Keys == refs.Keys && forall f :: f in free' ==> f in refs && f !in kind
    ensures forall f :: f in refs && f in kind ==> refs'[f] == refs[f]
    ensures forall f :: f in refs && f !in kind ==>
              refs'[f] == refs[f] - (if Valid(e) && Ppn(e) == f then 1 else 0) + (if f == frame then 1 else 0)
    ensures forall f :: f in refs && f !in kind && refs'[f] > 0 ==> f !in free'
    ensures FreedAtLast(kind, refs, free, refs', free')
  {
  }

  class AddressSpace {
    const root: nat
    const boot: set<nat>
    var mem: Memory
    var refs: map<nat, int>
    var free: set<nat>
    ghost var kind: Kinds

    ghost predicate Valid()
      reads this
    {
      Tree(root, boot, mem, kind) && Counted(mem, kind, refs, free)
    }

    /** An empty root table beside a pool of free frames. */
    constructor (root: nat, boot: set<nat>, frames: set<nat>)
      requires root !in frames
      ensures Valid() && this.root == root && this.boot == boot && free == frames && kind == map[root := Root]
      ensures refs.Keys == frames + {root} && forall p: nat :: Entry(root, mem, p) == 0 && Missing(root, mem, p) == 2
    {
      this.root, this.boot := root, boot;
      mem, kind := map[root := Zeros()], map[root := Root];
      refs := map f | f in frames + {root} :: if f == root then 1 else 0;
      free := frames;
      new;
      EmptyTree(root, boot, refs, frames);
    }

    /** alloc_page without eviction: some free frame, or none. */
    method AllocFrame() returns (r: Option<nat>)
      requires Valid()
      modifies this`free
      ensures Valid()
      ensures r.None? <==> old(free) == {}
      ensures r.None? ==> free == old(free)
      ensures r.Some? ==> r.value in old(free) && free == old(free) - {r.value}
      ensures r.Some? ==> r.value in refs && r.value !in kind && refs[r.value] == 0 && Sites(mem, kind, r.value) == {}
    {
      if free == {} {
        return None;
      }
      var f :| f in free;
      FreeIsUnmapped(mem, kind, refs, free, f);
      free := free - {f};
      r := Some(f);
    }

    /** free_page of a frame that is mapped nowhere. */
    method FreeFrame(f: nat)
      requires Valid() && f in refs && f !in kind && Sites(mem, kind, f) == {}
      modifies this`refs, this`free
      ensures Valid() && free == old(free) + {f} && refs == old(refs)[f := 0]
    {
      forall l: nat, t: nat ensures !Maps(mem, kind, l, t, f) {
        assert Maps(mem, kind, l, t, f) ==> (l, t) in Sites(mem, kind, f);
      }
      refs := refs[f := 0];
      free := free + {f};
    }

    /** The creation step of get_pte, for either directory level. */
    method NewTable(d: nat, i: nat) returns (ok: bool)
      requires Valid() && d in kind && d in mem && i < NPTEENTRY && i < |mem[d]| && !kind[d].Leaf?
      requires !Reserved(boot, kind[d], i) && !Sv39.Valid(mem[d][i])
      modifies this
      ensures Valid() && SameEntries(root, boot, old(mem), mem)
      ensures Grown(old(mem), old(kind), old(refs), old(free), mem, kind, refs, free)
      ensures ok <==> old(free) != {}
      ensures !ok ==> mem == old(mem) && free == {}
      ensures ok ==> |free| == |old(free)| - 1
      ensures ok ==> exists f :: f in old(free) && f !in old(mem) && mem == WithTable(old(mem), d, i, f)
                                 && kind == old(kind)[f := Child(old(kind)[d], i)]
    {
      hide Tree, Counted, SameEntries, Grown, Follow, CanHang, WithTable, Child, Sites;
      ghost var kind0, refs0, free0 := kind, refs, free;
      TableLength(root, boot, mem, kind, d);
      var page := AllocFrame();
      ok := page.Some?;
      if ok {
        FreshHang(boot, mem, kind0, refs0, free0, d, i, page.value);
        Hung(root, boot, mem, kind0, refs0, free0, d, i, page.value);
        NotInMemory(root, boot, mem, kind, page.value);
        HangTable(d, i, page.value);
      } else {
        GrownNot(mem, kind, refs, free);
        SameEntriesNot(root, boot, mem);
      }
    }

    /** The new table is zeroed, counted once, and hung into the directory. */
    method HangTable(d: nat, i: nat, f: nat)
      requires Valid() && CanHang(boot, mem, kind, d, i, f)
      requires f in refs && f !in free && Sites(mem, kind, f) == {}
      modifies this
      ensures Valid() && SameEntries(root, boot, old(mem), mem) && Follow(mem, d, i) == Some(f)
      ensures mem == WithTable(old(mem), d, i, f) && kind == old(kind)[f := Child(old(kind)[d], i)]
      ensures refs == old(refs)[f := 1] && free == old(free)
      ensures KeepsPointers(old(mem), mem) && d in mem && |mem[d]| == NPTEENTRY && forall j :: Follow(mem, f, j).None?
    {
      hide Tree, Counted, SameEntries, Grown, Follow, Sites, KeepsPointers, WithTable, Child;
      NotInMemory(root, boot, mem, kind, f);
      HungPointers(mem, d, i, f);
      Returned(mem, kind, refs, free, f);
      Hung(root, boot, mem, kind, refs, free + {f}, d, i, f);
      assert free + {f} - {f} == free;
      refs := refs[f := 1];
      mem := WithTable(mem, d, i, f);
      kind := kind[f := Child(kind[d], i)];
      TableThere(root, boot, mem, kind, d);
    }

    /** get_pte: the walk, building the missing tables if `create`. */
    method GetPte(la: nat, create: bool) returns (found: bool, l: nat, t: nat)
      requires Valid() && User(boot, Page(la))
      modifies this
      ensures Valid() && SameEntries(root, boot, old(mem), mem)
      ensures Grown(old(mem), old(kind), old(refs), old(free), mem, kind, refs, free)
      ensures found <==> old(Missing(root, mem, Page(la))) <= if create then |old(free)| else 0
      ensures !create || old(Missing(root, mem, Page(la))) == 0 ==>
                mem == old(mem) && refs == old(refs) && free == old(free) && kind == old(kind)
      ensures found ==> LeafTable(root, mem, Page(la)) == Some(l) && t == It(Page(la))
      ensures found ==> |free| == |old(free)| - old(Missing(root, mem, Page(la)))
      ensures !found && create ==> free == {}
    {
      IndicesOfPage(la);
      hide SameEntries, Grown, Tree, Counted;
      RootIsRoot(root, boot, mem, kind);
      ghost var mem0, kind0, refs0, free0 := mem, kind, refs, free;
      var m;
      l, t := 0, PTX(la);
      found, m := Descend(root, PDX1(la), create);
      if found {
        ghost var mem1, kind1, refs1, free1 := mem, kind, refs, free;
        assert kind[m] == Mid(I1(Page(la)));
        found, l := Descend(m, PDX0(la), create);
        GrownTwice(mem0, kind0, refs0, free0, mem1, kind1, refs1, free1, mem, kind, refs, free);
        SameEntriesTwice(root, boot, mem0, mem1, mem);
        assert KeepsPointers(mem1, mem);
        assert Follow(mem1, root, I1(Page(la))) == Some(m);
      }
    }

    /** One level of the walk: follow the entry, or hang a new table into it. */
    method Descend(d: nat, i: nat, create: bool) returns (found: bool, child: nat)
      requires Valid() && d in kind && !kind[d].Leaf? && i < NPTEENTRY && !Reserved(boot, kind[d], i)
      modifies this
      ensures Valid() && SameEntries(root, boot, old(mem), mem)
      ensures Grown(old(mem), old(kind), old(refs), old(free), mem, kind, refs, free)
      ensures found <==> old(Follow(mem, d, i)).Some? || (create && old(free) != {})
      ensures old(Follow(mem, d, i)).Some? || !create ==>
                mem == old(mem) && refs == old(refs) && free == old(free) && kind == old(kind)
      ensures found ==> Follow(mem, d, i) == Some(child) && child in kind && kind[child] == Child(old(kind)[d], i)
      ensures found && old(Follow(mem, d, i)).None? ==>
                |free| == |old(free)| - 1 && forall j :: Follow(mem, child, j).None?
      ensures !found ==> mem == old(mem) && free == old(free) && (create ==> free == {})
      ensures KeepsPointers(old(mem), mem)
    {
      DirectoryFacts(root, boot, mem, kind, d, i);
      hide SameEntries, Grown, Tree, Counted;
      found, child := true, 0;
      if !Sv39.Valid(mem[d][i]) {
        if !create {
          GrownNot(mem, kind, refs, free);
          SameEntriesNot(root, boot, mem);
          return false, child;
        }
        found := NewTable(d, i);
        if !found {
          return;
        }
        ghost var f :| f in old(free) && f !in old(mem) && mem == WithTable(old(mem), d, i, f)
                       && kind == old(kind)[f := Child(old(kind)[d], i)];
        HungPointers(old(mem), d, i, f);
      } else {
        GrownNot(mem, kind, refs, free);
        SameEntriesNot(root, boot, mem);
      }
      child := Ppn(mem[d][i]);
      DirectoryFacts(root, boot, mem, kind, d, i);
    }

    /** get_page: the frame that a page is mapped to. */
    method GetPage(la: nat) returns (r: Option<nat>)
      requires Valid() && User(boot, Page(la))
      modifies this
      ensures Valid() && mem == old(mem) && refs == old(refs) && free == old(free) && kind == old(kind)
      ensures r == var e := Entry(root, mem, Page(la)); if Sv39.Valid(e) then Some(Ppn(e)) else None
    {
      var found, l, t := GetPte(la, false);
      if found && Sv39.Valid(EntryAt(l, t)) {
        r := Some(Ppn(EntryAt(l, t)));
      } else {
        r := None;
      }
    }

    /** Reading through a page-table entry pointer. */
    function EntryAt(l: nat, t: nat): nat
      reads this
    {
      if l in mem && t < |mem[l]| then mem[l][t] else 0
    }

    /** page_remove_pte. */
    method PageRemovePte(l: nat, t: nat)
      requires l in mem && t < |mem[l]| && (Sv39.Valid(mem[l][t]) ==> Ppn(mem[l][t]) in refs)
      modifies this`mem, this`refs, this`free
      ensures !Sv39.Valid(old(mem)[l][t]) ==> mem == old(mem) && refs == old(refs) && free == old(free)
      ensures Sv39.Valid(old(mem)[l][t]) ==>
                var p := Ppn(old(mem)[l][t]);
                && mem == WithEntry(old(mem), l, t, 0) && refs == old(refs)[p := old(refs)[p] - 1]
                && free == if old(refs)[p] == 1 then old(free) + {p} else old(free)
    {
      if Sv39.Valid(mem[l][t]) {
        var p := Ppn(mem[l][t]);
        refs := refs[p := refs[p] - 1];
        if refs[p] == 0 {
          free := free + {p};
        }
        mem := WithEntry(mem, l, t, 0);
      }
    }

    /** page_remove: the page's entry is cleared and its frame loses one mapping. */
    method PageRemove(la: nat)
      requires Valid() && User(boot, Page(la))
      modifies this
      ensures Valid() && kind == old(kind)
      ensures Sv39.Valid(old(Entry(root, mem, Page(la)))) ==> OneEntry(root, boot, old(mem), mem, Page(la), 0)
      ensures !Sv39.Valid(old(Entry(root, mem, Page(la)))) ==> mem == old(mem) && refs == old(refs) && free == old(free)
      ensures FreedAtLast(kind, old(refs), old(free), refs, free)
    {
      hide Tree, Counted, OneEntry, FreedAtLast, SameEntries, Grown, It;
      var found, l, t := GetPte(la, false);
      if found {
        WalkEnd(root, boot, mem, kind, refs, free, Page(la), l);
        ghost var mem0, refs0, free0 := mem, refs, free;
        PageRemovePte(l, t);
        if Sv39.Valid(mem0[l][t]) {
          Removed(root, boot, mem0, kind, refs0, free0, Page(la), l, refs, free);
        } else {
          NothingFreed(kind, refs, free);
        }
      } else {
        NothingFreed(kind, refs, free);
      }
    }

    /** page_insert.  It fails only for want of table frames, and then no translation has changed. */
    method PageInsert(page: nat, la: nat, perm: nat) returns (ok: bool)
      requires Valid() && User(boot, Page(la)) && perm < 1024
      requires page in refs && page !in kind && page !in free
      modifies this
      ensures Valid()
      ensures ok <==> old(Missing(root, mem, Page(la))) <= |old(free)|
      ensures ok ==> OneEntry(root, boot, old(mem), mem, Page(la), PteCreate(page, perm))
      ensures ok ==> |free| == |old(free)| - old(Missing(root, mem, Page(la)))
                               + |Replaced(old(refs), old(Entry(root, mem, Page(la))), page)|
      ensures !ok ==> SameEntries(root, boot, old(mem), mem) && free == {}
      ensures !ok ==> Grown(old(mem), old(kind), old(refs), old(free), mem, kind, refs, free)
      ensures FreedAtLast(kind, old(refs), old(free), refs, free)
      ensures old(Missing(root, mem, Page(la))) == 0 ==> kind == old(kind)
      ensures old(Missing(root, mem, Page(la))) == 0 && !Sv39.Valid(old(Entry(root, mem, Page(la)))) ==>
                free == old(free) && refs == old(refs)[page := old(refs)[page] + 1]
    {
      hide Tree, Counted, OneEntry, FreedAtLast, Grown, SameEntries, SameCounts, LeafTable, Missing, PteCreate, Page;
      hide User, It, Entry, Replaced;
      ghost var mem0, kind0, refs0, free0 := mem, kind, refs, free;
      PageIsSmall(la);
      var l, t;
      ok, l, t := GetPte(la, true);
      GrownFreesNone(mem0, kind0, refs0, free0, mem, kind, refs, free, page);
      if ok {
        ghost var mem1, refs1, free1 := mem, refs, free;
        SameReplaced(root, boot, mem0, mem1, kind, refs0, refs1, free1, Page(la), l, page);
        ReplaceEntry(page, l, t, perm, Page(la));
        SizeOfUnion(free1, Replaced(refs1, Entry(root, mem1, Page(la)), page));
        OneAfterSame(root, boot, mem0, mem1, mem, Page(la), PteCreate(page, perm));
        FreedTwice(kind, refs0, free0, refs1, free1, refs, free);
      }
    }

    /** The rest of page_insert, once the entry has been found. */
    method ReplaceEntry(page: nat, l: nat, t: nat, perm: nat, ghost p: nat)
      requires Valid() && User(boot, p) && p < PAGES && perm < 1024
      requires page in refs && page !in kind && page !in free
      requires LeafTable(root, mem, p) == Some(l) && t == It(p)
      modifies this`mem, this`refs, this`free
      ensures Valid() && OneEntry(root, boot, old(mem), mem, p, PteCreate(page, perm))
      ensures FreedAtLast(kind, old(refs), old(free), refs, free)
      ensures free == old(free) + Replaced(old(refs), old(Entry(root, mem, p)), page)
      ensures !Sv39.Valid(old(Entry(root, mem, p))) ==>
                free == old(free) && refs == old(refs)[page := old(refs)[page] + 1]
    {
      hide Tree, Counted, OneEntry, FreedAtLast, LeafTable, Entry, WithEntry, PteCreate, User, It;
      WalkEnd(root, boot, mem, kind, refs, free, p, l);
      ghost var mem0, refs0, free0 := mem, refs, free;
      refs := refs[page := refs[page] + 1];
      if Sv39.Valid(mem[l][t]) {
        if Ppn(mem[l][t]) == page {
          refs := refs[page := refs[page] - 1];
          assert refs == refs0;
        } else {
          PageRemovePte(l, t);
        }
      }
      WriteTwice(mem0, l, t, 0, PteCreate(page, perm));
      WriteDomain(mem0, l, t, 0);
      mem := WithEntry(mem, l, t, PteCreate(page, perm));
      Inserted(root, boot, mem0, kind, refs0, free0, p, l, page, perm, refs, free);
    }

    /** The end of swap_out: the frame's one entry becomes `v` and the frame is freed. */
    method SwapOutEntry(l: nat, t: nat, v: nat, f: nat)
      requires Valid() && l in kind && kind[l].Leaf? && t < NPTEENTRY && !Sv39.Valid(v)
      requires f in refs && f !in kind && Sites(mem, kind, f) == {(l, t)}
      modifies this`mem, this`refs, this`free
      ensures l in old(mem) && t < |old(mem)[l]|
      ensures Valid() && mem == WithEntry(old(mem), l, t, v) && refs == old(refs)[f := 0] && free == old(free) + {f}
    {
      hide Tree, Counted, Sites, WithEntry;
      LeafFacts(root, boot, mem, kind, refs, free, l, t);
      OnlySite(mem, kind, refs, free, l, t, f);
      WriteKeepsTree(root, boot, mem, kind, l, t, v);
      NeverNegative(mem, kind, refs, free);
      FreeIsCounted(mem, kind, refs, free);
      WriteCounts(mem, kind, refs, free, l, t, v, refs[f := 0], free + {f});
      mem := WithEntry(mem, l, t, v);
      refs := refs[f := 0];
      free := free + {f};
    }

    /** pgdir_alloc_page with eviction off. */
    method PgdirAllocPage(la: nat, perm: nat) returns (r: Option<nat>)
      requires Valid() && User(boot, Page(la)) && perm < 1024
      modifies this
      ensures Valid()
      ensures r.Some? <==> old(Missing(root, mem, Page(la))) < |old(free)|
      ensures r.Some? ==>
                r.value in old(free) && OneEntry(root, boot, old(mem), mem, Page(la), PteCreate(r.value, perm))
      ensures r.None? ==> SameEntries(root, boot, old(mem), mem)
      ensures r.Some? ==> |free| == |old(free)| - 1 - old(Missing(root, mem, Page(la)))
                                    + |Replaced(old(refs), old(Entry(root, mem, Page(la))), r.value)|
      ensures r.Some? ==> forall f :: f in old(free) ==> f in free || f in kind || f == r.value
      ensures r.None? ==> |free| == if old(free) == {} then 0 else 1
      ensures r.None? ==> free <= old(free) && forall f :: f in old(free) && f !in kind ==> f in free
    {
      hide Tree, Counted, OneEntry, SameEntries, Grown, FreedAtLast, Missing, Sites, PteCreate, User;
      ghost var free0 := free;
      r := AllocFrame();
      if r.Some? {
        var page := r.value;
        ghost var mem1, kind1, refs1, free1 := mem, kind, refs, free;
        var ok := PageInsert(page, la, perm);
        if !ok {
          UntakenFrame(mem1, kind1, refs1, free1, mem, kind, refs, free, page);
          FreeFrame(page);
          r := None;
        } else {
          FreeStays(mem1, kind1, refs1, free1, kind, refs, free);
        }
      } else {
        SameEntriesNot(root, boot, mem);
      }
    }
  }

  lemma NotInMemory(root: nat, boot: set<nat>, mem: Memory, kind: Kinds, f: nat)
    requires Tree(root, boot, mem, kind) && f !in kind
    ensures f !in mem
  {
  }

  lemma FreeStays(mem: Memory, kind: Kinds, refs: map<nat, int>, free: set<nat>,
                  kind': Kinds, refs': map<nat, int>, free': set<nat>)
    requires Counted(mem, kind, refs, free) && FreedAtLast(kind', refs, free, refs', free')
    ensures forall f :: f in free ==> f in free' || f in kind'
  {
  }

  lemma TableThere(root: nat, boot: set<nat>, mem: Memory, kind: Kinds, d: nat)
    requires Tree(root, boot, mem, kind) && d in kind
    ensures d in mem && |mem[d]| == NPTEENTRY
  {
  }

  lemma TableLength(root: nat, boot: set<nat>, mem: Memory, kind: Kinds, d: nat)
    requires Tree(root, boot, mem, kind) && d in mem
    ensures |mem[d]| == NPTEENTRY
  {
  }

  /** A frame that is neither free nor a table is left alone while tables are built. */
  lemma UntakenFrame(mem: Memory, kind: Kinds, refs: map<nat, int>, free: set<nat>,
                     mem': Memory, kind': Kinds, refs': map<nat, int>, free': set<nat>, page: nat)
    requires Grown(mem, kind, refs, free, mem', kind', refs', free')
    requires page in refs && page !in kind && page !in free && Sites(mem, kind, page) == {}
    ensures page in refs' && page !in kind' && Sites(mem', kind', page) == {}
    ensures free' <= free && forall f :: f in free && f !in kind' ==> f in free'
  {
  }

  /** Every table pointer stays where it leads. */
  ghost predicate KeepsPointers(mem: Memory, mem': Memory) {
    forall d, i :: Follow(mem, d, i).Some? ==> Follow(mem', d, i) == Follow(mem, d, i)
  }

  lemma RootIsRoot(root: nat, boot: set<nat>, mem: Memory, kind: Kinds)
    requires Tree(root, boot, mem, kind)
    ensures root in kind && kind[root] == Root
  {
  }

  lemma SameEntriesNot(root: nat, boot: set<nat>, mem: Memory)
    ensures SameEntries(root, boot, mem, mem)
  {
  }

  lemma DirectoryFacts(root: nat, boot: set<nat>, mem: Memory, kind: Kinds, d: nat, i: nat)
    requires Tree(root, boot, mem, kind) && d in kind && !kind[d].Leaf? && i < NPTEENTRY && !Reserved(boot, kind[d], i)
    ensures d in mem && |mem[d]| == NPTEENTRY
    ensures Valid(mem[d][i]) ==> Ppn(mem[d][i]) in kind && kind[Ppn(mem[d][i])] == Child(kind[d], i)
  {
    assert DownOk(boot, mem, kind, d, i);
  }

  /** With no frame left for tables, page_insert returns an error. */
  method InsertFailsExample() returns (ok: bool)
    ensures !ok
  {
    var space := new AddressSpace(0, {}, {1});
    var page := space.AllocFrame();
    ok := space.PageInsert(page.value, 0, PTE_U + PTE_R + PTE_W);
  }
}
