/** Free memory as its list of blocks in address order.  Both the SLOB heap and
    the page-frame allocators keep such a list, with no two blocks overlapping
    or abutting.  Such a list is the only one for the units it covers, so what
    an operation does is fixed by the units it adds or takes away. */
module FreeBlocks {

  datatype Block = Block(addr: int, size: nat) {
    function End(): int { addr + size }
  }

  /** Address order, no empty block, and a gap between any two blocks. */
  ghost predicate Canonical(bs: seq<Block>) {
    && (forall i :: 0 <= i < |bs| ==> bs[i].size > 0)
    && forall i, j :: 0 <= i < j < |bs| ==> bs[i].End() < bs[j].addr
  }

  ghost predicate Holds(b: Block, u: int) {
    b.addr <= u < b.End()
  }

  ghost predicate Covers(bs: seq<Block>, u: int) {
    exists i :: 0 <= i < |bs| && Holds(bs[i], u)
  }

  /** No block of `bs` meets the `n` units from `a`. */
  ghost predicate Clear(bs: seq<Block>, a: int, n: nat) {
    forall i :: 0 <= i < |bs| ==> bs[i].End() <= a || a + n <= bs[i].addr
  }

  function Total(bs: seq<Block>): nat {
    if bs == [] then 0 else bs[0].size + Total(bs[1..])
  }

  function Addrs(bs: seq<Block>): (s: seq<int>)
    ensures |s| == |bs| && forall i :: 0 <= i < |s| ==> s[i] == bs[i].addr
  {
    seq(|bs|, i requires 0 <= i < |bs| => bs[i].addr)
  }

  /** Cut the first `n` units off block `i`. */
  function Take(bs: seq<Block>, i: nat, n: nat): seq<Block>
    requires i < |bs| && n <= bs[i].size
  {
    bs[..i] + (if n == bs[i].size then [] else [Block(bs[i].addr + n, bs[i].size - n)]) + bs[i + 1..]
  }

  /** The `n` units from `a` lie between blocks `k - 1` and `k`. */
  ghost predicate Gap(bs: seq<Block>, k: nat, a: int, n: nat) {
    && k <= |bs|
    && (forall i :: 0 <= i < k ==> bs[i].End() <= a)
    && forall i :: k <= i < |bs| ==> a + n <= bs[i].addr
  }

  lemma GapIsPlace(bs: seq<Block>, k: nat, a: int, n: nat)
    requires Gap(bs, k, a, n)
    ensures k <= |bs|
  {
  }

  function JoinsLeft(bs: seq<Block>, k: nat, a: int): bool
    requires k <= |bs|
  {
    k > 0 && bs[k - 1].End() == a
  }

  function JoinsRight(bs: seq<Block>, k: nat, a: int, n: nat): bool
    requires k <= |bs|
  {
    k < |bs| && a + n == bs[k].addr
  }

  /** The block that the `n` units from `a` become once merged with their neighbours. */
  function Merged(bs: seq<Block>, k: nat, a: int, n: nat): Block
    requires k <= |bs|
  {
    var left := JoinsLeft(bs, k, a);
    var right := JoinsRight(bs, k, a, n);
    Block(if left then bs[k - 1].addr else a,
          (if left then bs[k - 1].size else 0) + n + (if right then bs[k].size else 0))
  }

  /** Put the `n` units from `a` back at position `k`. */
  function Give(bs: seq<Block>, k: nat, a: int, n: nat): seq<Block>
    requires k <= |bs|
  {
    bs[..if JoinsLeft(bs, k, a) then k - 1 else k]
    + [Merged(bs, k, a, n)]
    + bs[if JoinsRight(bs, k, a, n) then k + 1 else k..]
  }

  lemma {:induction false} TotalConcat(a: seq<Block>, b: seq<Block>)
    ensures Total(a + b) == Total(a) + Total(b)
  {
    if a == [] {
      assert a + b == b;
    } else {
      TotalConcat(a[1..], b);
      assert (a + b)[1..] == a[1..] + b;
    }
  }

  lemma TotalMiddle(a: seq<Block>, b: Block, c: seq<Block>)
    ensures Total(a + [b] + c) == Total(a) + b.size + Total(c)
  {
    hide Total;
    TotalConcat(a + [b], c);
    TotalConcat(a, [b]);
    TotalOne(b);
  }

  lemma TotalOne(b: Block)
    ensures Total([b]) == b.size
  {
    assert [b][1..] == [];
  }

  lemma {:induction false} SizeAtMostTotal(bs: seq<Block>, i: nat)
    requires i < |bs|
    ensures bs[i].size <= Total(bs)
  {
    hide Total;
    assert bs == bs[..i] + [bs[i]] + bs[i + 1..];
    TotalMiddle(bs[..i], bs[i], bs[i + 1..]);
  }

  /** `t` is `bs` with `n` units cut off block `i`, said block by block. */
  ghost predicate IsCut(bs: seq<Block>, i: nat, n: nat, t: seq<Block>)
    requires i < |bs|
  {
    if n == bs[i].size
    then |t| == |bs| - 1 && forall j :: 0 <= j < |t| ==> t[j] == bs[if j < i then j else j + 1]
    else |t| == |bs| && t[i].addr == bs[i].addr + n && t[i].size == bs[i].size - n
         && forall j :: 0 <= j < |t| && j != i ==> t[j] == bs[j]
  }

  lemma TakeCuts(bs: seq<Block>, i: nat, n: nat)
    requires i < |bs| && n <= bs[i].size
    ensures IsCut(bs, i, n, Take(bs, i, n))
  {
  }

  lemma TakeTotal(bs: seq<Block>, i: nat, n: nat)
    requires i < |bs| && n <= bs[i].size
    ensures Total(Take(bs, i, n)) == Total(bs) - n
  {
    hide Total;
    var x, z := bs[..i], bs[i + 1..];
    assert bs == x + [bs[i]] + z;
    TotalMiddle(x, bs[i], z);
    if n == bs[i].size {
      assert x + [] + z == x + z;
      TotalConcat(x, z);
    } else {
      TotalMiddle(x, Block(bs[i].addr + n, bs[i].size - n), z);
    }
  }

  /** Taking keeps the list canonical and removes exactly the units taken. */
  lemma TakeRemoves(bs: seq<Block>, i: nat, n: nat)
    requires Canonical(bs) && i < |bs| && 0 < n <= bs[i].size
    ensures Canonical(Take(bs, i, n))
    ensures Total(Take(bs, i, n)) == Total(bs) - n
    ensures forall u :: Covers(Take(bs, i, n), u) <==> Covers(bs, u) && !(bs[i].addr <= u < bs[i].addr + n)
  {
    TakeTotal(bs, i, n);
    TakeCuts(bs, i, n);
    CutIsCanonical(bs, i, n, Take(bs, i, n));
    forall u
      ensures Covers(Take(bs, i, n), u) <==> Covers(bs, u) && !(bs[i].addr <= u < bs[i].addr + n)
    {
      CutCoversUnit(bs, i, n, Take(bs, i, n), u);
    }
  }

  lemma CutIsCanonical(bs: seq<Block>, i: nat, n: nat, t: seq<Block>)
    requires Canonical(bs) && i < |bs| && 0 < n <= bs[i].size && IsCut(bs, i, n, t)
    ensures Canonical(t)
  {
  }

  lemma CutCoversUnit(bs: seq<Block>, i: nat, n: nat, t: seq<Block>, u: int)
    requires Canonical(bs) && i < |bs| && 0 < n <= bs[i].size && IsCut(bs, i, n, t)
    ensures Covers(t, u) <==> Covers(bs, u) && !(bs[i].addr <= u < bs[i].addr + n)
  {
    hide Canonical, Holds, IsCut;
    if Covers(bs, u) && !(bs[i].addr <= u < bs[i].addr + n) {
      var j :| 0 <= j < |bs| && Holds(bs[j], u);
      HeldAfterCut(bs, i, n, t, j, u);
    }
    if Covers(t, u) {
      var j :| 0 <= j < |t| && Holds(t[j], u);
      HeldBeforeCut(bs, i, n, t, j, u);
    }
  }

  lemma HeldAfterCut(bs: seq<Block>, i: nat, n: nat, t: seq<Block>, j: nat, u: int)
    requires i < |bs| && 0 < n <= bs[i].size && IsCut(bs, i, n, t)
    requires j < |bs| && Holds(bs[j], u) && !(bs[i].addr <= u < bs[i].addr + n)
    ensures Covers(t, u)
  {
    assert Holds(t[if n == bs[i].size && j > i then j - 1 else j], u);
  }

  lemma HeldBeforeCut(bs: seq<Block>, i: nat, n: nat, t: seq<Block>, j: nat, u: int)
    requires Canonical(bs) && i < |bs| && 0 < n <= bs[i].size && IsCut(bs, i, n, t)
    requires j < |t| && Holds(t[j], u)
    ensures Covers(bs, u) && !(bs[i].addr <= u < bs[i].addr + n)
  {
    assert Holds(bs[if n == bs[i].size && j >= i then j + 1 else j], u);
  }

  /** `r` is `bs` with blocks `l..h` replaced by `m`, said block by block. */
  ghost predicate IsSpliced(bs: seq<Block>, l: nat, h: nat, m: Block, r: seq<Block>) {
    && l <= h <= |bs|
    && |r| == |bs| + l + 1 - h && r[l] == m
    && (forall j :: 0 <= j < l ==> r[j] == bs[j])
    && forall j :: l < j < |r| ==> r[j] == bs[j - l - 1 + h]
  }

  /** First block replaced by a give at `k`, and first block kept after it. */
  function Low(bs: seq<Block>, k: nat, a: int): nat
    requires k <= |bs|
  {
    if JoinsLeft(bs, k, a) then k - 1 else k
  }

  function High(bs: seq<Block>, k: nat, a: int, n: nat): nat
    requires k <= |bs|
  {
    if JoinsRight(bs, k, a, n) then k + 1 else k
  }

  lemma GiveSplices(bs: seq<Block>, k: nat, a: int, n: nat)
    requires k <= |bs|
    ensures IsSpliced(bs, Low(bs, k, a), High(bs, k, a, n), Merged(bs, k, a, n), Give(bs, k, a, n))
  {
    var l, h := Low(bs, k, a), High(bs, k, a, n);
    SpliceConcat(bs, l, h, Merged(bs, k, a, n));
  }

  lemma SpliceConcat(bs: seq<Block>, l: nat, h: nat, m: Block)
    requires l <= h <= |bs|
    ensures IsSpliced(bs, l, h, m, bs[..l] + [m] + bs[h..])
  {
  }

  /** Giving keeps the list canonical and adds exactly the units given. */
  lemma GiveAdds(bs: seq<Block>, k: nat, a: int, n: nat)
    requires Canonical(bs) && Gap(bs, k, a, n) && n > 0
    ensures Canonical(Give(bs, k, a, n))
    ensures Total(Give(bs, k, a, n)) == Total(bs) + n
    ensures forall u :: Covers(Give(bs, k, a, n), u) <==> Covers(bs, u) || a <= u < a + n
  {
    var l, h, m, r := Low(bs, k, a), High(bs, k, a, n), Merged(bs, k, a, n), Give(bs, k, a, n);
    GiveTotal(bs, k, a, n);
    GiveSplices(bs, k, a, n);
    MergedIsApart(bs, k, a, n);
    SplicedIsCanonical(bs, l, h, m, r);
    forall u ensures Covers(r, u) <==> Covers(bs, u) || a <= u < a + n {
      SplicedCoversUnit(bs, l, h, m, r, u);
      CoversInThree(bs, l, h, u);
      MergedHolds(bs, k, a, n, u);
    }
  }

  /** A merged block abuts none of the blocks that stay. */
  lemma MergedIsApart(bs: seq<Block>, k: nat, a: int, n: nat)
    requires Canonical(bs) && Gap(bs, k, a, n) && n > 0
    ensures Merged(bs, k, a, n).size > 0
    ensures forall j :: 0 <= j < Low(bs, k, a) ==> bs[j].addr + bs[j].size < Merged(bs, k, a, n).addr
    ensures forall j :: High(bs, k, a, n) <= j < |bs| ==> Merged(bs, k, a, n).End() < bs[j].addr
  {
  }

  lemma SplicedIsCanonical(bs: seq<Block>, l: nat, h: nat, m: Block, r: seq<Block>)
    requires Canonical(bs) && IsSpliced(bs, l, h, m, r) && m.size > 0
    requires forall j :: 0 <= j < l ==> bs[j].addr + bs[j].size < m.addr
    requires forall j :: h <= j < |bs| ==> m.addr + m.size < bs[j].addr
    ensures Canonical(r)
  {
  }

  lemma SplicedTotal(bs: seq<Block>, l: nat, h: nat, m: Block)
    requires l <= h <= |bs|
    ensures Total(bs[..l] + [m] + bs[h..]) + Total(bs[l..h]) == Total(bs) + m.size
  {
    hide Total;
    TotalMiddle(bs[..l], m, bs[h..]);
    TotalSplit(bs, h);
    TotalSplit(bs[..h], l);
    assert bs[..h][..l] == bs[..l] && bs[..h][l..] == bs[l..h];
  }

  lemma TotalSplit(bs: seq<Block>, k: nat)
    requires k <= |bs|
    ensures Total(bs) == Total(bs[..k]) + Total(bs[k..])
  {
    assert bs[..k] + bs[k..] == bs;
    TotalConcat(bs[..k], bs[k..]);
  }

  lemma GiveTotal(bs: seq<Block>, k: nat, a: int, n: nat)
    requires k <= |bs|
    ensures Total(Give(bs, k, a, n)) == Total(bs) + n
  {
    hide Total;
    var l, h := Low(bs, k, a), High(bs, k, a, n);
    SplicedTotal(bs, l, h, Merged(bs, k, a, n));
    assert bs[l..h] == bs[l..k] + bs[k..h];
    TotalConcat(bs[l..k], bs[k..h]);
    TotalShort(bs, l, k);
    TotalShort(bs, k, h);
  }

  lemma TotalShort(bs: seq<Block>, l: nat, h: nat)
    requires l <= h <= |bs| && h <= l + 1
    ensures Total(bs[l..h]) == if l == h then 0 else bs[l].size
  {
    if l < h {
      assert bs[l..h][1..] == [];
    }
  }

  lemma SplicedCoversUnit(bs: seq<Block>, l: nat, h: nat, m: Block, r: seq<Block>, u: int)
    requires IsSpliced(bs, l, h, m, r)
    ensures Covers(r, u) <==> Covers(bs[..l], u) || Holds(m, u) || Covers(bs[h..], u)
  {
    if Covers(r, u) {
      var j :| 0 <= j < |r| && Holds(r[j], u);
      if j < l {
        assert Holds(bs[..l][j], u);
      } else if j > l {
        assert Holds(bs[h..][j - l - 1], u);
      }
    }
    if Covers(bs[..l], u) {
      var j :| 0 <= j < l && Holds(bs[..l][j], u);
      assert Holds(r[j], u);
    }
    if Covers(bs[h..], u) {
      var j :| 0 <= j < |bs| - h && Holds(bs[h..][j], u);
      assert Holds(r[j + l + 1], u);
    }
    if Holds(m, u) {
      assert Holds(r[l], u);
    }
  }

  lemma CoversInThree(bs: seq<Block>, l: nat, h: nat, u: int)
    requires l <= h <= |bs|
    ensures Covers(bs, u) <==> Covers(bs[..l], u) || Covers(bs[l..h], u) || Covers(bs[h..], u)
  {
    if Covers(bs, u) {
      var j :| 0 <= j < |bs| && Holds(bs[j], u);
      if j < l {
        assert Holds(bs[..l][j], u);
      } else if j < h {
        assert Holds(bs[l..h][j - l], u);
      } else {
        assert Holds(bs[h..][j - h], u);
      }
    }
    if Covers(bs[..l], u) {
      var j :| 0 <= j < l && Holds(bs[..l][j], u);
      assert Holds(bs[j], u);
    }
    if Covers(bs[l..h], u) {
      var j :| 0 <= j < h - l && Holds(bs[l..h][j], u);
      assert Holds(bs[l + j], u);
    }
    if Covers(bs[h..], u) {
      var j :| 0 <= j < |bs| - h && Holds(bs[h..][j], u);
      assert Holds(bs[h + j], u);
    }
  }

  /** The merged block covers the units given and the neighbours it swallows. */
  lemma MergedHolds(bs: seq<Block>, k: nat, a: int, n: nat, u: int)
    requires k <= |bs|
    ensures Holds(Merged(bs, k, a, n), u) <==>
            a <= u < a + n || Covers(bs[Low(bs, k, a)..High(bs, k, a, n)], u)
  {
    var l, h := Low(bs, k, a), High(bs, k, a, n);
    var mid := bs[l..h];
    if JoinsLeft(bs, k, a) && Holds(bs[k - 1], u) { assert Holds(mid[0], u); }
    if JoinsRight(bs, k, a, n) && Holds(bs[k], u) { assert Holds(mid[k - l], u); }
  }

  /** The first address of a canonical list is its least covered unit. */
  lemma FirstIsLeast(bs: seq<Block>, u: int)
    requires Canonical(bs) && Covers(bs, u)
    ensures bs != [] && bs[0].addr <= u && Covers(bs, bs[0].addr)
  {
    var i :| 0 <= i < |bs| && Holds(bs[i], u);
    assert Holds(bs[0], bs[0].addr);
  }

  lemma EndIsNotCovered(bs: seq<Block>)
    requires Canonical(bs) && bs != []
    ensures !Covers(bs, bs[0].End())
  {
  }

  lemma TailCovers(bs: seq<Block>, u: int)
    requires Canonical(bs) && bs != []
    ensures Canonical(bs[1..])
    ensures Covers(bs[1..], u) <==> Covers(bs, u) && !Holds(bs[0], u)
  {
    if Covers(bs, u) && !Holds(bs[0], u) {
      var i :| 0 <= i < |bs| && Holds(bs[i], u);
      assert Holds(bs[1..][i - 1], u);
    }
    if Covers(bs[1..], u) {
      var i :| 0 <= i < |bs| - 1 && Holds(bs[1..][i], u);
      assert Holds(bs[i + 1], u);
    }
  }

  /** A set of units has at most one canonical list. */
  lemma {:induction false} CanonicalIsUnique(a: seq<Block>, b: seq<Block>)
    requires Canonical(a) && Canonical(b)
    requires forall u :: Covers(a, u) <==> Covers(b, u)
    ensures a == b
  {
    if a == [] {
      if b != [] { FirstIsLeastOf(b); }
    } else if b == [] {
      FirstIsLeastOf(a);
    } else {
      FirstIsLeastOf(a);
      FirstIsLeastOf(b);
      FirstIsLeast(a, b[0].addr);
      FirstIsLeast(b, a[0].addr);
      FirstBlockEndsTogether(a, b);
      FirstBlockEndsTogether(b, a);
      forall u ensures Covers(a[1..], u) <==> Covers(b[1..], u) {
        TailCovers(a, u);
        TailCovers(b, u);
      }
      TailCovers(a, 0);
      TailCovers(b, 0);
      CanonicalIsUnique(a[1..], b[1..]);
      assert a == [a[0]] + a[1..] && b == [b[0]] + b[1..];
    }
  }

  lemma FirstIsLeastOf(bs: seq<Block>)
    requires Canonical(bs) && bs != []
    ensures Covers(bs, bs[0].addr)
  {
    assert Holds(bs[0], bs[0].addr);
  }

  lemma FirstBlockEndsTogether(a: seq<Block>, b: seq<Block>)
    requires Canonical(a) && Canonical(b) && a != [] && b != [] && a[0].addr == b[0].addr
    requires forall u :: Covers(a, u) <==> Covers(b, u)
    ensures a[0].size <= b[0].size
  {
    if a[0].size > b[0].size {
      assert Holds(a[0], b[0].End());
      assert Covers(a, b[0].End());
      EndIsNotCovered(b);
    }
  }

  /** Freeing what was just cut off restores the very same list. */
  lemma GiveUndoesTake(bs: seq<Block>, i: nat, n: nat, k: nat)
    requires Canonical(bs) && i < |bs| && 0 < n <= bs[i].size
    requires Gap(Take(bs, i, n), k, bs[i].addr, n)
    ensures Give(Take(bs, i, n), k, bs[i].addr, n) == bs
  {
    var a, t := bs[i].addr, Take(bs, i, n);
    TakeRemoves(bs, i, n);
    GiveAdds(t, k, a, n);
    forall u ensures Covers(Give(t, k, a, n), u) <==> Covers(bs, u) {
      if a <= u < a + n {
        assert Holds(bs[i], u);
      }
    }
    CanonicalIsUnique(Give(t, k, a, n), bs);
  }

  /** What was cut off can always be given back: it lies in a gap of the rest. */
  lemma TakenLiesInGap(bs: seq<Block>, i: nat, n: nat)
    requires Canonical(bs) && i < |bs| && 0 < n <= bs[i].size
    ensures Gap(Take(bs, i, n), i, bs[i].addr, n)
  {
    var t := Take(bs, i, n);
    assert forall j :: i <= j < |t| ==>
      t[j] == if n == bs[i].size then bs[j + 1] else if j == i then Block(bs[i].addr + n, bs[i].size - n) else bs[j];
  }

  /** The order of two frees does not show in the list. */
  lemma GivesCommute(bs: seq<Block>, a: int, m: nat, b: int, n: nat, k0: nat, k1: nat, k2: nat, k3: nat)
    requires Canonical(bs) && m > 0 && n > 0
    requires Gap(bs, k0, a, m) && Gap(Give(bs, k0, a, m), k1, b, n)
    requires Gap(bs, k2, b, n) && Gap(Give(bs, k2, b, n), k3, a, m)
    ensures Give(Give(bs, k0, a, m), k1, b, n) == Give(Give(bs, k2, b, n), k3, a, m)
  {
    GiveAdds(bs, k0, a, m);
    GiveAdds(Give(bs, k0, a, m), k1, b, n);
    GiveAdds(bs, k2, b, n);
    GiveAdds(Give(bs, k2, b, n), k3, a, m);
    CanonicalIsUnique(Give(Give(bs, k0, a, m), k1, b, n), Give(Give(bs, k2, b, n), k3, a, m));
  }

  /** Units that meet no block lie in exactly one of the gaps. */
  lemma {:induction false} GapExists(bs: seq<Block>, a: int, n: nat) returns (k: nat)
    requires Canonical(bs) && Clear(bs, a, n) && n > 0
    ensures Gap(bs, k, a, n)
  {
    k := 0;
    while k < |bs| && bs[k].End() <= a
      invariant k <= |bs| && forall i :: 0 <= i < k ==> bs[i].End() <= a
    {
      k := k + 1;
    }
  }

  lemma ClearMeansUncovered(bs: seq<Block>, a: int, n: nat)
    requires Canonical(bs) && n > 0
    ensures Clear(bs, a, n) <==> forall u :: a <= u < a + n ==> !Covers(bs, u)
  {
    if !Clear(bs, a, n) {
      var i :| 0 <= i < |bs| && !(bs[i].End() <= a || a + n <= bs[i].addr);
      var u := if bs[i].addr <= a then a else bs[i].addr;
      assert Holds(bs[i], u);
      assert Covers(bs, u);
    }
  }
}
