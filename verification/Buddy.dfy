/** The buddy allocator of buddy.c without its free path.  Pages are numbered from the base;
    free_array is a list of block starts for each order, and `property` is a block's order. */
module Buddy {
  import opened Powers

  const MAX_ORDER: nat := 20

  /** `k` is the least order whose blocks have at least `n` pages. */
  predicate IsCeil(n: nat, k: nat) {
    n <= Pow2(k) && (k > 0 ==> Pow2(k - 1) < n)
  }

  lemma {:induction false} Pow2Grows(j: nat, k: nat)
    requires j <= k
    ensures Pow2(j) <= Pow2(k) && (j < k ==> 2 * Pow2(j) <= Pow2(k))
  {
    if j < k {
      Pow2Grows(j, k - 1);
    }
  }

  method Log2(n: nat) returns (order: nat)
    ensures n == 0 ==> order == 0
    ensures n > 0 ==> Pow2(order) <= n < 2 * Pow2(order)
  {
    order := 0;
    var rest := n;
    while rest > 1
      invariant rest == Shr(n, order) && (n > 0 ==> rest > 0) && (n == 0 ==> order == 0)
      decreases rest
    {
      order := order + 1;
      rest := rest / 2;
    }
    ShrBounds(n, order);
  }

  method FloorPow2(n: nat) returns (ret: nat, ghost k: nat)
    ensures ret == Pow2(k) && (n > 0 ==> ret <= n < 2 * ret) && (n == 0 ==> k == 0)
  {
    ret, k := 1, 0;
    var rest := n;
    while rest > 1
      invariant ret == Pow2(k) && rest == Shr(n, k) && (n > 0 ==> rest > 0) && (n == 0 ==> k == 0)
      decreases rest
    {
      ret := ret * 2;
      rest := rest / 2;
      k := k + 1;
    }
    ShrBounds(n, k);
  }

  /** `p` is the least power of two that is not below `n`. */
  ghost predicate IsCeilPow(n: nat, p: nat) {
    exists k: nat :: p == Pow2(k) && IsCeil(n, k)
  }

  method CeilPow2(n: nat) returns (ret: nat)
    ensures if n == 0 then ret == 2 else IsCeilPow(n, ret)
  {
    ghost var k: nat;
    ret, k := FloorPow2(n);
    if n != ret {
      ret, k := ret * 2, k + 1;
    }
    assert n > 0 ==> ret == Pow2(k) && IsCeil(n, k);
    assert Pow2(1) == 2;
  }

  // ------------------------------------------------------------ the tiling

  type Blocks = map<nat, nat>
  type Lists = seq<seq<nat>>

  ghost predicate Holds(blocks: Blocks, a: nat, u: nat) {
    a in blocks && a <= u < a + Pow2(blocks[a])
  }

  ghost predicate Covered(blocks: Blocks, u: nat) {
    exists a :: Holds(blocks, a, u)
  }

  /** Aligned blocks that cover the `2^m` pages without overlap. */
  ghost predicate Tiles(blocks: Blocks, m: nat) {
    && (forall a :: a in blocks ==> blocks[a] <= m && a % Pow2(blocks[a]) == 0 && a + Pow2(blocks[a]) <= Pow2(m))
    && (forall a, b :: a in blocks && b in blocks && a < b ==> a + Pow2(blocks[a]) <= b)
    && forall u: nat :: u < Pow2(m) ==> Covered(blocks, u)
  }

  /** Block `a` cut into its two halves. */
  function Halved(blocks: Blocks, a: nat): Blocks
    requires a in blocks && blocks[a] > 0
  {
    var k := blocks[a] - 1;
    blocks[a := k][a + Pow2(k) := k]
  }

  lemma HalfIsAligned(a: nat, h: nat)
    requires h > 0 && a % (2 * h) == 0
    ensures a % h == 0 && (a + h) % h == 0
  {
    var q := a / (2 * h);
    assert a == (2 * h) * q;
    assert (2 * h) * q == h * (2 * q) && h * (2 * q) + h == h * (2 * q + 1);
    MultipleMod(h, 2 * q);
    MultipleMod(h, 2 * q + 1);
  }

  lemma MultipleMod(h: nat, q: nat)
    requires h > 0
    ensures (h * q) % h == 0
  {
    var d, r := h * q / h, (h * q) % h;
    assert h * q == h * d + r;
    Remainder(h, q, d, r);
  }

  lemma Remainder(h: nat, q: nat, d: nat, r: nat)
    requires h * q == h * d + r && r < h
    ensures r == 0
  {
    if q > d {
      assert h * q - h * d == h * (q - d);
      ScaleUp(q - d, h);
    } else {
      assert h * d - h * q == h * (d - q);
    }
  }

  lemma ScaleUp(n: nat, p: nat)
    requires n > 0
    ensures n * p >= p && p * n >= p
  {
    if n > 1 {
      ScaleUp(n - 1, p);
      assert n * p == (n - 1) * p + p && p * n == p * (n - 1) + p;
    }
  }

  lemma HalvingTiles(blocks: Blocks, m: nat, a: nat)
    requires Tiles(blocks, m) && a in blocks && blocks[a] > 0
    ensures a + Pow2(blocks[a] - 1) !in blocks && Tiles(Halved(blocks, a), m)
  {
    var k, cut := blocks[a] - 1, Halved(blocks, a);
    var h := Pow2(k);
    assert Pow2(k + 1) == 2 * h;
    HalfIsAligned(a, h);
    hide Pow2;
    assert a + h !in blocks;
    forall b | b in cut ensures cut[b] <= m && b % Pow2(cut[b]) == 0 && b + Pow2(cut[b]) <= Pow2(m) {
      assert b == a || b == a + h || cut[b] == blocks[b];
    }
    forall b, c | b in cut && c in cut && b < c ensures b + Pow2(cut[b]) <= c {
      HalvesApart(blocks, m, a, k, h, b, c);
    }
    forall u: nat | u < Pow2(m) ensures Covered(cut, u) {
      assert Covered(blocks, u);
      HalvesCover(blocks, a, u);
    }
  }

  lemma HalvesCover(blocks: Blocks, a: nat, u: nat)
    requires a in blocks && blocks[a] > 0 && a + Pow2(blocks[a] - 1) !in blocks && Covered(blocks, u)
    ensures Covered(Halved(blocks, a), u)
  {
    var h := Pow2(blocks[a] - 1);
    var b :| Holds(blocks, b, u);
    assert Holds(Halved(blocks, a), if b == a && u >= a + h then a + h else b, u);
  }

  lemma HalvesApart(blocks: Blocks, m: nat, a: nat, k: nat, h: nat, b: nat, c: nat)
    requires Tiles(blocks, m) && a in blocks && blocks[a] == k + 1 && h == Pow2(k)
    requires b in Halved(blocks, a) && c in Halved(blocks, a) && b < c
    ensures b + Pow2(Halved(blocks, a)[b]) <= c
  {
    var cut, b0, c0 := Halved(blocks, a), if b == a + h then a else b, if c == a + h then a else c;
    assert Pow2(k + 1) == 2 * h;
    hide Pow2;
    assert b0 in blocks && c0 in blocks;
    assert b0 < c0 ==> b0 + Pow2(blocks[b0]) <= c0;
  }

  // ------------------------------------------------------------- the lists

  ghost predicate OnList(a: nat, k: nat, blocks: Blocks, property: map<nat, nat>, heads: set<nat>) {
    a in blocks && blocks[a] == k && a in property && property[a] == k && a in heads
  }

  /** Every list holds blocks of its order, each once; the flagged heads are those on lists, and
      the first page of every block, free or not, holds its order. */
  ghost predicate Listed(free: Lists, blocks: Blocks, property: map<nat, nat>, heads: set<nat>) {
    && |free| == MAX_ORDER + 1
    && (forall k, i :: 0 <= k < |free| && 0 <= i < |free[k]| ==> OnList(free[k][i], k, blocks, property, heads))
    && (forall k, i, j :: 0 <= k < |free| && 0 <= i < j < |free[k]| ==> free[k][i] != free[k][j])
    && (forall a :: a in heads ==> a in blocks && blocks[a] < |free| && a in free[blocks[a]])
    && forall a :: a in blocks ==> a in property && property[a] == blocks[a]
  }

  /** Free and allocated blocks tile the `2^m` pages, and no order above `m` is used. */
  ghost predicate Sound(free: Lists, blocks: Blocks, property: map<nat, nat>, heads: set<nat>, m: nat) {
    && Listed(free, blocks, property, heads) && Tiles(blocks, m) && m < MAX_ORDER
    && Units(free, |free|) <= Pow2(m) && forall j :: m < j < |free| ==> free[j] == []
  }

  /** Blocks that were handed out are still blocks, and still off the lists. */
  ghost predicate KeepsAllocated(blocks: Blocks, heads: set<nat>, blocks': Blocks, heads': set<nat>) {
    forall a :: a in blocks && a !in heads ==> a in blocks' && blocks'[a] == blocks[a] && a !in heads'
  }

  lemma KeepsTwice(blocks: Blocks, heads: set<nat>, blocks1: Blocks, heads1: set<nat>, blocks2: Blocks,
                   heads2: set<nat>)
    requires KeepsAllocated(blocks, heads, blocks1, heads1) && KeepsAllocated(blocks1, heads1, blocks2, heads2)
    ensures KeepsAllocated(blocks, heads, blocks2, heads2)
  {
  }

  lemma KeepsTaken(blocks: Blocks, heads: set<nat>, blocks': Blocks, heads': set<nat>, a: nat)
    requires KeepsAllocated(blocks, heads, blocks', heads')
    ensures KeepsAllocated(blocks, heads, blocks', heads' - {a})
  {
  }

  lemma KeepsNothing(blocks: Blocks, heads: set<nat>)
    ensures KeepsAllocated(blocks, heads, blocks, heads)
  {
  }

  /** The lists after the first block of order `k` has been cut in two. */
  function Cut(free: Lists, k: nat): Lists
    requires 0 < k < |free| && free[k] != []
  {
    var a := free[k][0];
    free[k := free[k][1..]][k - 1 := [a, a + Pow2(k - 1)] + free[k - 1]]
  }

  lemma CutLists(free: Lists, blocks: Blocks, property: map<nat, nat>, heads: set<nat>, m: nat, k: nat,
                 a: nat, r: nat, free': Lists, blocks': Blocks, property': map<nat, nat>, heads': set<nat>)
    requires Listed(free, blocks, property, heads) && Tiles(blocks, m) && 0 < k < |free| && free[k] != []
    requires a == free[k][0] && r == a + Pow2(k - 1) && free' == Cut(free, k)
    requires a in blocks && blocks[a] == k && blocks' == Halved(blocks, a)
    requires property' == property[a := k - 1][r := k - 1] && heads' == heads + {r}
    ensures Listed(free', blocks', property', heads') && Tiles(blocks', m)
    ensures KeepsAllocated(blocks, heads, blocks', heads')
  {
    hide OnList, Pow2, Tiles, Halved, Cut, Listed, KeepsAllocated;
    assert a in heads by { FirstListed(free, blocks, property, heads, k); }
    HalvingTiles(blocks, m, a);
    CutAt(free, k);
    KeepsHalved(blocks, heads, a, k, r);
    CutDistinct(free, blocks, property, heads, k, r);
    assert |free'| == MAX_ORDER + 1 by { ListsHaveOrders(free, blocks, property, heads); }
    forall j, i | 0 <= j < |free'| && 0 <= i < |free'[j]| ensures OnList(free'[j][i], j, blocks', property', heads') {
      CutOnList(free, blocks, property, heads, k, a, r, free', blocks', property', heads', j, i);
    }
    forall b | b in heads' ensures b in blocks' && blocks'[b] < |free'| && b in free'[blocks'[b]] {
      CutHeads(free, blocks, property, heads, k, b);
    }
    HalvesHoldOrder(free, blocks, property, heads, a, k, r);
    ListedBy(free', blocks', property', heads');
  }

  /** Cutting keeps all that a valid area promises of its lists and blocks. */
  lemma CutKeeps(free: Lists, blocks: Blocks, property: map<nat, nat>, heads: set<nat>, m: nat, k: nat,
                 a: nat, r: nat, free': Lists, blocks': Blocks, property': map<nat, nat>, heads': set<nat>)
    requires Sound(free, blocks, property, heads, m) && 0 < k <= m < |free| && free[k] != []
    requires a == free[k][0] && r == a + Pow2(k - 1)
    requires free' == free[k := free[k][1..]][k - 1 := [a, r] + free[k - 1]]
    requires a in blocks && blocks[a] == k && blocks' == Halved(blocks, a)
    requires property' == property[a := k - 1][r := k - 1] && heads' == heads + {r}
    ensures Sound(free', blocks', property', heads', m) && free' == Cut(free, k)
    ensures KeepsAllocated(blocks, heads, blocks', heads') && Units(free', |free'|) == Units(free, |free|)
  {
    CutKeepsUnits(free, k);
    CutTop(free, k, m);
    hide Listed, Tiles, Halved, Pow2, OnList, KeepsAllocated, Units;
    assert free' == Cut(free, k);
    CutLists(free, blocks, property, heads, m, k, a, r, free', blocks', property', heads');
  }

  lemma HalvesHoldOrder(free: Lists, blocks: Blocks, property: map<nat, nat>, heads: set<nat>, a: nat, k: nat, r: nat)
    requires Listed(free, blocks, property, heads) && a in blocks && blocks[a] == k > 0 && r == a + Pow2(k - 1)
    ensures var blocks', property' := Halved(blocks, a), property[a := k - 1][r := k - 1];
            forall b :: b in blocks' ==> b in property' && property'[b] == blocks'[b]
  {
  }

  lemma KeepsHalved(blocks: Blocks, heads: set<nat>, a: nat, k: nat, r: nat)
    requires a in blocks && a in heads && 0 < k == blocks[a] && r == a + Pow2(k - 1) && r !in blocks
    ensures KeepsAllocated(blocks, heads, Halved(blocks, a), heads + {r})
  {
  }

  lemma ListsHaveOrders(free: Lists, blocks: Blocks, property: map<nat, nat>, heads: set<nat>)
    requires Listed(free, blocks, property, heads)
    ensures |free| == MAX_ORDER + 1
  {
  }

  lemma ListedBy(free: Lists, blocks: Blocks, property: map<nat, nat>, heads: set<nat>)
    requires |free| == MAX_ORDER + 1
    requires forall k, i :: 0 <= k < |free| && 0 <= i < |free[k]| ==> OnList(free[k][i], k, blocks, property, heads)
    requires forall k, i, j :: 0 <= k < |free| && 0 <= i < j < |free[k]| ==> free[k][i] != free[k][j]
    requires forall a :: a in heads ==> a in blocks && blocks[a] < |free| && a in free[blocks[a]]
    requires forall a :: a in blocks ==> a in property && property[a] == blocks[a]
    ensures Listed(free, blocks, property, heads)
  {
  }

  lemma CutOnList(free: Lists, blocks: Blocks, property: map<nat, nat>, heads: set<nat>, k: nat, a: nat, r: nat,
                  free': Lists, blocks': Blocks, property': map<nat, nat>, heads': set<nat>, j: nat, i: nat)
    requires Listed(free, blocks, property, heads) && 0 < k < |free| && free[k] != []
    requires a == free[k][0] && r == a + Pow2(k - 1) && r !in blocks && free' == Cut(free, k)
    requires a in blocks && blocks[a] == k && blocks' == Halved(blocks, a)
    requires property' == property[a := k - 1][r := k - 1] && heads' == heads + {r}
    requires j < |free'| && i < |free'[j]|
    ensures OnList(free'[j][i], j, blocks', property', heads')
  {
    CutAt(free, k);
    hide Cut, Pow2;
    assert OnList(free[k][0], k, blocks, property, heads);
    if j == k {
      assert free'[j][i] == free[k][i + 1] != a && OnList(free[k][i + 1], k, blocks, property, heads);
    } else if j != k - 1 {
      assert free'[j][i] == free[j][i] && OnList(free[j][i], j, blocks, property, heads);
    } else if i >= 2 {
      assert free'[j][i] == free[j][i - 2] && OnList(free[j][i - 2], j, blocks, property, heads);
    }
  }

  lemma CutAt(free: Lists, k: nat)
    requires 0 < k < |free| && free[k] != []
    ensures var free', a := Cut(free, k), free[k][0];
            && |free'| == |free| && free'[k] == free[k][1..] && free'[k - 1] == [a, a + Pow2(k - 1)] + free[k - 1]
            && forall j :: 0 <= j < |free| && j != k && j != k - 1 ==> free'[j] == free[j]
  {
  }

  lemma CutDistinct(free: Lists, blocks: Blocks, property: map<nat, nat>, heads: set<nat>, k: nat, r: nat)
    requires Listed(free, blocks, property, heads) && 0 < k < |free| && free[k] != []
    requires r == free[k][0] + Pow2(k - 1) && r !in blocks
    ensures var free' := Cut(free, k);
            forall j, x, y :: 0 <= j < |free'| && 0 <= x < y < |free'[j]| ==> free'[j][x] != free'[j][y]
  {
    var free' := Cut(free, k);
    assert OnList(free[k][0], k, blocks, property, heads);
    CutAt(free, k);
    hide Cut, Pow2;
    forall j, x, y | 0 <= j < |free'| && 0 <= x < y < |free'[j]| ensures free'[j][x] != free'[j][y] {
      if j == k {
        assert free'[j][x] == free[k][x + 1] && free'[j][y] == free[k][y + 1];
      } else if j == k - 1 {
        assert y >= 2 ==> free'[j][y] == free[j][y - 2] && OnList(free[j][y - 2], j, blocks, property, heads);
        assert x >= 2 ==> free'[j][x] == free[j][x - 2];
      }
    }
  }

  lemma CutHeads(free: Lists, blocks: Blocks, property: map<nat, nat>, heads: set<nat>, k: nat, b: nat)
    requires Listed(free, blocks, property, heads) && 0 < k < |free| && free[k] != []
    requires free[k][0] in blocks && blocks[free[k][0]] == k && free[k][0] + Pow2(k - 1) !in blocks
    requires b in heads || b == free[k][0] + Pow2(k - 1)
    ensures var blocks' := Halved(blocks, free[k][0]);
            b in blocks' && blocks'[b] < |free| && b in Cut(free, k)[blocks'[b]]
  {
    var a, h, free' := free[k][0], Pow2(k - 1), Cut(free, k);
    CutAt(free, k);
    hide Cut, Pow2;
    if b in heads && b != a {
      var j := blocks[b];
      var i :| 0 <= i < |free[j]| && free[j][i] == b;
      hide Listed;
      assert Halved(blocks, a)[b] == j;
      IsIn(free'[j], if j == k then i - 1 else if j == k - 1 then i + 2 else i);
    } else {
      hide Listed;
      assert Halved(blocks, a)[b] == k - 1;
      IsIn(free'[k - 1], if b == a then 0 else 1);
    }
  }

  lemma IsIn(l: seq<nat>, i: nat)
    requires i < |l|
    ensures l[i] in l
  {
  }

  lemma FirstListed(free: Lists, blocks: Blocks, property: map<nat, nat>, heads: set<nat>, k: nat)
    requires Listed(free, blocks, property, heads) && k < |free| && free[k] != []
    ensures free[k][0] in heads
    ensures OnList(free[k][0], k, blocks, property, heads)
    ensures free[k][0] in blocks && blocks[free[k][0]] == k && free[k][0] in property && property[free[k][0]] == k
  {
  }

  lemma SoundMeans(free: Lists, blocks: Blocks, property: map<nat, nat>, heads: set<nat>, m: nat)
    requires Sound(free, blocks, property, heads, m)
    ensures |free| == MAX_ORDER + 1 && m < MAX_ORDER && Listed(free, blocks, property, heads)
    ensures Units(free, |free|) <= Pow2(m) && forall j :: m < j < |free| ==> free[j] == []
  {
  }

  lemma TakeLists(free: Lists, blocks: Blocks, property: map<nat, nat>, heads: set<nat>, k: nat)
    requires Listed(free, blocks, property, heads) && k < |free| && free[k] != []
    ensures OnList(free[k][0], k, blocks, property, heads)
    ensures Listed(free[k := free[k][1..]], blocks, property, heads - {free[k][0]})
  {
    var a, free', heads' := free[k][0], free[k := free[k][1..]], heads - {free[k][0]};
    forall j, i | 0 <= j < |free'| && 0 <= i < |free'[j]| ensures OnList(free'[j][i], j, blocks, property, heads') {
      if j == k {
        assert free'[j][i] == free[k][i + 1] && OnList(free[k][i + 1], k, blocks, property, heads);
      } else {
        assert OnList(free[j][i], j, blocks, property, heads) && OnList(free[k][0], k, blocks, property, heads);
      }
    }
    forall j, x, y | 0 <= j < |free'| && 0 <= x < y < |free'[j]| ensures free'[j][x] != free'[j][y] {
      assert j == k ==> free'[j][x] == free[k][x + 1] && free'[j][y] == free[k][y + 1];
    }
    forall b | b in heads' ensures b in free'[blocks[b]] {
      var i :| 0 <= i < |free[blocks[b]]| && free[blocks[b]][i] == b;
      assert blocks[b] == k ==> free'[k][i - 1] == b;
    }
  }

  // --------------------------------------------------------- free page count

  /** The pages on the lists of orders below `j`. */
  function Units(free: Lists, j: nat): nat
    requires j <= |free|
  {
    if j == 0 then 0 else Units(free, j - 1) + |free[j - 1]| * Pow2(j - 1)
  }

  lemma {:induction false} UnitsUpdate(free: Lists, k: nat, l: seq<nat>, d: int, j: nat)
    requires k < |free| && j <= |free| && |l| == |free[k]| + d
    ensures Units(free[k := l], j) == Units(free, j) + if k < j then d * Pow2(k) else 0
  {
    hide Pow2;
    if j > 0 {
      UnitsUpdate(free, k, l, d, j - 1);
      if k == j - 1 {
        Distributes(|free[k]|, d, Pow2(k));
      }
    }
  }

  lemma Distributes(a: int, b: int, p: nat)
    ensures (a + b) * p == a * p + b * p
  {
  }

  lemma CutKeepsUnits(free: Lists, k: nat)
    requires 0 < k < |free| && free[k] != []
    ensures Units(Cut(free, k), |free|) == Units(free, |free|)
  {
    UnitsUpdate(free, k, free[k][1..], -1, |free|);
    var one := free[k := free[k][1..]];
    UnitsUpdate(one, k - 1, [free[k][0], free[k][0] + Pow2(k - 1)] + free[k - 1], 2, |free|);
    hide Units;
  }

  /** No order has more than one free block. */
  ghost predicate Sparse(free: Lists) {
    forall k :: 0 <= k < |free| ==> |free[k]| <= 1
  }

  lemma {:induction false} SparseBelow(free: Lists, j: nat)
    requires j <= |free| && Sparse(free)
    ensures Units(free, j) < Pow2(j)
  {
    if j > 0 {
      SparseBelow(free, j - 1);
    }
  }

  lemma {:induction false} UnitsAbove(free: Lists, k: nat, j: nat)
    requires k < j <= |free| && free[k] != []
    ensures Units(free, j) >= Pow2(k)
  {
    if k < j - 1 {
      UnitsAbove(free, k, j - 1);
    } else {
      ScaleUp(|free[k]|, Pow2(k));
    }
  }

  /** Taking a block off its list keeps all that a valid area promises. */
  lemma TakeKeeps(free: Lists, blocks: Blocks, property: map<nat, nat>, heads: set<nat>, m: nat, k: nat)
    requires Sound(free, blocks, property, heads, m) && k < |free| && free[k] != []
    ensures Sound(free[k := free[k][1..]], blocks, property, heads - {free[k][0]}, m)
    ensures Units(free[k := free[k][1..]], |free|) == Units(free, |free|) - Pow2(k) >= 0
  {
    hide Listed, Tiles, Pow2, OnList;
    TakeLists(free, blocks, property, heads, k);
    UnitsUpdate(free, k, free[k][1..], -1, |free|);
    UnitsAbove(free, k, |free|);
  }

  lemma {:induction false} EmptyAbove(free: Lists, k: nat, j: nat)
    requires k <= j <= |free| && forall i :: k <= i < j ==> free[i] == []
    ensures Units(free, j) == Units(free, k)
  {
    if k < j {
      EmptyAbove(free, k, j - 1);
    }
  }

  /** `k` is the smallest order from `need` on that has a free block. */
  ghost predicate FirstFrom(free: Lists, need: nat, k: nat) {
    need <= k < |free| && free[k] != [] && forall j :: need <= j < k ==> free[j] == []
  }

  ghost predicate NoneFrom(free: Lists, need: nat) {
    forall j :: need <= j < |free| ==> free[j] == []
  }

  /** With one block an order, the free page count tells whether an order can be served. */
  lemma CountDecides(free: Lists, need: nat)
    requires Sparse(free) && need < |free|
    ensures NoneFrom(free, need) <==> Units(free, |free|) < Pow2(need)
  {
    if NoneFrom(free, need) {
      EmptyAbove(free, need, |free|);
      SparseBelow(free, need);
    } else {
      var k :| need <= k < |free| && free[k] != [];
      UnitsAbove(free, k, |free|);
      Pow2Grows(need, k);
    }
  }

  function CutDownAt(free: Lists, order: nat, k: nat, j: nat): seq<nat>
    requires 0 < order <= k < |free| && free[k] != [] && j < |free|
  {
    var s := free[k][0];
    if j == order - 1 then [s, s + Pow2(order - 1)] + free[j]
    else if j == k then free[k][1..]
    else if order <= j < k then [s + Pow2(j)]
    else free[j]
  }

  /** The lists after cutting down from order `k` to two blocks of order `order - 1`. */
  ghost predicate CutDown(free: Lists, order: nat, k: nat, free': Lists)
    requires 0 < order <= k < |free| && free[k] != []
  {
    |free'| == |free| && forall j :: 0 <= j < |free| ==> free'[j] == CutDownAt(free, order, k, j)
  }

  function CarvedAt(free: Lists, need: nat, k: nat, j: nat): seq<nat>
    requires need <= k < |free| && free[k] != [] && j < |free|
  {
    if j == k then free[k][1..] else if need <= j < k then [free[k][0] + Pow2(j)] else free[j]
  }

  /** The lists after the allocation of the first `2^need` pages of the first block of order
      `k`: one upper half is left in each order in between. */
  ghost predicate Carved(free: Lists, need: nat, k: nat, free': Lists)
    requires need <= k < |free| && free[k] != []
  {
    |free'| == |free| && forall j :: 0 <= j < |free| ==> free'[j] == CarvedAt(free, need, k, j)
  }

  lemma CutTop(free: Lists, k: nat, m: nat)
    requires 0 < k <= m < |free| && free[k] != [] && forall j :: m < j < |free| ==> free[j] == []
    ensures forall j :: m < j < |free| ==> Cut(free, k)[j] == []
    ensures |Cut(free, k)| == |free|
    ensures var a := free[k][0];
            var one := free[k := free[k][1..]];
            Cut(free, k) == one[k - 1 := [a, a + Pow2(k - 1)] + one[k - 1]]
  {
  }

  lemma CutDownStep(free: Lists, order: nat, k: nat, free1: Lists)
    requires 0 < order < |free| && FirstFrom(free, order, k)
    requires if k == order then free1 == free else CutDown(free, order + 1, k, free1)
    ensures |free1| == |free| && free1[order] != [] && CutDown(free, order, k, Cut(free1, order))
  {
    assert free1[order] != [] && free1[order][0] == free[k][0];
    CutAt(free1, order);
    hide Cut, Pow2;
    forall j | 0 <= j < |free| ensures Cut(free1, order)[j] == CutDownAt(free, order, k, j) {
      if j == order || j == order - 1 {
        assert k > order ==> free1[j] == CutDownAt(free, order + 1, k, j);
      } else {
        assert Cut(free1, order)[j] == free1[j];
      }
    }
  }

  lemma CarvedStep(free: Lists, need: nat, k: nat, free1: Lists)
    requires need < |free| && FirstFrom(free, need, k)
    requires if k == need then free1 == free else CutDown(free, need + 1, k, free1)
    ensures |free1| == |free| && free1[need] != [] && free1[need][0] == free[k][0]
    ensures Carved(free, need, k, free1[need := free1[need][1..]])
  {
  }

  lemma CarvedIsSparse(free: Lists, need: nat, k: nat, free': Lists)
    requires need <= k < |free| && free[k] != [] && Sparse(free) && Carved(free, need, k, free')
    ensures Sparse(free')
  {
  }

  lemma NoneAbove(free: Lists, m: nat, order: nat)
    requires forall j :: m < j < |free| ==> free[j] == []
    ensures order > m ==> NoneFrom(free, order)
  {
  }

  lemma NoFree(free: Lists, order: nat)
    requires order < |free|
    ensures NoneFrom(free, order) <==> free[order] == [] && NoneFrom(free, order + 1)
  {
  }

  function NoLists(): (l: Lists)
    ensures |l| == MAX_ORDER + 1 && forall j :: 0 <= j < |l| ==> l[j] == []
  {
    seq(MAX_ORDER + 1, i => [])
  }

  lemma LastOrder(n: nat, order: nat)
    requires Pow2(order) <= n < 2 * Pow2(order)
    ensures order < MAX_ORDER <==> n < Pow2(MAX_ORDER)
  {
    if order < MAX_ORDER {
      Pow2Grows(order, MAX_ORDER);
    } else {
      Pow2Grows(MAX_ORDER, order);
    }
  }

  /** One block as the only one on the lists. */
  lemma WholeArea(free: Lists, k: nat, property: map<nat, nat>, free': Lists)
    requires free == NoLists() && k < |free| && 0 in property && property[0] == k
    requires free' == free[k := [0] + free[k]]
    ensures Units(free', |free'|) == Pow2(k) && Sparse(free') && forall j :: k < j < |free'| ==> free'[j] == []
    ensures Listed(free', map[0 := k], property, {0}) && Tiles(map[0 := k], k)
  {
    hide Pow2, Units, Listed, Tiles;
    UnitsOfEmpty(free, |free|);
    UnitsUpdate(free, k, [0], 1, |free|);
    assert [0] + free[k] == [0];
    OneListed(free', k, property);
    WholeTiles(k);
  }

  lemma OneListed(free: Lists, k: nat, property: map<nat, nat>)
    requires |free| == MAX_ORDER + 1 && k < |free| && 0 in property && property[0] == k
    requires forall j :: 0 <= j < |free| ==> free[j] == if j == k then [0] else []
    ensures Listed(free, map[0 := k], property, {0})
  {
  }

  /** Of `n` pages, all that will be managed are reserved: those below some power of two within `n`. */
  ghost predicate AllReserved(reserved: seq<bool>, n: nat) {
    forall p: nat, k: nat :: p < |reserved| && Pow2(k) <= n && p < Pow2(k) ==> reserved[p]
  }

  lemma ReservedBelow(reserved: seq<bool>, n: nat, order: nat)
    requires n <= |reserved| && Pow2(order) <= n < 2 * Pow2(order)
    ensures AllReserved(reserved, n) <==> forall p :: 0 <= p < Pow2(order) ==> reserved[p]
  {
    forall k: nat | Pow2(k) <= n ensures Pow2(k) <= Pow2(order) {
      if k > order {
        Pow2Grows(order, k);
      } else {
        Pow2Grows(k, order);
      }
    }
  }

  /** The first `pn` pages are reserved no more. */
  ghost predicate Freed(reserved: seq<bool>, pn: nat, reserved': seq<bool>) {
    |reserved'| == |reserved| && forall p :: 0 <= p < |reserved| ==> reserved'[p] == (reserved[p] && p >= pn)
  }

  datatype Outcome = Panic | Null | At(page: nat)

  /** The pages of a block of the last order. */
  lemma MaxPages()
    ensures Pow2(MAX_ORDER) == 0x10_0000
  {
    assert Pow2(10) == 1024;
    assert Pow2(20) == 0x10_0000;
  }

  class BuddyArea {
    var freeArray: Lists
    var nrFree: nat
    var maxOrder: nat
    var property: map<nat, nat>
    var heads: set<nat>
    var reserved: seq<bool>
    var ready: set<nat>  // the orders whose list head has been initialised
    ghost var blocks: Blocks

    ghost predicate Valid()
      reads this
    {
      && Sound(freeArray, blocks, property, heads, maxOrder) && nrFree == Units(freeArray, |freeArray|)
      && forall j: nat :: j <= maxOrder ==> j in ready
    }

    /** What buddy_init leaves: no pages, and list heads for all orders but the last. */
    ghost predicate Blank()
      reads this
    {
      && (forall j: nat :: j in ready <==> j < 20) && |freeArray| == 21
      && freeArray == NoLists() && maxOrder == 0 && nrFree == 0 && heads == {}
    }

    /** buddy_init, over pages some of which are marked reserved.  Its loop stops one short of
        the length of free_array. */
    constructor (reserved: seq<bool>)
      ensures Blank() && this.reserved == reserved
    {
      this.reserved := reserved;
      maxOrder, nrFree, ready := 0, 0, {};
      property, heads, blocks := map[], {}, map[];
      freeArray := NoLists();
      new;
      var i := 0;
      while i < MAX_ORDER
        invariant i <= MAX_ORDER && forall j: nat :: j in ready <==> j < i
        invariant freeArray == NoLists() && maxOrder == 0 && nrFree == 0 && heads == {} && this.reserved == reserved
      {
        freeArray := freeArray[i := []];
        ready := ready + {i};
        i := i + 1;
      }
    }

    /** buddy_init_memmap.  It fails on its assertions, that `n` is not zero and that every page it
        will manage is reserved, and where it adds the block to a list head that was never
        initialised: from `2^20` pages on. */
    method InitMemmap(n: nat) returns (ok: bool)
      requires Blank() && n <= |reserved|
      modifies this`freeArray, this`property, this`heads, this`nrFree, this`blocks, this`maxOrder, this`reserved
      ensures ok <==> 0 < n < 0x10_0000 && AllReserved(old(reserved), n)
      ensures ok ==> Valid() && Sparse(freeArray)
      ensures ok ==> Pow2(maxOrder) <= n < 2 * Pow2(maxOrder) && nrFree == Pow2(maxOrder)
      ensures ok ==> blocks == map[0 := maxOrder] && heads == {0}
      ensures ok ==> Freed(old(reserved), nrFree, reserved)
      ensures ok ==> forall q: nat :: 0 < q < nrFree ==> q in property && property[q] == 0
    {
      hide Pow2, NoLists, Sparse, AllReserved, Freed, Valid;
      MaxPages();
      if n == 0 {
        return false;
      }
      var pn, order := Managed(n);
      ReservedBelow(reserved, n, order);
      maxOrder := order;
      ok := ResetPages(pn);
      if ok {
        ok := AddWhole(pn);
      }
    }

    /** How many of `n` pages are managed, and the order of the block they make. */
    method Managed(n: nat) returns (pn: nat, order: nat)
      requires n > 0
      ensures pn == Pow2(order) && Pow2(order) <= n < 2 * Pow2(order) && (order < MAX_ORDER <==> n < Pow2(MAX_ORDER))
    {
      ghost var k: nat;
      pn, k := FloorPow2(n);
      order := Log2(pn);
      SamePower(order, k, pn);
      LastOrder(n, order);
    }

    /** The end of buddy_init_memmap: all managed pages make one block. */
    method AddWhole(pn: nat) returns (ok: bool)
      requires forall j: nat :: j in ready <==> j < MAX_ORDER
      requires freeArray == NoLists() && heads == {} && pn == Pow2(maxOrder)
      modifies this`nrFree, this`property, this`heads, this`freeArray, this`blocks
      ensures ok <==> maxOrder < MAX_ORDER
      ensures property == old(property)[0 := maxOrder]
      ensures ok ==> Valid() && Sparse(freeArray) && nrFree == pn && blocks == map[0 := maxOrder] && heads == {0}
    {
      hide Pow2, Units, Tiles, Listed, Sparse;
      ghost var free0 := freeArray;
      ok := maxOrder in ready;
      nrFree := pn;
      property := property[0 := maxOrder];
      heads := heads + {0};
      if ok {
        freeArray := freeArray[maxOrder := [0] + freeArray[maxOrder]];
        blocks := map[0 := maxOrder];
        WholeArea(free0, maxOrder, property, freeArray);
        assert heads == {0};
      }
    }

    /** The loop of buddy_init_memmap over the descriptors; it asserts that each is reserved. */
    method ResetPages(pn: nat) returns (ok: bool)
      requires pn <= |reserved| && heads == {}
      modifies this`property, this`heads, this`reserved
      ensures ok <==> forall p :: 0 <= p < pn ==> old(reserved)[p]
      ensures ok ==> heads == {} && (forall q: nat :: q < pn ==> q in property && property[q] == 0)
      ensures ok ==> Freed(old(reserved), pn, reserved)
    {
      var p := 0;
      while p != pn
        invariant 0 <= p <= pn && heads == {} && Freed(old(reserved), p, reserved)
        invariant forall q: nat :: q < p ==> q in property && property[q] == 0 && old(reserved)[q]
      {
        if !reserved[p] {
          return false;
        }
        reserved := reserved[p := false];
        heads := heads - {p};
        property := property[p := 0];
        p := p + 1;
      }
      ok := true;
    }

    /** buddy_split.  It fails if no order from `order` on has a free block. */
    method Split(order: nat) returns (ok: bool, ghost k: nat)
      requires Valid() && order > 0
      modifies this`freeArray, this`property, this`heads, this`blocks
      ensures maxOrder == old(maxOrder) && nrFree == old(nrFree)
      ensures !ok <==> NoneFrom(old(freeArray), order)
      ensures ok ==> Valid() && FirstFrom(old(freeArray), order, k) && CutDown(old(freeArray), order, k, freeArray)
      ensures ok ==> KeepsAllocated(old(blocks), old(heads), blocks, heads)
      decreases MAX_ORDER + 1 - order
    {
      k := order;
      ghost var free0, blocks0, heads0 := freeArray, blocks, heads;
      NoneAbove(free0, maxOrder, order);
      KeepsNothing(blocks, heads);
      hide Listed, Tiles, Units, KeepsAllocated, CutDown, Cut, NoneFrom;
      if !(order > 0 && order <= maxOrder) {
        return false, k;
      }
      NoFree(free0, order);
      ok := true;
      if freeArray[order] == [] {
        ok, k := Split(order + 1);
        if !ok {
          return;
        }
      }
      FirstDecides(free0, order, k);
      CutDownStep(free0, order, k, freeArray);
      ghost var blocks1, heads1 := blocks, heads;
      HalveFirst(order);
      KeepsTwice(blocks0, heads0, blocks1, heads1, blocks, heads);
    }

    /** The rest of buddy_split: the first block of the order becomes two of the order below. */
    method HalveFirst(order: nat)
      requires Valid() && 0 < order <= maxOrder && freeArray[order] != []
      modifies this`freeArray, this`property, this`heads, this`blocks
      ensures Valid() && maxOrder == old(maxOrder) && nrFree == old(nrFree) && freeArray == Cut(old(freeArray), order)
      ensures KeepsAllocated(old(blocks), old(heads), blocks, heads)
    {
      hide Sound, Listed, Halved, Units, Pow2, Cut, OnList, KeepsAllocated;
      ghost var free0, blocks0, property0, heads0 := freeArray, blocks, property, heads;
      SoundMeans(free0, blocks0, property0, heads0, maxOrder);
      FirstListed(free0, blocks0, property0, heads0, order);
      var left: nat := freeArray[order][0];
      property := property[left := property[left] - 1];
      var right: nat := left + Pow2(property[left]);
      heads := heads + {right};
      property := property[right := property[left]];
      freeArray := freeArray[order := freeArray[order][1..]];
      freeArray := freeArray[order - 1 := [left, right] + freeArray[order - 1]];
      blocks := Halved(blocks, left);
      CutKeeps(free0, blocks0, property0, heads0, maxOrder, order, left, right, freeArray, blocks, property, heads);
    }

    /** buddy_alloc_pages. */
    method AllocPages(n: nat) returns (r: Outcome, ghost need: nat, ghost k: nat)
      requires Valid() && Sparse(freeArray) && n > 0
      modifies this`freeArray, this`property, this`heads, this`nrFree, this`blocks
      ensures IsCeil(n, need)
      ensures r.Null? <==> n > old(nrFree)
      ensures r.Panic? <==> n <= old(nrFree) < Pow2(need)
      ensures !r.Panic? ==> Valid() && Sparse(freeArray) && maxOrder == old(maxOrder)
      ensures r.Null? ==> freeArray == old(freeArray) && nrFree == old(nrFree) && property == old(property)
      ensures r.Null? ==> heads == old(heads) && blocks == old(blocks)
      ensures r.At? ==> FirstFrom(old(freeArray), need, k) && r.page == old(freeArray)[k][0]
      ensures r.At? ==> Carved(old(freeArray), need, k, freeArray) && nrFree == old(nrFree) - Pow2(need)
      ensures r.At? ==> r.page in blocks && blocks[r.page] == need && r.page !in heads
      ensures !r.Panic? ==> KeepsAllocated(old(blocks), old(heads), blocks, heads)
    {
      hide Sound, Units, Sparse, NoneFrom, Carved, FirstFrom, KeepsAllocated, IsCeil, Pow2;
      k := 0;
      ghost var free0, blocks0, heads0 := freeArray, blocks, heads;
      KeepsNothing(blocks, heads);
      var pn := CeilPow2(n);
      need :| pn == Pow2(need) && IsCeil(n, need);
      if n > nrFree {
        return Null, need, k;
      }
      var order := Log2(pn);
      SamePower(order, need, pn);
      SoundMeans(freeArray, blocks, property, heads, maxOrder);
      FitsRegion(n, need, maxOrder);
      CountDecides(freeArray, need);
      var ok;
      ok, k := Provide(order);
      if !ok {
        return Panic, need, k;
      }
      ghost var blocks1, heads1 := blocks, heads;
      var page := TakeFirst(order, pn);
      KeepsTaken(blocks0, heads0, blocks1, heads1, page);
      CarvedIsSparse(free0, need, k, freeArray);
      r := At(page);
    }

    /** The step of buddy_alloc_pages that splits a larger block if the order's own list is empty. */
    method Provide(order: nat) returns (ok: bool, ghost k: nat)
      requires Valid() && order <= MAX_ORDER
      modifies this`freeArray, this`property, this`heads, this`blocks
      ensures maxOrder == old(maxOrder) && nrFree == old(nrFree)
      ensures !ok <==> NoneFrom(old(freeArray), order)
      ensures ok ==>
                && Valid() && FirstFrom(old(freeArray), order, k)
                && order <= k < |old(freeArray)| && old(freeArray)[k] != []
      ensures ok ==> freeArray[order] != [] && freeArray[order][0] == old(freeArray)[k][0]
      ensures ok ==> Carved(old(freeArray), order, k, freeArray[order := freeArray[order][1..]])
      ensures ok ==> KeepsAllocated(old(blocks), old(heads), blocks, heads)
    {
      NoFree(freeArray, order);
      KeepsNothing(blocks, heads);
      ghost var free0 := freeArray;
      hide KeepsAllocated, Listed, Tiles, Units, Pow2, NoneFrom, CutDown, Carved;
      ok, k := true, order;
      if freeArray[order] == [] {
        ok, k := Split(order + 1);
        if !ok {
          return;
        }
      }
      FirstDecides(free0, order, k);
      CarvedStep(free0, order, k, freeArray);
    }

    /** The rest of buddy_alloc_pages: the first block of the order leaves its list. */
    method TakeFirst(order: nat, pn: nat) returns (page: nat)
      requires Valid() && order <= MAX_ORDER && freeArray[order] != [] && pn == Pow2(order)
      modifies this`freeArray, this`heads, this`nrFree
      ensures Valid() && maxOrder == old(maxOrder) && nrFree == old(nrFree) - pn && blocks == old(blocks)
      ensures page == old(freeArray)[order][0] && freeArray == old(freeArray)[order := old(freeArray)[order][1..]]
      ensures page in blocks && blocks[page] == order && page in old(heads) && heads == old(heads) - {page}
    {
      hide Sound, Listed, Units, Pow2, OnList;
      SoundMeans(freeArray, blocks, property, heads, maxOrder);
      FirstListed(freeArray, blocks, property, heads, order);
      TakeKeeps(freeArray, blocks, property, heads, maxOrder, order);
      page := freeArray[order][0];
      freeArray := freeArray[order := freeArray[order][1..]];
      heads := heads - {page};
      nrFree := nrFree - pn;
    }
  }

  lemma FirstDecides(free: Lists, need: nat, k: nat)
    requires need < |free|
    requires if k == need then free[need] != [] else free[need] == [] && FirstFrom(free, need + 1, k)
    ensures FirstFrom(free, need, k) && !NoneFrom(free, need)
  {
  }

  lemma SamePower(j: nat, k: nat, p: nat)
    requires p == Pow2(k) && Pow2(j) <= p < 2 * Pow2(j)
    ensures j == k
  {
    if j < k { Pow2Grows(j, k); }
    if k < j { Pow2Grows(k, j); }
  }

  lemma FitsRegion(n: nat, need: nat, m: nat)
    requires IsCeil(n, need) && n <= Pow2(m)
    ensures need <= m
  {
    if need > m { Pow2Grows(m, need - 1); }
  }

  lemma {:induction false} UnitsOfEmpty(free: Lists, j: nat)
    requires j <= |free| && forall i :: 0 <= i < j ==> free[i] == []
    ensures Units(free, j) == 0
  {
    if j > 0 { UnitsOfEmpty(free, j - 1); }
  }

  lemma WholeTiles(m: nat)
    ensures Tiles(map[0 := m], m)
  {
    forall u: nat | u < Pow2(m) ensures Covered(map[0 := m], u) {
      assert Holds(map[0 := m], 0, u);
    }
  }

  /** A count that is large enough does not mean a block that is large enough: after one page
      has been taken from four, a request for three of the remaining three panics. */
  method FragmentedExample() returns (r: Outcome)
    ensures r == Panic
  {
    hide BuddyArea.Valid, BuddyArea.Blank, FirstFrom, Carved, KeepsAllocated, IsCeil, Freed, Sparse;
    var area := new BuddyArea([true, true, true, true]);
    assert Pow2(1) == 2 && Pow2(2) == 4;
    Pow2Grows(3, MAX_ORDER);
    var ok := area.InitMemmap(4);
    SamePower(area.maxOrder, 2, 4);
    ghost var need, k;
    r, need, k := area.AllocPages(1);
    SmallCeil(1, need);
    assert area.nrFree == 3;
    r, need, k := area.AllocPages(3);
    SmallCeil(3, need);
  }

  lemma SmallCeil(n: nat, need: nat)
    requires IsCeil(n, need) && (n == 1 || n == 3)
    ensures Pow2(need) == if n == 1 then 1 else 4
  {
    assert Pow2(0) == 1 && Pow2(1) == 2 && Pow2(2) == 4;
    if need > 2 { Pow2Grows(2, need - 1); }
  }

  /** `2^20` pages are the fewest for which the block belongs on the uninitialised list. */
  method LastListExample() returns (below: bool, at: bool)
    ensures below && !at
  {
    hide BuddyArea.Valid, BuddyArea.Blank, Pow2, Freed, Sparse;
    var pages := seq(0x10_0000, i => true);
    var area := new BuddyArea(pages);
    below := area.InitMemmap(0xF_FFFF);
    area := new BuddyArea(pages);
    at := area.InitMemmap(0x10_0000);
  }
}
