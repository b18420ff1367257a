/** Address and entry arithmetic of mmu.h, pmm.h and swap.h for Sv39 (RISC-V Privileged
    Architecture, section 4.4): shifts and masks written as division and remainder. */
module Sv39 {
  const PGSIZE: nat := 4096
  const NPTEENTRY: nat := 512

  const PTE_V: nat := 1
  const PTE_R: nat := 2
  const PTE_W: nat := 4
  const PTE_U: nat := 16

  function PDX1(la: nat): nat { la / 0x4000_0000 % 512 }
  function PDX0(la: nat): nat { la / 0x20_0000 % 512 }
  function PTX(la: nat): nat { la / 4096 % 512 }
  function PGOFF(la: nat): nat { la % 4096 }

  function PGADDR(d1: nat, d0: nat, t: nat, o: nat): nat {
    d1 * 0x4000_0000 + d0 * 0x20_0000 + t * 4096 + o
  }

  /** The page of a 39-bit address; higher bits take no part in the walk. */
  function Page(la: nat): nat { la / PGSIZE % 0x800_0000 }

  /** The three indices of a page. */
  function I1(page: nat): nat { page / 0x4_0000 % 512 }
  function I0(page: nat): nat { page / 512 % 512 }
  function It(page: nat): nat { page % 512 }

  lemma SplitRebuilds(la: nat)
    requires la < 0x80_0000_0000
    ensures PGADDR(PDX1(la), PDX0(la), PTX(la), PGOFF(la)) == la
  {
    var p := la / 4096;
    assert la == p * 4096 + PGOFF(la);
    assert la / 0x20_0000 == p / 512 && la / 0x4000_0000 == p / 0x4_0000;
    assert p == (p / 512) * 512 + p % 512;
    assert p / 512 == (p / 0x4_0000) * 512 + (p / 512) % 512;
  }

  lemma BuildSplits(d1: nat, d0: nat, t: nat, o: nat)
    requires d1 < 512 && d0 < 512 && t < 512 && o < 4096
    ensures var la := PGADDR(d1, d0, t, o);
            la < 0x80_0000_0000 && PDX1(la) == d1 && PDX0(la) == d0 && PTX(la) == t && PGOFF(la) == o
  {
    Quotient(d1 * 0x4_0000 + d0 * 512 + t, 4096, o);
    Quotient(d1 * 512 + d0, 512, t);
    Quotient(d1 * 512 + d0, 0x20_0000, t * 4096 + o);
    Quotient(d1, 512, d0);
    Quotient(d1, 0x4000_0000, d0 * 0x20_0000 + t * 4096 + o);
    Quotient(0, 512, d1);
  }

  lemma Quotient(q: nat, b: nat, r: nat)
    requires r < b
    ensures (q * b + r) / b == q && (q * b + r) % b == r
  {
    var e := q * b + r;
    assert e == e / b * b + e % b;
    SameParts(q, r, e / b, e % b, b);
  }

  lemma SameParts(q: nat, r: nat, d: nat, m: nat, b: nat)
    requires q * b + r == d * b + m && r < b && m < b
    ensures q == d && r == m
  {
    if q < d {
      assert (d - q) * b == d * b - q * b;
      AtLeast(d - q, b);
    } else if d < q {
      assert (q - d) * b == q * b - d * b;
      AtLeast(q - d, b);
    }
  }

  lemma AtLeast(n: nat, b: nat)
    requires n > 0
    ensures n * b >= b
  {
    if n > 1 {
      AtLeast(n - 1, b);
      assert n * b == (n - 1) * b + b;
    }
  }

  /** The walk of an address is the walk of its page. */
  lemma IndicesOfPage(la: nat)
    ensures PDX1(la) == I1(Page(la)) && PDX0(la) == I0(Page(la)) && PTX(la) == It(Page(la))
  {
    var p := la / 4096;
    assert la / 0x20_0000 == p / 512 && la / 0x4000_0000 == p / 0x4_0000;
    HighBits(p);
  }

  /** Bits from the 27th on do not reach the indices. */
  lemma HighBits(p: nat)
    ensures var r := p % 0x800_0000;
            p / 0x4_0000 % 512 == I1(r) && p / 512 % 512 == I0(r) && p % 512 == It(r)
  {
    var q, r := p / 0x800_0000, p % 0x800_0000;
    HighBits1(p);
    HighBits2(p);
    ModShift(q, r / 0x4_0000);
    ModShift(q * 512, r / 512);
    ModShift(q * 0x4_0000, r);
  }

  lemma HighBits1(p: nat)
    ensures p / 0x4_0000 == (p / 0x800_0000) * 512 + p % 0x800_0000 / 0x4_0000
  {
  }

  lemma HighBits2(p: nat)
    ensures p / 512 == (p / 0x800_0000 * 512) * 512 + p % 0x800_0000 / 512
    ensures p == (p / 0x800_0000 * 0x4_0000) * 512 + p % 0x800_0000
  {
  }

  lemma ModShift(q: nat, r: nat)
    ensures (q * 512 + r) % 512 == r % 512
  {
  }

  /** Different pages differ in some index. */
  lemma PageFromIndices(p: nat, q: nat)
    requires p < 0x800_0000 && q < 0x800_0000 && I1(p) == I1(q) && I0(p) == I0(q) && It(p) == It(q)
    ensures p == q
  {
    IndicesRebuild(p);
    IndicesRebuild(q);
  }

  lemma IndicesRebuild(p: nat)
    requires p < 0x800_0000
    ensures p == I1(p) * 0x4_0000 + I0(p) * 512 + It(p)
  {
    var m := p / 512;
    assert p == m * 512 + It(p) && m == m / 512 * 512 + I0(p);
    assert m / 512 == p / 0x4_0000 < 512;
  }

  /** pte_create; `kind` are the low ten bits. */
  function PteCreate(ppn: nat, kind: nat): nat {
    ppn * 1024 + (if kind % 2 == 1 then kind else kind + 1)
  }

  predicate Valid(pte: nat) { pte % 2 == 1 }

  /** PTE_ADDR as a frame number. */
  function Ppn(pte: nat): nat { pte / 1024 }

  function Bits(pte: nat): nat { pte % 1024 }

  lemma PteRoundTrip(ppn: nat, kind: nat)
    requires kind < 1024
    ensures var pte := PteCreate(ppn, kind);
            && Valid(pte) && Ppn(pte) == ppn && Bits(pte) == (if kind % 2 == 1 then kind else kind + 1)
            && pte % 2 == 1 && pte / 1024 == ppn
  {
    var low := if kind % 2 == 1 then kind else kind + 1;
    assert low % 2 == 1 by {
      if kind % 2 == 0 { assert (kind + 1) % 2 == 1; }
    }
    TenBits(ppn, low);
  }

  lemma TenBits(q: nat, r: nat)
    requires r < 1024
    ensures (q * 1024 + r) / 1024 == q && (q * 1024 + r) % 1024 == r && (q * 1024 + r) % 2 == r % 2
  {
    Quotient(q, 1024, r);
    Parity(q * 512, r);
  }

  lemma Parity(h: nat, r: nat)
    ensures (h * 2 + r) % 2 == r % 2
  {
  }

  /** The entry that swap_out stores for a page: its number plus one, shifted by eight bits. */
  function SwapEntry(page: nat): nat { (page + 1) * 256 }

  /** swap_offset without its range check. */
  function Slot(entry: nat): nat { entry / 256 }

  lemma SwapEntryRoundTrip(page: nat)
    ensures var e := SwapEntry(page); Slot(e) == page + 1 && !Valid(e) && e == (page + 1) * 256
  {
  }
}
