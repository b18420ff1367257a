/** Powers of two and right shifts. */
module Powers {
  function Pow2(k: nat): (p: nat)
    ensures p > 0
  {
    if k == 0 then 1 else 2 * Pow2(k - 1)
  }

  /** `size` shifted right by `k` bits. */
  function Shr(size: nat, k: nat): nat {
    if k == 0 then size else Shr(size, k - 1) / 2
  }

  lemma {:induction false} ShrBounds(size: nat, k: nat)
    ensures Shr(size, k) * Pow2(k) <= size < (Shr(size, k) + 1) * Pow2(k)
  {
    if k > 0 {
      ShrBounds(size, k - 1);
      Halve(size, Shr(size, k - 1), Pow2(k - 1));
    }
  }

  lemma Halve(size: nat, q: nat, p: nat)
    requires q * p <= size < (q + 1) * p
    ensures (q / 2) * (2 * p) <= size < (q / 2 + 1) * (2 * p)
  {
    var h := q / 2;
    assert q == 2 * h || q == 2 * h + 1;
    assert (2 * h) * p == h * (2 * p) && (2 * h + 1) * p == h * (2 * p) + p && (2 * h + 2) * p == (h + 1) * (2 * p);
  }
}
