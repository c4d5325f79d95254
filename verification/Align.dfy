/** Alignment arithmetic (lib/public/startup.h:147-151).

TRUNC clears the low bits of an address, ROUND adds `align - 1` first. The C macros use
bit masks, which agree with the division below when the alignment is a power of two. */
module Align {
  /** CPU_PADDR_BITS is 48 on this CPU (lib/public/aarch64/cpu_startup.h:62). */
  const PADDR_LIMIT: nat := 0x1_0000_0000_0000

  const TWO_64: nat := 0x1_0000_0000_0000_0000
  const TWO_32: nat := 0x1_0000_0000
  const PAGE: nat := 4096

  predicate PowerOfTwo(a: nat) {
    a == 1 || (a > 1 && a % 2 == 0 && PowerOfTwo(a / 2))
  }

  function Trunc(x: nat, align: nat): (r: nat)
    requires align > 0
  {
    x / align * align
  }

  function Round(x: nat, align: nat): (r: nat)
    requires align > 0
  {
    Trunc(x + align - 1, align)
  }

  lemma MulMono(a: int, p: int, q: int)
    requires a > 0 && p <= q
    ensures p * a <= q * a
  {
    assert (q - p) * a >= 0;
    assert q * a == p * a + (q - p) * a;
  }

  /** Euclidean division is determined by its defining equation. */
  lemma DivModUnique(x: int, a: int, q: int, r: int)
    requires a > 0 && 0 <= r < a && x == q * a + r
    ensures x / a == q && x % a == r
  {
    var d, m := x / a, x % a;
    assert x == d * a + m;
    if q < d {
      MulMono(a, q + 1, d);
    }
    if d < q {
      MulMono(a, d + 1, q);
    }
  }

  /** TRUNC is the largest multiple not above x. */
  lemma TruncIsFloor(x: nat, align: nat)
    requires align > 0
    ensures Trunc(x, align) % align == 0
    ensures Trunc(x, align) <= x < Trunc(x, align) + align
    ensures forall k: nat :: k * align <= x ==> k * align <= Trunc(x, align)
  {
    var q := x / align;
    assert x == q * align + x % align;
    DivModUnique(q * align, align, q, 0);
    forall k: nat | k * align <= x
      ensures k * align <= q * align
    {
      if q + 1 <= k {
        MulMono(align, q + 1, k);
      } else {
        MulMono(align, k, q);
      }
    }
  }

  /** ROUND is the smallest multiple not below x. */
  lemma RoundIsCeiling(x: nat, align: nat)
    requires align > 0
    ensures Round(x, align) % align == 0
    ensures x <= Round(x, align) < x + align
    ensures forall k: nat :: x <= k * align ==> Round(x, align) <= k * align
  {
    TruncIsFloor(x + align - 1, align);
    var q := (x + align - 1) / align;
    forall k: nat | x <= k * align
      ensures q * align <= k * align
    {
      if k + 1 <= q {
        MulMono(align, k + 1, q);
      } else {
        MulMono(align, q, k);
      }
    }
  }

  /** TRUNCPG and ROUNDPG. */
  function TruncPg(x: nat): (r: nat)
    ensures r % 4096 == 0 && r <= x < r + 4096
  {
    x / 4096 * 4096
  }

  function RoundPg(x: nat): (r: nat)
    ensures r % 4096 == 0 && x <= r < x + 4096
  {
    (x + 4095) / 4096 * 4096
  }

  /** ROUND to eight bytes: every system page section starts and ends on such a border. */
  function Round8(x: nat): (r: nat)
    ensures r % 8 == 0 && x <= r < x + 8
  {
    (x + 7) / 8 * 8
  }

  lemma Round8OfMultiple(x: nat)
    requires x % 8 == 0
    ensures Round8(x) == x
  {
  }
}
