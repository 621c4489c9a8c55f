/** The 8-byte padding arithmetic shared by every host and device program.

    The transfer channel moves data in 8-byte units, and the programs use four
    different spellings of "round up to a multiple of 8" and two of "round down
    to a multiple of 8". Each spelling is modelled as written and related to one
    reference definition. Sizes are `size_t` in the source; they are modelled as
    `nat` because every size involved is far below 2^64. */
module Align {

  /** The transfer unit. */
  const UNIT: nat := 8

  predicate Aligned(x: int) {
    x % UNIT == 0
  }

  /** Reference definition: `r` is the least multiple of 8 that is at least `x`. */
  predicate IsRoundUp(x: int, r: int) {
    Aligned(r) && x <= r < x + UNIT
  }

  /** Reference definition: `r` is the greatest multiple of 8 that is at most `x`. */
  predicate IsRoundDown(x: int, r: int) {
    Aligned(r) && x - UNIT < r <= x
  }

  /** `y & ~7`: clearing the three low bits of a non-negative integer removes
      exactly its remainder modulo 8. */
  function ClearLowBits(y: nat): nat {
    y - y % 8
  }

  /** `(x + 7) & ~7` (dga_host4.c, dtest_host2.c, dtest2.c). */
  function MaskRoundUp(x: nat): (r: nat)
    ensures IsRoundUp(x, r)
  {
    ClearLowBits(x + 7)
  }

  /** `if (x % 8 != 0) x += 8 - x % 8;` (dtest_host1.c, dtest_host.c, dga_host3.c,
      dga_host5.c). */
  function PadRoundUp(x: nat): (r: nat)
    ensures IsRoundUp(x, r)
  {
    if x % 8 != 0 then x + (8 - x % 8) else x
  }

  /** `if (x % 8 != 0) x = ((x / 8) + 1) * 8;` (dga_host2.c). */
  function NextMultipleRoundUp(x: nat): (r: nat)
    ensures IsRoundUp(x, r)
  {
    if x % 8 != 0 then ((x / 8) + 1) * 8 else x
  }

  /** `if (c % 8 != 0) c -= c % 8;` (dtest_host1.c and its copies). */
  function SubRoundDown(c: nat): (r: nat)
    ensures IsRoundDown(c, r)
  {
    if c % 8 != 0 then c - c % 8 else c
  }

  /** `if (c % 8 != 0) c = (c / 8) * 8;` (dga_host1.c, dga_host2.c, dga_host3.c,
      dga_host4.c, dga1.c). */
  function DivRoundDown(c: nat): (r: nat)
    ensures IsRoundDown(c, r)
  {
    if c % 8 != 0 then (c / 8) * 8 else c
  }

  /** The reference definitions pin their result down uniquely, so every
      spelling that meets them computes the same value. */
  lemma RoundUpUnique(x: int, r1: int, r2: int)
    requires IsRoundUp(x, r1) && IsRoundUp(x, r2)
    ensures r1 == r2
  {
    assert r1 == 8 * (r1 / 8) && r2 == 8 * (r2 / 8);
  }

  lemma RoundDownUnique(x: int, r1: int, r2: int)
    requires IsRoundDown(x, r1) && IsRoundDown(x, r2)
    ensures r1 == r2
  {
    assert r1 == 8 * (r1 / 8) && r2 == 8 * (r2 / 8);
  }

  /** All round-up spellings agree with each other on every size. */
  lemma RoundUpFormsAgree(x: nat)
    ensures PadRoundUp(x) == NextMultipleRoundUp(x) == MaskRoundUp(x)
  {
    RoundUpUnique(x, PadRoundUp(x), NextMultipleRoundUp(x));
    RoundUpUnique(x, MaskRoundUp(x), PadRoundUp(x));
  }

  /** Both round-down spellings agree. */
  lemma RoundDownFormsAgree(c: nat)
    ensures SubRoundDown(c) == DivRoundDown(c)
  {
    RoundDownUnique(c, SubRoundDown(c), DivRoundDown(c));
  }

  /** Rounding up is idempotent and leaves aligned sizes unchanged. */
  lemma RoundUpIdempotent(x: nat)
    ensures PadRoundUp(PadRoundUp(x)) == PadRoundUp(x)
    ensures MaskRoundUp(MaskRoundUp(x)) == MaskRoundUp(x)
    ensures Aligned(x) <==> PadRoundUp(x) == x
    ensures Aligned(x) <==> MaskRoundUp(x) == x
  {
    RoundUpFormsAgree(x);
    RoundUpFormsAgree(MaskRoundUp(x));
  }

  /** The `(MAX_DOMAIN_LEN + 7) & ~7` read size of dtest_host2.c: 164 rounds up
      to 168, which fits the 172-byte `mram_domain` buffer and leaves index 164
      inside the buffer for the forced terminator. */
  lemma DomainReadbackSize()
    ensures MaskRoundUp(164) == 168
    ensures 164 < MaskRoundUp(164) <= 164 + 8
  {
  }
}
