/**
 * The two formulas the crate uses to go between a prefix length and a netmask,
 * and the test the renderer uses to decide whether a mask is a prefix mask.
 * Each is written exactly as the crate computes it and is then proved equal to
 * the mathematical prefix mask `Bits.PrefixMask`.
 */
module Prefix {
  import opened Wrappers
  import opened Bits

  /**
   * The renderer's (and the test utilities') mask for `ones` leading one bits:
   * `MAX.checked_shl(w - ones).unwrap_or(0)`.
   */
  function CidrMask(ones: nat, w: nat): nat
    requires ones <= w
  {
    CheckedShl(Max(w), w - ones, w).GetOr(0)
  }

  /** The renderer's formula yields the prefix mask; `/0` falls back to zero. */
  lemma CidrMaskIsPrefix(ones: nat, w: nat)
    requires ones <= w
    ensures CidrMask(ones, w) == PrefixMask(ones, w)
  {
    if ones > 0 {
      ShlMax(w - ones, w);
    }
  }

  /**
   * The parser's mask for a prefix length `c`: `MAX ^ MAX.checked_shr(c).unwrap_or(0)`.
   * A length at or beyond the width gives the all-ones mask.
   */
  function ParsedMask(c: nat, w: nat): nat
  {
    Xor(Max(w), CheckedShr(Max(w), c, w).GetOr(0))
  }

  /**
   * The parser's formula yields the `/c` prefix mask; lengths at or beyond the
   * width saturate to the all-ones mask instead of failing.
   */
  lemma ParsedMaskIsPrefix(c: nat, w: nat)
    ensures c <= w ==> ParsedMask(c, w) == PrefixMask(c, w)
    ensures c >= w ==> ParsedMask(c, w) == Max(w)
  {
    if c < w {
      ShrMax(c, w);
      Pow2Le(w - c, w);
      XorMax(Max(w - c), w);
    } else {
      XorZero(Max(w));
    }
  }

  /**
   * The renderer's test for printing a mask as a prefix length: the mask equals
   * the prefix mask with as many ones as it has.
   */
  predicate IsCidr(m: nat, w: nat)
  {
    CountOnes(m) <= w && m == CidrMask(CountOnes(m), w)
  }

  /** A mask passes the renderer's test exactly when it is a prefix mask. */
  lemma IsCidrIffPrefix(m: nat, w: nat)
    requires m < Pow2(w)
    ensures IsCidr(m, w) <==> exists p: nat :: p <= w && m == PrefixMask(p, w)
  {
    CountOnesFits(m, w);
    CidrMaskIsPrefix(CountOnes(m), w);
    if p: nat :| p <= w && m == PrefixMask(p, w) {
      CountOnesPrefix(p, w);
    }
  }

  /** Every prefix mask passes the renderer's test, with its own length as prefix. */
  lemma PrefixIsCidr(p: nat, w: nat)
    requires p <= w
    ensures IsCidr(PrefixMask(p, w), w) && CountOnes(PrefixMask(p, w)) == p
  {
    CountOnesPrefix(p, w);
    CidrMaskIsPrefix(p, w);
  }
}
