// The branch-free exchange of two 64-bit words under a mask.
module MaskedSwap {

  /** The mask ~(b - 1) of a swap bit is all ones or all zeros. */
  lemma MaskValue(b: bool)
    ensures !((if b then 1 else 0) as bv64 - 1) == if b then 0xFFFF_FFFF_FFFF_FFFF else 0
  {
  }

  lemma Exchanges(p: bv64, q: bv64, mask: bv64)
    requires mask == 0xFFFF_FFFF_FFFF_FFFF
    ensures p ^ (mask & (p ^ q)) == q
    ensures q ^ (mask & (p ^ q)) == p
  {
  }

  lemma Keeps(p: bv64, q: bv64, mask: bv64)
    requires mask == 0
    ensures p ^ (mask & (p ^ q)) == p
    ensures q ^ (mask & (p ^ q)) == q
  {
  }

  /** The masked exclusive-or swaps the two words iff the bit is set. */
  lemma Swaps(p: bv64, q: bv64, b: bool, mask: bv64)
    requires mask == if b then 0xFFFF_FFFF_FFFF_FFFF else 0
    ensures p ^ (mask & (p ^ q)) == if b then q else p
    ensures q ^ (mask & (p ^ q)) == if b then p else q
  {
    if b {
      Exchanges(p, q, mask);
    } else {
      Keeps(p, q, mask);
    }
  }
}
