/** The 64x64->128-bit multiply (rapidMul) and the multiply-and-fold (rapidMix)
    of rapidhash.go, in overwrite mode. */
module Mixer {
  import opened Words

  type u128 = bv128

  /** 2^64, the weight of the high half of a 128-bit product. */
  const Radix: u128 := 0x1_0000_0000_0000_0000

  /** The low and the high 64-bit half of a 128-bit value. */
  function Halves(p: u128): (u64, u64)
  {
    ((p & 0xffff_ffff_ffff_ffff) as u64, (p >> 64) as u64)
  }

  /** The two halves recombine to the value they were cut from. */
  lemma HalvesExact(p: u128)
    ensures (Halves(p).1 as u128) * Radix + (Halves(p).0 as u128) == p
  {
  }

  /** rapidMul (bits.Mul64): the exact 128-bit product of a and b, split into
      its low half (written back into a) and its high half (written back into b).
      Both factors are below 2^64, so their 128-bit product does not wrap. */
  function RapidMul(a: u64, b: u64): (u64, u64)
  {
    Halves((a as u128) * (b as u128))
  }

  /** The two halves RapidMul returns recombine to the exact product. */
  lemma MulExact(a: u64, b: u64)
    ensures (RapidMul(a, b).1 as u128) * Radix + (RapidMul(a, b).0 as u128) == (a as u128) * (b as u128)
  {
    HalvesExact((a as u128) * (b as u128));
  }

  /** rapidMix: the two halves of the product, xor-ed together. */
  function RapidMix(a: u64, b: u64): u64
  {
    var (lo, hi) := RapidMul(a, b);
    lo ^ hi
  }

  /** A 128-bit value below 2^128 has one split into a high and a low half. */
  lemma SplitUnique(lo: u64, hi: u64, lo': u64, hi': u64)
    requires (hi as u128) * Radix + (lo as u128) == (hi' as u128) * Radix + (lo' as u128)
    ensures lo == lo' && hi == hi'
  {
  }

  /** Any split of a*b into a high and a low 64-bit half is the one RapidMul
      returns. */
  lemma MulUnique(a: u64, b: u64, lo: u64, hi: u64)
    requires (hi as u128) * Radix + (lo as u128) == (a as u128) * (b as u128)
    ensures RapidMul(a, b) == (lo, hi)
  {
    MulExact(a, b);
    SplitUnique(lo, hi, RapidMul(a, b).0, RapidMul(a, b).1);
  }

  /** rapidMix(a, b) is lo XOR hi of the exact 128-bit product a*b. */
  lemma MixFoldsProduct(a: u64, b: u64, lo: u64, hi: u64)
    requires (hi as u128) * Radix + (lo as u128) == (a as u128) * (b as u128)
    ensures RapidMix(a, b) == lo ^ hi
  {
    MulUnique(a, b, lo, hi);
  }
}
