/** Single bits of bytes. */
module Bits {

  function Mask(k: nat): bv8
    requires k < 8
  {
    if k == 0 then 1 else if k == 1 then 2 else if k == 2 then 4 else if k == 3 then 8
    else if k == 4 then 16 else if k == 5 then 32 else if k == 6 then 64 else 128
  }

  predicate BitSet(x: bv8, k: nat)
    requires k < 8
  {
    x & Mask(k) != 0
  }

  lemma SetBit(x: bv8, j: nat, k: nat)
    requires j < 8 && k < 8
    ensures BitSet(x | Mask(j), k) <==> BitSet(x, k) || j == k
  {
  }

  lemma ClearBit(x: bv8, j: nat, k: nat)
    requires j < 8 && k < 8
    ensures BitSet(x & !Mask(j), k) <==> BitSet(x, k) && j != k
  {
  }

  lemma NoBits(k: nat)
    requires k < 8
    ensures !BitSet(0, k)
  {
  }

  lemma AllBits(k: nat)
    requires k < 8
    ensures BitSet(0xFF, k)
  {
  }
}
