/** The bit vectors of bits.h, used by option.h as option filters. */
module Bits {

  type Vec = seq<bv8>

  /** The byte that holds only bit `k`, i.e. 1 << k. */
  function Mask(k: nat): bv8
    requires k < 8
  {
    if k == 0 then 1 else if k == 1 then 2 else if k == 2 then 4 else if k == 3 then 8
    else if k == 4 then 16 else if k == 5 then 32 else if k == 6 then 64 else 128
  }

  /** bits_getb: 1 or 0 for a bit of the vector, -1 for a bit that does not fit. */
  function GetB(vec: Vec, bit: nat): int {
    if |vec| <= bit / 8 then -1
    else if vec[bit / 8] & Mask(bit % 8) != 0 then 1 else 0
  }

  /** bits_setb, as the new vector; a bit that does not fit leaves the vector alone. */
  function SetB(vec: Vec, bit: nat): (r: Vec)
    ensures |r| == |vec|
  {
    if |vec| <= bit / 8 then vec
    else vec[bit / 8 := vec[bit / 8] | Mask(bit % 8)]
  }

  /** bits_clrb, as the new vector. */
  function ClrB(vec: Vec, bit: nat): (r: Vec)
    ensures |r| == |vec|
  {
    if |vec| <= bit / 8 then vec
    else vec[bit / 8 := vec[bit / 8] & !Mask(bit % 8)]
  }

  lemma MaskSet(v: bv8, j: nat, k: nat)
    requires j < 8 && k < 8
    ensures ((v | Mask(j)) & Mask(k) != 0) <==> (j == k || v & Mask(k) != 0)
  {
  }

  lemma MaskClear(v: bv8, j: nat, k: nat)
    requires j < 8 && k < 8
    ensures ((v & !Mask(j)) & Mask(k) != 0) <==> (j != k && v & Mask(k) != 0)
  {
  }

  lemma SameBit(a: nat, b: nat)
    requires a / 8 == b / 8
    ensures a == b <==> a % 8 == b % 8
  {
  }

  /** A change of one byte is seen only by the bits of that byte. */
  lemma OtherByte(vec: Vec, byte: nat, v: bv8, other: nat)
    requires byte < |vec|
    ensures GetB(vec[byte := v], other)
         == if other / 8 == byte then (if v & Mask(other % 8) != 0 then 1 else 0) else GetB(vec, other)
  {
  }

  /** Setting a bit that fits makes it readable and changes no other bit. */
  lemma SetBReads(vec: Vec, bit: nat, other: nat)
    ensures GetB(SetB(vec, bit), other)
         == if other == bit && bit / 8 < |vec| then 1 else GetB(vec, other)
  {
    if bit / 8 < |vec| {
      OtherByte(vec, bit / 8, vec[bit / 8] | Mask(bit % 8), other);
      if other / 8 == bit / 8 {
        SameBit(bit, other);
        MaskSet(vec[bit / 8], bit % 8, other % 8);
      }
    }
  }

  /** Clearing a bit that fits makes it read zero and changes no other bit. */
  lemma ClrBReads(vec: Vec, bit: nat, other: nat)
    ensures GetB(ClrB(vec, bit), other)
         == if other == bit && bit / 8 < |vec| then 0 else GetB(vec, other)
  {
    if bit / 8 < |vec| {
      OtherByte(vec, bit / 8, vec[bit / 8] & !Mask(bit % 8), other);
      if other / 8 == bit / 8 {
        SameBit(bit, other);
        MaskClear(vec[bit / 8], bit % 8, other % 8);
      }
    }
  }

  /** A vector of zero bytes has no bit set. */
  lemma ZeroReads(vec: Vec, bit: nat)
    requires forall i | 0 <= i < |vec| :: vec[i] == 0
    ensures GetB(vec, bit) <= 0
  {
  }
}
