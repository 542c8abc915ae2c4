/** Single bits of a byte buffer, addressed as the allocator addresses its bitmaps. */
module BitBytes {

  /** `0x01 << k` for a bit position of one byte. */
  function Mask(k: nat): bv8
    requires k < 8
  {
    match k
    case 0 => 0x01
    case 1 => 0x02
    case 2 => 0x04
    case 3 => 0x08
    case 4 => 0x10
    case 5 => 0x20
    case 6 => 0x40
    case 7 => 0x80
  }

  predicate HasBit(b: bv8, k: nat)
    requires k < 8
  {
    b & Mask(k) != 0
  }

  lemma SetBit(b: bv8, k: nat, m: nat)
    requires k < 8 && m < 8
    ensures HasBit(b | Mask(k), m) <==> k == m || HasBit(b, m)
  {
  }

  lemma OneBitMask(k: nat, m: nat)
    requires k < 8 && m < 8
    ensures HasBit(Mask(k), m) <==> k == m
  {
  }

  lemma ClearBit(b: bv8, k: nat, m: nat)
    requires k < 8 && m < 8
    ensures HasBit(b & !Mask(k), m) <==> k != m && HasBit(b, m)
  {
  }

  lemma ZeroByte(b: bv8, k: nat)
    requires b == 0 && k < 8
    ensures !HasBit(b, k)
  {
  }

  lemma NonzeroByte(b: bv8) returns (k: nat)
    requires b != 0
    ensures k < 8 && HasBit(b, k)
  {
    k := if HasBit(b, 0) then 0 else if HasBit(b, 1) then 1 else if HasBit(b, 2) then 2
         else if HasBit(b, 3) then 3 else if HasBit(b, 4) then 4 else if HasBit(b, 5) then 5
         else if HasBit(b, 6) then 6 else 7;
  }

  lemma SameBits(a: bv8, b: bv8)
    requires forall k :: 0 <= k < 8 ==> HasBit(a, k) == HasBit(b, k)
    ensures a == b
  {
    assert HasBit(a, 0) == HasBit(b, 0) && HasBit(a, 1) == HasBit(b, 1);
    assert HasBit(a, 2) == HasBit(b, 2) && HasBit(a, 3) == HasBit(b, 3);
    assert HasBit(a, 4) == HasBit(b, 4) && HasBit(a, 5) == HasBit(b, 5);
    assert HasBit(a, 6) == HasBit(b, 6) && HasBit(a, 7) == HasBit(b, 7);
  }
}
