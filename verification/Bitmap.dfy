/** A bit per page, eight to a byte (`src/mm/bitmap.c`). */
module Bitmap {
  /** `1 << k` as a byte. */
  function Mask(k: nat): bv8
    requires k < 8
  {
    if k == 0 then 1 else if k == 1 then 2 else if k == 2 then 4 else if k == 3 then 8
    else if k == 4 then 16 else if k == 5 then 32 else if k == 6 then 64 else 128
  }

  /** It is the bit that the shift of the source gives. */
  lemma MaskIsShift(k: nat)
    requires k < 8
    ensures Mask(k) == (1 as bv8) << k
  {
    if k >= 4 {
      assert k == 4 || k == 5 || k == 6 || k == 7;
    } else {
      assert k == 0 || k == 1 || k == 2 || k == 3;
    }
  }

  predicate BitOf(b: bv8, k: nat)
    requires k < 8
  {
    b & Mask(k) != 0
  }

  /** Bits outside the array do not exist; they read as clear here and no operation touches them. */
  predicate Bit(bytes: seq<bv8>, i: nat) {
    i / 8 < |bytes| && BitOf(bytes[i / 8], i % 8)
  }

  lemma ByteOr(b: bv8, k: nat, j: nat)
    requires k < 8 && j < 8
    ensures BitOf(b | Mask(k), j) <==> j == k || BitOf(b, j)
  {
  }

  lemma ByteAndNot(b: bv8, k: nat, j: nat)
    requires k < 8 && j < 8
    ensures BitOf(b & !Mask(k), j) <==> j != k && BitOf(b, j)
  {
  }

  lemma SetBit(was: seq<bv8>, bit: nat, j: nat)
    requires bit / 8 < |was|
    ensures Bit(was[bit / 8 := was[bit / 8] | Mask(bit % 8)], j) <==> j == bit || Bit(was, j)
  {
    ByteOr(was[bit / 8], bit % 8, j % 8);
    hide Mask, BitOf;
  }

  lemma ClearBit(was: seq<bv8>, bit: nat, j: nat)
    requires bit / 8 < |was|
    ensures Bit(was[bit / 8 := was[bit / 8] & !Mask(bit % 8)], j) <==> j != bit && Bit(was, j)
  {
    ByteAndNot(was[bit / 8], bit % 8, j % 8);
    hide Mask, BitOf;
  }

  method Set(bitmap: array<bv8>, bit: nat)
    requires bit / 8 < bitmap.Length
    modifies bitmap
    ensures forall j: nat :: Bit(bitmap[..], j) <==> j == bit || Bit(old(bitmap[..]), j)
  {
    hide *;
    ghost var was := bitmap[..];
    bitmap[bit / 8] := bitmap[bit / 8] | Mask(bit % 8);
    assert bitmap[..] == was[bit / 8 := was[bit / 8] | Mask(bit % 8)];
    forall j: nat
      ensures Bit(bitmap[..], j) <==> j == bit || Bit(was, j)
    {
      SetBit(was, bit, j);
    }
  }

  method Clear(bitmap: array<bv8>, bit: nat)
    requires bit / 8 < bitmap.Length
    modifies bitmap
    ensures forall j: nat :: Bit(bitmap[..], j) <==> j != bit && Bit(old(bitmap[..]), j)
  {
    hide *;
    ghost var was := bitmap[..];
    bitmap[bit / 8] := bitmap[bit / 8] & !Mask(bit % 8);
    assert bitmap[..] == was[bit / 8 := was[bit / 8] & !Mask(bit % 8)];
    forall j: nat
      ensures Bit(bitmap[..], j) <==> j != bit && Bit(was, j)
    {
      ClearBit(was, bit, j);
    }
  }

  method Get(bitmap: array<bv8>, bit: nat) returns (r: bv8)
    requires bit / 8 < bitmap.Length
    ensures r != 0 <==> Bit(bitmap[..], bit)
  {
    r := bitmap[bit / 8] & Mask(bit % 8);
  }
}
