/** Single bits of bytes and of byte strings, least significant bit first. */
module Bits {
  function Mask(k: nat): bv8
    requires k < 8
  {
    1 << k
  }

  predicate BitOf(b: bv8, k: nat)
    requires k < 8
  {
    b & Mask(k) != 0
  }

  // Bit q of a byte string.
  predicate BitAt(bytes: seq<bv8>, q: nat)
    requires q < 8 * |bytes|
  {
    BitOf(bytes[q / 8], q % 8)
  }

  lemma MaskValues()
    ensures Mask(0) == 1 && Mask(1) == 2 && Mask(2) == 4 && Mask(3) == 8
    ensures Mask(4) == 16 && Mask(5) == 32 && Mask(6) == 64 && Mask(7) == 128
  {
  }

  lemma MasksDisjoint(k: nat, j: nat)
    requires k < 8 && j < 8
    ensures Mask(k) != 0
    ensures j != k ==> Mask(k) & Mask(j) == 0
  {
    MaskValues();
    assert k in {0, 1, 2, 3, 4, 5, 6, 7} && j in {0, 1, 2, 3, 4, 5, 6, 7};
  }

  lemma MaskedOr(b: bv8, m: bv8, n: bv8)
    ensures (b | m) & m == m
    ensures m & n == 0 ==> (b | m) & n == b & n
  {
  }

  lemma MaskedAnd(b: bv8, m: bv8, n: bv8)
    ensures (b & !m) & m == 0
    ensures m & n == 0 ==> (b & !m) & n == b & n
  {
  }

  lemma SetBit(b: bv8, k: nat, j: nat)
    requires k < 8 && j < 8
    ensures BitOf(b | Mask(k), j) == (j == k || BitOf(b, j))
  {
    hide Mask;
    MasksDisjoint(k, j);
    MaskedOr(b, Mask(k), Mask(j));
  }

  lemma ClearBit(b: bv8, k: nat, j: nat)
    requires k < 8 && j < 8
    ensures BitOf(b & !Mask(k), j) == (j != k && BitOf(b, j))
  {
    hide Mask;
    MasksDisjoint(k, j);
    MaskedAnd(b, Mask(k), Mask(j));
  }

  // A byte with bit k set or cleared.
  function WithBit(b: bv8, k: nat, value: bool): bv8
    requires k < 8
  {
    if value then b | Mask(k) else b & !Mask(k)
  }

  // Storing a bit in the byte that holds it changes only that bit of the string.
  lemma StoreBit(bytes: seq<bv8>, q: nat, value: bool)
    requires q < 8 * |bytes|
    ensures var bytes' := bytes[q / 8 := WithBit(bytes[q / 8], q % 8, value)];
            forall p :: 0 <= p < 8 * |bytes| ==> BitAt(bytes', p) == if p == q then value else BitAt(bytes, p)
  {
    hide Mask, BitOf;
    var b := WithBit(bytes[q / 8], q % 8, value);
    forall p | 0 <= p < 8 * |bytes|
      ensures BitAt(bytes[q / 8 := b], p) == if p == q then value else BitAt(bytes, p)
    {
      assert p == p / 8 * 8 + p % 8 && q == q / 8 * 8 + q % 8;
      if value {
        SetBit(bytes[q / 8], q % 8, p % 8);
      } else {
        ClearBit(bytes[q / 8], q % 8, p % 8);
      }
    }
  }
}
