/** The bits of one 32-bit word. */
module Words {

  const FULL: bv32 := 0xffff_ffff

  function Mask(j: nat): bv32
    requires j < 32
  {
    (1 as bv32) << j
  }

  predicate Test(w: bv32, m: bv32) {
    w & m != 0
  }

  predicate Bit(w: bv32, j: nat)
    requires j < 32
  {
    Test(w, Mask(j))
  }

  lemma MasksDisjoint(i: nat, j: nat)
    requires i < 32 && j < 32
    ensures Mask(i) != 0
    ensures i != j ==> Mask(j) & Mask(i) == 0
  {
  }

  lemma SameMask(w: bv32, m: bv32)
    ensures (w | m) & m == m && (w & !m) & m == 0
  {
  }

  lemma OtherMask(w: bv32, m: bv32, n: bv32)
    requires m & n == 0
    ensures (w | m) & n == w & n && (w & !m) & n == w & n
  {
  }

  lemma SameBit(w: bv32, j: nat)
    requires j < 32
    ensures Bit(w | Mask(j), j) && !Bit(w & !Mask(j), j)
  {
    MasksDisjoint(j, j);
    SameMask(w, Mask(j));
  }

  lemma OtherBitSet(w: bv32, i: nat, j: nat)
    requires i < 32 && j < 32 && i != j
    ensures Bit(w | Mask(j), i) == Bit(w, i)
  {
    MasksDisjoint(i, j);
    OtherMask(w, Mask(j), Mask(i));
  }

  lemma OtherBitUnset(w: bv32, i: nat, j: nat)
    requires i < 32 && j < 32 && i != j
    ensures Bit(w & !Mask(j), i) == Bit(w, i)
  {
    MasksDisjoint(i, j);
    OtherMask(w, Mask(j), Mask(i));
  }

  /** Setting or clearing bit `j` of a word changes that bit and no other. */
  lemma BitAfterUpdate(w: bv32, i: nat, j: nat)
    requires i < 32 && j < 32
    ensures Bit(w | Mask(j), i) == (i == j || Bit(w, i))
    ensures Bit(w & !Mask(j), i) == (i != j && Bit(w, i))
  {
    if i == j {
      SameBit(w, j);
    } else {
      OtherBitSet(w, i, j);
      OtherBitUnset(w, i, j);
    }
  }

  lemma FullMask(m: bv32)
    ensures FULL & m == m
  {
  }

  lemma BitOfFull(i: nat)
    requires i < 32
    ensures Bit(FULL, i)
  {
    MasksDisjoint(i, i);
    FullMask(Mask(i));
  }

  lemma BitOfZero(i: nat)
    requires i < 32
    ensures !Bit(0, i)
  {
  }

  /** Bits are counted from the lowest. */
  lemma MaskOfNext(j: nat)
    requires j < 31
    ensures Mask(0) == 1 && Mask(j + 1) == Mask(j) << 1
  {
  }
}
