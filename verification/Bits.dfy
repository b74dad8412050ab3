/** Single bits of a 32-bit bitmap word. */
module Bits {

  type bits = bv32

  const FULL: bits := 0xFFFF_FFFF

  /** Bit j alone. */
  function Mask(j: nat): bits
    requires j < 32
  {
    (1 as bits) << j
  }

  predicate Bit(w: bits, j: nat)
    requires j < 32
  {
    w & Mask(j) != 0
  }

  /** Bit 0 counts one, every other bit twice the one before. */
  lemma MaskDoubles(j: nat)
    requires j < 31
    ensures Mask(0) == 1 && Mask(j + 1) == 2 * Mask(j)
  {
  }

  lemma MaskSet(j: nat)
    requires j < 32
    ensures Mask(j) != 0
  {
  }

  lemma MasksApart(j: nat, k: nat)
    requires j < 32 && k < 32 && j != k
    ensures Mask(j) & Mask(k) == 0
  {
  }

  lemma OrSame(w: bits, m: bits)
    ensures (w | m) & m == m && (w & !m) & m == 0
  {
  }

  lemma OrApart(w: bits, m: bits, n: bits)
    requires m & n == 0
    ensures (w | m) & n == w & n && (w & !m) & n == w & n
  {
  }

  /** Setting or clearing bit j leaves bit k alone. */
  lemma OtherBit(w: bits, j: nat, k: nat)
    requires j < 32 && k < 32 && j != k
    ensures (w | Mask(j)) & Mask(k) == w & Mask(k) && (w & !Mask(j)) & Mask(k) == w & Mask(k)
  {
    MasksApart(j, k);
    OrApart(w, Mask(j), Mask(k));
  }

  lemma ThisBit(w: bits, j: nat)
    requires j < 32
    ensures Bit(w | Mask(j), j) && !Bit(w & !Mask(j), j)
  {
    MaskSet(j);
    OrSame(w, Mask(j));
  }

  lemma OtherBitTest(w: bits, j: nat, k: nat)
    requires j < 32 && k < 32 && j != k
    ensures Bit(w | Mask(j), k) <==> Bit(w, k)
    ensures Bit(w & !Mask(j), k) <==> Bit(w, k)
  {
    OtherBit(w, j, k);
  }

  lemma FullWord(j: nat)
    requires j < 32
    ensures Bit(FULL, j)
  {
  }

  /** A word other than FULL has a clear bit. */
  lemma AllBits(w: bits)
    requires forall j :: 0 <= j < 32 ==> Bit(w, j)
    ensures w == FULL
  {
    assert Bit(w, 0) && Bit(w, 1) && Bit(w, 2) && Bit(w, 3) && Bit(w, 4) && Bit(w, 5) && Bit(w, 6) && Bit(w, 7);
    assert Bit(w, 8) && Bit(w, 9) && Bit(w, 10) && Bit(w, 11) && Bit(w, 12) && Bit(w, 13) && Bit(w, 14) && Bit(w, 15);
    assert Bit(w, 16) && Bit(w, 17) && Bit(w, 18) && Bit(w, 19) && Bit(w, 20) && Bit(w, 21) && Bit(w, 22) && Bit(w, 23);
    assert Bit(w, 24) && Bit(w, 25) && Bit(w, 26) && Bit(w, 27) && Bit(w, 28) && Bit(w, 29) && Bit(w, 30) && Bit(w, 31);
  }
}
