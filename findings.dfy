/** The word width as the header writes it.  BITS_PER_WORD is computed from the
    template parameter, whose default is `size_t` (64 bits on the usual LP64
    platforms), while every storage cell is a 32-bit `unsigned`.  The header's
    addressing `bitpos / BITS_PER_WORD`, `bitpos % BITS_PER_WORD` then names
    offsets that no cell has.  Module Words uses the cell width for both. */
module AsWritten {
  import Words

  /** Bits in one storage cell (`unsigned`). */
  const CellBits: nat := 32

  /** BITS_PER_WORD = CHAR_BIT * sizeof(size_t) for the default template argument. */
  const BitsPerWord: nat := 8 * 8

  /** The offset the header computes for a bit position. */
  function HeaderOffset(p: nat): (o: nat)
    ensures o < BitsPerWord
  {
    p % BitsPerWord
  }

  /** The header's block for a bit position. */
  function HeaderBlock(p: nat): nat
  {
    p / BitsPerWord
  }

  /** Position 40 lands in cell 0 at offset 40, past the last bit of a 32-bit
      cell; so does every position whose offset is 32..63, half of all positions. */
  lemma HeaderAddressingLeavesCell()
    ensures HeaderBlock(40) == 0 && HeaderOffset(40) >= CellBits
    ensures forall p: nat :: HeaderOffset(p) >= CellBits <==> p % 64 >= 32
  {
  }

  /** With the cell width the offset always lies inside the cell, and distinct
      positions get distinct (cell, offset) pairs. */
  lemma CellAddressingStaysInCell(p: nat, q: nat)
    ensures Words.Offset(p) < CellBits
    ensures p != q ==> (Words.WordIndex(p), Words.Offset(p)) != (Words.WordIndex(q), Words.Offset(q))
  {
    Words.AddressingIsUnique(p, Words.WordIndex(q), Words.Offset(q));
  }
}
