/** Machine words as the sets of their one bits, for code that masks and shifts.

    And is intersection, or is union, and the complement is taken in the 32 bit positions. */
module WordBits {

  type Word = set<nat>

  const ALL: Word := set i | 0 <= i < 32

  function Mask(shift: nat, width: nat): Word {
    set i | i in ALL && shift <= i < shift + width
  }

  function ShiftLeft(w: Word, n: nat): Word {
    set i | i in ALL && i >= n && i - n in w
  }

  function ShiftRight(w: Word, n: nat): Word {
    set i | i in ALL && i + n in w
  }

  /** The `width` bits of a word from `shift` on, moved down to 0. */
  function Field(w: Word, shift: nat, width: nat): Word {
    set i | i in ALL && i < width && i + shift in w
  }

  /** Byte lane j. */
  function Lane(w: Word, j: nat): Word {
    Field(w, 8 * j, 8)
  }

  /** `(w & ~mask) | ((data << shift) & mask)`. */
  function Merge(w: Word, data: Word, shift: nat, width: nat): Word {
    w * (ALL - Mask(shift, width)) + ShiftLeft(data, shift) * Mask(shift, width)
  }

  lemma FieldAnd(v: Word, w: Word, s: nat, n: nat)
    ensures Field(v * w, s, n) == Field(v, s, n) * Field(w, s, n)
  {}
}
