/** Bitwise or on numbers, for words that are packed from fields. */
module Bits {

  function Or(a: nat, b: nat): nat {
    if a == 0 && b == 0 then 0
    else 2 * Or(a / 2, b / 2) + (if a % 2 == 1 || b % 2 == 1 then 1 else 0)
  }

  function Pow2(k: nat): (p: nat)
    ensures p > 0
  {
    if k == 0 then 1 else 2 * Pow2(k - 1)
  }

  lemma {:induction false} OrZero(a: nat)
    ensures Or(a, 0) == a
  {
    if a > 0 {
      OrZero(a / 2);
    }
  }

  /** Fields that do not overlap add up: the low one is below 2^k, the high one a multiple of it. */
  lemma {:induction false} OrDisjoint(high: nat, low: nat, k: nat)
    requires low < Pow2(k)
    ensures Or(high * Pow2(k), low) == high * Pow2(k) + low
  {
    if k == 0 {
      OrZero(high);
    } else {
      var q := Pow2(k - 1);
      assert high * Pow2(k) == 2 * (high * q);
      OrDisjoint(high, low / 2, k - 1);
    }
  }

  /** The same for a power that has been computed. */
  lemma Join(high: nat, low: nat, k: nat, p: nat)
    requires p == Pow2(k) && low < p
    ensures Or(high * p, low) == high * p + low
  {
    OrDisjoint(high, low, k);
  }

  /** The powers that separate the fields of a DMA control word. */
  lemma Powers()
    ensures Pow2(4) == 0x10 && Pow2(14) == 0x4000 && Pow2(18) == 0x4_0000 && Pow2(21) == 0x20_0000
    ensures Pow2(24) == 0x100_0000 && Pow2(26) == 0x400_0000 && Pow2(28) == 0x1000_0000
    ensures Pow2(30) == 0x4000_0000
  {
    assert Pow2(14) == 0x4000;
    assert Pow2(18) == 0x4_0000;
    assert Pow2(24) == 0x100_0000;
  }

  /** A word whose bits are all set takes in every word of its width. */
  lemma {:induction false} OrOnes(a: nat, k: nat)
    requires a < Pow2(k)
    ensures Or(a, Pow2(k) - 1) == Pow2(k) - 1
  {
    if k > 0 {
      var ones := Pow2(k) - 1;
      assert ones == 2 * (Pow2(k - 1) - 1) + 1;
      OrOnes(a / 2, k - 1);
    }
  }

  lemma OrDoubled(a: nat, b: nat)
    ensures Or(2 * a, 2 * b) == 2 * Or(a, b)
  {}
}
