/** Wait states and NAND cycles of the external bus, from a clock in kHz and a time in ns: a number
    of cycles c lasts long enough when c * 10^6 >= f * t. */
module Ebc {
  import opened Machine

  const COEF: nat := 1_000_000
  const WAIT_STATES_MIN: nat := 3
  const WAIT_STATES_MAX: nat := 18
  const NAND_CYCLES_MAX: nat := 15
  const OUT_OF_RANGE: word := 0xFFFF_FFFF

  /** `EBC_CalcWaitStates`, in 32-bit arithmetic. */
  function CalcWaitStates(f: word, t: word): word {
    if f == 0 then 0
    else if t > WAIT_STATES_MAX * COEF / f then OUT_OF_RANGE
    else
      var cycles := U32(U32(f * t) + COEF - 1) / COEF;
      if cycles > WAIT_STATES_MAX then OUT_OF_RANGE
      else if cycles >= WAIT_STATES_MIN then cycles - WAIT_STATES_MIN
      else 0
  }

  /** `EBC_CalcNandCycles`, in 32-bit arithmetic. */
  function CalcNandCycles(f: word, t: word): word {
    if f == 0 then 0
    else if t > NAND_CYCLES_MAX * COEF / f then OUT_OF_RANGE
    else
      var cycles := U32(U32(f * t) + COEF - 1) / COEF;
      if cycles > NAND_CYCLES_MAX then OUT_OF_RANGE else cycles
  }

  /** `offset` cycles and w more last long enough for a product p of frequency and time. */
  predicate LongEnough(p: nat, offset: nat, w: nat) {
    (w + offset) * 1_000_000 >= p
  }

  /** The least number in 0..15 that is long enough, or the error value when there is none. */
  ghost predicate IsBest(p: nat, offset: nat, r: word) {
    if LongEnough(p, offset, 15)
    then r <= 15 && LongEnough(p, offset, r) && forall v :: 0 <= v < r ==> !LongEnough(p, offset, v)
    else r == 0xFFFF_FFFF
  }

  /** The guard by division decides exactly whether the product is in range. */
  lemma GuardIsExact(f: nat, t: nat, limit: nat)
    requires f > 0
    ensures t > limit / f <==> f * t > limit
  {
    var q := limit / f;
    assert q * f <= limit < q * f + f;
    if q < t { MultiplesApart(q, t, f); }
    if t < q { MultiplesApart(t, q, f); }
  }

  /** For every pair of inputs no intermediate value wraps and the result is the least number of
      wait states, on top of the fixed three, that lasts long enough. */
  lemma WaitStatesAreLeast(f: word, t: word)
    ensures IsBest(f * t, 3, CalcWaitStates(f, t))
    ensures f > 0 && t <= WAIT_STATES_MAX * COEF / f ==> f * t + COEF - 1 < TWO32
  {
    if f > 0 {
      GuardIsExact(f, t, WAIT_STATES_MAX * COEF);
      ProductLeast(f * t, WAIT_STATES_MIN, WAIT_STATES_MAX);
    } else {
      assert f * t == 0;
    }
  }

  /** The same for NAND cycles, where there are no fixed ones. */
  lemma NandCyclesAreLeast(f: word, t: word)
    ensures IsBest(f * t, 0, CalcNandCycles(f, t))
    ensures f > 0 && t <= NAND_CYCLES_MAX * COEF / f ==> f * t + COEF - 1 < TWO32
  {
    if f > 0 {
      GuardIsExact(f, t, NAND_CYCLES_MAX * COEF);
      ProductLeast(f * t, 0, NAND_CYCLES_MAX);
    } else {
      assert f * t == 0;
    }
  }

  /** Rounding up gives the least number of cycles. */
  lemma ProductLeast(p: nat, offset: nat, max: nat)
    requires max == offset + 15 && max <= 18
    ensures p > max * COEF ==> IsBest(p, offset, OUT_OF_RANGE)
    ensures p <= max * COEF ==>
      var c := (p + COEF - 1) / COEF;
      c <= max && IsBest(p, offset, if c >= offset then c - offset else 0)
  {}
}
