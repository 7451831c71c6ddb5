/** The 32-bit arithmetic of the compiled firmware. */
module Machine {

  const TWO32: int := 0x1_0000_0000

  type word = x: int | 0 <= x < 0x1_0000_0000

  /** The value of an expression of type `uint32_t`. */
  function U32(x: int): (r: word)
    ensures 0 <= x < TWO32 ==> r == x
    ensures -TWO32 <= x < 0 ==> r == x + TWO32
    ensures TWO32 <= x < 2 * TWO32 ==> r == x - TWO32
  {
    x % TWO32
  }

  /** The value of `x` once stored in an `int32_t`. */
  function I32(x: int): (r: int)
    ensures -0x8000_0000 <= r < 0x8000_0000
    ensures U32(r) == U32(x)
    ensures -0x8000_0000 <= x < 0x8000_0000 ==> r == x
  {
    var u := U32(x);
    if u < 0x8000_0000 then u else u - TWO32
  }

  /** Bytes rounded up to whole words, as in `(len + 3) / 4`. */
  function Words(len: nat): (n: nat)
    ensures 4 * n - 3 <= len <= 4 * n
  {
    (len + 3) / 4
  }

  lemma {:induction false} MultiplesApart(a: nat, b: nat, p: nat)
    requires a < b
    ensures a * p + p <= b * p
  {
    assert b * p == (b - 1) * p + p;
    if a < b - 1 { MultiplesApart(a, b - 1, p); }
  }

  lemma SameQuotient(q: nat, r: nat, q': nat, r': nat, p: nat)
    requires r < p && r' < p && q * p + r == q' * p + r'
    ensures q == q' && r == r'
  {
    if q < q' { MultiplesApart(q, q', p); }
    if q' < q { MultiplesApart(q', q, p); }
  }

  /** Division with remainder has one answer. */
  lemma DivideUnique(x: nat, q: nat, r: nat, p: nat)
    requires r < p && x == q * p + r
    ensures x / p == q && x % p == r
  {
    SameQuotient(q, r, x / p, x % p, p);
  }
}
