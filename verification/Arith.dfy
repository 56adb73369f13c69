/** Products and remainders of integers, and smallest elements. */
module Arith {

  /** A product that can be hidden. */
  ghost function Times(a: int, b: int): int { a * b }

  lemma MulDist(a: int, b: int, c: int)
    ensures (a + b) * c == a * c + b * c && (a - b) * c == a * c - b * c
  {
  }

  lemma MulLe(a: int, b: int, c: int)
    requires a <= b && c >= 0
    ensures a * c <= b * c
  {
  }

  lemma MulAssoc(a: int, b: int, c: int)
    ensures (a * b) * c == a * (b * c)
  {
  }

  lemma MulComm(a: int, b: int)
    ensures Times(a, b) == Times(b, a)
  {
  }

  lemma ModUnique(t: int, q: int, r: int, modulus: int)
    requires 0 <= r < modulus && t == q * modulus + r
    ensures t % modulus == r
  {
    var q', r' := t / modulus, t % modulus;
    assert q' * modulus + r' == t;
    if q' < q {
      MulLe(q' + 1, q, modulus);
      MulDist(q', 1, modulus);
    } else if q' > q {
      MulLe(q + 1, q', modulus);
      MulDist(q, 1, modulus);
    }
  }

  /** Adding a multiple of the modulus keeps the remainder. */
  lemma AddMultiple(t: int, k: int, modulus: nat)
    requires modulus > 0
    ensures (t + Times(k, modulus)) % modulus == t % modulus
  {
    var q, r := t / modulus, t % modulus;
    MulDist(q, k, modulus);
    ModUnique(t + Times(k, modulus), q + k, r, modulus);
  }

  /** The smallest key above `last` is at most k. */
  lemma {:induction false} FirstAbove(keys: set<nat>, last: int, k: nat)
    requires k in keys && last < k
    ensures exists m :: m in keys && last < m <= k && forall q :: q in keys && q > last ==> m <= q
    decreases k
  {
    if q :| q in keys && last < q < k {
      FirstAbove(keys, last, q);
    }
  }
}
