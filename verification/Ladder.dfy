/**
 Scalar multiplication (EccPoint_mult, regularize_k): a Montgomery ladder over the bits
 of a scalar whose leading one is assumed and not read.
 */
module Ladder {
  import opened Arith
  import opened Vli
  import opened Mmod
  import opened Group

  // ---------------------------------------------------------------- bits of numbers

  ghost function Shifted(v: nat, i: nat): nat
  {
    PowPos(2, i);
    v / Pow(2, i)
  }

  ghost function Bit(v: nat, i: nat): (b: nat)
    ensures b <= 1
  {
    Shifted(v, i) % 2
  }

  lemma ShiftedIs(v: nat, i: nat, q: nat, l: nat)
    requires v == q * Pow(2, i) + l && l < Pow(2, i)
    ensures Shifted(v, i) == q
  {
    hide Pow;
    var p := Pow(2, i);
    ModUnique(v, q, l, p);
    assert v == v / p * p + v % p;
    MulEq(v / p, q, p);
  }

  lemma ShiftedParts(v: nat, i: nat) returns (q: nat, l: nat)
    ensures q == Shifted(v, i) && v == q * Pow(2, i) + l && l < Pow(2, i)
  {
    PowPos(2, i);
    q, l := v / Pow(2, i), v % Pow(2, i);
  }

  /** Shifting one bit less. */
  lemma ShiftedStep(v: nat, i: nat)
    ensures Shifted(v, i) == 2 * Shifted(v, i + 1) + Bit(v, i)
  {
    hide Pow;
    var q, l := ShiftedParts(v, i);
    PowNext(2, i);
    ShiftStepParts(v, Pow(2, i), q, l);
    ShiftedIs(v, i + 1, q / 2, q % 2 * Pow(2, i) + l);
  }

  lemma ShiftStepParts(v: nat, p: nat, q: nat, l: nat)
    requires v == q * p + l && l < p
    ensures v == q / 2 * (2 * p) + (q % 2 * p + l) && q % 2 * p + l < 2 * p
  {
    var h, b := q / 2, q % 2;
    MulDist(2 * h, b, p);
    assert (2 * h) * p == h * (2 * p);
    MulLe(b, 1, p);
  }

  lemma ShiftedZero(v: nat)
    ensures Shifted(v, 0) == v
  {
    PowStart(2);
  }

  /** Bits below m do not depend on multiples of 2^m. */
  lemma BitLow(v: nat, m: nat, c: nat, i: nat)
    requires i < m
    ensures Bit(v + Pow(2, m) * c, i) == Bit(v, i)
  {
    hide Pow;
    var q, l := ShiftedParts(v, i);
    PowAdd(2, m - i, i);
    PowNext(2, m - i - 1);
    var e, p := Pow(2, m - i - 1), Pow(2, i);
    assert (2 * e) * p * c == (2 * (e * c)) * p;
    MulDist(q, 2 * (e * c), p);
    ShiftedIs(v + Pow(2, m) * c, i, q + 2 * (e * c), l);
    EvenPlus(q, e * c);
  }

  lemma EvenPlus(q: nat, k: nat)
    ensures (q + 2 * k) % 2 == q % 2
  {
  }

  /** Bits above e of v + 2^e * h are those of h. */
  lemma BitHigh(lo: nat, e: nat, h: nat, r: nat)
    requires lo < Pow(2, e)
    ensures Bit(lo + Pow(2, e) * h, e + r) == Bit(h, r)
  {
    hide Pow;
    var q, l := ShiftedParts(h, r);
    PowAdd(2, r, e);
    HighParts(lo, Pow(2, e), q, Pow(2, r), l);
    ShiftedIs(lo + Pow(2, e) * h, e + r, q, l * Pow(2, e) + lo);
  }

  lemma HighParts(lo: nat, p: nat, q: nat, t: nat, l: nat)
    requires lo < p && l < t
    ensures lo + p * (q * t + l) == q * (t * p) + (l * p + lo) && l * p + lo < t * p
  {
    MulDist(q * t, l, p);
    MulAssoc(q, t, p);
    MulLe(l + 1, t, p);
    MulDist(l, 1, p);
  }

  /** uECC_vli_testBit. */
  method TestBit(vli: array<nat>, bit: nat, n: nat, wordBits: nat) returns (on: bool)
    requires wordBits > 0 && n <= vli.Length && bit < n * wordBits && Words(vli[..n], Pow(2, wordBits))
    ensures on <==> Bit(Val(vli[..n], Pow(2, wordBits)), bit) == 1
  {
    hide Val, Words, Pow, Bit;
    var j, r := bit / wordBits, bit % wordBits;
    WordIndex(bit, n, wordBits);
    WordBit(vli[..n], j, r, wordBits, n);
    PowPos(2, r);
    BitIs(vli[j], r);
    on := vli[j] / Pow(2, r) % 2 == 1;
  }

  lemma BitIs(v: nat, r: nat)
    ensures Pow(2, r) > 0 && Bit(v, r) == v / Pow(2, r) % 2
  {
    PowPos(2, r);
  }

  lemma WordIndex(bit: nat, n: nat, wordBits: nat)
    requires wordBits > 0 && bit < n * wordBits
    ensures bit / wordBits < n && bit % wordBits < wordBits && bit == wordBits * (bit / wordBits) + bit % wordBits
  {
    if bit / wordBits >= n {
      MulLe(n, bit / wordBits, wordBits);
    }
  }

  lemma WordBit(s: seq<nat>, j: nat, r: nat, wordBits: nat, n: nat)
    requires wordBits > 0 && j < n == |s| && r < wordBits && Words(s, Pow(2, wordBits))
    ensures Bit(Val(s, Pow(2, wordBits)), wordBits * j + r) == Bit(s[j], r)
  {
    hide Val, Pow, Bit;
    var radix := Pow(2, wordBits);
    PowPos(2, wordBits);
    SplitVal(s, j, radix);
    ValBound(s[..j], radix);
    ValCons(s[j..], radix);
    PowPow(2, wordBits, j);
    BitHigh(Val(s[..j], radix), wordBits * j, Val(s[j..], radix), r);
    BitLow(s[j], wordBits, Val(s[j..][1..], radix), r);
  }

  // ---------------------------------------------------------------- the regular scalar

  /** words hold scalar s, perhaps without its bits above the words; s has nb + 1 bits. */
  ghost predicate Holds(words: seq<nat>, s: nat, nb: nat, wordBits: nat) {
    && Words(words, Pow(2, wordBits)) && 0 < nb <= |words| * wordBits && Pow(2, nb) <= s < Pow(2, nb + 1)
    && exists c: nat :: Val(words, Pow(2, wordBits)) + Lift(Pow(2, |words| * wordBits), c) == s
  }

  ghost function Lift(p: nat, c: nat): nat { p * c }

  /** The words have the scalar's bits below the leading one. */
  lemma HeldBits(words: seq<nat>, s: nat, nb: nat, wordBits: nat, i: nat)
    requires Holds(words, s, nb, wordBits) && i < nb
    ensures Bit(s, i) == Bit(Val(words, Pow(2, wordBits)), i)
  {
    hide Val, Words, Bit, Pow;
    var c: nat :| Val(words, Pow(2, wordBits)) + Lift(Pow(2, |words| * wordBits), c) == s;
    BitLow(Val(words, Pow(2, wordBits)), |words| * wordBits, c, i);
  }

  /** regularize_k: k0 is k + n and k1 is k + 2n, and the result says which of them has
      its top bit at nb: the first if true. n has nb bits. */
  method Regularize(k: array<nat>, k0: array<nat>, k1: array<nat>, n: array<nat>, nw: nat, nb: nat, wordBits: nat)
    returns (first: bool, ghost s: nat)
    requires wordBits > 0 && 0 < nw && k.Length == k0.Length == k1.Length == n.Length == nw && k0 != n && k1 != n
    requires k0 != k1 && k0 != k
    requires Words(k[..], Pow(2, wordBits)) && Words(n[..], Pow(2, wordBits))
    requires Val(k[..], Pow(2, wordBits)) < Val(n[..], Pow(2, wordBits))
    requires 0 < nb <= nw * wordBits && Bits(Val(n[..], Pow(2, wordBits)), nb)
    modifies k0, k1
    ensures s == old(Val(k[..], Pow(2, wordBits))) + (if first then 1 else 2) * Val(n[..], Pow(2, wordBits))
    ensures Holds(if first then k0[..] else k1[..], s, nb, wordBits)
  {
    hide Val, Words, Pow, Bits, Bit;
    var radix := Pow(2, wordBits);
    BaseEven(wordBits);
    ghost var kv, nv, p := Val(k[..], radix), Val(n[..], radix), Pow(radix, nw);
    assert k[..nw] == k[..] && n[..nw] == n[..];
    PowPow(2, wordBits, nw);
    assert wordBits * nw == nw * wordBits;
    var carry := Add(k0, k, n, nw, radix);
    assert k0[..nw] == k0[..];
    ValBound(k0[..], radix);
    var top := false;
    if nb < nw * wordBits {
      top := TestBit(k0, nb, nw, wordBits);
    }
    first := carry != 0 || top;
    var carry1 := Add(k1, k0, n, nw, radix);
    assert k1[..nw] == k1[..];
    s := kv + (if first then 1 else 2) * nv;
    RegularRange(kv, nv, nb);
    TopDecides(kv + nv, Val(k0[..], radix), carry, nb, nw * wordBits, top);
    if first {
      Held(k0[..], s, nb, wordBits, carry);
    } else {
      Held(k1[..], s, nb, wordBits, carry + carry1);
    }
  }

  lemma Held(words: seq<nat>, s: nat, nb: nat, wordBits: nat, c: nat)
    requires Words(words, Pow(2, wordBits)) && 0 < nb <= |words| * wordBits && Pow(2, nb) <= s < Pow(2, nb + 1)
    requires Val(words, Pow(2, wordBits)) + c * Pow(2, |words| * wordBits) == s
    ensures Holds(words, s, nb, wordBits)
  {
    hide Val, Words, Pow;
    assert Lift(Pow(2, |words| * wordBits), c) == c * Pow(2, |words| * wordBits);
  }

  /** Adding n once or twice brings the scalar to nb + 1 bits. */
  lemma RegularRange(k: nat, n: nat, nb: nat)
    requires k < n && nb > 0 && Bits(n, nb)
    ensures if k + n >= Pow(2, nb) then k + n < Pow(2, nb + 1) else Pow(2, nb) <= k + 2 * n < Pow(2, nb + 1)
  {
    assert Pow(2, nb) == 2 * Pow(2, nb - 1) && Pow(2, nb + 1) == 2 * Pow(2, nb);
  }

  /** The carry, or else bit nb of the words, says whether the sum reaches 2^nb. */
  lemma TopDecides(t: nat, v: nat, carry: nat, nb: nat, m: nat, top: bool)
    requires v + carry * Pow(2, m) == t && v < Pow(2, m) && carry <= 1 && 0 < nb <= m && t < Pow(2, nb + 1)
    requires top == (nb < m && Bit(v, nb) == 1)
    ensures (carry != 0 || top) <==> t >= Pow(2, nb)
  {
    hide Pow;
    if nb < m {
      PowNext(2, nb);
      PowGrows(2, nb + 1, m);
      assert v == t;
      if t >= Pow(2, nb) {
        ShiftedIs(v, nb, 1, v - Pow(2, nb));
      } else {
        ShiftedIs(v, nb, 0, v);
      }
    }
  }

  // ---------------------------------------------------------------- the ladder

  /** Both steps of a round on R: first R[1 - nb], R[nb] := R[1 - nb] - R[nb], R[1 - nb] + R[nb]
      (XYcZ_addC), then R[1 - nb] := R[nb] + R[1 - nb] (XYcZ_add). */
  method Round<E(!new)>(g: Group<E>, R: array<E>, nb: nat)
    requires Laws(g) && R.Length == 2 && nb <= 1
    modifies R
    ensures R[nb] == old(g.add(R[1 - nb], R[nb])) && R[1 - nb] == old(g.add(R[1 - nb], R[1 - nb]))
  {
    hide Laws;
    SumPlusDifference(g, R[1 - nb], R[nb]);
    R[1 - nb], R[nb] := g.add(R[1 - nb], g.neg(R[nb])), g.add(R[1 - nb], R[nb]);
    R[1 - nb] := g.add(R[nb], R[1 - nb]);
  }

  /** From q and q + 1 times P to 2q + bit and 2q + bit + 1 times P. */
  lemma RoundMul<E(!new)>(g: Group<E>, q: nat, P: E)
    requires Laws(g)
    ensures var a, b := Mul(g, q, P), Mul(g, q + 1, P);
            && g.add(a, a) == Mul(g, 2 * q, P) && g.add(a, b) == g.add(b, a) == Mul(g, 2 * q + 1, P)
            && g.add(b, b) == Mul(g, 2 * q + 2, P)
  {
    hide Laws;
    MulPlus(g, q, q, P);
    MulPlus(g, q, q + 1, P);
    MulPlus(g, q + 1, q, P);
    MulPlus(g, q + 1, q + 1, P);
  }

  /** Round i: the bit is read from the words. */
  method BitRound<E(!new)>(g: Group<E>, R: array<E>, P: E, scalar: array<nat>, i: nat, nb: nat, nw: nat, wordBits: nat,
                           ghost s: nat)
    requires Laws(g) && R.Length == 2 && wordBits > 0 && scalar.Length == nw && Holds(scalar[..], s, nb, wordBits)
    requires i < nb
    requires R[0] == Mul(g, Shifted(s, i + 1), P) && R[1] == Mul(g, Shifted(s, i + 1) + 1, P)
    modifies R
    ensures R[0] == Mul(g, Shifted(s, i), P) && R[1] == Mul(g, Shifted(s, i) + 1, P)
  {
    hide Laws, Mul, Shifted, Bit, Val, Words, Pow;
    assert scalar[..nw] == scalar[..];
    HeldBits(scalar[..], s, nb, wordBits, i);
    ShiftedStep(s, i);
    RoundMul(g, Shifted(s, i + 1), P);
    var on := TestBit(scalar, i, nw, wordBits);
    var bit := if on then 0 else 1;  // nb = !uECC_vli_testBit
    Round(g, R, bit);
  }

  /** EccPoint_mult with num_bits == nb + 1, the co-Z steps being group operations. */
  method PointMult<E(!new)>(g: Group<E>, P: E, scalar: array<nat>, nb: nat, nw: nat, wordBits: nat, ghost s: nat)
    returns (r: E)
    requires Laws(g) && wordBits > 0 && scalar.Length == nw && Holds(scalar[..], s, nb, wordBits)
    ensures r == Mul(g, s, P)
  {
    hide Laws, Mul, Holds;
    HeldRange(scalar[..], s, nb, wordBits);
    var R := new E[2](_ => P);
    R[1] := g.add(P, P);
    MulStart(g, P);
    var i := nb - 1;
    while i > 0
      invariant 0 <= i < nb && Holds(scalar[..], s, nb, wordBits)
      invariant R[0] == Mul(g, Shifted(s, i + 1), P) && R[1] == Mul(g, Shifted(s, i + 1) + 1, P)
    {
      BitRound(g, R, P, scalar, i, nb, nw, wordBits, s);
      i := i - 1;
    }
    BitRound(g, R, P, scalar, 0, nb, nw, wordBits, s);
    ShiftedZero(s);
    r := R[0];
  }

  lemma HeldRange(words: seq<nat>, s: nat, nb: nat, wordBits: nat)
    requires Holds(words, s, nb, wordBits)
    ensures nb > 0 && Shifted(s, nb) == 1
  {
    PowNext(2, nb);
    ShiftedIs(s, nb, 1, s - Pow(2, nb));
  }

  lemma MulStart<E(!new)>(g: Group<E>, P: E)
    requires Laws(g)
    ensures Mul(g, 1, P) == P && Mul(g, 2, P) == g.add(P, P)
  {
    MulOne(g, P);
    MulDouble(g, 1, P);
  }

  /** regularize_k and EccPoint_mult together: k times a point of order n. */
  method ScalarMult<E(!new)>(g: Group<E>, P: E, k: array<nat>, n: array<nat>, nb: nat, nw: nat, wordBits: nat)
    returns (r: E)
    requires Laws(g) && wordBits > 0 && 0 < nw && k.Length == n.Length == nw
    requires Words(k[..], Pow(2, wordBits)) && Words(n[..], Pow(2, wordBits))
    requires Val(k[..], Pow(2, wordBits)) < Val(n[..], Pow(2, wordBits))
    requires 0 < nb <= nw * wordBits && Bits(Val(n[..], Pow(2, wordBits)), nb)
    requires Mul(g, Val(n[..], Pow(2, wordBits)), P) == g.zero
    ensures r == Mul(g, Val(k[..], Pow(2, wordBits)), P)
  {
    hide Laws, Mul, Holds, Words, Val, Bits, Pow;
    ghost var kv, nv := Val(k[..], Pow(2, wordBits)), Val(n[..], Pow(2, wordBits));
    var k0, k1 := new nat[nw], new nat[nw];
    var first, s := Regularize(k, k0, k1, n, nw, nb, wordBits);
    r := PointMult(g, P, if first then k0 else k1, nb, nw, wordBits, s);
    Regular(g, kv, nv, if first then 1 else 2, P);
  }

  lemma Regular<E(!new)>(g: Group<E>, k: nat, n: nat, c: nat, P: E)
    requires Laws(g) && Mul(g, n, P) == g.zero
    ensures Mul(g, k + c * n, P) == Mul(g, k, P)
  {
    hide Laws;
    MulPlus(g, k, c * n, P);
    MulMul(g, c, n, P);
    MulZero(g, c);
    AddZero(g, Mul(g, k, P));
  }
}
