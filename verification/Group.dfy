/**
 The points of a curve as an abelian group: only its laws are used. x gives the words
 of the first coordinate of a point.
 */
module Group {
  import opened Arith

  datatype Group<!E> = Group(zero: E, add: (E, E) -> E, neg: E -> E, x: E -> seq<nat>)

  ghost predicate Laws<E(!new)>(g: Group<E>) {
    && (forall a, b, c :: g.add(g.add(a, b), c) == g.add(a, g.add(b, c)))
    && (forall a, b :: g.add(a, b) == g.add(b, a))
    && (forall a :: g.add(a, g.zero) == a)
    && (forall a :: g.add(a, g.neg(a)) == g.zero)
  }

  /** k times P. */
  ghost function Mul<E>(g: Group<E>, k: nat, P: E): E {
    if k == 0 then g.zero else g.add(Mul(g, k - 1, P), P)
  }

  lemma AddAssoc<E(!new)>(g: Group<E>, a: E, b: E, c: E)
    requires Laws(g)
    ensures g.add(g.add(a, b), c) == g.add(a, g.add(b, c))
  {
  }

  lemma AddComm<E(!new)>(g: Group<E>, a: E, b: E)
    requires Laws(g)
    ensures g.add(a, b) == g.add(b, a)
  {
  }

  lemma AddZero<E(!new)>(g: Group<E>, a: E)
    requires Laws(g)
    ensures g.add(a, g.zero) == a && g.add(g.zero, a) == a
  {
    AddComm(g, a, g.zero);
  }

  /** (a + b) + (c + d) == (a + c) + (b + d). */
  lemma Exchange<E(!new)>(g: Group<E>, a: E, b: E, c: E, d: E)
    requires Laws(g)
    ensures g.add(g.add(a, b), g.add(c, d)) == g.add(g.add(a, c), g.add(b, d))
  {
    hide Laws;
    AddAssoc(g, a, b, g.add(c, d));
    AddAssoc(g, b, c, d);
    AddComm(g, b, c);
    AddAssoc(g, c, b, d);
    AddAssoc(g, a, c, g.add(b, d));
  }

  /** (a + b) + (a - b) == a + a. */
  lemma SumPlusDifference<E(!new)>(g: Group<E>, a: E, b: E)
    requires Laws(g)
    ensures g.add(g.add(a, b), g.add(a, g.neg(b))) == g.add(a, a)
  {
    Exchange(g, a, b, a, g.neg(b));
    AddZero(g, g.add(a, a));
  }

  lemma MulOne<E(!new)>(g: Group<E>, P: E)
    requires Laws(g)
    ensures Mul(g, 1, P) == P
  {
    AddZero(g, P);
    assert Mul(g, 1, P) == g.add(Mul(g, 0, P), P);
  }

  lemma {:induction false} MulPlus<E(!new)>(g: Group<E>, j: nat, k: nat, P: E)
    requires Laws(g)
    ensures Mul(g, j + k, P) == g.add(Mul(g, j, P), Mul(g, k, P))
  {
    hide Laws;
    if k == 0 {
      AddZero(g, Mul(g, j, P));
    } else {
      MulPlus(g, j, k - 1, P);
      AddAssoc(g, Mul(g, j, P), Mul(g, k - 1, P), P);
    }
  }

  lemma {:induction false} MulMul<E(!new)>(g: Group<E>, j: nat, k: nat, P: E)
    requires Laws(g)
    ensures Mul(g, j, Mul(g, k, P)) == Mul(g, j * k, P)
  {
    hide Laws;
    if j > 0 {
      MulMul(g, j - 1, k, P);
      MulDist(j - 1, 1, k);
      MulPlus(g, (j - 1) * k, k, P);
    }
  }

  lemma {:induction false} MulZero<E(!new)>(g: Group<E>, j: nat)
    requires Laws(g)
    ensures Mul(g, j, g.zero) == g.zero
  {
    hide Laws;
    if j > 0 {
      MulZero(g, j - 1);
      AddZero(g, g.zero);
    }
  }

  /** Multiples of a point of order n depend on the multiplier modulo n. */
  lemma MulMod<E(!new)>(g: Group<E>, k: nat, n: nat, P: E)
    requires Laws(g) && n > 0 && Mul(g, n, P) == g.zero
    ensures Mul(g, k, P) == Mul(g, k % n, P)
  {
    hide Laws;
    var q, r := k / n, k % n;
    assert k == q * n + r;
    MulPlus(g, q * n, r, P);
    MulMul(g, q, n, P);
    MulZero(g, q);
    AddZero(g, Mul(g, r, P));
  }

  /** Twice k, and once more for a set bit. */
  lemma MulDouble<E(!new)>(g: Group<E>, k: nat, P: E)
    requires Laws(g)
    ensures Mul(g, 2 * k, P) == g.add(Mul(g, k, P), Mul(g, k, P))
    ensures Mul(g, 2 * k + 1, P) == g.add(Mul(g, 2 * k, P), P)
  {
    MulPlus(g, k, k, P);
  }
}
