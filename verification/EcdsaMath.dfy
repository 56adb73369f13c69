/**
 The arithmetic of ECDSA modulo a prime n, over any group of points whose generator has
 order n (sections 4.1.3 and 4.1.4 of SEC 1).
 */
module EcdsaMath {
  import opened Arith
  import opened Vli
  import opened ModInv

  // ---------------------------------------------------------------- remainders

  /** A factor may be reduced first. */
  lemma MulRem(a: int, b: int, n: nat)
    requires n > 0
    ensures Times(a % n, b) % n == Times(a, b) % n
  {
    var q, r := a / n, a % n;
    assert a == q * n + r;
    Spread(q, r, b, n);
    AddMultiple(Times(r, b), Times(q, b), n);
  }

  lemma Spread(q: int, r: int, b: int, n: int)
    ensures Times(q * n + r, b) == Times(r, b) + Times(Times(q, b), n)
  {
    MulDist(q * n, r, b);
    assert q * n * b == q * b * n;
  }

  /** Equal remainders stay equal when multiplied. */
  lemma MulBoth(a: int, b: int, c: int, n: nat)
    requires n > 0 && a % n == b % n
    ensures Times(a, c) % n == Times(b, c) % n
  {
    MulRem(a, c, n);
    MulRem(b, c, n);
  }

  lemma AddRem(a: int, b: int, n: nat)
    requires n > 0
    ensures (a % n + b) % n == (a + b) % n
  {
    var q, r := a / n, a % n;
    assert a == q * n + r;
    AddMultiple(r + b, q, n);
  }

  lemma AddBoth(a: int, b: int, c: int, n: nat)
    requires n > 0 && a % n == b % n
    ensures (a + c) % n == (b + c) % n
  {
    AddRem(a, c, n);
    AddRem(b, c, n);
  }

  lemma TimesAssoc(a: int, b: int, c: int)
    ensures Times(Times(a, b), c) == Times(a, Times(b, c)) && Times(a, b) == Times(b, a)
  {
    MulAssoc(a, b, c);
  }

  // ---------------------------------------------------------------- primes

  ghost predicate Prime(n: nat) {
    n > 1 && forall d: nat :: Divides(d, n) ==> d == 1 || d == n
  }

  lemma PrimeCoprime(x: nat, n: nat)
    requires Prime(n) && 0 < x < n
    ensures forall d: nat :: Common(d, x, n) ==> d == 1
  {
    forall d: nat | Common(d, x, n)
      ensures d == 1
    {
      DivisorSmall(d, x);
    }
  }

  lemma DivisorSmall(d: nat, x: nat)
    requires Divides(d, x) && x > 0
    ensures d <= x
  {
    var k: int :| Times(d, k) == x;
    if k <= 0 {
      MulLe(k, 0, d);
    } else {
      MulLe(1, k, d);
    }
  }

  /** x is inverted by u modulo n. */
  ghost predicate Inverts(u: int, x: int, n: nat)
    requires n > 0
  {
    Times(u, x) % n == 1
  }

  /** Euclid's algorithm, for a common divisor as a combination. */
  lemma {:induction false} Combination(a: nat, b: nat) returns (g: nat, x: int, y: int)
    requires a > 0 || b > 0
    ensures Common(g, a, b) && Times(a, x) + Times(b, y) == g
    decreases b
  {
    if b == 0 {
      g, x, y := a, 1, 0;
      assert Times(a, 1) == a && Times(a, 0) == 0;
    } else {
      var x', y';
      var q, r := a / b, a % b;
      g, x', y' := Combination(b, r);
      x, y := y', x' - Times(q, y');
      assert a == q * b + r;
      CombineUp(a, b, q, r, x', y');
      DividesTimes(g, b, q);
      DividesSub(g, Times(b, q), r);
    }
  }

  lemma CombineUp(a: int, b: int, q: int, r: int, x: int, y: int)
    requires a == q * b + r
    ensures Times(a, y) + Times(b, x - Times(q, y)) == Times(b, x) + Times(r, y)
  {
    MulDist(q * b, r, y);
    MulDist(x, q * y, b);
    assert q * b * y == b * (q * y);
  }

  lemma DividesTimes(d: nat, b: int, q: int)
    requires Divides(d, b)
    ensures Divides(d, Times(b, q))
  {
    var k :| Times(d, k) == b;
    MulAssoc(d, k, q);
    assert Times(d, Times(k, q)) == Times(b, q);
  }

  /** Below a prime everything but zero is invertible. */
  lemma InverseExists(x: nat, n: nat) returns (u: int)
    requires Prime(n) && 0 < x < n
    ensures Inverts(u, x, n)
  {
    var g, s, t := Combination(x, n);
    PrimeCoprime(x, n);
    u := s;
    TimesAssoc(x, s, 1);
    TimesAssoc(n, t, 1);
    AddMultiple(Times(u, x), t, n);
    ModSmall(1, n);
  }

  /** Invertible factors have an invertible product, which is not zero. */
  lemma ProductInverts(a: int, b: int, n: nat, u: int, v: int)
    requires n > 1 && Inverts(u, a, n) && Inverts(v, b, n)
    ensures Times(a, b) % n != 0
  {
    // (a * b) * (u * v) == (u * a) * (v * b)
    var w := Times(u, v);
    assert Times(Times(a, b), w) == Times(Times(u, a), Times(v, b)) by {
      MulAssoc(a * b, u, v);
    }
    MulRem(Times(u, a), Times(v, b), n);
    ModSmall(1, n);
    MulRem(Times(a, b), w, n);
  }

  // ---------------------------------------------------------------- signing

  /** (r, s) is the signature of e with nonce k and key d. */
  ghost predicate Signature(n: nat, d: nat, e: nat, k: nat, r: nat, s: nat)
    requires n > 0
  {
    s < n && Times(s, k) % n == (e + Times(r, d)) % n
  }

  /** The inverse of k through a blinded product: ki is the inverse of k * t. */
  lemma Blinded(k: nat, t: nat, k': nat, ki: nat, n: nat)
    requires n > 1 && k' == Times(k, t) % n && Inverts(ki, k', n)
    ensures Inverts(Times(ki, t) % n, k, n)
  {
    MulRem(Times(ki, t), k, n);
    assert Times(Times(ki, t), k) == Times(Times(k, t), ki) by {
      assert ki * t * k == k * t * ki;
    }
    MulRem(Times(k, t), ki, n);
    TimesAssoc(k', ki, 1);
  }

  /** s = (e + r * d) / k. */
  lemma SignatureIs(n: nat, d: nat, e: nat, k: nat, r: nat, kinv: nat, m: nat, s: nat)
    requires n > 1 && Inverts(kinv, k, n) && m % n == (e + Times(d, r) % n) % n && s == Times(m, kinv) % n
    ensures Signature(n, d, e, k, r, s)
  {
    MulRem(Times(m, kinv), k, n);
    assert Times(Times(m, kinv), k) == Times(Times(kinv, k), m) by {
      assert m * kinv * k == kinv * k * m;
    }
    MulRem(Times(kinv, k), m, n);
    assert Times(1, m) == m;
    AddRem(Times(d, r), e, n);
    TimesAssoc(d, r, 1);
  }

  /** The second half of a signature is zero exactly for a hash that cancels r * d. */
  lemma ZeroSecondHalf(n: nat, d: nat, e: nat, k: nat, r: nat, s: nat)
    requires Prime(n) && 0 < k < n && Signature(n, d, e, k, r, s)
    ensures s == 0 <==> (e + Times(r, d)) % n == 0
  {
    if s > 0 {
      var u := InverseExists(s, n);
      var v := InverseExists(k, n);
      ProductInverts(s, k, n, u, v);
    } else {
      assert Times(0, k) == 0;
      ModSmall(0, n);
    }
  }

  // ---------------------------------------------------------------- verifying

  /** u1 + u2 * d is the nonce again. */
  lemma NonceAgain(n: nat, d: nat, e: nat, k: nat, r: nat, s: nat, z: int, u1: nat, u2: nat)
    requires n > 1 && k < n && Signature(n, d, e, k, r, s) && Inverts(z, s, n)
    requires u1 == Times(e, z) % n && u2 == Times(r, z) % n
    ensures (u1 + Times(u2, d)) % n == k
  {
    // (e + r * d) * z == s * k * z == k
    var t := e + Times(r, d);
    MulBoth(Times(s, k), t, z, n);
    assert Times(Times(s, k), z) == Times(Times(z, s), k) by {
      assert s * k * z == z * s * k;
    }
    MulRem(Times(z, s), k, n);
    assert Times(1, k) == k;
    ModSmall(k, n);
    // u1 + u2 * d == (e + r * d) * z
    MulRem(Times(r, z), d, n);
    AddBoth(Times(u2, d), Times(Times(r, z), d), u1, n);
    AddRem(Times(e, z), Times(Times(r, z), d), n);
    assert Times(e, z) + Times(Times(r, z), d) == Times(t, z) by {
      MulDist(e, r * d, z);
      assert r * z * d == r * d * z;
    }
  }

  /** The second multiplier is never zero, so that there is a bit to start from. */
  lemma MultiplierNonZero(n: nat, r: nat, s: nat, z: int)
    requires n > 1 && 0 < r < n && Inverts(z, s, n)
    ensures Times(r, z) % n != 0
  {
    MulRem(Times(r, z), s, n);
    assert Times(Times(r, z), s) == Times(Times(z, s), r) by {
      assert r * z * s == z * s * r;
    }
    MulRem(Times(z, s), r, n);
    assert Times(1, r) == r && Times(0, s) == 0;
    ModSmall(r, n);
    ModSmall(0, n);
  }
}
