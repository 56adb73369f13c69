/**
 uECC_sign_with_k and uECC_verify: a signature that was made is accepted, exactly when
 its two numbers are in range.
 */
module Ecdsa {
  import opened Arith
  import opened Vli
  import opened ModInv
  import opened Mmod
  import opened Product
  import opened Group
  import opened Ladder
  import opened EcdsaMath
  import opened Wrappers

  /** A curve with its group of points, generator and order, in nw words of wordBits bits. */
  datatype Curve<!E> = Curve(g: Group<E>, gen: E, n: array<nat>, nb: nat, nw: nat, wordBits: nat)

  function Base<E>(c: Curve<E>): nat { Pow(2, c.wordBits) }

  ghost function Order<E>(c: Curve<E>): nat
    reads c.n
  {
    Val(c.n[..], Base(c))
  }

  /** The words of the first coordinate, as a number. */
  ghost function X<E>(c: Curve<E>, P: E): nat { Val(c.g.x(P), Base(c)) }

  ghost predicate CurveOk<E(!new)>(c: Curve<E>)
    reads c.n
  {
    && Laws(c.g) && c.wordBits > 0 && 0 < c.nw < Base(c) && c.n.Length == c.nw && Words(c.n[..], Base(c))
         && c.n[c.nw - 1] != 0
    && Prime(Order(c)) && Order(c) % 2 == 1 && 0 < c.nb <= c.nw * c.wordBits && Bits(Order(c), c.nb)
    && Mul(c.g, Order(c), c.gen) == c.g.zero
    && forall P :: |c.g.x(P)| == c.nw && Words(c.g.x(P), Base(c))
  }

  /** Numbers in nw words. */
  ghost predicate Num<E>(c: Curve<E>, a: array<nat>)
    reads a
  {
    a.Length == c.nw && Words(a[..], Base(c))
  }

  ghost function V<E>(c: Curve<E>, a: array<nat>): nat
    reads a
  {
    Val(a[..], Base(c))
  }

  lemma CurveFacts<E(!new)>(c: Curve<E>)
    requires CurveOk(c)
    ensures Base(c) > 1 && Base(c) % 2 == 0 && Order(c) > 1 && c.n[..c.nw] == c.n[..] && c.n.Length == c.nw
    ensures c.wordBits > 0
    ensures 0 < c.nw < Base(c) && Words(c.n[..], Base(c)) && Order(c) % 2 == 1 && Prime(Order(c)) && Laws(c.g)
    ensures c.n[c.nw - 1] != 0
  {
    BaseEven(c.wordBits);
  }

  // ---------------------------------------------------------------- words

  /** uECC_vli_modMult modulo n, in place. */
  method MulN<E(!new)>(c: Curve<E>, result: array<nat>, left: array<nat>, right: array<nat>)
    requires CurveOk(c) && Num(c, left) && Num(c, right) && Num(c, result) && result != c.n
    modifies result
    ensures CurveOk(c) && Num(c, result) && V(c, result) == Times(old(V(c, left)), old(V(c, right))) % Order(c)
  {
    hide CurveOk, Words, Val, Prime, Laws, Pow;
    CurveFacts(c);
    ghost var m := c.n[..];
    assert left[..c.nw] == left[..] && right[..c.nw] == right[..];
    ModMult(result, left, right, c.n, c.nw, c.wordBits);
    assert result[..c.nw] == result[..];
  }

  /** uECC_vli_modInv modulo n, in place: a number that is not a multiple of n is inverted. */
  method InvN<E(!new)>(c: Curve<E>, result: array<nat>, input: array<nat>)
    requires CurveOk(c) && Num(c, input) && Num(c, result) && result != c.n && 0 < V(c, input) < Order(c)
    modifies result
    ensures CurveOk(c) && Num(c, result) && V(c, result) < Order(c) && Order(c) > 1
    ensures Inverts(V(c, result), old(V(c, input)), Order(c))
  {
    hide CurveOk, Words, Val, Prime, Laws, Pow, IsGcd, Common, Times;
    CurveFacts(c);
    ghost var x, n := V(c, input), Order(c);
    assert input[..c.nw] == input[..];
    var g := Inverse(result, input, c.n, c.nw, Base(c));
    assert result[..c.nw] == result[..];
    PrimeCoprime(x, n);
    CoprimeInverse(g, V(c, result), x, n);
  }

  /** Whether a number is in (0, n). */
  method InRange<E(!new)>(c: Curve<E>, a: array<nat>) returns (ok: bool)
    requires CurveOk(c) && Num(c, a)
    ensures ok <==> 0 < V(c, a) < Order(c)
  {
    hide CurveOk, Words, Val, Prime, Laws, Pow;
    CurveFacts(c);
    assert a[..c.nw] == a[..];
    var zero := IsZero(a, c.nw, Base(c));
    var cmp := Cmp(c.n, a, c.nw, Base(c));
    ok := !zero && cmp == 1;
  }

  method LoadX<E(!new)>(c: Curve<E>, P: E) returns (r: array<nat>)
    requires CurveOk(c)
    ensures fresh(r) && Num(c, r) && V(c, r) == X(c, P) && r[..] == c.g.x(P)
  {
    var w := c.g.x(P);
    r := new nat[|w|];
    var i := 0;
    while i < |w|
      invariant 0 <= i <= |w| && r[..i] == w[..i]
    {
      r[i] := w[i];
      i := i + 1;
    }
    assert r[..] == w;
  }

  // ---------------------------------------------------------------- signing

  /** k := 1 / k modulo n, by inverting k * t and multiplying by t again. */
  method InvertNonce<E(!new)>(c: Curve<E>, k: array<nat>, t: array<nat>)
    requires CurveOk(c) && Num(c, k) && Num(c, t) && k != t && k != c.n && 0 < V(c, k) < Order(c)
    requires 0 < V(c, t) < Order(c)
    modifies k
    ensures CurveOk(c) && Num(c, k) && Order(c) > 1 && V(c, k) < Order(c) && Inverts(V(c, k), old(V(c, k)), Order(c))
  {
    hide CurveOk, Words, Val, Prime, Laws, Pow, Times, Num, V, Inverts;
    CurveFacts(c);
    ghost var k0, t0, n := V(c, k), V(c, t), Order(c);
    ghost var u := InverseExists(k0, n);
    ghost var v := InverseExists(t0, n);
    ProductInverts(k0, t0, n, u, v);
    MulN(c, k, k, t);
    ghost var k1 := V(c, k);
    InvN(c, k, k);
    ghost var ki := V(c, k);
    MulN(c, k, k, t);
    Blinded(k0, t0, k1, ki, n);
  }

  lemma BitsLess(v: nat, nb: nat, m: nat)
    requires Bits(v, nb)
    ensures nb <= m <==> v < Pow(2, m)
  {
    hide Pow;
    PowPos(2, m);
    if nb <= m {
      PowGrows(2, nb, m);
      PowStart(2);
    } else {
      PowGrows(2, m, nb - 1);
    }
  }

  /** uECC_vli_numBits of a number against a bound. */
  method FitsBits<E(!new)>(c: Curve<E>, a: array<nat>, m: nat) returns (ok: bool)
    requires CurveOk(c) && Num(c, a)
    ensures ok <==> V(c, a) < Pow(2, m)
  {
    hide CurveOk, Words, Val, Pow, Bits;
    CurveFacts(c);
    assert a[..c.nw] == a[..];
    var nb := NumBits(a, c.nw, c.wordBits);
    BitsLess(V(c, a), nb, m);
    ok := nb <= m;
  }

  /** s := (e + r * d) / k modulo n, k holding the inverse of the nonce. */
  method SecondHalf<E(!new)>(c: Curve<E>, d: array<nat>, e: array<nat>, r: array<nat>, kinv: array<nat>, ghost k: nat)
    returns (s: array<nat>)
    requires CurveOk(c) && Num(c, d) && Num(c, e) && Num(c, r) && Num(c, kinv) && Order(c) > 1
    requires Inverts(V(c, kinv), k, Order(c))
    ensures fresh(s) && Num(c, s) && Signature(Order(c), V(c, d), V(c, e), k, V(c, r), V(c, s))
  {
    hide CurveOk, Words, Val, Prime, Laws, Pow, Times, Inverts, Signature;
    CurveFacts(c);
    ghost var n := Order(c);
    s := new nat[c.nw];
    Set(s, r, c.nw);
    assert s[..] == s[..c.nw] == r[..c.nw] == r[..];
    MulN(c, s, d, s);
    ghost var s1 := V(c, s);
    assert s[..c.nw] == s[..] && e[..c.nw] == e[..];
    ModAdd(s, e, s, c.n, c.nw, Base(c));
    assert s[..c.nw] == s[..];
    ghost var m := V(c, s);
    MulN(c, s, s, kinv);
    SignatureIs(n, V(c, d), V(c, e), k, V(c, r), V(c, kinv), m, V(c, s));
  }

  /** uECC_sign_with_k. rand holds one, or a random number in (0, n); it is None when the
      generator failed. maxBits is eight times num_bytes. */
  method Sign<E(!new)>(c: Curve<E>, d: array<nat>, e: array<nat>, k: array<nat>, rand: Option<array<nat>>, maxBits: nat)
    returns (ok: bool, r: array<nat>, s: array<nat>)
    requires CurveOk(c) && Num(c, d) && Num(c, e) && Num(c, k) && k != d && k != e && k != c.n
    requires rand.Some? ==> rand.value != k && Num(c, rand.value) && 0 < V(c, rand.value) < Order(c)
    modifies k
    ensures CurveOk(c)
    ensures var k0, n := old(V(c, k)), Order(c);
            if 0 < k0 < n && X(c, Mul(c.g, k0, c.gen)) != 0 && rand.Some? then
              && Num(c, r) && Num(c, s) && V(c, r) == X(c, Mul(c.g, k0, c.gen))
              && Signature(n, V(c, d), V(c, e), k0, V(c, r), V(c, s)) && (ok <==> V(c, s) < Pow(2, maxBits))
            else !ok
  {
    hide CurveOk, Words, Val, Prime, Laws, Pow, Times, Inverts, Signature, Num, V, X, Mul;
    CurveFacts(c);
    ghost var k0, n := V(c, k), Order(c);
    ok, r, s := false, k, k;
    var inRange := InRange(c, k);
    if !inRange {
      return;
    }
    var P := TimesGen(c, k);
    r := LoadX(c, P);
    var zero := Zero(c, r);
    if zero {
      return;
    }
    if rand.None? {
      return;
    }
    InvertNonce(c, k, rand.value);
    s := SecondHalf(c, d, e, r, k, k0);
    ok := FitsBits(c, s, maxBits);
  }

  method Zero<E(!new)>(c: Curve<E>, a: array<nat>) returns (zero: bool)
    requires CurveOk(c) && Num(c, a)
    ensures zero <==> V(c, a) == 0
  {
    hide CurveOk, Words, Val, Pow;
    CurveFacts(c);
    assert a[..c.nw] == a[..];
    zero := IsZero(a, c.nw, Base(c));
  }

  /** k times the generator. */
  method TimesGen<E(!new)>(c: Curve<E>, k: array<nat>) returns (P: E)
    requires CurveOk(c) && Num(c, k) && V(c, k) < Order(c)
    ensures P == Mul(c.g, V(c, k), c.gen)
  {
    hide Words, Val, Prime, Laws, Pow, Bits, Mul;
    P := ScalarMult(c.g, c.gen, k, c.n, c.nb, c.nw, c.wordBits);
  }

  // ---------------------------------------------------------------- two multiples at once

  /** q1 times P plus q2 times Q. */
  ghost function Both<E>(g: Group<E>, q1: nat, P: E, q2: nat, Q: E): E {
    g.add(Mul(g, q1, P), Mul(g, q2, Q))
  }

  lemma BothDouble<E(!new)>(g: Group<E>, q1: nat, P: E, q2: nat, Q: E)
    requires Laws(g)
    ensures g.add(Both(g, q1, P, q2, Q), Both(g, q1, P, q2, Q)) == Both(g, 2 * q1, P, 2 * q2, Q)
  {
    hide Laws, Mul;
    Exchange(g, Mul(g, q1, P), Mul(g, q2, Q), Mul(g, q1, P), Mul(g, q2, Q));
    MulDouble(g, q1, P);
    MulDouble(g, q2, Q);
  }

  lemma BothPlus<E(!new)>(g: Group<E>, q1: nat, P: E, q2: nat, Q: E, b1: nat, b2: nat)
    requires Laws(g)
    ensures g.add(Both(g, q1, P, q2, Q), Both(g, b1, P, b2, Q)) == Both(g, q1 + b1, P, q2 + b2, Q)
  {
    hide Laws, Mul;
    Exchange(g, Mul(g, q1, P), Mul(g, q2, Q), Mul(g, b1, P), Mul(g, b2, Q));
    MulPlus(g, q1, b1, P);
    MulPlus(g, q2, b2, Q);
  }

  lemma BothStep<E(!new)>(g: Group<E>, q1: nat, P: E, q2: nat, Q: E, b1: nat, b2: nat)
    requires Laws(g)
    ensures var R := Both(g, q1, P, q2, Q); var R2 := g.add(R, R);
            && g.add(R2, Both(g, b1, P, b2, Q)) == Both(g, 2 * q1 + b1, P, 2 * q2 + b2, Q)
            && (b1 == 0 && b2 == 0 ==> R2 == Both(g, 2 * q1 + b1, P, 2 * q2 + b2, Q))
  {
    hide Laws, Both;
    BothDouble(g, q1, P, q2, Q);
    BothPlus(g, 2 * q1, P, 2 * q2, Q, b1, b2);
  }

  /** points[index]: nothing for index 0, and else P, Q or their sum. */
  lemma PointsAre<E(!new)>(g: Group<E>, P: E, Q: E)
    requires Laws(g)
    ensures Both(g, 1, P, 0, Q) == P && Both(g, 0, P, 1, Q) == Q && Both(g, 1, P, 1, Q) == g.add(P, Q)
  {
    MulOne(g, P);
    MulOne(g, Q);
    AddZero(g, P);
    AddZero(g, Q);
  }

  /** The table entry for the bits at i of u1 and u2. */
  method Pick<E(!new)>(c: Curve<E>, Q: E, sum: E, u1: array<nat>, u2: array<nat>, i: nat) returns (point: Option<E>)
    requires CurveOk(c) && Num(c, u1) && Num(c, u2) && i < c.nw * c.wordBits && sum == c.g.add(c.gen, Q)
    ensures point.None? <==> Bit(V(c, u1), i) == 0 && Bit(V(c, u2), i) == 0
    ensures point.Some? ==> point.value == Both(c.g, Bit(V(c, u1), i), c.gen, Bit(V(c, u2), i), Q)
  {
    hide CurveOk, Words, Val, Pow, Bit, Both, Laws;
    CurveFacts(c);
    PointsAre(c.g, c.gen, Q);
    assert u1[..c.nw] == u1[..] && u2[..c.nw] == u2[..];
    var b1 := TestBit(u1, i, c.nw, c.wordBits);
    var b2 := TestBit(u2, i, c.nw, c.wordBits);
    point := if b1 then Some(if b2 then sum else c.gen) else if b2 then Some(Q) else None;
  }

  /** One round: doubled, and the table entry added. */
  method ShamirRound<E(!new)>(c: Curve<E>, R: E, Q: E, sum: E, u1: array<nat>, u2: array<nat>, i: nat) returns (R': E)
    requires CurveOk(c) && Num(c, u1) && Num(c, u2) && i < c.nw * c.wordBits && sum == c.g.add(c.gen, Q)
    requires R == Both(c.g, Shifted(V(c, u1), i + 1), c.gen, Shifted(V(c, u2), i + 1), Q)
    ensures R' == Both(c.g, Shifted(V(c, u1), i), c.gen, Shifted(V(c, u2), i), Q)
  {
    hide CurveOk, Words, Val, Pow, Bit, Both, Laws, Shifted, Num, V;
    CurveFacts(c);
    ghost var v1, v2 := V(c, u1), V(c, u2);
    ghost var q1, q2 := Shifted(v1, i + 1), Shifted(v2, i + 1);
    ShiftedStep(v1, i);
    ShiftedStep(v2, i);
    BothStep(c.g, q1, c.gen, q2, Q, Bit(v1, i), Bit(v2, i));
    R' := c.g.add(R, R);
    var point := Pick(c, Q, sum, u1, u2, i);
    if point.Some? {
      R' := c.g.add(R', point.value);
    }
  }

  /** The bits of two numbers below 2^m, the longer of which has m bits. */
  lemma TopBits(v1: nat, n1: nat, v2: nat, n2: nat, m: nat)
    requires Bits(v1, n1) && Bits(v2, n2) && m == (if n1 > n2 then n1 else n2) && m > 0
    ensures Shifted(v1, m - 1) == Bit(v1, m - 1) && Shifted(v2, m - 1) == Bit(v2, m - 1)
    ensures Bit(v1, m - 1) == 1 || Bit(v2, m - 1) == 1
  {
    hide Pow;
    TopBitOf(v1, n1, m);
    TopBitOf(v2, n2, m);
  }

  lemma TopBitOf(v: nat, nb: nat, m: nat)
    requires Bits(v, nb) && nb <= m && m > 0
    ensures Shifted(v, m - 1) == Bit(v, m - 1) && (nb == m ==> Bit(v, m - 1) == 1)
  {
    hide Pow;
    BitsLess(v, nb, m);
    BitsLess(v, nb, m - 1);
    PowNext(2, m - 1);
    if nb == m {
      ShiftedIs(v, m - 1, 1, v - Pow(2, m - 1));
    } else {
      ShiftedIs(v, m - 1, 0, v);
    }
  }

  lemma BitsFit<E(!new)>(c: Curve<E>, v: nat, nb: nat)
    requires CurveOk(c) && v < Pow(Base(c), c.nw) && Bits(v, nb)
    ensures nb <= c.nw * c.wordBits
  {
    hide Pow;
    PowPow(2, c.wordBits, c.nw);
    assert c.wordBits * c.nw == c.nw * c.wordBits;
    BitsLess(v, nb, c.nw * c.wordBits);
  }

  /** Shamir's trick: u1 times the generator plus u2 times Q. */
  method Shamir<E(!new)>(c: Curve<E>, Q: E, u1: array<nat>, u2: array<nat>) returns (R: E)
    requires CurveOk(c) && Num(c, u1) && Num(c, u2) && (V(c, u1) > 0 || V(c, u2) > 0)
    ensures R == Both(c.g, V(c, u1), c.gen, V(c, u2), Q)
  {
    hide CurveOk, Words, Val, Pow, Bit, Both, Laws, Shifted, Bits;
    CurveFacts(c);
    assert u1[..c.nw] == u1[..] && u2[..c.nw] == u2[..];
    var n1 := NumBits(u1, c.nw, c.wordBits);
    var n2 := NumBits(u2, c.nw, c.wordBits);
    var numBits := if n1 > n2 then n1 else n2;
    ValBound(u1[..], Base(c));
    ValBound(u2[..], Base(c));
    BitsFit(c, V(c, u1), n1);
    BitsFit(c, V(c, u2), n2);
    SomeBits(V(c, u1), n1);
    SomeBits(V(c, u2), n2);
    TopBits(V(c, u1), n1, V(c, u2), n2, numBits);
    var sum := c.g.add(c.gen, Q);
    var point := Pick(c, Q, sum, u1, u2, numBits - 1);
    R := point.value;
    var i := numBits - 1;
    while i > 0
      invariant 0 <= i < numBits && R == Both(c.g, Shifted(V(c, u1), i), c.gen, Shifted(V(c, u2), i), Q)
    {
      i := i - 1;
      R := ShamirRound(c, R, Q, sum, u1, u2, i);
    }
    ShiftedZero(V(c, u1));
    ShiftedZero(V(c, u2));
  }

  lemma SomeBits(v: nat, nb: nat)
    requires Bits(v, nb)
    ensures nb == 0 <==> v == 0
  {
    if nb > 0 {
      PowPos(2, nb - 1);
    }
  }

  // ---------------------------------------------------------------- verifying

  /** v = x1 (mod n), for x1 below 2n. */
  function Fold(x: nat, n: nat): nat { if x >= n then x - n else x }

  /** The point uECC_verify computes from the inverse z of s. */
  ghost function Candidate<E>(c: Curve<E>, Q: E, e: nat, r: nat, z: nat, n: nat): E
    requires n > 0
  {
    Both(c.g, Times(e, z) % n, c.gen, Times(r, z) % n, Q)
  }

  ghost predicate Matches<E>(c: Curve<E>, Q: E, e: nat, r: nat, s: nat, z: nat, n: nat)
    requires n > 0
  {
    z < n && Inverts(z, s, n) && Fold(X(c, Candidate(c, Q, e, r, z, n)), n) == r
  }

  /** The signature (r, s) of e is accepted for public key Q. */
  ghost predicate Accepts<E>(c: Curve<E>, Q: E, e: nat, r: nat, s: nat, n: nat) {
    0 < r < n && 0 < s < n && exists z: nat :: Matches(c, Q, e, r, s, z, n)
  }

  lemma InverseUnique(y: nat, z: nat, s: nat, n: nat)
    requires n > 1 && y < n && z < n && Inverts(y, s, n) && Inverts(z, s, n)
    ensures y == z
  {
    MulBoth(Times(y, s), Times(z, s), z, n);
    assert Times(Times(y, s), z) == Times(Times(z, s), y) by {
      assert y * s * z == z * s * y;
    }
    MulRem(Times(z, s), y, n);
    MulRem(Times(z, s), z, n);
    assert Times(1, y) == y && Times(1, z) == z;
    ModSmall(y, n);
    ModSmall(z, n);
  }

  /** uECC_vli_equal. */
  method Equal<E(!new)>(c: Curve<E>, a: array<nat>, b: array<nat>) returns (eq: bool)
    requires CurveOk(c) && Num(c, a) && Num(c, b)
    ensures eq <==> V(c, a) == V(c, b)
  {
    hide CurveOk, Words, Val, Pow;
    CurveFacts(c);
    eq := true;
    var i := c.nw;
    while i > 0
      invariant 0 <= i <= c.nw && (eq <==> forall h :: i <= h < c.nw ==> a[h] == b[h])
    {
      i := i - 1;
      eq := eq && a[i] == b[i];
    }
    if V(c, a) == V(c, b) {
      ValUnique(a[..], b[..], Base(c));
      assert forall h :: 0 <= h < c.nw ==> a[h] == a[..][h] && b[h] == b[..][h];
    }
    assert eq ==> a[..] == b[..];
  }

  /** The first coordinate of a point, less n if it is not below n. */
  method FoldX<E(!new)>(c: Curve<E>, R: E) returns (rx: array<nat>)
    requires CurveOk(c)
    ensures fresh(rx) && CurveOk(c) && Num(c, rx) && V(c, rx) == Fold(X(c, R), Order(c))
  {
    hide CurveOk, Words, Val, Prime, Laws, Pow, X;
    CurveFacts(c);
    rx := LoadX(c, R);
    assert rx[..c.nw] == rx[..];
    var cmp := Cmp(c.n, rx, c.nw, Base(c));
    if cmp != 1 {
      ghost var x := V(c, rx);
      var borrow := Sub(rx, rx, c.n, c.nw, Base(c));
      assert rx[..c.nw] == rx[..];
      NoBorrow(rx[..], borrow, Base(c), c.nw, x - Order(c));
    }
  }

  /** uECC_verify. */
  method Verify<E(!new)>(c: Curve<E>, Q: E, e: array<nat>, r: array<nat>, s: array<nat>) returns (accept: bool)
    requires CurveOk(c) && Num(c, e) && Num(c, r) && Num(c, s)
    ensures accept <==> Accepts(c, Q, V(c, e), V(c, r), V(c, s), Order(c))
  {
    hide CurveOk, Words, Val, Prime, Laws, Pow, X, Times, Inverts, Both, Fold, Num, V;
    CurveFacts(c);
    ghost var ev, rv, sv, n := V(c, e), V(c, r), V(c, s), Order(c);
    var rOk := InRange(c, r);
    var sOk := InRange(c, s);
    if !rOk || !sOk {
      return false;
    }
    var z := NewNum(c);
    var u1 := NewNum(c);
    var u2 := NewNum(c);
    InvN(c, z, s);
    ghost var zv := V(c, z);
    MulN(c, u1, e, z);
    MulN(c, u2, r, z);
    MultiplierNonZero(n, rv, sv, zv);
    var R := Shamir(c, Q, u1, u2);
    var rx := FoldX(c, R);
    accept := Equal(c, rx, r);
    Decides(c, Q, ev, rv, sv, zv, n, accept);
  }

  lemma Decides<E>(c: Curve<E>, Q: E, e: nat, r: nat, s: nat, z: nat, n: nat, accept: bool)
    requires n > 1 && 0 < r < n && 0 < s < n && z < n && Inverts(z, s, n)
    requires accept <==> Fold(X(c, Candidate(c, Q, e, r, z, n)), n) == r
    ensures accept <==> Accepts(c, Q, e, r, s, n)
  {
    hide X, Fold, Candidate, Inverts;
    if accept {
      assert Matches(c, Q, e, r, s, z, n);
    } else if exists y: nat :: Matches(c, Q, e, r, s, y, n) {
      var y: nat :| Matches(c, Q, e, r, s, y, n);
      InverseUnique(y, z, s, n);
    }
  }

  /** The candidate point of a signature that was made is the nonce times the generator. */
  lemma CandidateIs<E(!new)>(c: Curve<E>, d: nat, e: nat, k: nat, r: nat, s: nat, z: nat)
    requires CurveOk(c) && k < Order(c) && Order(c) > 1 && Signature(Order(c), d, e, k, r, s) && Inverts(z, s, Order(c))
    ensures Candidate(c, Mul(c.g, d, c.gen), e, r, z, Order(c)) == Mul(c.g, k, c.gen)
  {
    hide Words, Prime, Laws, Bits, Times, Signature, Inverts, Mul;
    var n := Order(c);
    var u1, u2 := Times(e, z) % n, Times(r, z) % n;
    NonceAgain(n, d, e, k, r, s, z, u1, u2);
    MulMul(c.g, u2, d, c.gen);
    TimesIs(u2, d);
    MulPlus(c.g, u1, u2 * d, c.gen);
    MulMod(c.g, u1 + u2 * d, n, c.gen);
  }

  lemma TimesIs(a: int, b: int)
    ensures Times(a, b) == a * b
  {
  }

  /** What uECC_sign_with_k makes, uECC_verify accepts for the key's point, if and only if
      the coordinate x(kG), which is not reduced, is in (0, n) and e + x(kG) * d is not a
      multiple of n. */
  lemma RoundTrip<E(!new)>(c: Curve<E>, d: nat, e: nat, k: nat, r: nat, s: nat)
    requires CurveOk(c) && Order(c) > 1 && 0 < k < Order(c)
    requires r == X(c, Mul(c.g, k, c.gen)) && Signature(Order(c), d, e, k, r, s)
    ensures Accepts(c, Mul(c.g, d, c.gen), e, r, s, Order(c)) <==>
              0 < r < Order(c) && (e + Times(r, d)) % Order(c) != 0
  {
    hide Words, Laws, Bits, Times, Mul, X, Candidate, Both, Prime, Signature;
    var n := Order(c);
    ZeroSecondHalf(n, d, e, k, r, s);
    SignatureBelow(n, d, e, k, r, s);
    if 0 < r < n && s != 0 {
      var u := InverseExists(s, n);
      var z := u % n;
      InvertsMod(u, s, n);
      CandidateIs(c, d, e, k, r, s, z);
      assert Matches(c, Mul(c.g, d, c.gen), e, r, s, z, n);
    }
  }

  lemma SignatureBelow(n: nat, d: nat, e: nat, k: nat, r: nat, s: nat)
    requires n > 0 && Signature(n, d, e, k, r, s)
    ensures s < n
  {
  }

  /** On every curve, for every key and nonce, there is a hash whose signature is made and
      rejected: its second half is zero. */
  lemma SignedButRejected<E(!new)>(c: Curve<E>, d: nat, k: nat) returns (e: nat)
    requires CurveOk(c) && Order(c) > 1 && 0 < k < Order(c) && X(c, Mul(c.g, k, c.gen)) != 0
    ensures e < Order(c)
    ensures var r := X(c, Mul(c.g, k, c.gen));
            Signature(Order(c), d, e, k, r, 0) && !Accepts(c, Mul(c.g, d, c.gen), e, r, 0, Order(c))
  {
    hide CurveOk, Words, Laws, Bits, Mul, X, Prime;
    var n, r := Order(c), X(c, Mul(c.g, k, c.gen));
    e := -Times(r, d) % n;
    AddRem(-Times(r, d), Times(r, d), n);
    assert Times(0, k) == 0;
  }

  lemma InvertsMod(u: int, s: nat, n: nat)
    requires n > 1 && Inverts(u, s, n)
    ensures Inverts(u % n, s, n)
  {
    MulRem(u, s, n);
  }

  method NewNum<E(!new)>(c: Curve<E>) returns (a: array<nat>)
    requires CurveOk(c)
    ensures fresh(a) && Num(c, a)
  {
    CurveFacts(c);
    a := new nat[c.nw](_ => 0);
  }
}
