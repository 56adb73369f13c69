/**
 Modular inverse (uECC_vli_modInv): a binary greatest common divisor whose two numbers
 are tracked as multiples of the input.
 */
module ModInv {
  import opened Arith
  import opened Vli

  // ---------------------------------------------------------------- divisors

  ghost predicate Divides(d: nat, x: int) {
    d > 0 && exists k: int :: Times(d, k) == x
  }

  ghost predicate Common(d: nat, a: nat, b: nat) { Divides(d, a) && Divides(d, b) }

  /** a and b have the divisors of x and y. */
  ghost predicate SameDivisors(a: nat, b: nat, x: nat, y: nat) {
    forall d: nat :: Common(d, a, b) <==> Common(d, x, y)
  }

  /** g is the greatest common divisor, also in the order of divisibility. */
  ghost predicate IsGcd(g: nat, x: nat, y: nat) {
    Common(g, x, y) && forall d: nat :: Common(d, x, y) ==> Divides(d, g)
  }

  lemma DividesSub(d: nat, a: int, b: int)
    requires Divides(d, a) && Divides(d, b)
    ensures Divides(d, a - b) && Divides(d, a + b)
  {
    var j :| Times(d, j) == a;
    var k :| Times(d, k) == b;
    assert Times(d, j - k) == a - b && Times(d, j + k) == a + b;
  }

  lemma EvenFactor(d: int, k: int)
    requires d % 2 == 1 && Times(d, k) % 2 == 0
    ensures k % 2 == 0 && Times(d, k / 2) == Times(d, k) / 2
  {
    var e, h, r := d / 2, k / 2, k % 2;
    assert d == 2 * e + 1 && k == 2 * h + r;
    assert Times(d, k) == 2 * Times(e, k) + k by {
      MulDist(2 * e, 1, k);
      MulAssoc(2, e, k);
    }
    assert k == 2 * h;
    MulAssoc(d, h, 2);
    assert d * k == 2 * (d * h);
  }

  lemma OddDivisor(d: nat, b: nat)
    requires Divides(d, b) && b % 2 == 1
    ensures d % 2 == 1
  {
    var k :| Times(d, k) == b;
    var e, r := d / 2, d % 2;
    assert Times(d, k) == 2 * Times(e, k) + Times(r, k) by {
      MulDist(2 * e, r, k);
      MulAssoc(2, e, k);
    }
    assert r == 0 ==> Times(r, k) == 0;
  }

  /** Halving one number when the other is odd. */
  lemma HalveDivisors(a: nat, b: nat, x: nat, y: nat)
    requires SameDivisors(a, b, x, y) && a % 2 == 0 && b % 2 == 1
    ensures SameDivisors(a / 2, b, x, y)
  {
    forall d: nat
      ensures Common(d, a / 2, b) <==> Common(d, x, y)
    {
      assert Common(d, a, b) <==> Common(d, x, y);
      if Common(d, a / 2, b) {
        DividesSub(d, a / 2, a / 2);
        assert Divides(d, a / 2 + a / 2);
      }
      if Common(d, a, b) {
        OddDivisor(d, b);
        var k :| Times(d, k) == a;
        EvenFactor(d, k);
      }
    }
  }

  lemma SubtractDivisors(a: nat, b: nat, x: nat, y: nat)
    requires SameDivisors(a, b, x, y) && a >= b
    ensures SameDivisors(a - b, b, x, y)
  {
    forall d: nat
      ensures Common(d, a - b, b) <==> Common(d, x, y)
    {
      assert Common(d, a, b) <==> Common(d, x, y);
      if Common(d, a - b, b) {
        DividesSub(d, a - b, b);
        assert a - b + b == a;
      }
      if Common(d, a, b) {
        DividesSub(d, a, b);
      }
    }
  }

  lemma SwapDivisors(a: nat, b: nat, x: nat, y: nat)
    requires SameDivisors(a, b, x, y)
    ensures SameDivisors(b, a, x, y)
  {
    forall d: nat
      ensures Common(d, b, a) <==> Common(d, x, y)
    {
      assert Common(d, a, b) <==> Common(d, x, y);
    }
  }

  lemma EqualIsGcd(a: nat, x: nat, y: nat)
    requires SameDivisors(a, a, x, y) && a > 0
    ensures IsGcd(a, x, y)
  {
    assert Times(a, 1) == a;
    assert Common(a, a, a) <==> Common(a, x, y);
    forall d: nat | Common(d, x, y)
      ensures Divides(d, a)
    {
      assert Common(d, a, a) <==> Common(d, x, y);
    }
  }

  // ---------------------------------------------------------------- the tracked multiples

  /** a is u times x, up to multiples of modulus. */
  ghost predicate Tracks(a: nat, u: nat, x: nat, modulus: nat) {
    u < modulus && exists k: int :: Times(u, x) + Times(k, modulus) == a
  }

  /** vli_modInv_update: u / 2 or (u + modulus) / 2. */
  function Half(u: nat, modulus: nat): nat { if u % 2 == 0 then u / 2 else (u + modulus) / 2 }

  /** a as twice a multiple of x. */
  lemma Doubled(a: nat, u: nat, x: nat, modulus: nat, k: int) returns (k': int)
    requires Times(u, x) + Times(k, modulus) == a && modulus % 2 == 1
    ensures 2 * Times(Half(u, modulus), x) + Times(k', modulus) == a
  {
    var h := Half(u, modulus);
    MulAssoc(2, h, x);
    if u % 2 == 0 {
      k' := k;
      assert 2 * h == u;
    } else {
      k' := k - x;
      assert 2 * h == u + modulus;
      MulDist(u, modulus, x);
      MulDist(k, x, modulus);
    }
  }

  lemma HalveTracks(a: nat, u: nat, x: nat, modulus: nat)
    requires Tracks(a, u, x, modulus) && a % 2 == 0 && modulus % 2 == 1
    ensures Tracks(a / 2, Half(u, modulus), x, modulus)
  {
    var k :| Times(u, x) + Times(k, modulus) == a;
    var h := Half(u, modulus);
    var k' := Doubled(a, u, x, modulus, k);
    MulComm(k', modulus);
    MulComm(k' / 2, modulus);
    Halves(a, Times(h, x), k', modulus);
    assert Times(h, x) + Times(k' / 2, modulus) == a / 2;
  }

  lemma Halves(a: nat, t: int, k: int, modulus: nat)
    requires a % 2 == 0 && modulus % 2 == 1 && 2 * t + Times(modulus, k) == a
    ensures t + Times(modulus, k / 2) == a / 2
  {
    hide Times;
    EvenFactor(modulus, k);
  }

  lemma SubtractTracks(a: nat, u: nat, b: nat, v: nat, x: nat, modulus: nat)
    requires Tracks(a, u, x, modulus) && Tracks(b, v, x, modulus) && a >= b
    ensures u < modulus && v < modulus
    ensures var w := if u < v then u + modulus - v else u - v;
            w < modulus && Tracks(a - b, w, x, modulus)
  {
    var j :| Times(u, x) + Times(j, modulus) == a;
    var k :| Times(v, x) + Times(k, modulus) == b;
    if u < v {
      MulDist(u + modulus, v, x);
      MulDist(u, modulus, x);
      MulDist(j - k, x, modulus);
      MulDist(j, k, modulus);
      assert Times(u + modulus - v, x) + Times(j - k - x, modulus) == a - b;
    } else {
      MulDist(u, v, x);
      MulDist(j, k, modulus);
      assert Times(u - v, x) + Times(j - k, modulus) == a - b;
    }
  }

  // ---------------------------------------------------------------- the loop

  ghost predicate Inv(a: nat, b: nat, u: nat, v: nat, x: nat, modulus: nat) {
    && a > 0 && b > 0 && (a % 2 == 1 || b % 2 == 1)
    && Tracks(a, u, x, modulus) && Tracks(b, v, x, modulus) && SameDivisors(a, b, x, modulus)
  }

  lemma InvStart(x: nat, modulus: nat)
    requires x > 0 && modulus > 1 && modulus % 2 == 1
    ensures Inv(x, modulus, 1, 0, x, modulus)
  {
    assert Times(1, x) + Times(0, modulus) == x;
    assert Times(0, x) + Times(1, modulus) == modulus;
  }

  lemma InvSwap(a: nat, b: nat, u: nat, v: nat, x: nat, modulus: nat)
    requires Inv(a, b, u, v, x, modulus)
    ensures Inv(b, a, v, u, x, modulus)
  {
    SwapDivisors(a, b, x, modulus);
  }

  lemma InvHalve(a: nat, b: nat, u: nat, v: nat, x: nat, modulus: nat)
    requires Inv(a, b, u, v, x, modulus) && a % 2 == 0 && modulus % 2 == 1
    ensures Inv(a / 2, b, Half(u, modulus), v, x, modulus)
  {
    hide Tracks, SameDivisors;
    HalveTracks(a, u, x, modulus);
    HalveDivisors(a, b, x, modulus);
  }

  lemma InvSubtract(a: nat, b: nat, u: nat, v: nat, x: nat, modulus: nat)
    requires Inv(a, b, u, v, x, modulus) && a > b && a % 2 == 1 && b % 2 == 1 && modulus % 2 == 1
    ensures var w := if u < v then u + modulus - v else u - v;
            w < modulus && Inv((a - b) / 2, b, Half(w, modulus), v, x, modulus)
  {
    hide Tracks, SameDivisors;
    SubtractTracks(a, u, b, v, x, modulus);
    SubtractDivisors(a, b, x, modulus);
    var w: nat := if u < v then u + modulus - v else u - v;
    assert Inv(a - b, b, w, v, x, modulus);
    InvHalve(a - b, b, w, v, x, modulus);
  }

  // ---------------------------------------------------------------- words

  /** vli_modInv_update. */
  method Update(uv: array<nat>, mod: array<nat>, n: nat, radix: nat)
    requires radix > 1 && radix % 2 == 0 && 0 < n <= uv.Length && n <= mod.Length && uv != mod
    requires Words(uv[..n], radix) && Words(mod[..n], radix) && Val(mod[..n], radix) % 2 == 1
    requires Val(uv[..n], radix) < Val(mod[..n], radix)
    modifies uv
    ensures Words(uv[..n], radix) && Val(uv[..n], radix) == Half(old(Val(uv[..n], radix)), Val(mod[..n], radix))
  {
    hide Val, Words, Pow;
    ghost var u, modulus := Val(uv[..n], radix), Val(mod[..n], radix);
    var carry := 0;
    ValParity(uv[..n], radix);
    if uv[0] % 2 != 0 {
      carry := Add(uv, uv, mod, n, radix);
    }
    ValBound(uv[..n], radix);
    ghost var x := Val(uv[..n], radix);
    assert uv[0..0 + n] == uv[..n];
    Rshift1(uv, 0, n, radix);
    assert uv[0..0 + n] == uv[..n];
    if carry != 0 {
      ghost var s := uv[..n];
      TopBit(s, radix, n);
      uv[n - 1] := uv[n - 1] + radix / 2;
      assert uv[..n] == s[n - 1 := s[n - 1] + radix / 2];
      WordsTop(s, radix, n);
      PowEven(x, radix, n);
    }
  }

  /** u := u - v modulo mod; a carry out of the addition and the borrow cancel. */
  method Difference(u: array<nat>, v: array<nat>, mod: array<nat>, n: nat, radix: nat)
    requires radix > 1 && n <= u.Length && n <= v.Length && n <= mod.Length && u != v && u != mod
    requires Words(u[..n], radix) && Words(v[..n], radix) && Words(mod[..n], radix)
    requires Val(u[..n], radix) < Val(mod[..n], radix) && Val(v[..n], radix) < Val(mod[..n], radix)
    modifies u
    ensures Words(u[..n], radix)
    ensures var u0, v0, modulus := old(Val(u[..n], radix)), Val(v[..n], radix), Val(mod[..n], radix);
            Val(u[..n], radix) == if u0 < v0 then u0 + modulus - v0 else u0 - v0
  {
    hide Val, Words, Pow;
    ghost var x, modulus := Val(u[..n], radix) - Val(v[..n], radix), Val(mod[..n], radix);
    ValBound(mod[..n], radix);
    var carry := 0;
    var c := Cmp(u, v, n, radix);
    if c < 0 {
      carry := Add(u, u, mod, n, radix);
    }
    var borrow := Sub(u, u, v, n, radix);
    ValBound(u[..n], radix);
    OverlapIs(if x < 0 then x + modulus else x, borrow, carry, Pow(radix, n));
  }

  /** The branch for two odd numbers: a := (a - b) / 2, u := (u - v) / 2. */
  method SubtractHalve(a: array<nat>, b: array<nat>, u: array<nat>, v: array<nat>, mod: array<nat>, n: nat, radix: nat,
                       ghost x: nat)
    requires radix > 1 && radix % 2 == 0 && 0 < n && n <= a.Length && n <= b.Length && n <= u.Length
    requires n <= v.Length && n <= mod.Length
    requires a != b && a != u && a != v && a != mod && b != u && u != v && u != mod
    requires Words(a[..n], radix) && Words(b[..n], radix) && Words(u[..n], radix) && Words(v[..n], radix)
    requires Words(mod[..n], radix)
    requires Val(mod[..n], radix) % 2 == 1
    requires Inv(Val(a[..n], radix), Val(b[..n], radix), Val(u[..n], radix), Val(v[..n], radix), x,
                 Val(mod[..n], radix))
    requires Val(a[..n], radix) % 2 == 1 && Val(b[..n], radix) % 2 == 1 && Val(a[..n], radix) > Val(b[..n], radix)
    modifies a, u
    ensures Words(a[..n], radix) && Words(u[..n], radix) && Val(a[..n], radix) < old(Val(a[..n], radix))
    ensures Inv(Val(a[..n], radix), Val(b[..n], radix), Val(u[..n], radix), Val(v[..n], radix), x, Val(mod[..n], radix))
  {
    hide Val, Words, Pow, Inv;
    ghost var a0, b0, u0, v0, modulus := Val(a[..n], radix), Val(b[..n], radix), Val(u[..n], radix),
      Val(v[..n], radix), Val(mod[..n], radix);
    InvFacts(a0, b0, u0, v0, x, modulus);
    InvSubtract(a0, b0, u0, v0, x, modulus);
    var borrow := Sub(a, a, b, n, radix);
    NoBorrow(a[..n], borrow, radix, n, a0 - b0);
    assert a[0..0 + n] == a[..n];
    Rshift1(a, 0, n, radix);
    assert a[0..0 + n] == a[..n];
    Difference(u, v, mod, n, radix);
    Update(u, mod, n, radix);
  }

  lemma InvFacts(a: nat, b: nat, u: nat, v: nat, x: nat, modulus: nat)
    requires Inv(a, b, u, v, x, modulus)
    ensures a > 0 && b > 0 && u < modulus && v < modulus && (a % 2 == 1 || b % 2 == 1)
  {
  }

  lemma NoBorrow(s: seq<nat>, borrow: nat, radix: nat, n: nat, x: nat)
    requires radix > 1 && |s| == n && Words(s, radix) && borrow <= 1 && Val(s, radix) - borrow * Pow(radix, n) == x
    ensures Val(s, radix) == x
  {
    hide Val, Pow;
    ValBound(s, radix);
  }

  /** A round of the loop for an even a: a := a / 2, u := u / 2. */
  method Halve(a: array<nat>, u: array<nat>, mod: array<nat>, n: nat, radix: nat, ghost b: nat, ghost v: nat,
               ghost x: nat)
    requires radix > 1 && radix % 2 == 0 && 0 < n && n <= a.Length && n <= u.Length && n <= mod.Length && a != u
    requires a != mod && u != mod
    requires Words(a[..n], radix) && Words(u[..n], radix) && Words(mod[..n], radix)
    requires Val(mod[..n], radix) % 2 == 1
    requires Inv(Val(a[..n], radix), b, Val(u[..n], radix), v, x, Val(mod[..n], radix))
    requires Val(a[..n], radix) % 2 == 0
    modifies a, u
    ensures Words(a[..n], radix) && Words(u[..n], radix) && Val(a[..n], radix) < old(Val(a[..n], radix))
    ensures Inv(Val(a[..n], radix), b, Val(u[..n], radix), v, x, Val(mod[..n], radix))
  {
    hide Val, Words, Pow, Inv;
    ghost var a0, u0, modulus := Val(a[..n], radix), Val(u[..n], radix), Val(mod[..n], radix);
    InvFacts(a0, b, u0, v, x, modulus);
    InvHalve(a0, b, u0, v, x, modulus);
    assert a[0..0 + n] == a[..n];
    Rshift1(a, 0, n, radix);
    assert a[0..0 + n] == a[..n];
    Update(u, mod, n, radix);
  }

  lemma TracksMod(a: nat, u: nat, x: nat, modulus: nat)
    requires Tracks(a, u, x, modulus)
    ensures Times(u, x) % modulus == a % modulus
  {
    var k :| Times(u, x) + Times(k, modulus) == a;
    AddMultiple(Times(u, x), k, modulus);
  }

  /** The numbers of the loop, as words. */
  ghost predicate State(a: array<nat>, b: array<nat>, u: array<nat>, v: array<nat>, n: nat, radix: nat, x: nat,
                        modulus: nat)
    requires n <= a.Length && n <= b.Length && n <= u.Length && n <= v.Length
    reads a, b, u, v
  {
    && Words(a[..n], radix) && Words(b[..n], radix) && Words(u[..n], radix) && Words(v[..n], radix)
    && Inv(Val(a[..n], radix), Val(b[..n], radix), Val(u[..n], radix), Val(v[..n], radix), x, modulus)
  }

  /** One round of the loop, the comparison being c != 0. */
  method Round(a: array<nat>, b: array<nat>, u: array<nat>, v: array<nat>, mod: array<nat>, n: nat, radix: nat, c: int,
               ghost x: nat)
    requires radix > 1 && radix % 2 == 0 && 0 < n && n <= a.Length && n <= b.Length && n <= u.Length
    requires n <= v.Length && n <= mod.Length
    requires a != b && a != u && a != v && a != mod && b != u && b != v && b != mod && u != v && u != mod && v != mod
    requires Words(mod[..n], radix) && Val(mod[..n], radix) % 2 == 1
    requires State(a, b, u, v, n, radix, x, Val(mod[..n], radix))
    requires c == Sign(Val(a[..n], radix) - Val(b[..n], radix)) && c != 0
    modifies a, b, u, v
    ensures State(a, b, u, v, n, radix, x, Val(mod[..n], radix))
    ensures Val(a[..n], radix) + Val(b[..n], radix) < old(Val(a[..n], radix) + Val(b[..n], radix))
  {
    hide Val, Words, Pow, Inv;
    ghost var a0, b0, u0, v0, modulus := Val(a[..n], radix), Val(b[..n], radix), Val(u[..n], radix),
      Val(v[..n], radix), Val(mod[..n], radix);
    ValParity(a[..n], radix);
    ValParity(b[..n], radix);
    if a[0] % 2 == 0 {
      Halve(a, u, mod, n, radix, b0, v0, x);
    } else if b[0] % 2 == 0 {
      InvSwap(a0, b0, u0, v0, x, modulus);
      Halve(b, v, mod, n, radix, a0, u0, x);
      InvSwap(Val(b[..n], radix), a0, Val(v[..n], radix), u0, x, modulus);
    } else if c > 0 {
      SubtractHalve(a, b, u, v, mod, n, radix, x);
    } else {
      InvSwap(a0, b0, u0, v0, x, modulus);
      SubtractHalve(b, a, v, u, mod, n, radix, x);
      InvSwap(Val(b[..n], radix), a0, Val(v[..n], radix), u0, x, modulus);
    }
  }

  /** The loop, until both numbers are the same. */
  method Reduce(a: array<nat>, b: array<nat>, u: array<nat>, v: array<nat>, mod: array<nat>, n: nat, radix: nat,
                ghost x: nat)
    requires radix > 1 && radix % 2 == 0 && 0 < n && n <= a.Length && n <= b.Length && n <= u.Length
    requires n <= v.Length && n <= mod.Length
    requires a != b && a != u && a != v && a != mod && b != u && b != v && b != mod && u != v && u != mod && v != mod
    requires Words(mod[..n], radix) && Val(mod[..n], radix) % 2 == 1
    requires State(a, b, u, v, n, radix, x, Val(mod[..n], radix))
    modifies a, b, u, v
    ensures State(a, b, u, v, n, radix, x, Val(mod[..n], radix)) && Val(a[..n], radix) == Val(b[..n], radix)
  {
    hide Val, Words, Inv;
    ghost var m := mod[..n];
    var c := Cmp(a, b, n, radix);
    while c != 0
      invariant mod[..n] == m && State(a, b, u, v, n, radix, x, Val(m, radix))
      invariant c == Sign(Val(a[..n], radix) - Val(b[..n], radix))
      decreases Val(a[..n], radix) + Val(b[..n], radix)
    {
      Round(a, b, u, v, mod, n, radix, c, x);
      c := Cmp(a, b, n, radix);
    }
  }

  /** The first values: a is the input, b the modulus, u is 1 and v is 0. */
  method Begin(input: array<nat>, mod: array<nat>, n: nat, radix: nat)
    returns (a: array<nat>, b: array<nat>, u: array<nat>, v: array<nat>)
    requires radix > 1 && radix % 2 == 0 && 0 < n <= input.Length && n <= mod.Length
    requires Words(input[..n], radix) && Words(mod[..n], radix) && Val(mod[..n], radix) % 2 == 1
    requires Val(mod[..n], radix) > 1 && Val(input[..n], radix) > 0
    ensures fresh(a) && fresh(b) && fresh(u) && fresh(v) && a.Length == b.Length == u.Length == v.Length == n
    ensures a != b && a != u && a != v && b != u && b != v && u != v
    ensures State(a, b, u, v, n, radix, Val(input[..n], radix), Val(mod[..n], radix))
  {
    hide Val, Words, Inv;
    ghost var x, modulus := input[..n], mod[..n];
    a, b, u, v := new nat[n], new nat[n], new nat[n], new nat[n];
    Set(a, input, n);
    Set(b, mod, n);
    Clear(u, n, radix);
    ghost var u0 := u[..n];
    u[0] := 1;
    assert u[..n] == u0[0 := 1];
    One(u0, radix);
    Clear(v, n, radix);
    assert a[..n] == x && b[..n] == modulus;
    InvStart(Val(x, radix), Val(modulus, radix));
  }

  /** uECC_vli_modInv for an odd modulus: the result times the input is their greatest
      common divisor, modulo mod. The input need not be less than mod; result may be input. */
  method Inverse(result: array<nat>, input: array<nat>, mod: array<nat>, n: nat, radix: nat) returns (ghost g: nat)
    requires radix > 1 && radix % 2 == 0 && 0 < n <= result.Length && n <= input.Length && n <= mod.Length
    requires Words(input[..n], radix) && Words(mod[..n], radix) && Val(mod[..n], radix) % 2 == 1
    requires Val(mod[..n], radix) > 1
    modifies result
    ensures Words(result[..n], radix)
    ensures old(Val(input[..n], radix)) == 0 ==> Val(result[..n], radix) == 0
    ensures var x, modulus := old(Val(input[..n], radix)), old(Val(mod[..n], radix));
            x > 0 ==>
              && IsGcd(g, x, modulus) && Val(result[..n], radix) < modulus
              && Times(Val(result[..n], radix), x) % modulus == g % modulus
  {
    hide Val, Words, Inv, IsGcd, Times;
    ghost var x, modulus := Val(input[..n], radix), Val(mod[..n], radix);
    g := 0;
    var zero := IsZero(input, n, radix);
    if zero {
      Clear(result, n, radix);
      return;
    }
    var a, b, u, v := Begin(input, mod, n, radix);
    Reduce(a, b, u, v, mod, n, radix, x);
    Finish(Val(a[..n], radix), Val(u[..n], radix), Val(v[..n], radix), x, modulus);
    g := Val(a[..n], radix);
    Set(result, u, n);
  }

  lemma One(s: seq<nat>, radix: nat)
    requires |s| > 0 && radix > 1 && forall i :: 0 <= i < |s| ==> s[i] == 0
    ensures Val(s[0 := 1], radix) == 1 && Words(s[0 := 1], radix)
  {
    var t := s[0 := 1];
    ValCons(t, radix);
    ValZero(t[1..], radix);
  }

  lemma Finish(a: nat, u: nat, v: nat, x: nat, modulus: nat)
    requires Inv(a, a, u, v, x, modulus)
    ensures IsGcd(a, x, modulus) && u < modulus && Times(u, x) % modulus == a % modulus
  {
    hide Tracks, SameDivisors;
    InvFacts(a, a, u, v, x, modulus);
    EqualIsGcd(a, x, modulus);
    TracksMod(a, u, x, modulus);
  }

  /** An input without a common factor with the modulus is inverted. */
  lemma CoprimeInverse(g: nat, r: nat, x: nat, modulus: nat)
    requires IsGcd(g, x, modulus) && modulus > 1 && Times(r, x) % modulus == g % modulus
    requires forall d: nat :: Common(d, x, modulus) ==> d == 1
    ensures Times(r, x) % modulus == 1
  {
    assert g == 1;
  }
}
