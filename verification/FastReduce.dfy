/**
 The fast reductions of curve-specific.h with 64-bit words: sums and differences of
 rearranged words of the product, corrected by adding or subtracting the prime
 (sections D.2.1 to D.2.3 of FIPS 186-4).
 */
module FastReduce {
  import opened Arith
  import opened Vli
  import opened ModInv
  import opened VliMult

  const B := W64

  const P192 := 0xFFFFFFFF_FFFFFFFF_FFFFFFFF_FFFFFFFE_FFFFFFFF_FFFFFFFF
  const P224 := 0xFFFFFFFF_FFFFFFFF_FFFFFFFF_FFFFFFFF_00000000_00000000_00000001
  const P256 := 0xFFFFFFFF_00000001_00000000_00000000_00000000_FFFFFFFF_FFFFFFFF_FFFFFFFF

  /** The words of the primes, least significant first. */
  const WORDS192: seq<nat> := [0xFFFFFFFF_FFFFFFFF, 0xFFFFFFFF_FFFFFFFE, 0xFFFFFFFF_FFFFFFFF]
  const WORDS224: seq<nat> := [0x00000000_00000001, 0xFFFFFFFF_00000000, 0xFFFFFFFF_FFFFFFFF, 0x00000000_FFFFFFFF]
  const WORDS256: seq<nat> := [0xFFFFFFFF_FFFFFFFF, 0x00000000_FFFFFFFF, 0x00000000_00000000, 0xFFFFFFFF_00000001]

  /** The lower and upper 32 bits of a word. */
  function Lo(w: nat): (r: nat)
    ensures r < H
  {
    w % H
  }

  function Hi(w: nat): (r: nat)
    ensures w < B ==> r < H
    ensures w == Lo(w) + H * r
  {
    w / H
  }

  /** A word from its halves. */
  function Join(lo: nat, hi: nat): (r: nat)
    ensures lo < H && hi < H ==> r < B
  {
    lo + 0x1_00000000 * hi
  }

  // ---------------------------------------------------------------- values of a few words

  lemma Val3(a: nat, b: nat, c: nat)
    ensures Val([a, b, c], B) == a + B * b + B * B * c
  {
    ValCons([a, b, c], B);
    ValCons([b, c], B);
    ValCons([c], B);
  }

  /** Four words by their weights. */
  ghost function V4(a: nat, b: nat, c: nat, d: nat): nat {
    a + 0x1_00000000_00000000 * b + 0x1_00000000_00000000_00000000_00000000 * c
    + 0x1_00000000_00000000_00000000_00000000_00000000_00000000 * d
  }

  lemma Val4(a: nat, b: nat, c: nat, d: nat)
    ensures Val([a, b, c, d], B) == V4(a, b, c, d)
  {
    ValCons([a, b, c, d], B);
    assert [a, b, c, d][1..] == [b, c, d];
    Val3(b, c, d);
  }

  lemma PrimeWords()
    ensures Val(WORDS192, B) == P192 && Val(WORDS224, B) == P224 && Val(WORDS256, B) == P256
    ensures Words(WORDS192, B) && Words(WORDS224, B) && Words(WORDS256, B)
  {
    Val3(WORDS192[0], WORDS192[1], WORDS192[2]);
    assert WORDS192 == [WORDS192[0], WORDS192[1], WORDS192[2]];
    Val4(WORDS224[0], WORDS224[1], WORDS224[2], WORDS224[3]);
    assert WORDS224 == [WORDS224[0], WORDS224[1], WORDS224[2], WORDS224[3]];
    Val4(WORDS256[0], WORDS256[1], WORDS256[2], WORDS256[3]);
    assert WORDS256 == [WORDS256[0], WORDS256[1], WORDS256[2], WORDS256[3]];
  }

  // ---------------------------------------------------------------- steps

  /** The signed number of result and its carry. */
  ghost function Signed(s: seq<nat>, carry: int): int { carry * Pow(B, |s|) + Val(s, B) }

  method Load(tmp: array<nat>, w: seq<nat>)
    requires tmp.Length == |w|
    modifies tmp
    ensures tmp[..] == w
  {
    var i := 0;
    while i < |w|
      invariant 0 <= i <= |w| && tmp[..i] == w[..i]
    {
      tmp[i] := w[i];
      i := i + 1;
    }
  }

  /** result += w, times (1 or 2). */
  method AddWords(result: array<nat>, tmp: array<nat>, w: seq<nat>, twice: bool, carry: int) returns (c: int)
    requires result != tmp && tmp.Length == |w| == result.Length && Words(w, B) && Words(result[..], B)
    modifies result, tmp
    ensures Words(result[..], B)
    ensures Signed(result[..], c) == old(Signed(result[..], carry)) + if twice then 2 * Val(w, B) else Val(w, B)
    ensures carry <= c <= carry + 2
  {
    hide Val, Words, Pow;
    var n := |w|;
    Load(tmp, w);
    assert tmp[..n] == tmp[..] && result[..n] == result[..];
    c := carry;
    ghost var p := Pow(B, n);
    if twice {
      var d := Add(tmp, tmp, tmp, n, B);
      MulDist(c, d, p);
      c := c + d;
      assert tmp[..n] == tmp[..];
    }
    ghost var v := Val(tmp[..], B);
    var d := Add(result, result, tmp, n, B);
    MulDist(c, d, p);
    c := c + d;
    assert result[..n] == result[..];
  }

  /** result -= w. */
  method SubWords(result: array<nat>, tmp: array<nat>, w: seq<nat>, carry: int) returns (c: int)
    requires result != tmp && tmp.Length == |w| == result.Length && Words(w, B) && Words(result[..], B)
    modifies result, tmp
    ensures Words(result[..], B)
    ensures Signed(result[..], c) == old(Signed(result[..], carry)) - Val(w, B)
    ensures carry - 1 <= c <= carry
  {
    hide Val, Words, Pow;
    var n := |w|;
    Load(tmp, w);
    assert tmp[..n] == tmp[..] && result[..n] == result[..];
    var d := Sub(result, result, tmp, n, B);
    MulDist(carry, d, Pow(B, n));
    c := carry - d;
    assert result[..n] == result[..];
  }

  // ---------------------------------------------------------------- the correction

  /** Where a signed number lies, from its carry. */
  lemma SignedRange(s: seq<nat>, carry: int)
    requires Words(s, B)
    ensures carry < 0 <==> Signed(s, carry) < 0
    ensures carry == 0 ==> Signed(s, carry) == Val(s, B)
    ensures carry > 0 ==> Signed(s, carry) >= Pow(B, |s|)
  {
    hide Val, Pow;
    ValBound(s, B);
    var p := Pow(B, |s|);
    if carry > 0 {
      MulLe(1, carry, p);
    } else if carry < 0 {
      MulLe(carry, -1, p);
    }
  }

  /** carry -= uECC_vli_sub(result, result, p). */
  method SubPrime(result: array<nat>, mod: array<nat>, carry: int, ghost whole: int) returns (c: int)
    requires result != mod && result.Length == mod.Length && Words(result[..], B) && Words(mod[..], B)
    requires Val(mod[..], B) > 0
    requires Signed(result[..], carry) % Val(mod[..], B) == whole % Val(mod[..], B)
    modifies result
    ensures Words(result[..], B) && Signed(result[..], c) == old(Signed(result[..], carry)) - Val(mod[..], B)
    ensures Signed(result[..], c) % Val(mod[..], B) == whole % Val(mod[..], B)
  {
    hide Val, Words, Pow;
    ghost var value, modulus := Signed(result[..], carry), Val(mod[..], B);
    var n := result.Length;
    assert result[..n] == result[..] && mod[..n] == mod[..];
    var d := Sub(result, result, mod, n, B);
    assert result[..n] == result[..];
    MulDist(carry, d, Pow(B, n));
    c := carry - d;
    AddMultiple(value, -1, modulus);
  }

  /** carry += uECC_vli_add(result, result, p). */
  method AddPrime(result: array<nat>, mod: array<nat>, carry: int, ghost whole: int) returns (c: int)
    requires result != mod && result.Length == mod.Length && Words(result[..], B) && Words(mod[..], B)
    requires Val(mod[..], B) > 0
    requires Signed(result[..], carry) % Val(mod[..], B) == whole % Val(mod[..], B)
    modifies result
    ensures Words(result[..], B) && Signed(result[..], c) == old(Signed(result[..], carry)) + Val(mod[..], B)
    ensures Signed(result[..], c) % Val(mod[..], B) == whole % Val(mod[..], B)
  {
    hide Val, Words, Pow;
    ghost var value, modulus := Signed(result[..], carry), Val(mod[..], B);
    var n := result.Length;
    assert result[..n] == result[..] && mod[..n] == mod[..];
    var d := Add(result, result, mod, n, B);
    assert result[..n] == result[..];
    MulDist(carry, d, Pow(B, n));
    c := carry + d;
    AddMultiple(value, 1, modulus);
  }

  /** The loop that adds the prime while the number is negative. */
  method AddUp(result: array<nat>, mod: array<nat>, carry: int)
    requires result != mod && result.Length == mod.Length && Words(result[..], B) && Words(mod[..], B)
    requires Val(mod[..], B) > 0
    requires carry < 0
    modifies result
    ensures Words(result[..], B) && Val(result[..], B) == old(Signed(result[..], carry)) % Val(mod[..], B)
  {
    hide Val, Words, Pow, Signed;
    var c := carry;
    ghost var m, modulus, whole := mod[..], Val(mod[..], B), Signed(result[..], carry);
    ValBound(m, B);
    SignedRange(result[..], c);
    while c < 0
      invariant mod[..] == m && Words(result[..], B) && Signed(result[..], c) % modulus == whole % modulus
      invariant Signed(result[..], c) < modulus
      invariant c < 0 <==> Signed(result[..], c) < 0
      decreases -Signed(result[..], c)
    {
      c := AddPrime(result, mod, c, whole);
      SignedRange(result[..], c);
    }
    Below(result[..], c, modulus);
    ModSmall(Val(result[..], B), modulus);
  }

  /** The loops that end the reductions modulo the other primes: the prime is added while
      the number is negative, or subtracted while it is not below the prime. */
  method Correct(result: array<nat>, mod: array<nat>, carry: int)
    requires result != mod && result.Length == mod.Length && Words(result[..], B) && Words(mod[..], B)
    requires Val(mod[..], B) > 0
    modifies result
    ensures Words(result[..], B) && Val(result[..], B) == old(Signed(result[..], carry)) % Val(mod[..], B)
  {
    hide Val, Words, Pow, Signed;
    if carry < 0 {
      AddUp(result, mod, carry);
      return;
    }
    var n, c := result.Length, carry;
    ghost var m, modulus, whole := mod[..], Val(mod[..], B), Signed(result[..], carry);
    assert mod[..n] == m && result[..n] == result[..];
    ValBound(m, B);
    var cmp := Cmp(mod, result, n, B);
    while c != 0 || cmp != 1
      invariant mod[..] == m && Words(result[..], B) && Signed(result[..], c) % modulus == whole % modulus && c >= 0
      invariant cmp == Sign(modulus - Val(result[..], B))
      decreases Signed(result[..], c)
    {
      SignedRange(result[..], c);
      c := SubPrime(result, mod, c, whole);
      SignedRange(result[..], c);
      assert result[..n] == result[..] && mod[..n] == m;
      cmp := Cmp(mod, result, n, B);
    }
    SignedRange(result[..], c);
    ModSmall(Val(result[..], B), modulus);
  }

  /** A number from 0 up to the prime has no carry. */
  lemma Below(s: seq<nat>, carry: int, modulus: nat)
    requires Words(s, B) && 0 <= Signed(s, carry) < modulus <= Pow(B, |s|)
    ensures carry == 0 && Signed(s, carry) == Val(s, B)
  {
    hide Val, Pow;
    SignedRange(s, carry);
  }

  /** Numbers that differ by a multiple leave the same remainder. */
  lemma SameRemainder(x: int, v: int, k: int, modulus: nat)
    requires modulus > 0 && x == v + Times(k, modulus)
    ensures x % modulus == v % modulus
  {
    AddMultiple(v, k, modulus);
  }

  // ---------------------------------------------------------------- secp192r1

  lemma Identity192(w: seq<nat>)
    requires |w| == 6
    ensures Val(w, B) == Val(w[..3], B) + Val(w[3..], B) + Val([0, w[3], w[4]], B) + Val([w[5], w[5], 0], B)
                         + Times(w[3] + B * w[4] + (B * B + 1) * w[5], P192)
  {
    assert w == w[..3] + w[3..];
    ValCat(w[..3], w[3..], B);
    assert w[3..] == [w[3], w[4], w[5]];
    Val3(w[3], w[4], w[5]);
    Val3(0, w[3], w[4]);
    Val3(w[5], w[5], 0);
    assert Pow(B, 3) == B * B * B by {
      assert Pow(B, 0) == 1 && Pow(B, 1) == B && Pow(B, 2) == B * B;
    }
  }

  /** vli_mmod_fast_secp192r1. */
  method Mod192(result: array<nat>, product: array<nat>, mod: array<nat>)
    requires result.Length == 3 && product.Length == 6 && mod.Length == 3 && mod[..] == WORDS192 && result != mod
    requires result != product
    requires Words(product[..], B)
    modifies result
    ensures Words(result[..], B) && Val(result[..], B) == Val(product[..], B) % P192
  {
    hide Val, Words, Signed, Pow;
    PrimeWords();
    ghost var w := product[..];
    WordsOf(w);
    Identity192(w);
    var tmp := new nat[3];
    Set(result, product, 3);
    assert result[..] == result[..3] == w[..3];
    SignedZero(result[..]);
    Words3(w[3], w[4], w[5]);
    Words3(0, w[3], w[4]);
    Words3(w[5], w[5], 0);
    var carry := AddWords(result, tmp, [product[3], product[4], product[5]], false, 0);
    assert w[3..] == [product[3], product[4], product[5]];
    carry := AddWords(result, tmp, [0, product[3], product[4]], false, carry);
    carry := AddWords(result, tmp, [product[5], product[5], 0], false, carry);
    SameRemainder(Val(w, B), Signed(result[..], carry), w[3] + B * w[4] + (B * B + 1) * w[5], P192);
    Correct(result, mod, carry);
  }

  lemma WordsOf(w: seq<nat>)
    requires Words(w, B)
    ensures forall i :: 0 <= i < |w| ==> w[i] < B
    ensures |w| >= 3 ==> Words(w[..3], B)
    ensures |w| >= 4 ==> Words(w[..4], B)
  {
  }

  lemma Words3(a: nat, b: nat, c: nat)
    requires a < B && b < B && c < B
    ensures Words([a, b, c], B)
  {
  }

  lemma Words4(a: nat, b: nat, c: nat, d: nat)
    requires a < B && b < B && c < B && d < B
    ensures Words([a, b, c, d], B)
  {
  }

  lemma SignedZero(s: seq<nat>)
    ensures Signed(s, 0) == Val(s, B)
  {
  }

  // ---------------------------------------------------------------- secp224r1

  /** The rearranged words of section D.2.2 of FIPS 186-4. */
  function T224(w: seq<nat>): (r: seq<nat>)
    requires |w| == 8
  {
    [w[0], w[1], w[2], Lo(w[3])]
  }

  function S224(w: seq<nat>, i: nat): (r: seq<nat>)
    requires |w| == 8 && 1 <= i <= 4
    ensures |r| == 4 && ((forall j :: 0 <= j < 8 ==> w[j] < B) ==> Words(r, B))
  {
    if i == 1 then [0, Join(0, Hi(w[3])), w[4], Lo(w[5])]
    else if i == 2 then [0, Join(0, Hi(w[5])), w[6], 0]
    else if i == 3 then [Join(Hi(w[3]), Lo(w[4])), Join(Hi(w[4]), Lo(w[5])), Join(Hi(w[5]), Lo(w[6])), Hi(w[6])]
    else [Join(Hi(w[5]), Lo(w[6])), Hi(w[6]), 0, 0]
  }

  /** The quotient by the prime, from the upper halves c7 to c13 of the product. */
  function K224(c7: nat, c8: nat, c9: nat, c10: nat, c11: nat, c12: nat, c13: nat): nat {
    c7 + 0x1_00000000 * c8 + 0x1_00000000_00000000 * c9 + 0x1_00000000_00000000_00000000 * c10
      + 0x1_00000000_00000000_00000000_00000001 * c11 + 0x1_00000000_00000000_00000000_00000001_00000000 * c12
      + 0x1_00000000_00000000_00000000_00000001_00000000_00000000 * c13
  }

  ghost function Quotient224(w: seq<nat>): nat
    requires |w| == 8
  {
    K224(Hi(w[3]), Lo(w[4]), Hi(w[4]), Lo(w[5]), Hi(w[5]), Lo(w[6]), Hi(w[6]))
  }

  /** The identity on 32-bit halves, c14 and c15 being zero. */
  lemma Linear224(c0: nat, c1: nat, c2: nat, c3: nat, c4: nat, c5: nat, c6: nat, c7: nat, c8: nat, c9: nat, c10: nat,
                  c11: nat, c12: nat, c13: nat)
    ensures V8(V4(Join(c0, c1), Join(c2, c3), Join(c4, c5), Join(c6, c7)),
            V4(Join(c8, c9), Join(c10, c11), Join(c12, c13), 0))
         == V4(Join(c0, c1), Join(c2, c3), Join(c4, c5), c6)
            + V4(0, Join(0, c7), Join(c8, c9), c10) + V4(0, Join(0, c11), Join(c12, c13), 0)
            - V4(Join(c7, c8), Join(c9, c10), Join(c11, c12), c13) - V4(Join(c11, c12), c13, 0, 0)
            + 0xFFFFFFFF_FFFFFFFF_FFFFFFFF_FFFFFFFF_00000000_00000000_00000001 * K224(c7, c8, c9, c10, c11, c12, c13)
  {
  }

  lemma Identity224(w: seq<nat>)
    requires |w| == 8 && w[7] == 0
    ensures Val(w, B) == Val(T224(w), B) + Val(S224(w, 1), B)
            + Val(S224(w, 2), B) - Val(S224(w, 3), B) - Val(S224(w, 4), B)
                         + Times(Quotient224(w), P224)
  {
    hide Lo, Hi, Val, V4, V8, K224;
    Val8(w);
    Joined(w);
    Val4(w[0], w[1], w[2], Lo(w[3]));
    Val4(0, Join(0, Hi(w[3])), w[4], Lo(w[5]));
    Val4(0, Join(0, Hi(w[5])), w[6], 0);
    Val4(Join(Hi(w[3]), Lo(w[4])), Join(Hi(w[4]), Lo(w[5])), Join(Hi(w[5]), Lo(w[6])), Hi(w[6]));
    Val4(Join(Hi(w[5]), Lo(w[6])), Hi(w[6]), 0, 0);
    Linear224(Lo(w[0]), Hi(w[0]), Lo(w[1]), Hi(w[1]), Lo(w[2]), Hi(w[2]), Lo(w[3]), Hi(w[3]),
              Lo(w[4]), Hi(w[4]), Lo(w[5]), Hi(w[5]), Lo(w[6]), Hi(w[6]));
  }

  ghost function V8(low: nat, high: nat): nat {
    low + 0x1_00000000_00000000_00000000_00000000_00000000_00000000_00000000_00000000 * high
  }

  /** Eight words by their weights. */
  lemma Val8(w: seq<nat>)
    requires |w| == 8
    ensures Val(w, B) == V8(V4(w[0], w[1], w[2], w[3]), V4(w[4], w[5], w[6], w[7]))
  {
    assert w == w[..4] + w[4..];
    assert w[..4] == [w[0], w[1], w[2], w[3]] && w[4..] == [w[4], w[5], w[6], w[7]];
    ValCat(w[..4], w[4..], B);
    Val4(w[0], w[1], w[2], w[3]);
    Val4(w[4], w[5], w[6], w[7]);
    assert Pow(B, 4) == B * B * B * B by {
      assert Pow(B, 0) == 1 && Pow(B, 1) == B && Pow(B, 2) == B * B && Pow(B, 3) == B * B * B;
    }
  }

  lemma Joined(w: seq<nat>)
    ensures forall i :: 0 <= i < |w| ==> w[i] == Join(Lo(w[i]), Hi(w[i]))
  {
  }

  /** The first three summands are so short that adding them never carries. */
  lemma NoCarry224(w: seq<nat>)
    requires |w| == 8 && forall i :: 0 <= i < 8 ==> w[i] < B
    ensures Val(T224(w), B) + Val(S224(w, 1), B) + Val(S224(w, 2), B) < Pow(B, 4)
  {
    hide Val, Pow;
    Val4(w[0], w[1], w[2], Lo(w[3]));
    Val4(0, Join(0, Hi(w[3])), w[4], Lo(w[5]));
    Val4(0, Join(0, Hi(w[5])), w[6], 0);
    PowFour();
  }

  lemma PowFour()
    ensures Pow(B, 4) == 0x1_00000000_00000000_00000000_00000000_00000000_00000000_00000000_00000000
  {
    assert Pow(B, 0) == 1 && Pow(B, 1) == B && Pow(B, 2) == B * B && Pow(B, 3) == B * B * B;
  }

  /** uECC_vli_add whose result is not looked at. */
  method AddUnchecked(result: array<nat>, tmp: array<nat>, w: seq<nat>)
    requires result != tmp && tmp.Length == |w| == result.Length && Words(w, B) && Words(result[..], B)
    requires Val(result[..], B) + Val(w, B) < Pow(B, |w|)
    modifies result, tmp
    ensures Words(result[..], B) && Val(result[..], B) == old(Val(result[..], B)) + Val(w, B)
  {
    hide Val, Words, Pow;
    var n := |w|;
    Load(tmp, w);
    assert tmp[..n] == tmp[..] && result[..n] == result[..];
    var carry := Add(result, result, tmp, n, B);
    assert result[..n] == result[..];
    NoneLeft(Val(result[..], B), carry, Pow(B, n));
  }

  lemma NoneLeft(v: nat, carry: nat, p: nat)
    requires v + carry * p < p
    ensures carry == 0 && carry * p == 0
  {
    if carry > 0 {
      MulLe(1, carry, p);
    }
  }

  /** The loop that subtracts the prime without looking at a carry. */
  method SubtractDown(result: array<nat>, mod: array<nat>)
    requires result != mod && result.Length == mod.Length && Words(result[..], B) && Words(mod[..], B)
    requires Val(mod[..], B) > 0
    modifies result
    ensures Words(result[..], B) && Val(result[..], B) == old(Val(result[..], B)) % Val(mod[..], B)
  {
    hide Val, Words, Pow;
    var n := result.Length;
    ghost var m, modulus, whole := mod[..], Val(mod[..], B), Val(result[..], B);
    assert mod[..n] == m && result[..n] == result[..];
    var cmp := Cmp(mod, result, n, B);
    while cmp != 1
      invariant mod[..] == m && Words(result[..], B) && Val(result[..], B) % modulus == whole % modulus
      invariant cmp == Sign(modulus - Val(result[..], B))
      decreases Val(result[..], B)
    {
      ghost var v := Val(result[..], B);
      assert mod[..n] == m && result[..n] == result[..];
      var borrow := Sub(result, result, mod, n, B);
      assert result[..n] == result[..];
      NoBorrow(result[..], borrow, B, n, v - modulus);
      AddMultiple(v, -1, modulus);
      cmp := Cmp(mod, result, n, B);
    }
    ModSmall(Val(result[..], B), modulus);
  }

  /** The correction at the end of vli_mmod_fast_secp224r1: the carry counts borrows only. */
  method Correct224(result: array<nat>, mod: array<nat>, carry: int)
    requires result != mod && result.Length == mod.Length && Words(result[..], B) && Words(mod[..], B)
    requires Val(mod[..], B) > 0
    requires carry <= 0
    modifies result
    ensures Words(result[..], B) && Val(result[..], B) == old(Signed(result[..], carry)) % Val(mod[..], B)
  {
    hide Val, Words, Pow, Signed;
    if carry < 0 {
      AddUp(result, mod, carry);
    } else {
      SignedZero(result[..]);
      SubtractDown(result, mod);
    }
  }

  /** vli_mmod_fast_secp224r1, for products below 2^448. */
  method Mod224(result: array<nat>, product: array<nat>, mod: array<nat>)
    requires result.Length == 4 && product.Length == 8 && mod.Length == 4 && mod[..] == WORDS224
    requires result != mod && result != product && Words(product[..], B) && product[7] == 0
    modifies result
    ensures Words(result[..], B) && Val(result[..], B) == Val(product[..], B) % P224
  {
    hide Val, Words, Signed, Pow, S224, Quotient224;
    PrimeWords();
    var w := product[..];
    WordsOf(w);
    Identity224(w);
    NoCarry224(w);
    var tmp := new nat[4];
    Set(result, product, 4);
    result[3] := result[3] % H;
    assert result[..] == T224(w);
    Words4(w[0], w[1], w[2], Lo(w[3]));
    AddUnchecked(result, tmp, S224(w, 1));
    AddUnchecked(result, tmp, S224(w, 2));
    SignedZero(result[..]);
    var carry := SubWords(result, tmp, S224(w, 3), 0);
    carry := SubWords(result, tmp, S224(w, 4), carry);
    SameRemainder(Val(w, B), Signed(result[..], carry), Quotient224(w), P224);
    Correct224(result, mod, carry);
  }

  // ---------------------------------------------------------------- secp256r1

  /** The rearranged words of section D.2.3 of FIPS 186-4: s1 to s4, then d1 to d4. */
  function S256(w: seq<nat>, i: nat): (r: seq<nat>)
    requires |w| == 8 && 1 <= i <= 8
    ensures |r| == 4 && ((forall j :: 0 <= j < 8 ==> w[j] < B) ==> Words(r, B))
  {
    if i == 1 then [0, Join(0, Hi(w[5])), w[6], w[7]]
    else if i == 2 then [0, Join(0, Lo(w[6])), Join(Hi(w[6]), Lo(w[7])), Hi(w[7])]
    else if i == 3 then [w[4], Lo(w[5]), 0, w[7]]
    else if i == 4 then [Join(Hi(w[4]), Lo(w[5])), Join(Hi(w[5]), Hi(w[6])), w[7], Join(Hi(w[6]), Lo(w[4]))]
    else if i == 5 then [Join(Hi(w[5]), Lo(w[6])), Hi(w[6]), 0, Join(Lo(w[4]), Lo(w[5]))]
    else if i == 6 then [w[6], w[7], 0, Join(Hi(w[4]), Hi(w[5]))]
    else if i == 7 then [Join(Hi(w[6]), Lo(w[7])), Join(Hi(w[7]), Lo(w[4])), Join(Hi(w[4]), Lo(w[5])),
      Join(0, Lo(w[6]))]
    else [w[7], Join(0, Hi(w[4])), w[5], Join(0, Hi(w[6]))]
  }

  /** The quotient by the prime, from the upper halves c8 to c15 of the product. */
  function K256(c8: nat, c9: nat, c10: nat, c11: nat, c12: nat, c13: nat, c14: nat, c15: nat): int {
    c8 + 0x1_00000001 * c9 + 0x1_00000001_00000000 * c10 + 0x1_00000000_FFFFFFFF_FFFFFFFF * c11
      + 0x1_00000000_FFFFFFFF_FFFFFFFE_FFFFFFFF * c12 + 0x1_00000000_FFFFFFFF_FFFFFFFE_FFFFFFFE_FFFFFFFF * c13
      + 0x1_00000000_FFFFFFFF_FFFFFFFE_FFFFFFFE_FFFFFFFE_FFFFFFFF * c14
      + 0x1_00000000_FFFFFFFF_FFFFFFFE_FFFFFFFE_FFFFFFFE_FFFFFFFF_00000000 * c15
  }

  ghost function Quotient256(w: seq<nat>): int
    requires |w| == 8
  {
    K256(Lo(w[4]), Hi(w[4]), Lo(w[5]), Hi(w[5]), Lo(w[6]), Hi(w[6]), Lo(w[7]), Hi(w[7]))
  }

  /** The sum the code forms. */
  ghost function Sum256(w: seq<nat>): int
    requires |w| == 8
  {
    Val(w[..4], B) + 2 * Val(S256(w, 1), B) + 2 * Val(S256(w, 2), B) + Val(S256(w, 3), B) + Val(S256(w, 4), B)
    - Val(S256(w, 5), B) - Val(S256(w, 6), B) - Val(S256(w, 7), B) - Val(S256(w, 8), B)
  }

  /** The identity on 32-bit halves. */
  lemma Linear256(c0: nat, c1: nat, c2: nat, c3: nat, c4: nat, c5: nat, c6: nat, c7: nat,
                  c8: nat, c9: nat, c10: nat, c11: nat, c12: nat, c13: nat, c14: nat, c15: nat)
    ensures V8(V4(Join(c0, c1), Join(c2, c3), Join(c4, c5), Join(c6, c7)),
            V4(Join(c8, c9), Join(c10, c11), Join(c12, c13), Join(c14, c15)))
         == V4(Join(c0, c1), Join(c2, c3), Join(c4, c5), Join(c6, c7))
            + 2 * V4(0, Join(0, c11), Join(c12, c13), Join(c14, c15))
            + 2 * V4(0, Join(0, c12), Join(c13, c14), c15)
            + V4(Join(c8, c9), c10, 0, Join(c14, c15))
            + V4(Join(c9, c10), Join(c11, c13), Join(c14, c15), Join(c13, c8))
            - V4(Join(c11, c12), c13, 0, Join(c8, c10))
            - V4(Join(c12, c13), Join(c14, c15), 0, Join(c9, c11))
            - V4(Join(c13, c14), Join(c15, c8), Join(c9, c10), Join(0, c12))
            - V4(Join(c14, c15), Join(0, c9), Join(c10, c11), Join(0, c13))
            + 0xFFFFFFFF_00000001_00000000_00000000_00000000_FFFFFFFF_FFFFFFFF_FFFFFFFF
              * K256(c8, c9, c10, c11, c12, c13, c14, c15)
  {
  }

  lemma Identity256(w: seq<nat>)
    requires |w| == 8
    ensures Val(w, B) == Sum256(w) + Times(Quotient256(w), P256)
  {
    hide Lo, Hi, Val, V4, V8, K256;
    Val8(w);
    Joined(w);
    assert w[..4] == [w[0], w[1], w[2], w[3]];
    Val4(w[0], w[1], w[2], w[3]);
    Val4(0, Join(0, Hi(w[5])), w[6], w[7]);
    Val4(0, Join(0, Lo(w[6])), Join(Hi(w[6]), Lo(w[7])), Hi(w[7]));
    Val4(w[4], Lo(w[5]), 0, w[7]);
    Val4(Join(Hi(w[4]), Lo(w[5])), Join(Hi(w[5]), Hi(w[6])), w[7], Join(Hi(w[6]), Lo(w[4])));
    Val4(Join(Hi(w[5]), Lo(w[6])), Hi(w[6]), 0, Join(Lo(w[4]), Lo(w[5])));
    Val4(w[6], w[7], 0, Join(Hi(w[4]), Hi(w[5])));
    Val4(Join(Hi(w[6]), Lo(w[7])), Join(Hi(w[7]), Lo(w[4])), Join(Hi(w[4]), Lo(w[5])), Join(0, Lo(w[6])));
    Val4(w[7], Join(0, Hi(w[4])), w[5], Join(0, Hi(w[6])));
    Linear256(Lo(w[0]), Hi(w[0]), Lo(w[1]), Hi(w[1]), Lo(w[2]), Hi(w[2]), Lo(w[3]), Hi(w[3]),
              Lo(w[4]), Hi(w[4]), Lo(w[5]), Hi(w[5]), Lo(w[6]), Hi(w[6]), Lo(w[7]), Hi(w[7]));
  }

  /** vli_mmod_fast_secp256r1. */
  method Mod256(result: array<nat>, product: array<nat>, mod: array<nat>)
    requires result.Length == 4 && product.Length == 8 && mod.Length == 4 && mod[..] == WORDS256 && result != mod
    requires result != product
    requires Words(product[..], B)
    modifies result
    ensures Words(result[..], B) && Val(result[..], B) == Val(product[..], B) % P256
  {
    hide Val, Words, Signed, Pow, S256, Quotient256;
    PrimeWords();
    var w := product[..];
    WordsOf(w);
    Identity256(w);
    var tmp := new nat[4];
    Set(result, product, 4);
    assert result[..] == result[..4] == w[..4];
    SignedZero(result[..]);
    var carry := AddWords(result, tmp, S256(w, 1), true, 0);
    carry := AddWords(result, tmp, S256(w, 2), true, carry);
    carry := AddWords(result, tmp, S256(w, 3), false, carry);
    carry := AddWords(result, tmp, S256(w, 4), false, carry);
    carry := SubWords(result, tmp, S256(w, 5), carry);
    carry := SubWords(result, tmp, S256(w, 6), carry);
    carry := SubWords(result, tmp, S256(w, 7), carry);
    carry := SubWords(result, tmp, S256(w, 8), carry);
    SameRemainder(Val(w, B), Signed(result[..], carry), Quotient256(w), P256);
    Correct(result, mod, carry);
  }
}
