/**
 Products (uECC_vli_mult, uECC_vli_square): each word of the product is summed column
 by column in three words r0, r1, r2.
 */
module VliMult {
  import opened Arith
  import opened Vli

  /** The number in the three accumulator words. */
  ghost function Acc(r0: nat, r1: nat, r2: nat, radix: nat): nat { r0 + radix * (r1 + radix * r2) }

  // ---------------------------------------------------------------- one product added

  lemma DivMod(x: int, radix: int)
    requires radix > 0
    ensures x == radix * (x / radix) + x % radix && 0 <= x % radix < radix
  {
  }

  lemma WordProduct(a: nat, b: nat, radix: nat)
    requires a < radix && b < radix
    ensures 0 <= a * b <= (radix - 1) * (radix - 1) && (radix - 1) * (radix - 1) + 2 * radix == radix * radix + 1
  {
    MulLe(a, radix - 1, b);
    MulLe(b, radix - 1, radix - 1);
    MulDist(radix, 1, radix - 1);
    MulDist(radix, 1, radix);
  }

  /** Two accumulator words are less than radix * radix. */
  lemma TwoWords(r0: nat, r1: nat, radix: nat)
    requires r0 < radix && r1 < radix
    ensures r0 + radix * r1 < radix * radix
  {
    MulLe(r1 + 1, radix, radix);
    MulDist(r1, 1, radix);
  }

  lemma Quotient(x: nat, radix: nat)
    requires radix > 0 && x < radix * radix
    ensures x / radix < radix
  {
    if x / radix >= radix {
      MulLe(radix, x / radix, radix);
      DivMod(x, radix);
    }
  }

  /** muladd with a double word. */
  method MulAdd(a: nat, b: nat, r0: nat, r1: nat, r2: nat, radix: nat) returns (s0: nat, s1: nat, s2: nat)
    requires radix > 1 && a < radix && b < radix && r0 < radix && r1 < radix && r2 + 1 < radix
    ensures s0 < radix && s1 < radix && r2 <= s2 <= r2 + 1 && Acc(s0, s1, s2, radix) == Acc(r0, r1, r2, radix) + a * b
  {
    WordProduct(a, b, radix);
    s0, s1, s2 := AddDouble(a * b, r0, r1, r2, radix);
  }

  /** The accumulator plus a double word p. */
  method AddDouble(p: nat, r0: nat, r1: nat, r2: nat, radix: nat) returns (s0: nat, s1: nat, s2: nat)
    requires radix > 1 && p < radix * radix && r0 < radix && r1 < radix && r2 + 1 < radix
    ensures s0 < radix && s1 < radix && r2 <= s2 <= r2 + 1 && Acc(s0, s1, s2, radix) == Acc(r0, r1, r2, radix) + p
  {
    hide Acc;
    TwoWords(r0, r1, radix);
    var r01, c := WrapAdd(r1 * radix + r0, p, radix * radix);
    s2 := r2 + c;
    s0, s1 := SplitWord(r01, radix);
    AccIs(r0, r1, r2, radix);
    AccIs(s0, s1, s2, radix);
    Carried(radix * radix, r2, s2);
  }

  /** A sum modulo radix, the carry found by comparing. */
  method WrapAdd(x: nat, p: nat, radix: nat) returns (sum: nat, c: nat)
    requires x < radix && p < radix
    ensures sum < radix && c <= 1 && x + p == if c == 1 then sum + radix else sum
  {
    sum := (x + p) % radix;
    Wrapped(x + p, p, radix);
    c := if sum < p then 1 else 0;
  }

  method SplitWord(x: nat, radix: nat) returns (lo: nat, hi: nat)
    requires radix > 0 && x < radix * radix
    ensures lo < radix && hi < radix && x == lo + radix * hi
  {
    DivMod(x, radix);
    Quotient(x, radix);
    lo, hi := x % radix, x / radix;
  }

  /** A sum modulo radix is below its second term exactly when it wrapped. */
  lemma Wrapped(t: nat, p: nat, radix: nat)
    requires p < radix && p <= t < radix + p
    ensures t % radix == if t % radix < p then t - radix else t
  {
    if t >= radix {
      ReduceOnce(t, radix);
    } else {
      ModSmall(t, radix);
    }
  }

  lemma AccIs(r0: nat, r1: nat, r2: nat, radix: nat)
    ensures Acc(r0, r1, r2, radix) == r0 + radix * r1 + radix * radix * r2
  {
    MulDist(r1, radix * r2, radix);
    MulAssoc(radix, radix, r2);
  }

  lemma Carried(radix: nat, r: nat, s: nat)
    requires r <= s <= r + 1
    ensures radix * s == radix * r + if s == r then 0 else radix
  {
    if s == r + 1 {
      MulDist(r, 1, radix);
    }
  }

  /** mul2add with a double word. */
  method Mul2Add(a: nat, b: nat, r0: nat, r1: nat, r2: nat, radix: nat) returns (s0: nat, s1: nat, s2: nat)
    requires radix > 1 && radix % 2 == 0 && a < radix && b < radix && r0 < radix && r1 < radix && r2 + 2 < radix
    ensures s0 < radix && s1 < radix && r2 <= s2 <= r2 + 2
    ensures Acc(s0, s1, s2, radix) == Acc(r0, r1, r2, radix) + 2 * (a * b)
  {
    hide Acc;
    WordProduct(a, b, radix);
    var p := a * b;
    var top := if 2 * p >= radix * radix then 1 else 0;  // p >> (2 * uECC_WORD_BITS - 1)
    var q := if 2 * p >= radix * radix then 2 * p - radix * radix else 2 * p;  // p *= 2
    AccIs(r0, r1, r2, radix);
    AccIs(r0, r1, r2 + top, radix);
    Carried(radix * radix, r2, r2 + top);
    s0, s1, s2 := AddDouble(q, r0, r1, r2 + top, radix);
  }

  // ---------------------------------------------------------------- without double words

  const H := 0x1_0000_0000
  const W64 := 0x1_0000_0000_0000_0000

  /** The product of two 64-bit words as a high and a low word, from 32-bit halves. */
  method WideProduct(a: nat, b: nat) returns (p0: nat, p1: nat)
    requires a < W64 && b < W64
    ensures p0 < W64 && p1 < W64 - 1 && p0 + W64 * p1 == a * b
  {
    var a0, a1, b0, b1 := a % H, a / H, b % H, b / H;
    HalfProduct(a0, b0);
    HalfProduct(a0, b1);
    HalfProduct(a1, b0);
    HalfProduct(a1, b1);
    Halves(a, b, a0, a1, b0, b1);
    var i0, i1, i2, i3 := a0 * b0, a0 * b1, a1 * b0, a1 * b1;
    i2 := i2 + i0 / H;
    ghost var t := i1 + i2;
    i2 := (i2 + i1) % W64;
    Wrapped(t, i1, W64);
    if i2 < i1 {
      i3 := i3 + H;
    }
    p0 := i0 % H + i2 % H * H;
    p1 := i3 + i2 / H;
    WordProduct(a, b, W64);
  }

  lemma HalfProduct(x: nat, y: nat)
    requires x < H && y < H
    ensures 0 <= x * y <= (H - 1) * (H - 1)
  {
    WordProduct(x, y, H);
  }

  lemma Halves(a: nat, b: nat, a0: nat, a1: nat, b0: nat, b1: nat)
    requires a == a0 + H * a1 && b == b0 + H * b1
    ensures a * b == a0 * b0 + H * (a0 * b1) + H * (a1 * b0) + W64 * (a1 * b1)
  {
    MulDist(a0, H * a1, b);
    MulDist(b0, H * b1, a0);
    MulDist(b0, H * b1, a1);
    MulAssoc(H, a1, b);
    MulAssoc(H, b1, a0);
    MulAssoc(H, b1, a1);
  }

  /** The accumulator plus p0 + p1 * 2^64, with the carries found by comparing. */
  method AddWide(p0: nat, p1: nat, r0: nat, r1: nat, r2: nat) returns (s0: nat, s1: nat, s2: nat)
    requires p0 < W64 && p1 < W64 && r0 < W64 && r1 < W64 && r2 + 1 < W64
    ensures s0 < W64 && s1 < W64 && r2 <= s2 <= r2 + 1 && Acc(s0, s1, s2, W64) == Acc(r0, r1, r2, W64) + p0 + W64 * p1
  {
    hide Acc;
    var c;
    s0, c := WrapAdd(r0, p0, W64);
    WrapIff(r0, p0, s0, c);
    s1 := (r1 + (p1 + c) % W64) % W64;
    CarryIn(r1, p1, c, s1);
    s2 := r2 + if s1 < p1 || (s1 == p1 && s0 < p0) then 1 else 0;
    AccIs(r0, r1, r2, W64);
    AccIs(s0, s1, s2, W64);
  }

  lemma WrapIff(x: nat, p: nat, sum: nat, c: nat)
    requires x < W64 && p < W64 && sum < W64 && c <= 1 && x + p == if c == 1 then sum + W64 else sum
    ensures c == 1 <==> sum < p
  {
  }

  lemma CarryIn(r: nat, p: nat, c: nat, s: nat)
    requires r < W64 && p < W64 && c <= 1 && s == (r + (p + c) % W64) % W64
    ensures s < W64 && r + p + c == if s < p || (s == p && c == 1) then s + W64 else s
  {
    if p + c == W64 {
      ReduceOnce(p + c, W64);
      ModSmall(r, W64);
    } else {
      ModSmall(p + c, W64);
      if r + p + c >= W64 {
        ReduceOnce(r + p + c, W64);
      } else {
        ModSmall(r + p + c, W64);
      }
    }
  }

  /** muladd without a double word. */
  method MulAdd64(a: nat, b: nat, r0: nat, r1: nat, r2: nat) returns (s0: nat, s1: nat, s2: nat)
    requires a < W64 && b < W64 && r0 < W64 && r1 < W64 && r2 + 1 < W64
    ensures s0 < W64 && s1 < W64 && r2 <= s2 <= r2 + 1 && Acc(s0, s1, s2, W64) == Acc(r0, r1, r2, W64) + a * b
  {
    var p0, p1 := WideProduct(a, b);
    s0, s1, s2 := AddWide(p0, p1, r0, r1, r2);
  }

  /** Two words doubled, and the bit shifted out. */
  method DoubleWide(p0: nat, p1: nat) returns (q0: nat, q1: nat, top: nat)
    requires p0 < W64 && p1 < W64
    ensures q0 < W64 && q1 < W64 && top <= 1 && 2 * (p0 + W64 * p1) == q0 + W64 * q1 + W64 * W64 * top
  {
    top := p1 / (W64 / 2);
    q1 := 2 * p1 % W64 + p0 / (W64 / 2);
    q0 := 2 * p0 % W64;
  }

  /** mul2add without a double word. */
  method Mul2Add64(a: nat, b: nat, r0: nat, r1: nat, r2: nat) returns (s0: nat, s1: nat, s2: nat)
    requires a < W64 && b < W64 && r0 < W64 && r1 < W64 && r2 + 2 < W64
    ensures s0 < W64 && s1 < W64 && r2 <= s2 <= r2 + 2 && Acc(s0, s1, s2, W64) == Acc(r0, r1, r2, W64) + 2 * (a * b)
  {
    hide Acc;
    var p0, p1 := WideProduct(a, b);
    var q0, q1, top := DoubleWide(p0, p1);
    AccPlus(r0, r1, r2, top);
    s0, s1, s2 := AddWide(q0, q1, r0, r1, r2 + top);
  }

  lemma AccPlus(r0: nat, r1: nat, r2: nat, top: nat)
    ensures Acc(r0, r1, r2 + top, W64) == Acc(r0, r1, r2, W64) + W64 * W64 * top
  {
  }

  /** Accumulators are equal word for word when their numbers are: both forms of muladd,
      and both forms of mul2add, compute the same words. */
  lemma AccUnique(r0: nat, r1: nat, r2: nat, s0: nat, s1: nat, s2: nat, radix: nat)
    requires r0 < radix && r1 < radix && s0 < radix && s1 < radix && Acc(r0, r1, r2, radix) == Acc(s0, s1, s2, radix)
    ensures r0 == s0 && r1 == s1 && r2 == s2
  {
    LowWord(r0, r1 + radix * r2, s0, s1 + radix * s2, radix);
    LowWord(r1, r2, s1, s2, radix);
  }

  /** Both forms of muladd leave the same words. */
  method SameMulAdd(a: nat, b: nat, r0: nat, r1: nat, r2: nat)
    returns (s0: nat, s1: nat, s2: nat, t0: nat, t1: nat, t2: nat)
    requires a < W64 && b < W64 && r0 < W64 && r1 < W64 && r2 + 1 < W64
    ensures s0 == t0 && s1 == t1 && s2 == t2
    ensures Acc(s0, s1, s2, W64) == Acc(r0, r1, r2, W64) + a * b
  {
    s0, s1, s2 := MulAdd(a, b, r0, r1, r2, W64);
    t0, t1, t2 := MulAdd64(a, b, r0, r1, r2);
    AccUnique(s0, s1, s2, t0, t1, t2, W64);
  }

  /** Both forms of mul2add leave the same words. */
  method SameMul2Add(a: nat, b: nat, r0: nat, r1: nat, r2: nat)
    returns (s0: nat, s1: nat, s2: nat, t0: nat, t1: nat, t2: nat)
    requires a < W64 && b < W64 && r0 < W64 && r1 < W64 && r2 + 2 < W64
    ensures s0 == t0 && s1 == t1 && s2 == t2
    ensures Acc(s0, s1, s2, W64) == Acc(r0, r1, r2, W64) + 2 * (a * b)
  {
    s0, s1, s2 := Mul2Add(a, b, r0, r1, r2, W64);
    t0, t1, t2 := Mul2Add64(a, b, r0, r1, r2);
    AccUnique(s0, s1, s2, t0, t1, t2, W64);
  }

  lemma LowWord(x: nat, h: nat, y: nat, k: nat, radix: nat)
    requires x < radix && y < radix && x + radix * h == y + radix * k
    ensures x == y && h == k
  {
    if h < k {
      MulLe(h + 1, k, radix);
      MulDist(h, 1, radix);
    } else if h > k {
      MulLe(k + 1, h, radix);
      MulDist(k, 1, radix);
    }
  }
}
