/**
 Very long integers (uECC.c): numbers as little-endian arrays of words smaller than radix,
 added, subtracted, compared and shifted in place.
 */
module Vli {
  import opened Arith

  function Pow(b: nat, n: nat): nat {
    if n == 0 then 1 else b * Pow(b, n - 1)
  }

  /** The words are words. */
  ghost predicate Words(s: seq<nat>, radix: nat) {
    forall i :: 0 <= i < |s| ==> s[i] < radix
  }

  /** The number a sequence of words stands for. */
  ghost function Val(s: seq<nat>, radix: nat): nat {
    if s == [] then 0 else Val(s[..|s| - 1], radix) + s[|s| - 1] * Pow(radix, |s| - 1)
  }

  // ---------------------------------------------------------------- arithmetic

  lemma {:induction false} PowPos(b: nat, n: nat)
    requires b > 0
    ensures Pow(b, n) > 0
  {
    if n > 0 {
      PowPos(b, n - 1);
    }
  }

  lemma PowNext(radix: nat, k: nat)
    ensures Pow(radix, k + 1) == radix * Pow(radix, k)
  {
  }

  lemma {:induction false} PowAdd(b: nat, m: nat, n: nat)
    ensures Pow(b, m + n) == Pow(b, m) * Pow(b, n)
  {
    if m > 0 {
      PowAdd(b, m - 1, n);
      assert b * (Pow(b, m - 1) * Pow(b, n)) == (b * Pow(b, m - 1)) * Pow(b, n);
    }
  }

  // ---------------------------------------------------------------- values

  lemma ValSnoc(s: seq<nat>, x: nat, radix: nat)
    ensures Val(s + [x], radix) == Val(s, radix) + x * Pow(radix, |s|)
  {
    assert (s + [x])[..|s|] == s;
  }

  /** The value of the first i + 1 words. */
  lemma ValNext(s: seq<nat>, i: nat, radix: nat)
    requires i < |s|
    ensures Val(s[..i + 1], radix) == Val(s[..i], radix) + s[i] * Pow(radix, i)
  {
    assert s[..i + 1] == s[..i] + [s[i]];
    ValSnoc(s[..i], s[i], radix);
  }

  lemma ScaleSum(v: nat, w: nat, p: nat, q: nat)
    ensures p * v + w * (p * q) == p * (v + w * q)
  {
    assert w * (p * q) == p * (w * q);
  }

  lemma {:induction false} ValCat(a: seq<nat>, b: seq<nat>, radix: nat)
    ensures Val(a + b, radix) == Val(a, radix) + Pow(radix, |a|) * Val(b, radix)
  {
    if b == [] {
      assert a + b == a;
    } else {
      var n := |b| - 1;
      assert a + b == (a + b[..n]) + [b[n]] && b == b[..n] + [b[n]];
      ValCat(a, b[..n], radix);
      ValSnoc(a + b[..n], b[n], radix);
      PowAdd(radix, |a|, n);
      ScaleSum(Val(b[..n], radix), b[n], Pow(radix, |a|), Pow(radix, n));
    }
  }

  lemma ValCons(s: seq<nat>, radix: nat)
    requires |s| > 0
    ensures Val(s, radix) == s[0] + radix * Val(s[1..], radix)
  {
    assert s == s[..1] + s[1..];
    ValCat(s[..1], s[1..], radix);
    assert s[..1][..0] == [] && Pow(radix, 0) == 1 && Pow(radix, 1) == radix * Pow(radix, 0);
  }

  lemma {:induction false} ValBound(s: seq<nat>, radix: nat)
    requires Words(s, radix) && radix > 0
    ensures Val(s, radix) < Pow(radix, |s|)
  {
    if s != [] {
      var n := |s| - 1;
      ValBound(s[..n], radix);
      MulLe(s[n] + 1, radix, Pow(radix, n));
      MulDist(s[n], 1, Pow(radix, n));
    }
  }

  lemma {:induction false} ValZero(s: seq<nat>, radix: nat)
    requires radix > 0
    ensures Val(s, radix) == 0 <==> forall i :: 0 <= i < |s| ==> s[i] == 0
  {
    if s != [] {
      var n := |s| - 1;
      ValZero(s[..n], radix);
      PowPos(radix, n);
      if s[n] > 0 {
        MulLe(1, s[n], Pow(radix, n));
      }
      assert forall i :: 0 <= i < n ==> s[i] == s[..n][i];
    }
  }

  lemma HalfMul(radix: nat, h: nat)
    requires radix % 2 == 0
    ensures radix * h == 2 * (radix / 2 * h)
  {
    MulAssoc(2, radix / 2, h);
  }

  lemma ParityAdd(a: nat, m: nat)
    ensures (a + 2 * m) % 2 == a % 2
  {
  }

  /** A number is even when its lowest word is. */
  lemma ValParity(s: seq<nat>, radix: nat)
    requires |s| > 0 && radix % 2 == 0
    ensures Val(s, radix) % 2 == s[0] % 2
  {
    hide Val;
    ValCons(s, radix);
    HalfMul(radix, Val(s[1..], radix));
    ParityAdd(s[0], radix / 2 * Val(s[1..], radix));
  }

  // ---------------------------------------------------------------- add and subtract

  lemma Dist3(a: int, b: int, c: int, p: int)
    ensures (a + b + c) * p == a * p + b * p + c * p
  {
    MulDist(a + b, c, p);
    MulDist(a, b, p);
  }

  lemma AddCarry(l: nat, r: nat, carry: nat, sum: nat, carry': nat, radix: nat)
    requires l < radix && r < radix && carry <= 1 && sum == (l + r + carry) % radix
    requires carry' == if sum != l then (if sum < l then 1 else 0) else carry
    ensures carry' <= 1 && sum < radix && l + r + carry == if carry' == 1 then sum + radix else sum
  {
    var t := l + r + carry;
    if t >= radix {
      ReduceOnce(t, radix);
    } else {
      ModSmall(t, radix);
    }
  }

  /** One word of uECC_vli_add. */
  lemma AddWord(l: nat, r: nat, carry: nat, sum: nat, carry': nat, radix: nat, p: nat)
    requires l < radix && r < radix && carry <= 1 && sum == (l + r + carry) % radix
    requires carry' == if sum != l then (if sum < l then 1 else 0) else carry
    ensures carry' <= 1 && sum < radix && sum * p + carry' * (radix * p) == l * p + r * p + carry * p
  {
    AddCarry(l, r, carry, sum, carry', radix);
    Dist3(l, r, carry, p);
    MulDist(sum, radix, p);
  }

  lemma SubBorrow(l: nat, r: nat, borrow: nat, diff: nat, borrow': nat, radix: nat)
    requires l < radix && r < radix && borrow <= 1 && diff == (l - r - borrow) % radix
    requires borrow' == if diff != l then (if diff > l then 1 else 0) else borrow
    ensures borrow' <= 1 && diff < radix && l - r - borrow == if borrow' == 1 then diff - radix else diff
  {
    var t := l - r - borrow;
    if t < 0 {
      LiftOnce(t, radix);
    } else {
      ModSmall(t, radix);
    }
  }

  /** One word of uECC_vli_sub. */
  lemma SubWord(l: nat, r: nat, borrow: nat, diff: nat, borrow': nat, radix: nat, p: nat)
    requires l < radix && r < radix && borrow <= 1 && diff == (l - r - borrow) % radix
    requires borrow' == if diff != l then (if diff > l then 1 else 0) else borrow
    ensures borrow' <= 1 && diff < radix && diff * p - borrow' * (radix * p) == l * p - r * p - borrow * p
  {
    SubBorrow(l, r, borrow, diff, borrow', radix);
    MulDist(l - r, borrow, p);
    MulDist(l, r, p);
    MulDist(diff, radix, p);
  }

  lemma ModSmall(t: int, radix: int)
    requires 0 <= t < radix
    ensures t % radix == t
  {
  }

  lemma ReduceOnce(t: int, radix: int)
    requires 0 < radix <= t < 2 * radix
    ensures t % radix == t - radix
  {
  }

  lemma LiftOnce(t: int, radix: int)
    requires 0 < radix && -radix <= t < 0
    ensures t % radix == t + radix
  {
  }

  /** uECC_vli_add; result may be left or right. */
  method Add(result: array<nat>, left: array<nat>, right: array<nat>, n: nat, radix: nat) returns (carry: nat)
    requires radix > 1 && n <= result.Length && n <= left.Length && n <= right.Length
    requires Words(left[..n], radix) && Words(right[..n], radix)
    modifies result
    ensures carry <= 1 && Words(result[..n], radix)
    ensures Val(result[..n], radix) + carry * Pow(radix, n) == old(Val(left[..n], radix)) + old(Val(right[..n], radix))
    ensures forall h :: n <= h < result.Length ==> result[h] == old(result[h])
  {
    hide Val, Words;
    ghost var l, r, out := left[..n], right[..n], [];
    carry := 0;
    ValEmpty(radix);
    var i := 0;
    while i < n
      invariant 0 <= i <= n && carry <= 1
      invariant forall h :: i <= h < n ==> left[h] == l[h] && right[h] == r[h]
      invariant |out| == i && result[..i] == out && Words(out, radix)
      invariant Val(out, radix) + carry * Pow(radix, i) == Val(l[..i], radix) + Val(r[..i], radix)
      invariant forall h :: n <= h < result.Length ==> result[h] == old(result[h])
    {
      WordAt(l, i, radix);
      WordAt(r, i, radix);
      var sum := (left[i] + right[i] + carry) % radix;
      ghost var c := carry;
      if sum != left[i] {
        carry := if sum < left[i] then 1 else 0;
      }
      AddWord(l[i], r[i], c, sum, carry, radix, Pow(radix, i));
      ValNext(l, i, radix);
      ValNext(r, i, radix);
      ValSnoc(out, sum, radix);
      WordsSnoc(out, sum, radix);
      result[i] := sum;
      out := out + [sum];
      assert result[..i + 1] == result[..i] + [sum];
      i := i + 1;
    }
    assert l[..n] == l && r[..n] == r;
  }

  /** uECC_vli_sub; result may be left or right. */
  method Sub(result: array<nat>, left: array<nat>, right: array<nat>, n: nat, radix: nat) returns (borrow: nat)
    requires radix > 1 && n <= result.Length && n <= left.Length && n <= right.Length
    requires Words(left[..n], radix) && Words(right[..n], radix)
    modifies result
    ensures borrow <= 1 && Words(result[..n], radix)
    ensures Val(result[..n], radix) - borrow * Pow(radix, n) == old(Val(left[..n], radix)) - old(Val(right[..n], radix))
    ensures forall h :: n <= h < result.Length ==> result[h] == old(result[h])
  {
    hide Val, Words;
    ghost var l, r, out := left[..n], right[..n], [];
    borrow := 0;
    ValEmpty(radix);
    var i := 0;
    while i < n
      invariant 0 <= i <= n && borrow <= 1
      invariant forall h :: i <= h < n ==> left[h] == l[h] && right[h] == r[h]
      invariant |out| == i && result[..i] == out && Words(out, radix)
      invariant Val(out, radix) - borrow * Pow(radix, i) == Val(l[..i], radix) - Val(r[..i], radix)
      invariant forall h :: n <= h < result.Length ==> result[h] == old(result[h])
    {
      WordAt(l, i, radix);
      WordAt(r, i, radix);
      var diff := (left[i] - right[i] - borrow) % radix;
      ghost var c := borrow;
      if diff != left[i] {
        borrow := if diff > left[i] then 1 else 0;
      }
      SubWord(l[i], r[i], c, diff, borrow, radix, Pow(radix, i));
      ValNext(l, i, radix);
      ValNext(r, i, radix);
      ValSnoc(out, diff, radix);
      WordsSnoc(out, diff, radix);
      result[i] := diff;
      out := out + [diff];
      assert result[..i + 1] == result[..i] + [diff];
      i := i + 1;
    }
    assert l[..n] == l && r[..n] == r;
  }

  lemma ValEmpty(radix: nat)
    ensures Val([], radix) == 0 && Words([], radix) && forall s: seq<nat> :: s == [] ==> Val(s, radix) == 0
  {
  }

  lemma WordAt(s: seq<nat>, i: nat, radix: nat)
    requires Words(s, radix) && i < |s|
    ensures s[i] < radix
  {
  }

  lemma WordsSnoc(s: seq<nat>, x: nat, radix: nat)
    requires Words(s, radix) && x < radix
    ensures Words(s + [x], radix)
  {
  }

  // ---------------------------------------------------------------- compare and copy

  /** uECC_vli_isZero. */
  method IsZero(vli: array<nat>, n: nat, radix: nat) returns (zero: bool)
    requires n <= vli.Length && radix > 0
    ensures zero <==> Val(vli[..n], radix) == 0
  {
    hide Val;
    zero := true;
    var i := 0;
    while i < n
      invariant 0 <= i <= n && (zero <==> forall h :: 0 <= h < i ==> vli[h] == 0)
    {
      zero := zero && vli[i] == 0;
      i := i + 1;
    }
    ValZero(vli[..n], radix);
    assert forall h :: 0 <= h < n ==> vli[..n][h] == vli[h];
  }

  /** The highest word that differs decides. */
  lemma CmpWord(l: seq<nat>, r: seq<nat>, i: nat, radix: nat)
    requires radix > 0 && Words(l, radix) && Words(r, radix) && i < |l| == |r| && l[i + 1..] == r[i + 1..]
    requires l[i] < r[i]
    ensures Val(l, radix) < Val(r, radix)
  {
    hide Val, Pow;
    assert l == l[..i + 1] + l[i + 1..] && r == r[..i + 1] + r[i + 1..];
    ValCat(l[..i + 1], l[i + 1..], radix);
    ValCat(r[..i + 1], r[i + 1..], radix);
    ValNext(l, i, radix);
    ValNext(r, i, radix);
    ValBound(l[..i], radix);
    MulLe(l[i] + 1, r[i], Pow(radix, i));
    MulDist(l[i], 1, Pow(radix, i));
  }

  /** uECC_vli_cmp_unsafe: the sign of left - right. */
  method Cmp(left: array<nat>, right: array<nat>, n: nat, radix: nat) returns (c: int)
    requires radix > 1 && n <= left.Length && n <= right.Length && Words(left[..n], radix) && Words(right[..n], radix)
    ensures c == Sign(Val(left[..n], radix) - Val(right[..n], radix))
  {
    hide Val, Words;
    ghost var l, r := left[..n], right[..n];
    var i := n;
    while i > 0
      invariant 0 <= i <= n && forall h :: i <= h < n ==> left[h] == right[h]
    {
      i := i - 1;
      assert l[i + 1..] == r[i + 1..];
      if left[i] > right[i] {
        CmpWord(r, l, i, radix);
        return 1;
      } else if left[i] < right[i] {
        CmpWord(l, r, i, radix);
        return -1;
      }
    }
    assert l == r;
    c := 0;
  }

  function Sign(x: int): int { if x > 0 then 1 else if x < 0 then -1 else 0 }

  /** uECC_vli_set. */
  method Set(dest: array<nat>, src: array<nat>, n: nat)
    requires n <= dest.Length && n <= src.Length
    modifies dest
    ensures dest[..n] == old(src[..n])
    ensures forall h :: n <= h < dest.Length ==> dest[h] == old(dest[h])
  {
    ghost var s := src[..n];
    var i := 0;
    while i < n
      invariant 0 <= i <= n && dest[..i] == s[..i] && forall h :: i <= h < n ==> src[h] == s[h]
      invariant forall h :: n <= h < dest.Length ==> dest[h] == old(dest[h])
    {
      dest[i] := src[i];
      i := i + 1;
    }
  }

  /** uECC_vli_clear. */
  method Clear(vli: array<nat>, n: nat, radix: nat)
    requires n <= vli.Length && radix > 0
    modifies vli
    ensures Val(vli[..n], radix) == 0 && Words(vli[..n], radix) && forall h :: 0 <= h < n ==> vli[h] == 0
    ensures forall h :: n <= h < vli.Length ==> vli[h] == old(vli[h])
  {
    var i := 0;
    while i < n
      invariant 0 <= i <= n && forall h :: 0 <= h < i ==> vli[h] == 0
      invariant forall h :: n <= h < vli.Length ==> vli[h] == old(vli[h])
    {
      vli[i] := 0;
      i := i + 1;
    }
    ValZero(vli[..n], radix);
  }

  // ---------------------------------------------------------------- modular sums

  lemma OverlapIs(x: int, c: int, b: int, power: int)
    requires 0 <= x < power && 0 <= x + c * power - b * power < power && 0 <= c <= 1 && 0 <= b <= 1
    ensures c == b
  {
  }

  /** uECC_vli_modAdd; result may be left or right but not mod. left need not be below mod:
      then the sum is only reduced once. */
  method ModAdd(result: array<nat>, left: array<nat>, right: array<nat>, mod: array<nat>, n: nat, radix: nat)
    requires radix > 1 && n <= result.Length && n <= left.Length && n <= right.Length && n <= mod.Length
    requires result != mod
    requires Words(left[..n], radix) && Words(right[..n], radix) && Words(mod[..n], radix)
    requires Val(right[..n], radix) < Val(mod[..n], radix)
    modifies result
    ensures Words(result[..n], radix)
    ensures var x, modulus := old(Val(left[..n], radix)) + old(Val(right[..n], radix)), Val(mod[..n], radix);
            && Val(result[..n], radix) % modulus == x % modulus
            && (old(Val(left[..n], radix)) < modulus ==> Val(result[..n], radix) == x % modulus)
    ensures forall h :: n <= h < result.Length ==> result[h] == old(result[h])
  {
    hide Val, Words, Pow;
    ghost var l, x, modulus, power := Val(left[..n], radix), Val(left[..n], radix) + Val(right[..n], radix),
      Val(mod[..n], radix), Pow(radix, n);
    ValBound(mod[..n], radix);
    ValBound(left[..n], radix);
    var carry := Add(result, left, right, n, radix);
    ValBound(result[..n], radix);
    var c := Cmp(mod, result, n, radix);
    if carry != 0 || c != 1 {
      var borrow := Sub(result, result, mod, n, radix);
      ValBound(result[..n], radix);
      OverlapIs(x - modulus, borrow, carry, power);
      AddMultiple(x, -1, modulus);
      if l < modulus {
        ReduceOnce(x, modulus);
      }
    } else {
      ModSmall(x, modulus);
    }
  }

  /** uECC_vli_modSub; result may be left or right but not mod. */
  method ModSub(result: array<nat>, left: array<nat>, right: array<nat>, mod: array<nat>, n: nat, radix: nat)
    requires radix > 1 && n <= result.Length && n <= left.Length && n <= right.Length && n <= mod.Length
    requires result != mod
    requires Words(left[..n], radix) && Words(right[..n], radix) && Words(mod[..n], radix)
    requires Val(left[..n], radix) < Val(mod[..n], radix) && Val(right[..n], radix) < Val(mod[..n], radix)
    modifies result
    ensures Words(result[..n], radix)
    ensures Val(result[..n], radix) == (old(Val(left[..n], radix)) - old(Val(right[..n], radix))) % Val(mod[..n], radix)
    ensures forall h :: n <= h < result.Length ==> result[h] == old(result[h])
  {
    hide Val, Words, Pow;
    ghost var x, modulus, power := Val(left[..n], radix) - Val(right[..n], radix), Val(mod[..n], radix), Pow(radix, n);
    ValBound(mod[..n], radix);
    var borrow := Sub(result, left, right, n, radix);
    ValBound(result[..n], radix);
    if borrow != 0 {
      var carry := Add(result, result, mod, n, radix);
      ValBound(result[..n], radix);
      OverlapIs(x + modulus, borrow, carry, power);
      LiftOnce(x, modulus);
    } else {
      ModSmall(x, modulus);
    }
  }

  // ---------------------------------------------------------------- shift

  /** One word of uECC_vli_rshift1, bit being what the word above shifted out. */
  lemma ShiftWord(w: nat, bit: nat, w': nat, radix: nat, high: nat, high': nat)
    requires radix % 2 == 0 && radix > 0 && w < radix && bit <= 1 && w' == w / 2 + bit * (radix / 2)
    requires high == 2 * high' + bit
    ensures w' < radix && w + radix * high == 2 * (w' + radix * high') + w % 2
  {
    assert w == 2 * (w / 2) + w % 2 && w / 2 < radix / 2;
    MulDist(2 * high', bit, radix);
    MulAssoc(2, high', radix);
    assert radix * high == radix * (2 * high') + radix * bit;
    if bit == 1 {
      assert bit * (radix / 2) == radix / 2;
    }
  }

  /** uECC_vli_rshift1 on the n words from ofs on. */
  method Rshift1(vli: array<nat>, ofs: nat, n: nat, radix: nat)
    requires radix > 1 && radix % 2 == 0 && ofs + n <= vli.Length && Words(vli[ofs..ofs + n], radix)
    modifies vli
    ensures Words(vli[ofs..ofs + n], radix) && Val(vli[ofs..ofs + n], radix) == old(Val(vli[ofs..ofs + n], radix)) / 2
    ensures forall h :: 0 <= h < vli.Length && !(ofs <= h < ofs + n) ==> vli[h] == old(vli[h])
  {
    hide Val, Words;
    ghost var l := vli[ofs..ofs + n];
    ghost var out: seq<nat>, bit: nat := [], 0;
    var carry := 0;
    ValEmpty(radix);
    var i := n;
    while i > 0
      invariant 0 <= i <= n && bit <= 1 && carry == bit * (radix / 2)
      invariant forall h :: 0 <= h < vli.Length && !(ofs + i <= h < ofs + n) ==> vli[h] == old(vli[h])
      invariant |out| == n - i && vli[ofs + i..ofs + n] == out && Words(out, radix)
      invariant Val(l[i..], radix) == 2 * Val(out, radix) + bit
    {
      i := i - 1;
      var temp := vli[ofs + i];
      assert temp == l[i];
      WordAt(l, i, radix);
      ShiftWord(temp, bit, temp / 2 + carry, radix, Val(l[i + 1..], radix), Val(out, radix));
      vli[ofs + i] := temp / 2 + carry;
      ValCons(l[i..], radix);
      assert l[i..][1..] == l[i + 1..];
      ghost var out' := [temp / 2 + carry] + out;
      ValCons(out', radix);
      assert out'[1..] == out;
      WordsCons(out, temp / 2 + carry, radix);
      assert vli[ofs + i..ofs + n] == out';
      out, bit := out', temp % 2;
      carry := temp % 2 * (radix / 2);
    }
    assert l[0..] == l;
    Halved(Val(l, radix), Val(out, radix), bit);
  }

  lemma Halved(x: nat, h: nat, bit: nat)
    requires x == 2 * h + bit && bit <= 1
    ensures h == x / 2
  {
  }

  lemma WordsCons(s: seq<nat>, x: nat, radix: nat)
    requires Words(s, radix) && x < radix
    ensures Words([x] + s, radix)
  {
  }

  /** Setting the top bit of n words that had it clear. */
  lemma TopBit(s: seq<nat>, radix: nat, n: nat)
    requires 0 < n == |s| && radix % 2 == 0 && radix > 1 && Words(s, radix) && 2 * Val(s, radix) < Pow(radix, n)
    ensures s[n - 1] < radix / 2
    ensures Val(s[n - 1 := s[n - 1] + radix / 2], radix) == Val(s, radix) + radix / 2 * Pow(radix, n - 1)
    ensures 2 * (radix / 2 * Pow(radix, n - 1)) == Pow(radix, n)
  {
    var t, p := s[n - 1 := s[n - 1] + radix / 2], Pow(radix, n - 1);
    assert t[..n - 1] == s[..n - 1];
    MulDist(s[n - 1], radix / 2, p);
    HalfMul(radix, p);
    if s[n - 1] >= radix / 2 {
      MulLe(radix / 2, s[n - 1], p);
      assert false;
    }
  }

  lemma WordsTop(s: seq<nat>, radix: nat, n: nat)
    requires 0 < n == |s| && radix % 2 == 0 && Words(s, radix) && s[n - 1] < radix / 2
    ensures Words(s[n - 1 := s[n - 1] + radix / 2], radix)
  {
  }

  /** (x + radix^n) / 2 is x / 2 + radix^n / 2. */
  lemma PowEven(x: nat, radix: nat, n: nat)
    requires n > 0 && radix % 2 == 0
    ensures (x + Pow(radix, n)) / 2 == x / 2 + radix / 2 * Pow(radix, n - 1)
  {
    HalfMul(radix, Pow(radix, n - 1));
  }
}
