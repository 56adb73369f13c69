/**
 Reduction modulo any modulus (uECC_vli_mmod): the modulus is shifted up as far as the
 product is long, then subtracted where it fits while it is shifted down again.
 */
module Mmod {
  import opened Arith
  import opened Vli
  import opened Product

  // ---------------------------------------------------------------- bits

  lemma {:induction false} PowPow(b: nat, w: nat, n: nat)
    ensures Pow(Pow(b, w), n) == Pow(b, w * n)
  {
    hide Pow;
    PowStart(Pow(b, w));
    PowStart(b);
    if n > 0 {
      var e := w * (n - 1);
      PowPow(b, w, n - 1);
      PowNext(Pow(b, w), n - 1);
      PowAdd(b, w, e);
      MulDist(n - 1, 1, w);
      assert w * n == w + e;
    }
  }

  lemma PowStart(b: nat)
    ensures Pow(b, 0) == 1
  {
  }

  /** v has nb bits. */
  ghost predicate Bits(v: nat, nb: nat) {
    if nb == 0 then v == 0 else Pow(2, nb - 1) <= v < Pow(2, nb)
  }

  /** vli_numDigits. */
  method NumDigits(vli: array<nat>, n: nat) returns (k: nat)
    requires n <= vli.Length
    ensures k <= n && (forall i :: k <= i < n ==> vli[i] == 0) && (k > 0 ==> vli[k - 1] != 0)
  {
    k := n;
    while k > 0 && vli[k - 1] == 0
      invariant k <= n && forall i :: k <= i < n ==> vli[i] == 0
    {
      k := k - 1;
    }
  }

  /** The bits of one word, counted by shifting it out. */
  method WordBits(word: nat) returns (i: nat)
    ensures Bits(word, i)
  {
    hide Out, Bits;
    var digit := word;
    i := 0;
    NoneOut(word);
    while digit != 0
      invariant Out(word, digit, i) && (digit == 0 ==> Bits(word, i))
      decreases digit
    {
      ShiftOut(word, digit, i);
      digit := digit / 2;
      i := i + 1;
    }
  }

  /** digit is what is left of word after shifting out i bits. */
  ghost predicate Out(word: nat, digit: nat, i: nat) {
    digit * Pow(2, i) <= word < (digit + 1) * Pow(2, i)
  }

  lemma NoneOut(word: nat)
    ensures Out(word, word, 0) && (word == 0 ==> Bits(word, 0))
  {
  }

  lemma ShiftOut(word: nat, digit: nat, i: nat)
    requires digit > 0 && Out(word, digit, i)
    ensures Out(word, digit / 2, i + 1)
    ensures digit / 2 == 0 ==> Bits(word, i + 1)
  {
    var p, h := Pow(2, i), digit / 2;
    PowNext(2, i);
    hide Pow;
    MulLe(2 * h, digit, p);
    MulLe(digit + 1, 2 * h + 2, p);
    MulAssoc(h, 2, p);
    MulAssoc(h + 1, 2, p);
  }

  /** uECC_vli_numBits. */
  method NumBits(vli: array<nat>, n: nat, wordBits: nat) returns (nb: nat)
    requires n <= vli.Length && wordBits > 0 && Words(vli[..n], Pow(2, wordBits))
    ensures Bits(Val(vli[..n], Pow(2, wordBits)), nb)
    ensures n > 0 && vli[n - 1] != 0 ==> (n - 1) * wordBits < nb <= n * wordBits
  {
    hide Val, Words, Bits;
    ghost var radix, s := Pow(2, wordBits), vli[..n];
    PowPos(2, wordBits);
    var k := NumDigits(vli, n);
    ghost var t := s[..k];
    TopZero(s, k, radix);
    if k == 0 {
      NoBits(t, radix);
      return 0;
    }
    var i := WordBits(vli[k - 1]);
    WordAt(s, k - 1, radix);
    WordsTake(s, k, radix);
    BitsTop(t, k, wordBits, i);
    nb := (k - 1) * wordBits + i;
  }

  lemma NoBits(t: seq<nat>, radix: nat)
    requires t == []
    ensures Bits(Val(t, radix), 0)
  {
  }

  lemma WordsTake(s: seq<nat>, k: nat, radix: nat)
    requires k <= |s| && Words(s, radix)
    ensures Words(s[..k], radix)
  {
  }

  /** Zero words on top change nothing. */
  lemma TopZero(s: seq<nat>, k: nat, radix: nat)
    requires k <= |s| && radix > 0 && forall i :: k <= i < |s| ==> s[i] == 0
    ensures Val(s, radix) == Val(s[..k], radix)
  {
    assert s == s[..k] + s[k..];
    ValCat(s[..k], s[k..], radix);
    ValZero(s[k..], radix);
  }

  /** The bits of a number from those of its top word. */
  lemma BitsTop(t: seq<nat>, k: nat, wordBits: nat, i: nat)
    requires 0 < k == |t| && wordBits > 0 && Words(t, Pow(2, wordBits)) && t[k - 1] > 0 && Bits(t[k - 1], i)
    ensures Bits(Val(t, Pow(2, wordBits)), (k - 1) * wordBits + i) && 0 < i <= wordBits
  {
    hide Words, Val, Pow;
    var radix := Pow(2, wordBits);
    PowPos(2, wordBits);
    WordAt(t, k - 1, radix);
    TopWordBits(t[k - 1], i, wordBits);
    WordsTake(t, k - 1, radix);
    ValBound(t[..k - 1], radix);
    assert t[..k] == t;
    ValNext(t, k - 1, radix);
    PowPow(2, wordBits, k - 1);
    var e := (k - 1) * wordBits;
    assert e == wordBits * (k - 1);
    PowAdd(2, e, i);
    PowAdd(2, e, i - 1);
    ScaleBits(Val(t[..k - 1], radix), t[k - 1], Pow(2, e), Pow(2, i - 1), Pow(2, i));
  }

  lemma ScaleBits(v: nat, d: nat, q: nat, lo: nat, hi: nat)
    requires v < q && lo <= d < hi
    ensures q * lo <= v + d * q < q * hi
  {
    MulLe(lo, d, q);
    MulLe(d + 1, hi, q);
    MulDist(d, 1, q);
  }

  lemma TopWordBits(d: nat, i: nat, wordBits: nat)
    requires 0 < d < Pow(2, wordBits) && Bits(d, i)
    ensures 0 < i <= wordBits
  {
    hide Pow;
    if i > wordBits {
      PowGrows(2, wordBits, i - 1);
    }
  }

  lemma {:induction false} PowGrows(b: nat, m: nat, n: nat)
    requires b > 0 && m <= n
    ensures Pow(b, m) <= Pow(b, n)
  {
    if m < n {
      PowGrows(b, m, n - 1);
      PowPos(b, n - 1);
      MulLe(1, b, Pow(b, n - 1));
    }
  }

  // ---------------------------------------------------------------- shifting up

  /** One word shifted up by a factor s, with s * t == radix. */
  lemma ShiftUpWord(m: nat, s: nat, t: nat, radix: nat, carry: nat)
    requires s > 0 && t > 0 && s * t == radix && m < radix && carry < s
    ensures m * s % radix + carry < radix && m / t < s && m * s % radix + carry + radix * (m / t) == m * s + carry
  {
    var q, r := m / t, m % t;
    assert m == q * t + r;
    ShiftUpParts(m, q, r, s, t, radix);
    ModUnique(m * s, q, r * s, radix);
    if q >= s {
      MulLe(s, q, t);
    }
  }

  lemma ShiftUpParts(m: nat, q: nat, r: nat, s: nat, t: nat, radix: nat)
    requires s * t == radix && m == q * t + r && r < t
    ensures m * s == q * radix + r * s && r * s + s <= radix
  {
    MulDist(q * t, r, s);
    MulAssoc(q, t, s);
    MulLe(r + 1, t, s);
    MulDist(r, 1, s);
  }

  /** The value of i + 1 shifted words. */
  lemma ShiftUpStep(out: nat, v: nat, m: nat, w: nat, carry: nat, carry': nat, s: nat, radix: nat, p: nat)
    requires out + carry * p == v * s && w + radix * carry' == m * s + carry
    ensures out + w * p + carry' * (radix * p) == (v + m * p) * s
  {
    MulDist(w, radix * carry', p);
    MulDist(m * s, carry, p);
    MulDist(v, m * p, s);
    assert (radix * carry') * p == carry' * (radix * p);
    assert (m * s) * p == (m * p) * s;
  }

  /** mod shifted up by bits into the words of mm from ofs on. */
  method ShiftUp(mm: array<nat>, ofs: nat, mod: array<nat>, n: nat, bits: nat, wordBits: nat)
    requires bits < wordBits && n <= mod.Length && ofs + n <= mm.Length && mm != mod
    requires Words(mod[..n], Pow(2, wordBits))
    requires Val(mod[..n], Pow(2, wordBits)) * Pow(2, bits) < Pow(Pow(2, wordBits), n)
    modifies mm
    ensures Words(mm[ofs..ofs + n], Pow(2, wordBits))
    ensures Val(mm[ofs..ofs + n], Pow(2, wordBits)) == Val(mod[..n], Pow(2, wordBits)) * Pow(2, bits)
    ensures forall h :: 0 <= h < mm.Length && !(ofs <= h < ofs + n) ==> mm[h] == old(mm[h])
  {
    hide Val, Words, Pow;
    var radix, s, t := Pow(2, wordBits), Pow(2, bits), Pow(2, wordBits - bits);
    PowPos(2, wordBits);
    PowPos(2, bits);
    PowPos(2, wordBits - bits);
    PowAdd(2, bits, wordBits - bits);
    ghost var l, out: seq<nat> := mod[..n], [];
    ValEmpty(radix);
    PowStart(radix);
    var carry: nat, i := 0, 0;
    while i < n
      invariant 0 <= i <= n && carry < s && mod[..n] == l && |out| == i && mm[ofs..ofs + i] == out && Words(out, radix)
      invariant Val(out, radix) + carry * Pow(radix, i) == Val(l[..i], radix) * s
      invariant forall h :: 0 <= h < mm.Length && !(ofs <= h < ofs + n) ==> mm[h] == old(mm[h])
    {
      WordAt(l, i, radix);
      ShiftUpWord(l[i], s, t, radix, carry);
      var w := mod[i] * s % radix + carry;
      ShiftUpStep(Val(out, radix), Val(l[..i], radix), l[i], w, carry, l[i] / t, s, radix, Pow(radix, i));
      ValNext(l, i, radix);
      ValSnoc(out, w, radix);
      WordsSnoc(out, w, radix);
      PowNext(radix, i);
      mm[ofs + i] := w;
      out := out + [w];
      assert mm[ofs..ofs + (i + 1)] == mm[ofs..ofs + i] + [w];
      carry := mod[i] / t;
      i := i + 1;
    }
    assert l[..n] == l;
    NoCarry(Val(out, radix), carry, Pow(radix, n));
  }

  lemma NoCarry(v: nat, carry: nat, p: nat)
    requires v + carry * p < p
    ensures carry == 0 && carry * p == 0
  {
    if carry > 0 {
      MulLe(1, carry, p);
    }
  }

  // ---------------------------------------------------------------- shifting down

  lemma HalveSum(x: nat, h: nat, p: nat, half: nat)
    requires p == 2 * half
    ensures (x + p * h) / 2 == x / 2 + h % 2 * half + p * (h / 2)
  {
    var g, b := h / 2, h % 2;
    MulDist(2 * g, b, p);
    MulAssoc(2, g, p);
    assert p * h == 2 * (p * g) + b * p;
    assert b * p == 2 * (b * half);
    HalveIt(x, p * g + b * half);
  }

  lemma HalveIt(x: nat, k: nat)
    ensures (x + 2 * k) / 2 == x / 2 + k
  {
  }

  /** mod_multiple halved, a half of the words at a time. */
  method HalveBoth(mm: array<nat>, n: nat, radix: nat)
    requires radix > 1 && radix % 2 == 0 && 0 < n && mm.Length == 2 * n && Words(mm[..], radix)
    modifies mm
    ensures Words(mm[..], radix) && Val(mm[..], radix) == old(Val(mm[..], radix)) / 2
  {
    hide Val, Words, Pow;
    ghost var lo, hi := mm[..n], mm[n..];
    SplitVal(mm[..], n, radix);
    assert mm[0..0 + n] == lo && mm[..][..n] == lo && mm[..][n..] == hi && mm[n..n + n] == hi;
    Rshift1(mm, 0, n, radix);
    ghost var lo1 := mm[..n];
    assert mm[0..0 + n] == lo1;
    assert mm[n] == hi[0];
    ValBound(lo, radix);
    TopBit(lo1, radix, n);
    WordsTop(lo1, radix, n);
    mm[n - 1] := mm[n - 1] + mm[n] % 2 * (radix / 2);
    ghost var lo2 := mm[..n];
    assert lo2 == if hi[0] % 2 == 1 then lo1[n - 1 := lo1[n - 1] + radix / 2] else lo1;
    assert mm[n..n + n] == hi;
    Rshift1(mm, n, n, radix);
    assert mm[..n] == lo2 && mm[n..n + n] == mm[n..] == mm[..][n..] && mm[..][..n] == lo2;
    ValParity(hi, radix);
    HalveSum(Val(lo, radix), Val(hi, radix), Pow(radix, n), radix / 2 * Pow(radix, n - 1));
    SplitVal2(mm[..], n, radix);
  }

  lemma SplitVal(s: seq<nat>, n: nat, radix: nat)
    requires n <= |s| && Words(s, radix)
    ensures Words(s[..n], radix) && Words(s[n..], radix)
    ensures Val(s, radix) == Val(s[..n], radix) + Pow(radix, n) * Val(s[n..], radix)
  {
    hide Val, Pow;
    assert s == s[..n] + s[n..];
    ValCat(s[..n], s[n..], radix);
  }

  lemma SplitVal2(s: seq<nat>, n: nat, radix: nat)
    requires n <= |s| && Words(s[..n], radix) && Words(s[n..], radix)
    ensures Words(s, radix) && Val(s, radix) == Val(s[..n], radix) + Pow(radix, n) * Val(s[n..], radix)
  {
    hide Val, Pow;
    assert s == s[..n] + s[n..];
    ValCat(s[..n], s[n..], radix);
    forall i | 0 <= i < |s|
      ensures s[i] < radix
    {
      assert s[i] == if i < n then s[..n][i] else s[n..][i - n];
    }
  }

  // ---------------------------------------------------------------- reduction

  method SetAt(dest: array<nat>, ofs: nat, src: array<nat>, n: nat)
    requires n <= src.Length && ofs + n <= dest.Length && dest != src
    modifies dest
    ensures dest[ofs..ofs + n] == src[..n]
    ensures forall h :: 0 <= h < dest.Length && !(ofs <= h < ofs + n) ==> dest[h] == old(dest[h])
  {
    var i := 0;
    while i < n
      invariant 0 <= i <= n && dest[ofs..ofs + i] == src[..i]
      invariant forall h :: 0 <= h < dest.Length && !(ofs <= h < ofs + n) ==> dest[h] == old(dest[h])
    {
      dest[ofs + i] := src[i];
      assert dest[ofs..ofs + (i + 1)] == dest[ofs..ofs + i] + [src[i]];
      i := i + 1;
    }
  }

  lemma ShiftIs(n: nat, wordBits: nat, nb: nat)
    requires 0 < n && 0 < wordBits && (n - 1) * wordBits < nb <= n * wordBits
    ensures var shift := 2 * n * wordBits - nb;
            shift >= 0 && shift / wordBits == n && shift % wordBits == n * wordBits - nb < wordBits
  {
    var e, r := n * wordBits, n * wordBits - nb;
    MulDist(n, 1, wordBits);
    MulAssoc(2, n, wordBits);
    var shift := 2 * n * wordBits - nb;
    assert shift == n * wordBits + r;
    ModUnique(shift, n, r, wordBits);
    MulEq(shift / wordBits, n, wordBits);
  }

  lemma MulEq(a: int, b: int, wordBits: nat)
    requires wordBits > 0 && a * wordBits == b * wordBits
    ensures a == b
  {
    if a < b {
      MulLe(a + 1, b, wordBits);
      MulDist(a, 1, wordBits);
    } else if b < a {
      MulLe(b + 1, a, wordBits);
      MulDist(b, 1, wordBits);
    }
  }

  /** The shifted modulus still fits, and reaches past half of what 2n words can hold. */
  lemma ShiftedBounds(modulus: nat, nb: nat, n: nat, wordBits: nat)
    requires modulus > 0 && Bits(modulus, nb) && nb <= n * wordBits
    ensures modulus * Pow(2, n * wordBits - nb) < Pow(Pow(2, wordBits), n)
    ensures Pow(Pow(2, wordBits), 2 * n) <= modulus * Pow(2, 2 * n * wordBits - nb + 1)
  {
    hide Pow;
    PowStart(2);
    var e := n * wordBits;
    MulAssoc(2, n, wordBits);
    assert 2 * n * wordBits == 2 * e;
    PowPow(2, wordBits, n);
    assert wordBits * n == e;
    PowPow(2, wordBits, 2 * n);
    assert wordBits * (2 * n) == 2 * e;
    PowAdd(2, nb, e - nb);
    PowPos(2, e - nb);
    MulLe(modulus + 1, Pow(2, nb), Pow(2, e - nb));
    MulDist(modulus, 1, Pow(2, e - nb));
    PowAdd(2, nb - 1, 2 * e - nb + 1);
    MulLe(Pow(2, nb - 1), modulus, Pow(2, 2 * e - nb + 1));
  }

  /** mod_multiple: mod with its highest bit moved to the top of 2n words. */
  method Align(mm: array<nat>, mod: array<nat>, n: nat, wordBits: nat) returns (shift: nat)
    requires wordBits > 0 && 0 < n <= mod.Length && mm.Length == 2 * n && mm != mod
    requires Words(mod[..n], Pow(2, wordBits)) && mod[n - 1] != 0
    modifies mm
    ensures Words(mm[..], Pow(2, wordBits))
    ensures Val(mm[..], Pow(2, wordBits)) == Val(mod[..n], Pow(2, wordBits)) * Pow(2, shift)
    ensures Pow(Pow(2, wordBits), 2 * n) <= Val(mod[..n], Pow(2, wordBits)) * Pow(2, shift + 1)
    ensures Val(mod[..n], Pow(2, wordBits)) > 0
  {
    hide Val, Words, Pow, Bits;
    var radix := Pow(2, wordBits);
    ghost var modulus := Val(mod[..n], radix);
    PowPos(2, wordBits);
    var nb := NumBits(mod, n, wordBits);
    ShiftIs(n, wordBits, nb);
    ValZero(mod[..n], radix);
    assert mod[..n][n - 1] != 0;
    ShiftedBounds(modulus, nb, n, wordBits);
    shift := 2 * n * wordBits - nb;
    var wordShift, bitShift := shift / wordBits, shift % wordBits;
    Clear(mm, wordShift, radix);
    ghost var zero := mm[..n];
    if bitShift > 0 {
      ShiftUp(mm, wordShift, mod, n, bitShift, wordBits);
    } else {
      PowStart(2);
      SetAt(mm, wordShift, mod, n);
    }
    assert mm[..][..n] == zero && mm[..][n..] == mm[n..n + n];
    SplitVal2(mm[..], n, radix);
    Aligned(modulus, n, wordBits, shift, bitShift);
  }

  lemma Aligned(modulus: nat, n: nat, wordBits: nat, shift: nat, bitShift: nat)
    requires shift == n * wordBits + bitShift
    ensures Pow(Pow(2, wordBits), n) * (modulus * Pow(2, bitShift)) == modulus * Pow(2, shift)
  {
    hide Pow;
    PowPow(2, wordBits, n);
    PowAdd(2, n * wordBits, bitShift);
    var p, q := Pow(2, n * wordBits), Pow(2, bitShift);
    assert p * (modulus * q) == modulus * (p * q);
  }

  /** One step of the division: what is left is below the next multiple. */
  lemma DivideStep(value: nat, modulus: nat, r: nat, whole: nat)
    requires modulus > 0 && r > 0 && value < modulus * Pow(2, r) && value % modulus == whole % modulus
    ensures var multiple := modulus * Pow(2, r - 1);
            (value >= multiple ==> value - multiple < multiple && (value - multiple) % modulus == whole % modulus)
    ensures r > 1 ==> modulus * Pow(2, r - 1) / 2 == modulus * Pow(2, r - 2)
  {
    var p: int := Pow(2, r - 1);
    var multiple := modulus * p;
    assert modulus * (2 * p) == 2 * multiple;
    AddMultiple(value, -p, modulus);
    assert Times(-p, modulus) == -multiple;
    if r > 1 {
      var q := Pow(2, r - 2);
      assert modulus * (2 * q) == 2 * (modulus * q);
    }
  }

  /** The numbers of the division before its last r rounds: v is what is left of whole, mm the
      multiple of modulus to subtract next. */
  ghost predicate Dividing(v: seq<nat>, mm: seq<nat>, modulus: nat, r: nat, whole: nat, radix: nat) {
    && Words(v, radix) && Words(mm, radix) && modulus > 0
    && Val(v, radix) < modulus * Pow(2, r) && Val(v, radix) % modulus == whole % modulus
         && (r > 0 ==> Val(mm, radix) == modulus * Pow(2, r - 1))
  }

  /** One round: v[index] less mod_multiple into the other buffer, which is taken if there
      was no borrow. */
  method Round(cur: array<nat>, other: array<nat>, mm: array<nat>, n: nat, radix: nat, ghost modulus: nat,
               ghost r: nat, ghost whole: nat)
    returns (taken: bool)
    requires radix > 1 && radix % 2 == 0 && 0 < n && r > 0 && cur.Length == other.Length == mm.Length == 2 * n
    requires cur != other && cur != mm && other != mm && Dividing(cur[..], mm[..], modulus, r, whole, radix)
    modifies other, mm
    ensures Dividing(if taken then other[..] else cur[..], mm[..], modulus, r - 1, whole, radix)
  {
    hide Val, Words, Pow;
    DivideStep(Val(cur[..], radix), modulus, r, whole);
    assert cur[..2 * n] == cur[..] && mm[..2 * n] == mm[..];
    ValBound(cur[..], radix);
    ValBound(mm[..], radix);
    ghost var d := Val(cur[..], radix) - Val(mm[..], radix);
    var borrow := Sub(other, cur, mm, 2 * n, radix);
    assert other[..2 * n] == other[..];
    ValBound(other[..], radix);
    HalveBoth(mm, n, radix);
    taken := borrow == 0;
    Borrowed(d, Val(other[..], radix), borrow, Pow(radix, 2 * n));
  }

  lemma Borrowed(d: int, v: nat, borrow: nat, p: nat)
    requires borrow <= 1 && v - borrow * p == d && v < p
    ensures borrow == 0 <==> d >= 0
    ensures borrow == 0 ==> v == d
  {
  }

  lemma StartDividing(v: seq<nat>, mm: seq<nat>, modulus: nat, shift: nat, radix: nat)
    requires radix > 0 && Words(v, radix) && Words(mm, radix) && |v| == |mm|
    requires Val(mm, radix) == modulus * Pow(2, shift) && modulus > 0
    requires Pow(radix, |v|) <= modulus * Pow(2, shift + 1)
    ensures Dividing(v, mm, modulus, shift + 1, Val(v, radix), radix)
  {
    hide Val, Pow, Words;
    ValBound(v, radix);
  }

  lemma EndDividing(v: seq<nat>, mm: seq<nat>, modulus: nat, whole: nat, radix: nat, n: nat)
    requires radix > 1 && n <= |v| && Dividing(v, mm, modulus, 0, whole, radix) && modulus < Pow(radix, n)
    ensures Words(v[..n], radix) && Val(v[..n], radix) == whole % modulus
  {
    hide Val, Words;
    PowStart(2);
    SplitVal(v, n, radix);
    Small(Val(v[..n], radix), Pow(radix, n), Val(v[n..], radix));
    ModSmall(Val(v, radix), modulus);
  }

  lemma Small(lo: nat, p: nat, hi: nat)
    requires lo + p * hi < p
    ensures hi == 0 && p * hi == 0
  {
    if hi > 0 {
      MulLe(1, hi, p);
    }
  }

  /** uECC_vli_mmod for a modulus whose top word is not zero. product is 2n words, and is
      used as a buffer. */
  method Reduce(result: array<nat>, product: array<nat>, mod: array<nat>, n: nat, wordBits: nat)
    requires wordBits > 0 && 0 < n <= mod.Length && n <= result.Length && product.Length == 2 * n && product != mod
    requires product != result
    requires Words(mod[..n], Pow(2, wordBits)) && Words(product[..], Pow(2, wordBits)) && mod[n - 1] != 0
    modifies result, product
    ensures old(Val(mod[..n], Pow(2, wordBits))) > 0 && Words(result[..n], Pow(2, wordBits))
    ensures Val(result[..n], Pow(2, wordBits))
            == old(Val(product[..], Pow(2, wordBits))) % old(Val(mod[..n], Pow(2, wordBits)))
  {
    hide Val, Words, Pow, Dividing;
    var radix := Pow(2, wordBits);
    BaseEven(wordBits);
    ghost var whole, modulus := Val(product[..], radix), Val(mod[..n], radix);
    ValBound(mod[..n], radix);
    var mm, tmp := new nat[2 * n], new nat[2 * n];
    var shift := Align(mm, mod, n, wordBits);
    StartDividing(product[..], mm[..], modulus, shift, radix);
    var cur, other := product, tmp;
    var r := shift + 1;
    while r > 0
      invariant 0 <= r && ((cur == product && other == tmp) || (cur == tmp && other == product))
      invariant Dividing(cur[..], mm[..], modulus, r, whole, radix)
    {
      var taken := Round(cur, other, mm, n, radix, modulus, r, whole);
      if taken {
        cur, other := other, cur;
      }
      r := r - 1;
    }
    EndDividing(cur[..], mm[..], modulus, whole, radix, n);
    assert cur[..][..n] == cur[..n];
    Set(result, cur, n);
  }

  lemma BaseEven(wordBits: nat)
    requires wordBits > 0
    ensures Pow(2, wordBits) > 1 && Pow(2, wordBits) % 2 == 0
  {
    PowPos(2, wordBits - 1);
  }

  /** uECC_vli_modMult: any left and right, not only ones below mod. */
  method ModMult(result: array<nat>, left: array<nat>, right: array<nat>, mod: array<nat>, n: nat, wordBits: nat)
    requires wordBits > 0 && 0 < n < Pow(2, wordBits) && n <= result.Length && n <= left.Length
    requires n <= right.Length && n <= mod.Length
    requires Words(left[..n], Pow(2, wordBits)) && Words(right[..n], Pow(2, wordBits))
    requires Words(mod[..n], Pow(2, wordBits)) && mod[n - 1] != 0
    modifies result
    ensures old(Val(mod[..n], Pow(2, wordBits))) > 0 && Words(result[..n], Pow(2, wordBits))
    ensures Val(result[..n], Pow(2, wordBits))
            == old(Val(left[..n], Pow(2, wordBits)) * Val(right[..n], Pow(2, wordBits)))
               % old(Val(mod[..n], Pow(2, wordBits)))
  {
    hide Val, Words, Pow;
    BaseEven(wordBits);
    var product := new nat[2 * n];
    Mult(product, left, right, n, Pow(2, wordBits));
    assert product[..2 * n] == product[..];
    Reduce(result, product, mod, n, wordBits);
  }
}
