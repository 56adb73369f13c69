/**
 uECC_vli_mult and uECC_vli_square: product scanning, column by column.
 */
module Product {
  import opened Arith
  import opened Vli
  import opened VliMult

  // ---------------------------------------------------------------- columns

  /** What word i of l and word c - i of r add to column c. */
  ghost function Term(l: seq<nat>, r: seq<nat>, c: int, i: int): nat {
    if 0 <= i < |l| && 0 <= c - i < |r| then l[i] * r[c - i] else 0
  }

  /** The first m terms of column c. */
  ghost function Col(l: seq<nat>, r: seq<nat>, c: int, m: nat): nat {
    if m == 0 then 0 else Col(l, r, c, m - 1) + Term(l, r, c, m - 1)
  }

  /** The first columns columns, each with its first m terms. */
  ghost function Cols(l: seq<nat>, r: seq<nat>, columns: nat, m: nat, radix: nat): nat {
    if columns == 0 then 0 else Cols(l, r, columns - 1, m, radix) + Col(l, r, columns - 1, m) * Pow(radix, columns - 1)
  }

  /** What word m of l adds to the first columns columns. */
  ghost function Row(l: seq<nat>, r: seq<nat>, columns: nat, m: nat, radix: nat): nat {
    if columns == 0 then 0 else Row(l, r, columns - 1, m, radix) + Term(l, r, columns - 1, m) * Pow(radix, columns - 1)
  }

  lemma {:induction false} ColsRow(l: seq<nat>, r: seq<nat>, columns: nat, m: nat, radix: nat)
    ensures Cols(l, r, columns, m + 1, radix) == Cols(l, r, columns, m, radix) + Row(l, r, columns, m, radix)
  {
    if columns > 0 {
      ColsRow(l, r, columns - 1, m, radix);
      MulDist(Col(l, r, columns - 1, m), Term(l, r, columns - 1, m), Pow(radix, columns - 1));
    }
  }

  lemma {:induction false} RowBefore(l: seq<nat>, r: seq<nat>, columns: nat, m: nat, radix: nat)
    requires columns <= m
    ensures Row(l, r, columns, m, radix) == 0
  {
    if columns > 0 {
      RowBefore(l, r, columns - 1, m, radix);
    }
  }

  lemma {:induction false} RowIs(l: seq<nat>, r: seq<nat>, k: nat, m: nat, radix: nat)
    requires m < |l| && k <= |r|
    ensures Row(l, r, m + k, m, radix) == l[m] * Pow(radix, m) * Val(r[..k], radix)
  {
    if k == 0 {
      RowBefore(l, r, m, m, radix);
    } else {
      RowIs(l, r, k - 1, m, radix);
      ValNext(r, k - 1, radix);
      PowAdd(radix, m, k - 1);
      RowStep(l[m], r[k - 1], Pow(radix, m), Pow(radix, k - 1), Val(r[..k - 1], radix));
    }
  }

  lemma RowStep(x: nat, y: nat, p: nat, q: nat, v: nat)
    ensures x * p * v + x * y * (p * q) == x * p * (v + y * q)
  {
    var z := x * p;
    MulAssoc(x, y, p * q);
    assert y * (p * q) == p * (y * q);
    MulAssoc(x, p, y * q);
  }

  lemma {:induction false} RowAfter(l: seq<nat>, r: seq<nat>, columns: nat, m: nat, radix: nat)
    requires m < |l| && m + |r| <= columns
    ensures Row(l, r, columns, m, radix) == l[m] * Pow(radix, m) * Val(r, radix)
  {
    if columns == m + |r| {
      assert r[..|r|] == r;
      RowIs(l, r, |r|, m, radix);
    } else {
      RowAfter(l, r, columns - 1, m, radix);
    }
  }

  lemma {:induction false} ColsNone(l: seq<nat>, r: seq<nat>, columns: nat, radix: nat)
    ensures Cols(l, r, columns, 0, radix) == 0
  {
    if columns > 0 {
      ColsNone(l, r, columns - 1, radix);
    }
  }

  /** All columns together are the product. */
  lemma {:induction false} ColsProduct(l: seq<nat>, r: seq<nat>, columns: nat, m: nat, radix: nat)
    requires m <= |l| && m + |r| <= columns + 1
    ensures Cols(l, r, columns, m, radix) == Val(l[..m], radix) * Val(r, radix)
  {
    if m == 0 {
      ColsNone(l, r, columns, radix);
    } else {
      ColsProduct(l, r, columns, m - 1, radix);
      ColsRow(l, r, columns, m - 1, radix);
      RowAfter(l, r, columns, m - 1, radix);
      ValNext(l, m - 1, radix);
      MulDist(Val(l[..m - 1], radix), l[m - 1] * Pow(radix, m - 1), Val(r, radix));
    }
  }

  /** Terms left of the first that counts are zero. */
  lemma {:induction false} ColFrom(l: seq<nat>, r: seq<nat>, c: nat, m: nat)
    requires m + |r| <= c + 1
    ensures Col(l, r, c, m) == 0
  {
    if m > 0 {
      ColFrom(l, r, c, m - 1);
    }
  }

  /** And so are terms past the column's number. */
  lemma {:induction false} ColTo(l: seq<nat>, r: seq<nat>, c: nat, m: nat)
    requires c + 1 <= m
    ensures Col(l, r, c, m) == Col(l, r, c, c + 1)
  {
    if m > c + 1 {
      ColTo(l, r, c, m - 1);
    }
  }

  // ---------------------------------------------------------------- one column

  /** Terms [from, to) of column k added to the accumulator. */
  method AddColumn(left: array<nat>, right: array<nat>, n: nat, k: nat, from: nat, to: nat, r0: nat, r1: nat,
                   radix: nat)
    returns (s0: nat, s1: nat, s2: nat)
    requires radix > 1 && n < radix && n <= left.Length && n <= right.Length && Words(left[..n], radix)
    requires Words(right[..n], radix)
    requires from <= to <= n && k < from + n && to <= k + 1 && r0 < radix && r1 < radix
    ensures s0 < radix && s1 < radix && s2 < radix
    ensures var l, r := left[..n], right[..n];
            Acc(s0, s1, s2, radix) == r0 + radix * r1 + Col(l, r, k, to) - Col(l, r, k, from)
  {
    hide Words, Acc, Term;
    ghost var l, r := left[..n], right[..n];
    s0, s1, s2 := r0, r1, 0;
    AccIs(s0, s1, s2, radix);
    var i := from;
    while i < to
      invariant from <= i <= to && s0 < radix && s1 < radix && s2 <= i - from
      invariant Acc(s0, s1, s2, radix) == r0 + radix * r1 + Col(l, r, k, i) - Col(l, r, k, from)
    {
      WordAt(l, i, radix);
      WordAt(r, k - i, radix);
      TermIs(l, r, k, i);
      s0, s1, s2 := MulAdd(left[i], right[k - i], s0, s1, s2, radix);
      i := i + 1;
    }
  }

  lemma TermIs(l: seq<nat>, r: seq<nat>, c: nat, i: nat)
    requires i < |l| && i <= c < i + |r|
    ensures Term(l, r, c, i) == l[i] * r[c - i]
  {
  }

  /** What two carried words add at weight p. */
  ghost function Carry(p: nat, r0: nat, r1: nat, radix: nat): nat { p * (r0 + radix * r1) }

  /** The words of the columns below k, and what they carry on. */
  ghost predicate Done(out: seq<nat>, r0: nat, r1: nat, l: seq<nat>, r: seq<nat>, k: nat, radix: nat) {
    && |out| == k && Words(out, radix) && r0 < radix && r1 < radix
    && Val(out, radix) + Carry(Pow(radix, k), r0, r1, radix) == Cols(l, r, k, |l|, radix)
  }

  lemma DoneNext(out: seq<nat>, r0: nat, r1: nat, l: seq<nat>, r: seq<nat>, k: nat, radix: nat, s0: nat, s1: nat,
                 s2: nat)
    requires Done(out, r0, r1, l, r, k, radix) && s0 < radix && s1 < radix && s2 < radix
    requires Acc(s0, s1, s2, radix) == r0 + radix * r1 + Col(l, r, k, |l|)
    ensures Done(out + [s0], s1, s2, l, r, k + 1, radix)
  {
    hide Val, Words, Col, Cols, Pow, Carry, Acc;
    ColsNext(l, r, k, |l|, radix);
    ValSnoc(out, s0, radix);
    WordsSnoc(out, s0, radix);
    ColumnShift(k, radix, r0, r1, Col(l, r, k, |l|), s0, s1, s2);
  }

  lemma ColsNext(l: seq<nat>, r: seq<nat>, k: nat, m: nat, radix: nat)
    ensures Cols(l, r, k + 1, m, radix) == Cols(l, r, k, m, radix) + Col(l, r, k, m) * Pow(radix, k)
  {
  }

  lemma ColumnShift(k: nat, radix: nat, r0: nat, r1: nat, col: nat, s0: nat, s1: nat, s2: nat)
    requires Acc(s0, s1, s2, radix) == r0 + radix * r1 + col
    ensures s0 * Pow(radix, k) + Carry(Pow(radix, k + 1), s1, s2, radix)
            == Carry(Pow(radix, k), r0, r1, radix) + col * Pow(radix, k)
  {
    PowNext(radix, k);
    WeighColumn(Pow(radix, k), radix, r0 + radix * r1, col, s0, s1 + radix * s2);
  }

  lemma WeighColumn(p: nat, radix: nat, a: nat, col: nat, s0: nat, s: nat)
    requires s0 + radix * s == a + col
    ensures s0 * p + (radix * p) * s == p * a + col * p
  {
    MulDist(s0, radix * s, p);
    MulDist(a, col, p);
    assert (radix * p) * s == (radix * s) * p;
  }

  lemma DoneNone(l: seq<nat>, r: seq<nat>, radix: nat)
    requires radix > 0
    ensures Done([], 0, 0, l, r, 0, radix)
  {
  }

  /** After the last column the carry is one word, the top word of the product. */
  lemma DoneAll(out: seq<nat>, r0: nat, r1: nat, l: seq<nat>, r: seq<nat>, n: nat, radix: nat)
    requires n > 0 && radix > 1 && |l| == |r| == n && Words(l, radix) && Words(r, radix)
    requires Done(out, r0, r1, l, r, 2 * n - 1, radix)
    ensures Words(out + [r0], radix) && Val(out + [r0], radix) == Val(l, radix) * Val(r, radix)
  {
    hide Val, Cols, Pow;
    assert l[..n] == l;
    ColsProduct(l, r, 2 * n - 1, n, radix);
    ValSnoc(out, r0, radix);
    ValBound(l, radix);
    ValBound(r, radix);
    PowAdd(radix, n, n);
    PowNext(radix, 2 * n - 1);
    TopCarry(Val(out, radix), Pow(radix, 2 * n - 1), radix, r0, r1, Val(l, radix), Val(r, radix), Pow(radix, n));
  }

  lemma TopCarry(v: nat, p: nat, radix: nat, r0: nat, r1: nat, x: nat, y: nat, q: nat)
    requires v + p * (r0 + radix * r1) == x * y && x < q && y < q && q * q == radix * p
    ensures r1 == 0 && v + r0 * p == x * y
  {
    assert x * y < q * q by {
      MulLe(x, q, y);
      MulLe(y + 1, q, q);
      MulDist(y, 1, q);
    }
    MulDist(r0, radix * r1, p);
    assert p * (radix * r1) == r1 * (radix * p);
    if r1 > 0 {
      MulLe(1, r1, radix * p);
    }
  }

  // ---------------------------------------------------------------- the product

  /** uECC_vli_mult; left and right may be the same array. */
  method Mult(result: array<nat>, left: array<nat>, right: array<nat>, n: nat, radix: nat)
    requires radix > 1 && 0 < n < radix && 2 * n <= result.Length && n <= left.Length && n <= right.Length
    requires result != left && result != right && Words(left[..n], radix) && Words(right[..n], radix)
    modifies result
    ensures Words(result[..2 * n], radix)
    ensures Val(result[..2 * n], radix) == Val(left[..n], radix) * Val(right[..n], radix)
  {
    hide Val, Words, Acc, Col, Done;
    ghost var l, r, out: seq<nat> := left[..n], right[..n], [];
    var r0, r1, r2 := 0, 0, 0;
    DoneNone(l, r, radix);
    var k := 0;
    while k < n
      invariant 0 <= k <= n && left[..n] == l && right[..n] == r && result[..k] == out
      invariant Done(out, r0, r1, l, r, k, radix)
    {
      DoneWords(out, r0, r1, l, r, k, radix);
      ColTo(l, r, k, n);
      ColZero(l, r, k);
      ghost var a0, a1 := r0, r1;
      r0, r1, r2 := AddColumn(left, right, n, k, 0, k + 1, r0, r1, radix);
      DoneNext(out, a0, a1, l, r, k, radix, r0, r1, r2);
      out := out + [r0];
      result[k] := r0;
      r0, r1, r2 := r1, r2, 0;
      k := k + 1;
    }
    while k < 2 * n - 1
      invariant n <= k <= 2 * n - 1 && left[..n] == l && right[..n] == r && result[..k] == out
      invariant Done(out, r0, r1, l, r, k, radix)
    {
      DoneWords(out, r0, r1, l, r, k, radix);
      ColFrom(l, r, k, k + 1 - n);
      ghost var a0, a1 := r0, r1;
      r0, r1, r2 := AddColumn(left, right, n, k, k + 1 - n, n, r0, r1, radix);
      DoneNext(out, a0, a1, l, r, k, radix, r0, r1, r2);
      out := out + [r0];
      result[k] := r0;
      r0, r1, r2 := r1, r2, 0;
      k := k + 1;
    }
    result[2 * n - 1] := r0;
    DoneAll(out, r0, r1, l, r, n, radix);
    assert result[..2 * n] == out + [r0];
  }

  lemma DoneWords(out: seq<nat>, r0: nat, r1: nat, l: seq<nat>, r: seq<nat>, k: nat, radix: nat)
    requires Done(out, r0, r1, l, r, k, radix)
    ensures r0 < radix && r1 < radix
  {
  }

  lemma ColZero(l: seq<nat>, r: seq<nat>, c: nat)
    ensures Col(l, r, c, 0) == 0
  {
  }

  // ---------------------------------------------------------------- the square

  lemma ColNext(l: seq<nat>, r: seq<nat>, c: nat, i: nat)
    ensures Col(l, r, c, i + 1) == Col(l, r, c, i) + Term(l, r, c, i)
  {
  }

  /** Terms i and c - i of a column of a square are the same. */
  lemma Mirror(l: seq<nat>, c: nat, i: nat)
    requires i <= c
    ensures Term(l, l, c, i) == Term(l, l, c, c - i)
  {
  }

  /** Column k of the square: pairs of equal terms are added twice at once. */
  method SquareColumn(left: array<nat>, n: nat, k: nat, min: nat, r0: nat, r1: nat, radix: nat)
    returns (s0: nat, s1: nat, s2: nat)
    requires radix > 1 && radix % 2 == 0 && n < radix && n <= left.Length && Words(left[..n], radix)
    requires k < 2 * n - 1 && min == (if k < n then 0 else k + 1 - n) && r0 < radix && r1 < radix
    ensures s0 < radix && s1 < radix && s2 < radix
    ensures var l := left[..n]; Acc(s0, s1, s2, radix) == r0 + radix * r1 + Col(l, l, k, n)
  {
    hide Words, Acc, Term, Col;
    ghost var l, top := left[..n], k - min + 1;
    if k < n {
      ColTo(l, l, k, n);
      ColZero(l, l, k);
    } else {
      ColFrom(l, l, k, min);
    }
    s0, s1, s2 := r0, r1, 0;
    AccIs(s0, s1, s2, radix);
    var i := min;
    while i <= k && i <= k - i
      invariant min <= i <= k + 1 && s0 < radix && s1 < radix && 2 * i <= k + 2
      invariant 2 * i <= k + 1 ==>
                  s2 <= 2 * (i - min) && Acc(s0, s1, s2, radix)
                  == r0 + radix * r1 + Col(l, l, k, i) + Col(l, l, k, top) - Col(l, l, k, k + 1 - i)
      invariant 2 * i > k + 1 ==> s2 < radix && Acc(s0, s1, s2, radix) == r0 + radix * r1 + Col(l, l, k, top)
      invariant s2 <= n
      decreases k + 1 - i
    {
      WordAt(l, i, radix);
      WordAt(l, k - i, radix);
      TermIs(l, l, k, i);
      ColNext(l, l, k, i);
      ColNext(l, l, k, k - i);
      Mirror(l, k, i);
      if i < k - i {
        s0, s1, s2 := Mul2Add(left[i], left[k - i], s0, s1, s2, radix);
      } else {
        s0, s1, s2 := MulAdd(left[i], left[k - i], s0, s1, s2, radix);
      }
      i := i + 1;
    }
  }

  /** uECC_vli_square. */
  method Square(result: array<nat>, left: array<nat>, n: nat, radix: nat)
    requires radix > 1 && radix % 2 == 0 && 0 < n < radix && 2 * n <= result.Length && n <= left.Length
    requires result != left && Words(left[..n], radix)
    modifies result
    ensures Words(result[..2 * n], radix)
    ensures Val(result[..2 * n], radix) == Val(left[..n], radix) * Val(left[..n], radix)
  {
    hide Val, Words, Acc, Col, Done;
    ghost var l, out: seq<nat> := left[..n], [];
    var r0, r1, r2 := 0, 0, 0;
    DoneNone(l, l, radix);
    var k := 0;
    while k < 2 * n - 1
      invariant 0 <= k <= 2 * n - 1 && left[..n] == l && result[..k] == out && Done(out, r0, r1, l, l, k, radix)
    {
      DoneWords(out, r0, r1, l, l, k, radix);
      ghost var a0, a1 := r0, r1;
      var min := if k < n then 0 else k + 1 - n;
      r0, r1, r2 := SquareColumn(left, n, k, min, r0, r1, radix);
      DoneNext(out, a0, a1, l, l, k, radix, r0, r1, r2);
      out := out + [r0];
      result[k] := r0;
      r0, r1, r2 := r1, r2, 0;
      k := k + 1;
    }
    result[2 * n - 1] := r0;
    DoneAll(out, r0, r1, l, l, n, radix);
    assert result[..2 * n] == out + [r0];
  }

  /** A number has one representation in n words, so that the square and the product of a
      number with itself are the same words. */
  lemma {:induction false} ValUnique(a: seq<nat>, b: seq<nat>, radix: nat)
    requires radix > 1 && Words(a, radix) && Words(b, radix) && |a| == |b| && Val(a, radix) == Val(b, radix)
    ensures a == b
  {
    if |a| > 0 {
      ValCons(a, radix);
      ValCons(b, radix);
      LowWord(a[0], Val(a[1..], radix), b[0], Val(b[1..], radix), radix);
      ValUnique(a[1..], b[1..], radix);
      assert a == [a[0]] + a[1..] && b == [b[0]] + b[1..];
    }
  }

  /** uECC_vli_square and uECC_vli_mult of a number by itself leave the same words. */
  method SameSquare(left: array<nat>, n: nat, radix: nat) returns (square: array<nat>, product: array<nat>)
    requires radix > 1 && radix % 2 == 0 && 0 < n < radix && n <= left.Length && Words(left[..n], radix)
    ensures square[..] == product[..] && square.Length == 2 * n
    ensures Val(square[..], radix) == Val(left[..n], radix) * Val(left[..n], radix)
  {
    hide Val, Words;
    square, product := new nat[2 * n], new nat[2 * n];
    Square(square, left, n, radix);
    Mult(product, left, left, n, radix);
    assert square[..] == square[..2 * n] && product[..] == product[..2 * n];
    ValUnique(square[..], product[..], radix);
  }
}
