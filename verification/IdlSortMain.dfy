/**
 The driver of mdb_midl_sort: which parts of the list are still to be sorted, why
 the rest is in its final order, and why the stack never overflows.
 */
module IdlSortMain {
  import opened Arith
  import opened Idl
  import opened IdlSort
  import opened IdlSortLimit

  /** Positions l..ir, still to be sorted. */
  datatype Seg = Seg(l: nat, ir: int)

  function Size(g: Seg): int { g.ir - g.l + 1 }

  /** lo maps each position to the start of the pending segment it lies in, or to
      itself. The last pending segment is the current one, the others are stacked. */
  ghost predicate Pending(pend: seq<Seg>, lo: seq<nat>, base: nat, n: nat) {
    && |lo| > base + n
    && (forall d :: 0 <= d < |pend| ==> base < pend[d].l <= pend[d].ir <= base + n)
    && (forall d, p :: 0 <= d < |pend| && base < p <= base + n ==>
          (lo[p] == pend[d].l <==> pend[d].l <= p <= pend[d].ir))
    && (forall d, e :: 0 <= d < e < |pend| ==> pend[d].l != pend[e].l)
    && (forall p :: base < p <= base + n ==> lo[p] == p || IsStart(pend, lo[p]))
  }

  ghost predicate IsStart(pend: seq<Seg>, l: nat) {
    exists d :: 0 <= d < |pend| && pend[d].l == l
  }

  /** Ids in different segments are already in order. */
  ghost predicate Ordered(s: seq<ID>, lo: seq<nat>, base: nat, n: nat) {
    && |lo| == |s| > base + n
    && (forall p, q :: base < p < q <= base + n && lo[p] != lo[q] ==> s[p] >= s[q])
  }

  ghost function Finish(lo: seq<nat>, g: Seg): (r: seq<nat>)
    ensures |r| == |lo|
    ensures forall p :: 0 <= p < |lo| ==> r[p] == if g.l <= p <= g.ir then p else lo[p]
  {
    seq(|lo|, p requires 0 <= p < |lo| => if g.l <= p <= g.ir then p else lo[p])
  }

  ghost function Split(lo: seq<nat>, j: nat, i: nat, ir: int): (r: seq<nat>)
    ensures |r| == |lo|
    ensures forall p :: 0 <= p < |lo| ==> r[p] == if j <= p < i then p else if i <= p <= ir then i else lo[p]
  {
    seq(|lo|, p requires 0 <= p < |lo| => if j <= p < i then p else if i <= p <= ir then i else lo[p])
  }

  /** What is left of a segment's start lies before everything in it. */
  lemma SegDominated(ids: array<ID>, pend: seq<Seg>, lo: seq<nat>, base: nat, n: nat)
    requires pend != [] && Pending(pend, lo, base, n) && Ordered(ids[..], lo, base, n)
    ensures var g := pend[|pend|-1]; Dominated(ids, base + 1, g.l, g.ir + 1)
  {
    var g := pend[|pend|-1];
    forall p, q | base + 1 <= p < g.l <= q < g.ir + 1
      ensures ids[p] >= ids[q]
    {
      assert lo[q] == g.l && lo[p] != g.l;
      assert ids[..][p] >= ids[..][q];
    }
  }

  lemma FinishPending(pend: seq<Seg>, lo: seq<nat>, base: nat, n: nat)
    requires pend != [] && Pending(pend, lo, base, n)
    ensures Pending(pend[..|pend|-1], Finish(lo, pend[|pend|-1]), base, n)
  {
    var k := |pend| - 1;
    var g, rest := pend[k], pend[..k];
    var lo' := Finish(lo, g);
    forall p | base < p <= base + n
      ensures lo'[p] == p || IsStart(rest, lo'[p])
    {
      if !(g.l <= p <= g.ir) && lo[p] != p {
        var d :| 0 <= d < |pend| && pend[d].l == lo[p];
        assert d < k && rest[d].l == lo[p];
      }
    }
    forall d, p | 0 <= d < |rest| && base < p <= base + n
      ensures lo'[p] == rest[d].l <==> rest[d].l <= p <= rest[d].ir
    {
      assert rest[d] == pend[d] && pend[d].l != g.l;
      if g.l <= p <= g.ir {
        assert lo[p] == g.l && lo[pend[d].l] == pend[d].l;
      }
    }
  }

  /** Positions of a finished segment are in order with all others. */
  lemma FinishOrdered(s: seq<ID>, t: seq<ID>, pend: seq<Seg>, lo: seq<nat>, base: nat, n: nat)
    requires pend != [] && Pending(pend, lo, base, n) && Ordered(s, lo, base, n)
    requires var g := pend[|pend|-1];
             Rearranged(s, t, g.l, g.ir + 1) && forall p, q :: g.l <= p < q <= g.ir ==> t[p] >= t[q]
    ensures Ordered(t, Finish(lo, pend[|pend|-1]), base, n)
  {
    var g := pend[|pend|-1];
    forall p, q | base < p < q <= base + n && lo[p] != lo[q]
      ensures t[p] >= t[q]
    {
      RearrangedOrdered(s, t, g, lo, base, n, p, q);
    }
  }

  /** Order between different segments survives a rearrangement inside one. */
  lemma RearrangedOrdered(s: seq<ID>, t: seq<ID>, g: Seg, lo: seq<nat>, base: nat, n: nat, p: nat, q: nat)
    requires Ordered(s, lo, base, n) && base < g.l <= g.ir <= base + n && Rearranged(s, t, g.l, g.ir + 1)
    requires forall k :: base < k <= base + n ==> (lo[k] == g.l <==> g.l <= k <= g.ir)
    requires base < p < q <= base + n && lo[p] != lo[q]
    ensures t[p] >= t[q]
  {
    if g.l <= p <= g.ir {
      var k := RearrangedMember(s, t, g.l, g.ir + 1, p);
      assert lo[k] == lo[p] == g.l;
    } else if g.l <= q <= g.ir {
      var k := RearrangedMember(s, t, g.l, g.ir + 1, q);
      assert lo[k] == lo[q] == g.l;
    }
  }

  /** Splitting the current segment in two; which half goes on the stack does not
      matter here. */
  ghost predicate CanSplit(pend: seq<Seg>, lo: seq<nat>, base: nat, n: nat, j: nat, i: nat, a: Seg, b: Seg) {
    && pend != [] && Pending(pend, lo, base, n)
    && var g := pend[|pend|-1];
    g.l + 1 <= j < i <= g.ir
      && ((a == Seg(g.l, j - 1) && b == Seg(i, g.ir)) || (a == Seg(i, g.ir) && b == Seg(g.l, j - 1)))
  }

  lemma SplitCover(pend: seq<Seg>, lo: seq<nat>, base: nat, n: nat, j: nat, i: nat, a: Seg, b: Seg, p: nat)
    requires CanSplit(pend, lo, base, n, j, i, a, b) && base < p <= base + n
    ensures var pend', lo' := pend[..|pend|-1] + [a, b], Split(lo, j, i, pend[|pend|-1].ir);
            lo'[p] == p || IsStart(pend', lo'[p])
  {
    var k := |pend| - 1;
    var g, pend' := pend[k], pend[..k] + [a, b];
    assert pend'[k] == a && pend'[k + 1] == b;
    if g.l <= p <= g.ir {
      assert IsStart(pend', g.l) && IsStart(pend', i);
    } else if lo[p] != p {
      var d :| 0 <= d < |pend| && pend[d].l == lo[p];
      assert d < k && pend'[d].l == lo[p];
    }
  }

  lemma SplitPending(pend: seq<Seg>, lo: seq<nat>, base: nat, n: nat, j: nat, i: nat, a: Seg, b: Seg)
    requires CanSplit(pend, lo, base, n, j, i, a, b)
    ensures Pending(pend[..|pend|-1] + [a, b], Split(lo, j, i, pend[|pend|-1].ir), base, n)
  {
    hide IsStart;
    var k := |pend| - 1;
    var g, pend' := pend[k], pend[..k] + [a, b];
    forall p | base < p <= base + n
      ensures var lo' := Split(lo, j, i, g.ir); lo'[p] == p || IsStart(pend', lo'[p])
    {
      SplitCover(pend, lo, base, n, j, i, a, b, p);
    }
    forall d, p | 0 <= d < |pend'| && base < p <= base + n
      ensures Split(lo, j, i, g.ir)[p] == pend'[d].l <==> pend'[d].l <= p <= pend'[d].ir
    {
      SplitStarts(pend, lo, base, n, j, i, p, if d < k then d else k);
    }
    forall d | 0 <= d < k
      ensures pend'[d].l != g.l && pend'[d].l != i
    {
      assert pend'[d] == pend[d] && lo[pend[d].l] == pend[d].l && lo[i] == g.l;
    }
  }

  lemma SplitStarts(pend: seq<Seg>, lo: seq<nat>, base: nat, n: nat, j: nat, i: nat, p: nat, d: nat)
    requires pend != [] && Pending(pend, lo, base, n) && d < |pend| && base < p <= base + n
    requires var g := pend[|pend|-1]; g.l + 1 <= j < i <= g.ir
    ensures var g, r := pend[|pend|-1], Split(lo, j, i, pend[|pend|-1].ir)[p];
            && (d < |pend| - 1 ==> (r == pend[d].l <==> pend[d].l <= p <= pend[d].ir))
            && (r == g.l <==> g.l <= p < j)
            && (r == i <==> i <= p <= g.ir)
  {
    var g := pend[|pend|-1];
    assert lo[pend[d].l] == pend[d].l && lo[g.l] == g.l && lo[i] == g.l;
  }

  /** After the partition, the two halves and what lies between are in order. */
  lemma SplitOrdered(s: seq<ID>, t: seq<ID>, pend: seq<Seg>, lo: seq<nat>, base: nat, n: nat, j: nat, i: nat, v: ID)
    requires pend != [] && Pending(pend, lo, base, n) && Ordered(s, lo, base, n)
    requires var g := pend[|pend|-1];
             && g.l + 1 <= j < i <= g.ir && Rearranged(s, t, g.l, g.ir + 1)
             && (forall p :: g.l <= p < i ==> t[p] >= v) && (forall p :: j <= p <= g.ir ==> t[p] <= v)
    ensures Ordered(t, Split(lo, j, i, pend[|pend|-1].ir), base, n)
  {
    var g := pend[|pend|-1];
    forall p, q | base < p < q <= base + n && lo[p] != lo[q]
      ensures t[p] >= t[q]
    {
      RearrangedOrdered(s, t, g, lo, base, n, p, q);
    }
    forall p, q | base < p < q <= base + n && Split(lo, j, i, g.ir)[p] != Split(lo, j, i, g.ir)[q]
      ensures t[p] >= t[q]
    {
      if lo[p] == lo[q] {
        SplitInside(pend, lo, base, n, p, q);
      }
    }
  }

  /** Two positions with the same mark lie in the same segment. */
  lemma SplitInside(pend: seq<Seg>, lo: seq<nat>, base: nat, n: nat, p: nat, q: nat)
    requires pend != [] && Pending(pend, lo, base, n) && base < p < q <= base + n && lo[p] == lo[q]
    ensures var g := pend[|pend|-1]; (g.l <= p <= g.ir) <==> (g.l <= q <= g.ir)
  {
  }

  // ---------------------------------------------------------------- the stack

  ghost function Pow2(d: nat): nat { if d == 0 then 1 else 2 * Pow2(d - 1) }

  /** A segment stacked d deep is at most a 2^d-th of the list. */
  ghost predicate Depth(pend: seq<Seg>, n: nat) {
    forall d :: 0 <= d < |pend| ==> Size(pend[d]) * Pow2(d) <= n
  }

  lemma SplitDepth(pend: seq<Seg>, n: nat, a: Seg, b: Seg)
    requires pend != [] && Depth(pend, n)
    requires 0 <= Size(b) <= Size(a) && Size(a) + Size(b) < Size(pend[|pend|-1])
    ensures Depth(pend[..|pend|-1] + [a, b], n)
  {
    var k, x := |pend| - 1, Pow2(|pend| - 1);
    assert Size(pend[k]) * x <= n;
    assert Pow2(k + 1) == 2 * x;
    SplitSizes(Size(pend[k]), Size(a), Size(b), x);
    hide Pow2, Size;
    var both := pend[..k] + [a, b];
    forall d | 0 <= d < |both|
      ensures Size(both[d]) * Pow2(d) <= n
    {
      assert d < k ==> both[d] == pend[d];
    }
  }

  lemma SplitSizes(g: int, a: int, b: int, x: nat)
    requires 0 <= b <= a && a + b < g
    ensures a * x <= g * x && b * (2 * x) <= g * x
  {
    MulLe(a, g, x);
    MulLe(2 * b, g, x);
    MulAssoc(b, 2, x);
  }

  lemma {:induction false} Pow2Grows(c: nat, d: nat)
    requires c <= d
    ensures Pow2(c) <= Pow2(d)
    decreases d
  {
    if c < d {
      Pow2Grows(c, d - 1);
    }
  }

  /** A list whose length fits an int never splits more than 28 levels deep, so the
      stack of 64 ints has room for every pair pushed. */
  lemma StackFits(pend: seq<Seg>, n: nat)
    requires pend != [] && Depth(pend, n) && n < 0x8000_0000
    requires Size(pend[|pend|-1]) > SMALL
    ensures 2 * |pend| < STACK_INTS
  {
    var k := |pend| - 1;
    MulLe(9, Size(pend[k]), Pow2(k));
    if k >= 28 {
      hide Pow2;
      Pow2Grows(28, k);
      Pow2Values();
    }
  }

  lemma Pow2Values()
    ensures Pow2(28) == 0x1000_0000
  {
    assert Pow2(7) == 128;
    assert Pow2(14) == 128 * 128;
    assert Pow2(21) == 128 * 128 * 128;
    assert Pow2(28) == 128 * 128 * 128 * 128;
  }

  // ---------------------------------------------------------------- the loop

  /** ids is s0 rearranged, in order except inside the pending segments. */
  ghost predicate Sorting(ids: array<ID>, s0: seq<ID>, pend: seq<Seg>, lo: seq<nat>, base: nat, n: nat)
    reads ids
  {
    && base + n < ids.Length == |s0|
    && Rearranged(s0, ids[..], base + 1, base + n + 1)
    && Pending(pend, lo, base, n) && Ordered(ids[..], lo, base, n) && Depth(pend, n)
  }

  lemma StillRearranged(s0: seq<ID>, s: seq<ID>, t: seq<ID>, base: nat, n: nat, g: Seg)
    requires base + n < |s0| && base < g.l <= g.ir <= base + n
    requires Rearranged(s0, s, base + 1, base + n + 1) && Rearranged(s, t, g.l, g.ir + 1)
    ensures Rearranged(s0, t, base + 1, base + n + 1)
  {
    RearrangedWider(s, t, g.l, g.ir + 1, base + 1, base + n + 1);
    RearrangedTwice(s0, s, t, base + 1, base + n + 1);
  }

  /** The current segment is l..ir; an empty list has none. */
  ghost predicate Current(pend: seq<Seg>, l: nat, ir: int, base: nat, n: nat) {
    if n == 0 then pend == [] && l == base + 1 && ir == base else pend != [] && pend[|pend|-1] == Seg(l, ir)
  }

  ghost function Rest(pend: seq<Seg>): seq<Seg> { if pend == [] then [] else pend[..|pend|-1] }

  /** A small segment is sorted by insertion and is then done. */
  method FinishCurrent(ids: array<ID>, base: nat, l: nat, ir: int,
                       ghost s0: seq<ID>, ghost pend: seq<Seg>, ghost lo: seq<nat>, ghost n: nat)
    requires Current(pend, l, ir, base, n) && Sorting(ids, s0, pend, lo, base, n)
    modifies ids
    ensures Sorting(ids, s0, Rest(pend), Finish(lo, Seg(l, ir)), base, n)
  {
    hide Rearranged, Pending, Ordered, Dominated, SortedRange, Depth;
    ghost var s := ids[..];
    if n == 0 {
      FinishEmpty(ids, s0, lo, base, l, ir);
    } else {
      SegInside(pend, lo, base, n);
      SegDominated(ids, pend, lo, base, n);
    }
    InsertionSort(ids, base, l, ir);
    if n == 0 {
      RearrangedNothing(s, ids[..], l, ir + 1);
    } else {
      StillRearranged(s0, s, ids[..], base, n, Seg(l, ir));
      FinishPending(pend, lo, base, n);
      SortedMeans(ids, l, ir + 1);
      FinishOrdered(s, ids[..], pend, lo, base, n);
      RestDepth(pend, n);
    }
  }

  lemma SortedMeans(ids: array<ID>, lo: nat, hi: nat)
    requires hi <= ids.Length && SortedRange(ids, lo, hi)
    ensures forall p, q :: lo <= p < q < hi ==> ids[..][p] >= ids[..][q]
  {
  }

  lemma RestDepth(pend: seq<Seg>, n: nat)
    requires pend != [] && Depth(pend, n)
    ensures Depth(pend[..|pend|-1], n)
  {
    hide Pow2;
  }

  lemma FinishEmpty(ids: array<ID>, s0: seq<ID>, lo: seq<nat>, base: nat, l: nat, ir: int)
    requires Sorting(ids, s0, [], lo, base, 0) && l == base + 1 && ir == base
    ensures Sorting(ids, s0, [], Finish(lo, Seg(l, ir)), base, 0) && Dominated(ids, base + 1, l, ir + 1)
  {
  }

  lemma RearrangedNothing(s: seq<ID>, t: seq<ID>, lo: nat, hi: nat)
    requires Rearranged(s, t, lo, hi) && lo == hi
    ensures s == t
  {
  }

  lemma SegInside(pend: seq<Seg>, lo: seq<nat>, base: nat, n: nat)
    requires pend != [] && Pending(pend, lo, base, n)
    ensures base < pend[|pend|-1].l <= pend[|pend|-1].ir <= base + n
  {
  }

  /** The partition of a segment; of a list that is late, as a whole, it splits off the
      last nine ids. */
  method PartitionSeg(ids: array<ID>, base: nat, l: nat, ir: nat, ghost n: nat) returns (i: nat, j: nat, ghost v: ID)
    requires l + SMALL <= ir < ids.Length
    modifies ids
    ensures l + 1 <= j < i <= ir
    ensures forall p :: l <= p < i ==> ids[p] >= v
    ensures forall p :: j <= p <= ir ==> ids[p] <= v
    ensures Rearranged(old(ids[..]), ids[..], l, ir + 1)
    ensures old(IsLate(ids[..], base, n)) && l == base + 1 && ir == base + n ==> i == base + n - 8 && j == base + n - 9
  {
    hide Rearranged, Permutes, IsLate, Middle;
    ghost var s := ids[..];
    i, j, v := Partition(ids, l, ir);
    PermutesMeans(ids, s, l, ir + 1);
    if IsLate(s, base, n) && l == base + 1 && ir == base + n {
      LateMiddle(s, base, n);
      LateSplits(s, ids[..], base, n, i, j);
    }
  }

  /** A large segment is split; `a` is the half to stack, the larger one. */
  method SplitCurrent(ids: array<ID>, base: nat, l: nat, ir: int,
                      ghost s0: seq<ID>, ghost pend: seq<Seg>, ghost lo: seq<nat>, ghost n: nat)
    returns (a: Seg, b: Seg, ghost lo': seq<nat>)
    requires pend != [] && pend[|pend|-1] == Seg(l, ir) && Sorting(ids, s0, pend, lo, base, n) && ir - l >= SMALL
    modifies ids
    ensures Size(b) <= Size(a) && 0 <= Size(b) && Size(a) + Size(b) < Size(Seg(l, ir))
    ensures Sorting(ids, s0, pend[..|pend|-1] + [a, b], lo', base, n)
    ensures old(IsLate(ids[..], base, n)) && l == base + 1 && ir == base + n ==> b == Seg(base + n - 8, base + n)
  {
    hide Rearranged, Pending, Ordered, IsLate;
    ghost var s := ids[..];
    SegInside(pend, lo, base, n);
    var i, j;
    ghost var v;
    i, j, v := PartitionSeg(ids, base, l, ir, n);
    LateLong(s, base, n);
    if ir - i + 1 >= j - l {
      a, b := Seg(i, ir), Seg(l, j - 1);
    } else {
      a, b := Seg(l, j - 1), Seg(i, ir);
    }
    lo' := Split(lo, j, i, ir);
    StillRearranged(s0, s, ids[..], base, n, Seg(l, ir));
    SplitPending(pend, lo, base, n, j, i, a, b);
    SplitOrdered(s, ids[..], pend, lo, base, n, j, i, v);
    SplitDepth(pend, n, a, b);
  }

  lemma PermutesMeans(ids: array<ID>, s: seq<ID>, lo: nat, hi: nat)
    requires Permutes(ids, s, lo, hi)
    ensures Rearranged(s, ids[..], lo, hi)
  {
  }

  /** Twice the ids still to be sorted, plus one for each segment. */
  ghost function Work(pend: seq<Seg>): nat {
    if pend == [] then 0
    else
      var g := pend[|pend|-1];
      Work(pend[..|pend|-1]) + (if Size(g) > 0 then 2 * Size(g) else 0) + 1
  }

  lemma WorkSplits(rest: seq<Seg>, a: Seg, b: Seg)
    requires Size(a) >= 0 && Size(b) >= 0
    ensures Work(rest + [a, b]) == Work(rest) + 2 * Size(a) + 2 * Size(b) + 2
  {
    var p := rest + [a, b];
    assert p[..|p|-1] == rest + [a] && (rest + [a])[..|rest|] == rest;
  }

  ghost predicate Entry(istack: array<int>, d: nat, g: Seg)
    reads istack
  {
    2 * d + 2 < istack.Length && istack[2 * d + 1] == g.l && istack[2 * d + 2] == g.ir
  }

  /** istack[1..jstack] holds every pending segment but the last. */
  ghost predicate Stacked(istack: array<int>, jstack: int, pend: seq<Seg>)
    reads istack
  {
    && istack.Length == STACK_INTS && 0 <= jstack == 2 * (|pend| - 1) < STACK_INTS
    && (forall d :: 0 <= d < |pend| - 1 ==> Entry(istack, d, pend[d]))
  }

  method Push(istack: array<int>, jstack: int, a: Seg, ghost b: Seg, ghost pend: seq<Seg>) returns (j: int)
    requires Stacked(istack, jstack, pend) && 2 * |pend| < STACK_INTS
    modifies istack
    ensures Stacked(istack, j, pend[..|pend|-1] + [a, b])
  {
    j := jstack + 2;
    istack[j] := a.ir;
    istack[j - 1] := a.l;
    ghost var p := pend[..|pend|-1] + [a, b];
    forall d | 0 <= d < |p| - 1
      ensures Entry(istack, d, p[d])
    {
      assert d < |pend| - 1 ==> old(Entry(istack, d, pend[d]));
    }
  }

  method Pop(istack: array<int>, jstack: int, ghost pend: seq<Seg>) returns (l: nat, ir: int, j: int)
    requires Stacked(istack, jstack, pend) && jstack > 0
    ensures Stacked(istack, j, pend[..|pend|-1]) && Seg(l, ir) == pend[|pend|-2]
  {
    assert Entry(istack, |pend| - 2, pend[|pend| - 2]);
    j := jstack;
    ir := istack[j];
    j := j - 1;
    l := istack[j];
    j := j - 1;
  }

  /** mdb_midl_sort, for the list that starts at `base`. It leaves a descending
      permutation of the ids and touches nothing else, all array and stack accesses
      being in bounds, unless it meets a segment whose midpoint cannot be computed in an
      int: then it gives up here, where the C addition overflows. That depends on the
      ids, but no list of at most SORTABLE ids has such a segment, and of every greater
      length there is a list that has. */
  method Sort(ids: array<ID>, base: nat) returns (ok: bool)
    requires base < ids.Length && base + ids[base] < ids.Length && ids[base] <= INT_MAX
    modifies ids
    ensures ok ==> SortedRange(ids, base + 1, base + 1 + old(ids[base]))
    ensures Rearranged(old(ids[..]), ids[..], base + 1, base + 1 + old(ids[base]))
    ensures old(ids[base]) <= SORTABLE ==> ok
    ensures old(IsLate(ids[..], base, ids[base])) ==> !ok
    ensures old(ids[base]) == INT_MAX ==> !ok
  {
    hide Pending, Ordered, Depth, Rearranged, IsLate;
    var istack := new int[STACK_INTS];
    ghost var n, s0 := ids[base], ids[..];
    var ir, jstack := base + ids[base], 0;
    var l: nat := base + 1;
    ghost var pend, lo := StartState(ids, base);
    ghost var rounds := 0;
    while true
      invariant fresh(istack) && base + n < ids.Length
      invariant Current(pend, l, ir, base, n)
      invariant if n == 0 then jstack == 0 else Stacked(istack, jstack, pend)
      invariant Sorting(ids, s0, pend, lo, base, n)
      invariant rounds >= 0 && (rounds == 0 ==> ids[..] == s0 && l == base + 1 && ir == base + n)
      invariant IsLate(s0, base, n) && rounds > 0 ==> rounds == 1 && l == base + n - 8 && ir == base + n
      invariant n == INT_MAX ==> rounds == 0
      decreases Work(pend)
    {
      LateLong(s0, base, n);
      if ir - l < SMALL {
        FinishCurrent(ids, base, l, ir, s0, pend, lo, n);
        ghost var before := pend;
        pend, lo := Rest(pend), Finish(lo, Seg(l, ir));
        if jstack == 0 {
          break;
        }
        l, ir, jstack := Pop(istack, jstack, before);
      } else {
        SegFits(ids, s0, pend, lo, base, n);
        if !SumFits(l - base, ir - base) {
          return false;
        }
        StackFits(pend, n);
        var a, b;
        ghost var rest := pend[..|pend|-1];
        a, b, lo := SplitCurrent(ids, base, l, ir, s0, pend, lo, n);
        WorkSplits(rest, a, b);
        jstack := Push(istack, jstack, a, b, pend);
        pend := rest + [a, b];
        l, ir := b.l, b.ir;
      }
      rounds := rounds + 1;
    }
    EndState(ids, s0, lo, base, n);
    ok := true;
  }

  lemma LateLong(s: seq<ID>, base: nat, n: nat)
    ensures IsLate(s, base, n) ==> n > SORTABLE
  {
  }

  /** In a list of at most SORTABLE ids every midpoint can be computed; a permutation of
      the list is all there is so far. */
  lemma SegFits(ids: array<ID>, s0: seq<ID>, pend: seq<Seg>, lo: seq<nat>, base: nat, n: nat)
    requires pend != [] && Sorting(ids, s0, pend, lo, base, n)
    ensures Rearranged(s0, ids[..], base + 1, base + 1 + n)
    ensures var g := pend[|pend|-1];
            n <= SORTABLE && g.ir - g.l >= SMALL ==> SumFits(g.l - base, g.ir - base)
  {
    hide Ordered, Rearranged;
    SegInside(pend, lo, base, n);
  }

  lemma StartState(ids: array<ID>, base: nat) returns (pend: seq<Seg>, lo: seq<nat>)
    requires base < ids.Length && base + ids[base] < ids.Length
    ensures pend == if ids[base] == 0 then [] else [Seg(base + 1, base + ids[base])]
    ensures Sorting(ids, ids[..], pend, lo, base, ids[base])
  {
    pend := if ids[base] == 0 then [] else [Seg(base + 1, base + ids[base])];
    lo := seq(ids.Length, p => base + 1);
    assert ids[base] > 0 ==> pend[0].l == base + 1 && IsStart(pend, base + 1);
  }

  lemma EndState(ids: array<ID>, s0: seq<ID>, lo: seq<nat>, base: nat, n: nat)
    requires Sorting(ids, s0, [], lo, base, n)
    ensures SortedRange(ids, base + 1, base + 1 + n) && Rearranged(s0, ids[..], base + 1, base + 1 + n)
  {
    forall p, q | base + 1 <= p < q < base + 1 + n
      ensures ids[p] >= ids[q]
    {
      assert !IsStart([], lo[p]) && !IsStart([], lo[q]);
      assert ids[..][p] >= ids[..][q];
    }
  }
}
