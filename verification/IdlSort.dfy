/**
 mdb_midl_sort: quicksort with an explicit stack of 64 ints, unguarded scans that
 rely on a median-of-three as sentinels, and an insertion sort that relies on the
 ids to the left of its partition.
 */
module IdlSort {
  import opened Idl

  const SMALL := 8
  const STACK_INTS := 64   // sizeof(int)*CHAR_BIT * 2

  /** Positions lo..hi-1 are in descending order. */
  ghost predicate SortedRange(ids: array<ID>, lo: nat, hi: nat)
    requires hi <= ids.Length
    reads ids
  {
    forall p, q :: lo <= p < q < hi ==> ids[p] >= ids[q]
  }

  /** Every id in [a, lo) is at least as large as every id in [lo, hi). */
  ghost predicate Dominated(ids: array<ID>, a: nat, lo: nat, hi: nat)
    requires hi <= ids.Length
    reads ids
  {
    forall p, q :: a <= p < lo <= q < hi ==> ids[p] >= ids[q]
  }

  /** t is s with the id at j moved down to k and those from k on moved up. */
  ghost predicate Moved(s: seq<ID>, t: seq<ID>, k: nat, j: nat) {
    && |s| == |t| && k <= j < |s|
    && t[k] == s[j]
    && (forall p :: k < p <= j ==> t[p] == s[p - 1])
    && (forall p :: 0 <= p < |s| && !(k <= p <= j) ==> t[p] == s[p])
  }

  lemma MovedPerm(s: seq<ID>, t: seq<ID>, l: nat, k: nat, j: nat)
    requires Moved(s, t, k, j) && l <= k
    ensures Rearranged(s, t, l, j + 1)
  {
    var x, y := s[l..k], s[k..j];
    assert t[l..j + 1] == x + [s[j]] + y;
    assert s[l..j + 1] == x + y + [s[j]];
  }

  /** The inner loop of the insertion sort: ids smaller than ids[j] move up. The
      scan is bounded by the start of the list, not by l; it stops at l-1 because of
      what is there. */
  method ShiftSmaller(ids: array<ID>, base: nat, l: nat, j: nat) returns (k: nat)
    requires base < l <= j < ids.Length && Dominated(ids, base + 1, l, j + 1)
    modifies ids
    ensures l <= k <= j && (k > l ==> ids[k - 1] >= old(ids[j]))
    ensures forall p :: k < p <= j ==> ids[p] == old(ids[p - 1]) < old(ids[j])
    ensures forall p :: 0 <= p < ids.Length && !(k < p <= j) ==> ids[p] == old(ids[p])
  {
    var a := ids[j];
    var i := j - 1;
    while i >= base + 1 && ids[i] < a
      invariant l - 1 <= i < j
      invariant forall p :: i + 1 < p <= j ==> ids[p] == old(ids[p - 1]) < a
      invariant forall p :: 0 <= p < ids.Length && !(i + 1 < p <= j) ==> ids[p] == old(ids[p])
    {
      ids[i + 1] := ids[i];
      i := i - 1;
    }
    k := i + 1;
  }

  method InsertOne(ids: array<ID>, base: nat, l: nat, j: nat)
    requires base < l <= j < ids.Length
    requires SortedRange(ids, l, j) && Dominated(ids, base + 1, l, j + 1)
    modifies ids
    ensures SortedRange(ids, l, j + 1) && Rearranged(old(ids[..]), ids[..], l, j + 1)
  {
    hide Rearranged;
    var a := ids[j];
    var k := ShiftSmaller(ids, base, l, j);
    ids[k] := a;
    assert Moved(old(ids[..]), ids[..], k, j);
    MovedPerm(old(ids[..]), ids[..], l, k, j);
  }

  /** s and t differ only by a rearrangement of positions lo..hi-1. */
  ghost predicate Rearranged(s: seq<ID>, t: seq<ID>, lo: nat, hi: nat) {
    && |s| == |t| && lo <= hi <= |s|
    && multiset(s[lo..hi]) == multiset(t[lo..hi])
    && (forall p :: 0 <= p < |s| && !(lo <= p < hi) ==> t[p] == s[p])
  }

  lemma RearrangedMember(s: seq<ID>, t: seq<ID>, lo: nat, hi: nat, q: nat) returns (p: nat)
    requires Rearranged(s, t, lo, hi) && lo <= q < hi
    ensures lo <= p < hi && s[p] == t[q]
  {
    assert t[q] == t[lo..hi][q - lo];
    assert t[q] in multiset(t[lo..hi]);
    assert t[q] in s[lo..hi];
    var k :| 0 <= k < |s[lo..hi]| && s[lo..hi][k] == t[q];
    p := lo + k;
  }

  lemma RearrangedWider(s: seq<ID>, t: seq<ID>, lo: nat, hi: nat, a: nat, b: nat)
    requires Rearranged(s, t, lo, hi) && a <= lo && hi <= b <= |s|
    ensures Rearranged(s, t, a, b)
  {
    assert s[a..b] == s[a..lo] + s[lo..hi] + s[hi..b];
    assert t[a..b] == s[a..lo] + t[lo..hi] + s[hi..b];
  }

  lemma RearrangedTwice(s: seq<ID>, t: seq<ID>, u: seq<ID>, lo: nat, hi: nat)
    requires Rearranged(s, t, lo, hi) && Rearranged(t, u, lo, hi)
    ensures Rearranged(s, u, lo, hi)
  {
  }

  lemma DominatedStays(s: seq<ID>, ids: array<ID>, a: nat, l: nat, j: nat, ir: nat)
    requires Rearranged(s, ids[..], l, j + 1) && j <= ir < |s|
    requires forall p, q :: a <= p < l <= q < ir + 1 ==> s[p] >= s[q]
    ensures Rearranged(s, ids[..], l, ir + 1) && Dominated(ids, a, l, ir + 1)
  {
    RearrangedWider(s, ids[..], l, j + 1, l, ir + 1);
    forall p, q | a <= p < l <= q < ir + 1
      ensures ids[p] >= ids[q]
    {
      var k := RearrangedMember(s, ids[..], l, ir + 1, q);
    }
  }

  /** Insertion sort of ids[l..ir+1]. */
  method InsertionSort(ids: array<ID>, base: nat, l: nat, ir: int)
    requires base < l && l - 1 <= ir < ids.Length && Dominated(ids, base + 1, l, ir + 1)
    modifies ids
    ensures SortedRange(ids, l, ir + 1) && Rearranged(old(ids[..]), ids[..], l, ir + 1)
  {
    var j := l + 1;
    while j <= ir
      invariant l + 1 <= j <= ir + 1 || (j == l + 1 && ir <= l)
      invariant j <= ir + 1 ==> SortedRange(ids, l, j)
      invariant Rearranged(old(ids[..]), ids[..], l, ir + 1)
      invariant Dominated(ids, base + 1, l, ir + 1)
    {
      ghost var before := ids[..];
      InsertOne(ids, base, l, j);
      DominatedStays(before, ids, base + 1, l, j, ir);
      j := j + 1;
    }
  }

  // ---------------------------------------------------------------- partition

  /** ids is s with positions lo..hi-1 rearranged. */
  ghost predicate Permutes(ids: array<ID>, s: seq<ID>, lo: nat, hi: nat)
    reads ids
  {
    Rearranged(s, ids[..], lo, hi)
  }

  lemma PermutesItself(ids: array<ID>, lo: nat, hi: nat)
    requires lo <= hi <= ids.Length
    ensures Permutes(ids, ids[..], lo, hi)
  {
  }

  lemma SwapPerm(s: seq<ID>, x: nat, y: nat, lo: nat, hi: nat)
    requires lo <= x < hi <= |s| && lo <= y < hi
    ensures Rearranged(s, s[x := s[y]][y := s[x]], lo, hi)
  {
    var t := s[x := s[y]][y := s[x]];
    assert t[lo..hi] == s[lo..hi][x - lo := s[y]][y - lo := s[x]];
  }

  /** MIDL_SWAP, as part of a rearrangement of s. */
  method Swap(ids: array<ID>, x: nat, y: nat, ghost s: seq<ID>, ghost lo: nat, ghost hi: nat)
    requires lo <= x < hi <= ids.Length && lo <= y < hi && Permutes(ids, s, lo, hi)
    modifies ids
    ensures ids[x] == old(ids[y]) && ids[y] == old(ids[x])
    ensures forall p :: 0 <= p < ids.Length && p != x && p != y ==> ids[p] == old(ids[p])
    ensures Permutes(ids, s, lo, hi)
  {
    ghost var t := ids[..];
    hide Rearranged;
    SwapPerm(t, x, y, lo, hi);
    var itmp := ids[x];
    ids[x] := ids[y];
    ids[y] := itmp;
    assert ids[..] == t[x := t[y]][y := t[x]];
    RearrangedTwice(s, t, ids[..], lo, hi);
  }

  function Max(x: ID, y: ID): ID { if x < y then y else x }

  function Min(x: ID, y: ID): ID { if x < y then x else y }

  /** The median of three ids. */
  function Middle(x: ID, y: ID, z: ID): (m: ID)
    ensures (m == x || m == y || m == z)
  {
    Min(Max(x, z), Max(y, Min(x, z)))
  }

  method SwapIfSmaller(ids: array<ID>, x: nat, y: nat, ghost z: nat, ghost s: seq<ID>, ghost lo: nat, ghost hi: nat)
    requires lo <= x < hi <= ids.Length && lo <= y < hi && z < ids.Length && x != y && x != z && y != z
    requires Permutes(ids, s, lo, hi)
    modifies ids
    ensures ids[x] == Max(old(ids[x]), old(ids[y])) && ids[y] == Min(old(ids[x]), old(ids[y]))
    ensures ids[z] == old(ids[z])
    ensures Permutes(ids, s, lo, hi)
  {
    if ids[x] < ids[y] {
      Swap(ids, x, y, s, lo, hi);
    }
  }

  method OrderMiddle(ids: array<ID>, l: nat, ir: nat, ghost s: seq<ID>)
    requires l + SMALL <= ir < ids.Length && ids[l] >= ids[ir] && Permutes(ids, s, l, ir + 1)
    modifies ids
    ensures ids[l] >= ids[l + 1] >= ids[ir] && Permutes(ids, s, l, ir + 1)
    ensures ids[l + 1] == Min(old(ids[l]), Max(old(ids[l + 1]), old(ids[ir])))
  {
    hide Permutes;
    SwapIfSmaller(ids, l + 1, ir, l, s, l, ir + 1);
    SwapIfSmaller(ids, l, l + 1, ir, s, l, ir + 1);
  }

  /** The median of the left, centre and right ids goes to l+1, with the larger of
      the others at l and the smaller at ir: the sentinels of the scans. */
  method MedianOfThree(ids: array<ID>, l: nat, ir: nat)
    requires l + SMALL <= ir < ids.Length
    modifies ids
    ensures ids[l] >= ids[l + 1] >= ids[ir]
    ensures ids[l + 1] == Middle(old(ids[l]), old(ids[(l + ir) / 2]), old(ids[ir]))
    ensures Permutes(ids, old(ids[..]), l, ir + 1)
  {
    ghost var s := ids[..];
    PermutesItself(ids, l, ir + 1);
    hide Permutes;
    Swap(ids, (l + ir) / 2, l + 1, s, l, ir + 1);
    SwapIfSmaller(ids, l, ir, l + 1, s, l, ir + 1);
    OrderMiddle(ids, l, ir, s);
  }

  /** The scans stopped at i and j: ids up to i are at least a, ids from j on at
      most a. */
  ghost predicate Scanned(ids: array<ID>, l: nat, i: nat, j: nat, ir: nat, a: ID)
    requires ir < ids.Length
    reads ids
  {
    && l + 1 <= i && j <= ir && l + 1 <= ir && ids[l + 1] == a
    && (forall p :: l <= p <= ir && p <= i ==> ids[p] >= a)
    && (forall p :: l <= p <= ir && p >= j ==> ids[p] <= a)
  }

  method ScanUp(ids: array<ID>, l: nat, i0: nat, ir: nat, a: ID) returns (i: nat)
    requires l < i0 < ir < ids.Length && ids[ir] <= a
    requires forall p :: l <= p <= i0 ==> ids[p] >= a
    ensures i0 < i <= ir && ids[i] <= a && forall p :: l <= p < i ==> ids[p] >= a
  {
    i := i0 + 1;
    while ids[i] > a
      invariant i0 < i <= ir
      invariant forall p :: l <= p < i ==> ids[p] >= a
      decreases ir - i
    {
      i := i + 1;
    }
  }

  method ScanDown(ids: array<ID>, l: nat, j0: nat, ir: nat, a: ID) returns (j: nat)
    requires l + 1 < j0 <= ir < ids.Length && ids[l + 1] == a
    requires forall p :: j0 <= p <= ir ==> ids[p] <= a
    ensures l + 1 <= j < j0 && ids[j] >= a && forall p :: j < p <= ir ==> ids[p] <= a
  {
    j := j0 - 1;
    while ids[j] < a
      invariant l + 1 <= j < j0
      invariant forall p :: j < p <= ir ==> ids[p] <= a
      decreases j
    {
      j := j - 1;
    }
  }

  /** Splits ids[l..ir+1] around a pivot value. The scans have no bound check; the
      sentinels keep them inside. */
  method Partition(ids: array<ID>, l: nat, ir: nat) returns (i: nat, j: nat, ghost a: ID)
    requires l + SMALL <= ir < ids.Length
    modifies ids
    ensures l + 1 <= j < i <= ir
    ensures forall p :: l <= p < i ==> ids[p] >= a
    ensures forall p :: j <= p <= ir ==> ids[p] <= a
    ensures a == Middle(old(ids[l]), old(ids[(l + ir) / 2]), old(ids[ir]))
    ensures Permutes(ids, old(ids[..]), l, ir + 1)
  {
    hide Permutes, Middle;
    ghost var s := ids[..];
    MedianOfThree(ids, l, ir);
    i := l + 1;
    j := ir;
    var pivot := ids[l + 1];
    a := pivot;
    while true
      invariant i < ir && l + 1 < j && i <= j
      invariant Scanned(ids, l, i, j, ir, pivot)
      invariant Permutes(ids, s, l, ir + 1)
      decreases j
    {
      i := ScanUp(ids, l, i, ir, pivot);
      j := ScanDown(ids, l, j, ir, pivot);
      if j < i {
        break;
      }
      Swap(ids, i, j, s, l, ir + 1);
    }
    Swap(ids, l + 1, j, s, l, ir + 1);
  }
}
