/**
 How long a list mdb_midl_sort can sort: the midpoint of a segment is computed as
 (l + ir) >> 1 in an int, and the sum need not fit.
 */
module IdlSortLimit {
  import opened Idl
  import opened IdlSort

  const INT_MAX := 0x7fff_ffff

  /** The longest lists for which every midpoint can be computed, whatever the ids. */
  const SORTABLE := 0x4000_0003

  /** l + ir, for positions counted from the start of the list. */
  predicate SumFits(l: int, ir: int) { l + ir <= INT_MAX }

  /** The ids n, n - 1, .., 1 with 10 moved to the middle: position p of the list. */
  function LateAt(n: nat, p: nat): nat
    requires 1 <= p <= n
  {
    if p == (1 + n) / 2 then 10 else if p == n - 9 then n + 1 - (1 + n) / 2 else n + 1 - p
  }

  /** The list at base is that list. */
  ghost predicate IsLate(s: seq<ID>, base: nat, n: nat) {
    && base + n < |s| && n > SORTABLE
    && forall p :: 1 <= p <= n ==> s[base + p] == LateAt(n, p)
  }

  ghost predicate Within(u: seq<ID>, lo: int, hi: int) {
    forall i :: 0 <= i < |u| ==> lo <= u[i] <= hi
  }

  lemma LateDistinct(s: seq<ID>, base: nat, n: nat)
    requires IsLate(s, base, n)
    ensures Distinct(s[base + 1..base + n + 1])
    ensures Within(s[base + 1..base + n + 1], 1, n)
  {
    var u := s[base + 1..base + n + 1];
    assert forall i :: 0 <= i < n ==> u[i] == s[base + (i + 1)] == LateAt(n, i + 1);
  }

  /** Distinct ids in a range are no more than its numbers. */
  lemma {:induction false} Pigeonhole(u: seq<ID>, lo: int, hi: int)
    requires Distinct(u) && lo <= hi + 1 && Within(u, lo, hi)
    ensures |u| <= hi + 1 - lo
    decreases hi + 1 - lo
  {
    assert |u| > 0 ==> lo <= u[0] <= hi;
    if lo <= hi {
      if hi in u {
        var k :| 0 <= k < |u| && u[k] == hi;
        Pigeonhole(Without(u, k, lo, hi), lo, hi - 1);
      } else {
        assert Within(u, lo, hi - 1);
        Pigeonhole(u, lo, hi - 1);
      }
    }
  }

  /** u without its largest id. */
  ghost function Without(u: seq<ID>, k: nat, lo: int, hi: int): (v: seq<ID>)
    requires Distinct(u) && Within(u, lo, hi) && k < |u| && u[k] == hi
    ensures Distinct(v) && Within(v, lo, hi - 1) && |v| == |u| - 1
  {
    u[..k] + u[k + 1..]
  }

  lemma PermutedDistinct(u: seq<ID>, v: seq<ID>)
    requires Distinct(u) && multiset(u) == multiset(v)
    ensures Distinct(v)
  {
    forall i, j | 0 <= i < j < |v|
      ensures v[i] != v[j]
    {
      if v[i] == v[j] {
        Twice(v, i, j);
        OnlyOnce(u, v[i]);
      }
    }
  }

  /** The part of a segment with large ids, and the one with small ids. */
  lemma SlicesDistinct(v: seq<ID>, i: nat, j: nat)
    requires Distinct(v) && i <= |v| && j <= |v|
    ensures Distinct(v[..i]) && Distinct(v[j..])
  {
  }

  lemma LateValues(s: seq<ID>, t: seq<ID>, base: nat, n: nat)
    requires IsLate(s, base, n) && Rearranged(s, t, base + 1, base + n + 1)
    ensures forall h :: base < h <= base + n ==> 1 <= t[h] <= n
  {
    LateDistinct(s, base, n);
    forall h | base < h <= base + n
      ensures 1 <= t[h] <= n
    {
      var p := RearrangedMember(s, t, base + 1, base + n + 1, h);
      assert s[p] == s[base + 1..base + n + 1][p - base - 1];
    }
  }

  /** Partitioning that list splits off its last nine ids, too many for the insertion
      sort, and too far up for the next midpoint. */
  lemma LateSplits(s: seq<ID>, t: seq<ID>, base: nat, n: nat, i: nat, j: nat)
    requires IsLate(s, base, n) && Rearranged(s, t, base + 1, base + n + 1)
    requires base + 1 <= j < i <= base + n
    requires forall p :: base + 1 <= p < i ==> t[p] >= 10
    requires forall p :: j <= p <= base + n ==> t[p] <= 10
    ensures i == base + n - 8 && j == base + n - 9
  {
    var u, v := s[base + 1..base + n + 1], t[base + 1..base + n + 1];
    LateDistinct(s, base, n);
    PermutedDistinct(u, v);
    LateValues(s, t, base, n);
    hide IsLate, Rearranged, Distinct;
    var a, b := v[..i - base - 1], v[j - base - 1..];
    SlicesDistinct(v, i - base - 1, j - base - 1);
    assert Within(a, 10, n) && Within(b, 1, 10);
    Pigeonhole(a, 10, n);
    Pigeonhole(b, 1, 10);
  }

  /** The first pivot of that list is 10. */
  lemma LateMiddle(s: seq<ID>, base: nat, n: nat)
    requires IsLate(s, base, n)
    ensures Middle(s[base + 1], s[(base + 1 + (base + n)) / 2], s[base + n]) == 10
  {
    assert (base + 1 + (base + n)) / 2 == base + (1 + n) / 2;
    assert s[base + 1] == LateAt(n, 1) && s[base + n] == LateAt(n, n);
    assert s[base + (1 + n) / 2] == LateAt(n, (1 + n) / 2);
  }

  /** There is such a list of every length above SORTABLE. */
  lemma LateExists(n: nat) returns (s: seq<ID>)
    requires n > SORTABLE
    ensures IsLate(s, 0, n) && s[0] == n
  {
    s := [n] + seq(n, i requires 0 <= i < n => LateAt(n, i + 1));
  }
}
