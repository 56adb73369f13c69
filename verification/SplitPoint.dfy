/**
 Where mdb_page_split divides a page: the entries of the page with the new one
 among them cost c[i] bytes each, offset included; pmax bytes fit on a page.
 */
module SplitPoint {

  /** Cost of a branch entry whose key is left out. */
  const BLANK := 10

  ghost function Sum(c: seq<nat>, lo: nat, hi: nat): nat
    requires hi <= |c|
  {
    if lo >= hi then 0 else Sum(c, lo, hi - 1) + c[hi - 1]
  }

  lemma {:induction false} SumSplit(c: seq<nat>, lo: nat, mid: nat, hi: nat)
    requires lo <= mid <= hi <= |c|
    ensures Sum(c, lo, hi) == Sum(c, lo, mid) + Sum(c, mid, hi)
  {
    if mid < hi {
      SumSplit(c, lo, mid, hi - 1);
    }
  }

  lemma SumFirst(c: seq<nat>, lo: nat, hi: nat)
    requires lo < hi <= |c|
    ensures Sum(c, lo, hi) == c[lo] + Sum(c, lo + 1, hi)
  {
    SumSplit(c, lo, lo + 1, hi);
    assert Sum(c, lo, lo + 1) == Sum(c, lo, lo) + c[lo];
  }

  lemma {:induction false} SumPrefix(a: seq<nat>, b: seq<nat>, n: nat)
    requires n <= |a| && n <= |b| && forall i :: 0 <= i < n ==> b[i] == a[i]
    ensures Sum(b, 0, n) == Sum(a, 0, n)
  {
    if n > 0 {
      SumPrefix(a, b, n - 1);
    }
  }

  /** The first n + 1 entries of b are the first n of a with one inserted at k. */
  lemma {:induction false} SumInsert(a: seq<nat>, b: seq<nat>, k: nat, n: nat)
    requires k <= n <= |a| && |b| == |a| + 1
    requires forall i :: 0 <= i < k ==> b[i] == a[i]
    requires forall i :: k < i <= n ==> b[i] == a[i - 1]
    ensures Sum(b, 0, n + 1) == Sum(a, 0, n) + b[k]
  {
    if n == k {
      SumPrefix(a, b, k);
    } else {
      SumInsert(a, b, k, n - 1);
    }
  }

  lemma {:induction false} SumPlus(a: seq<nat>, b: seq<nat>, d: nat, n: nat)
    requires n <= |a| == |b| && forall i :: 0 <= i < n ==> b[i] == a[i] + d
    ensures Sum(b, 0, n) == Sum(a, 0, n) + d * n
  {
    if n > 0 {
      SumPlus(a, b, d, n - 1);
    }
  }

  /** The bytes entries [lo, hi) take on a page of their own. */
  ghost function PageCost(c: seq<nat>, lo: nat, hi: nat, leaf: bool): nat
    requires lo < hi <= |c|
  {
    if leaf then Sum(c, lo, hi) else BLANK + Sum(c, lo + 1, hi)
  }

  ghost predicate BothFit(c: seq<nat>, split: nat, leaf: bool, pmax: nat) {
    1 <= split < |c| && PageCost(c, 0, split, leaf) <= pmax && PageCost(c, split, |c|, leaf) <= pmax
  }

  /** The old entries fitted on the page, and any two entries fit on one
      (MDB_MINKEYS and me_nodemax). */
  ghost predicate Entries(c: seq<nat>, newindx: nat, pmax: nat) {
    && |c| >= 3 && newindx < |c| && Sum(c, 0, |c|) - c[newindx] <= pmax
    && forall i :: 0 <= i < |c| ==> BLANK <= c[i] && 2 * c[i] <= pmax
  }

  /** me_nodemax: MDB_MINKEYS nodes of this size and their offsets fit on a page. */
  function NodeMax(pmax: nat): (r: int)
    ensures r % 2 == 0 && 2 * (r + 2) <= pmax
  {
    pmax / 2 / 2 * 2 - 2
  }

  /** When mdb_page_split looks at the sizes to choose the split point. */
  predicate Adjusts(nkeys: nat, nsize: nat, newindx: nat, pmax: nat) {
    nkeys < 20 || nsize > pmax / 16 || newindx >= nkeys
  }

  // -------------------------------------------------------- where the scans stop

  lemma Blanked(c: seq<nat>, lo: nat, hi: nat, leaf: bool, newindx: nat, pmax: nat)
    requires Entries(c, newindx, pmax) && lo < hi <= |c|
    ensures PageCost(c, lo, hi, leaf) <= Sum(c, lo, hi)
  {
    SumFirst(c, lo, hi);
  }

  /** Part of the page that leaves the new entry out fits. */
  lemma OldPart(c: seq<nat>, lo: nat, hi: nat, newindx: nat, pmax: nat)
    requires Entries(c, newindx, pmax) && lo <= hi <= |c| && !(lo <= newindx < hi)
    ensures Sum(c, lo, hi) <= pmax
  {
    SumSplit(c, 0, lo, |c|);
    SumSplit(c, lo, hi, |c|);
    if newindx < lo {
      SumSplit(c, 0, newindx, lo);
      SumFirst(c, newindx, lo);
    } else {
      SumSplit(c, hi, newindx, |c|);
      SumFirst(c, newindx, |c|);
    }
  }

  /** If one part overflows with entry i, the rest, entry i with it, fits. */
  lemma Rest(c: seq<nat>, i: nat, newindx: nat, pmax: nat)
    requires Entries(c, newindx, pmax) && i < |c|
    ensures Sum(c, 0, i) + c[i] > pmax ==> Sum(c, i, |c|) <= pmax
    ensures c[i] + Sum(c, i + 1, |c|) > pmax ==> Sum(c, 0, i + 1) <= pmax
  {
    SumSplit(c, 0, i, |c|);
    SumSplit(c, 0, i + 1, |c|);
  }

  lemma StopForward(c: seq<nat>, i: nat, newindx: nat, leaf: bool, pmax: nat)
    requires Entries(c, newindx, pmax) && i < |c| && Sum(c, 0, i) <= pmax < Sum(c, 0, i + 1)
    ensures BothFit(c, i, leaf, pmax)
  {
    Rest(c, i, newindx, pmax);
    assert i > 0;
    Blanked(c, 0, i, leaf, newindx, pmax);
    Blanked(c, i, |c|, leaf, newindx, pmax);
  }

  lemma StopBackward(c: seq<nat>, i: nat, newindx: nat, leaf: bool, pmax: nat)
    requires Entries(c, newindx, pmax) && i < |c| && Sum(c, i + 1, |c|) <= pmax < Sum(c, i, |c|)
    ensures BothFit(c, i + 1, leaf, pmax)
  {
    SumFirst(c, i, |c|);
    Rest(c, i, newindx, pmax);
    assert i + 1 < |c|;
    Blanked(c, 0, i + 1, leaf, newindx, pmax);
    Blanked(c, i + 1, |c|, leaf, newindx, pmax);
  }

  /** The new entry is last and everything before the last old one goes left. */
  lemma EndAppending(c: seq<nat>, newindx: nat, leaf: bool, pmax: nat)
    requires Entries(c, newindx, pmax) && newindx == |c| - 1
    ensures BothFit(c, |c| - 2, leaf, pmax)
  {
    var n := |c|;
    OldPart(c, 0, n - 2, newindx, pmax);
    assert Sum(c, n - 2, n) == Sum(c, n - 2, n - 2) + c[n - 2] + c[n - 1];
    Blanked(c, 0, n - 2, leaf, newindx, pmax);
    Blanked(c, n - 2, n, leaf, newindx, pmax);
  }

  /** The forward scan reached the middle. On a branch the new entry may be the first
      on the right, where its key is left out. */
  lemma EndForward(c: seq<nat>, split: nat, newindx: nat, leaf: bool, pmax: nat)
    requires Entries(c, newindx, pmax) && 1 <= split < |c| && newindx <= split && (leaf ==> newindx < split)
    requires Sum(c, 0, split) <= pmax
    ensures BothFit(c, split, leaf, pmax)
  {
    Blanked(c, 0, split, leaf, newindx, pmax);
    if newindx < split {
      OldPart(c, split, |c|, newindx, pmax);
      Blanked(c, split, |c|, leaf, newindx, pmax);
    } else {
      SumSplit(c, 0, split, |c|);
      SumFirst(c, split, |c|);
      SumFirst(c, 0, split);
    }
  }

  lemma EndBackward(c: seq<nat>, split: nat, newindx: nat, leaf: bool, pmax: nat)
    requires Entries(c, newindx, pmax) && 1 <= split < |c| && newindx >= split && Sum(c, split, |c|) <= pmax
    ensures BothFit(c, split, leaf, pmax)
  {
    OldPart(c, 0, split, newindx, pmax);
    Blanked(c, 0, split, leaf, newindx, pmax);
    Blanked(c, split, |c|, leaf, newindx, pmax);
  }

  lemma {:induction false} SumSame(c: seq<nat>, lo: nat, hi: nat, v: nat)
    requires lo <= hi <= |c| && forall i :: lo <= i < hi ==> c[i] == v
    ensures Sum(c, lo, hi) == v * (hi - lo)
  {
    if lo < hi {
      SumSame(c, lo, hi - 1, v);
    }
  }

  /** Twenty entries that fit on a page of 4096 bytes, the first nine of them large, and a
      small new one among the large ones, at 5. */
  ghost function Mixed(): (c: seq<nat>)
    ensures |c| == 21 && forall i :: 0 <= i < 21 ==> c[i] == if i == 5 then 250 else if i < 10 then 438 else 12
  {
    seq(21, i => if i == 5 then 250 else if i < 10 then 438 else 12)
  }

  /** The sizes are not looked at, and the half with the large entries does not fit. */
  lemma MixedHalves()
    ensures Entries(Mixed(), 5, 4080) && Sum(Mixed(), 0, 21) == 4324
    ensures !Adjusts(20, Mixed()[5], 5, 4080) && !BothFit(Mixed(), 10, true, 4080)
  {
    var c := Mixed();
    SumSame(c, 0, 5, 438);
    SumSame(c, 6, 10, 438);
    SumSame(c, 10, 21, 12);
    SumFirst(c, 5, 10);
    SumSplit(c, 0, 5, 10);
    SumSplit(c, 0, 10, 21);
  }
}
