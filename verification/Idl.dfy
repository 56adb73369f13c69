/**
 ID lists (midl.c). An MDB_IDL is a buffer whose word 0 counts the ids that
 follow it in descending order; me_pghead, mt_free_pgs and mt_spill_pgs are such
 lists.
 */
module Idl {

  const MAX_ID := 0xffff_ffff_ffff_ffff

  /** MDB_IDL_UM_MAX. */
  const UM_MAX := 0x1_FFFF

  /** MDB_ID. Where its 64 bits matter the contracts say so. */
  type ID = nat

  predicate Descending(s: seq<ID>) {
    forall i, j :: 0 <= i < j < |s| ==> s[i] >= s[j]
  }

  predicate StrictlyDescending(s: seq<ID>) {
    forall i, j :: 0 <= i < j < |s| ==> s[i] > s[j]
  }

  function Elems(s: seq<ID>): set<ID> { set x | x in s }

  /** A list well formed in its buffer: the ids fit after the count. */
  ghost predicate IsList(b: seq<ID>) { |b| > 0 && b[0] < |b| }

  ghost function Ids(b: seq<ID>): seq<ID>
    requires IsList(b)
  {
    b[1..b[0] + 1]
  }

  // ---------------------------------------------------------------- search

  /** mdb_midl_search: the position of `id`, or else the position at which it would
      have to be inserted. */
  method Search(ids: array<ID>, id: ID) returns (cursor: nat)
    requires IsList(ids[..]) && Descending(Ids(ids[..]))
    ensures 1 <= cursor <= ids[0] + 1
    ensures id in Ids(ids[..]) <==> cursor <= ids[0] && ids[cursor] == id
    ensures id !in Ids(ids[..]) ==> forall k :: 1 <= k < cursor ==> ids[k] > id
    ensures id !in Ids(ids[..]) ==> forall k :: cursor <= k <= ids[0] ==> ids[k] < id
  {
    var base := 0;
    cursor := 1;
    var val := 0;
    var n: int := ids[0];
    DescendingInBuffer(ids[..]);
    while 0 < n
      invariant 0 <= base && 0 <= n && base + n <= ids[0]
      invariant forall k :: 1 <= k <= base ==> ids[k] > id
      invariant forall k :: base + n < k <= ids[0] ==> ids[k] < id
      invariant (val < 0 && cursor == base + n + 1) || (val > 0 && cursor == base) || (val == 0 && cursor == 1)
      invariant val == 0 ==> base == 0 && n == ids[0]
    {
      var pivot := n / 2;
      cursor := base + pivot + 1;
      val := if ids[cursor] < id then -1 else if ids[cursor] > id then 1 else 0;
      if val < 0 {
        n := pivot;
      } else if val > 0 {
        base := cursor;
        n := n - (pivot + 1);
      } else {
        assert Ids(ids[..])[cursor - 1] == id;
        return;
      }
    }
    if val > 0 {
      cursor := cursor + 1;
    }
  }

  lemma DescendingInBuffer(b: seq<ID>)
    requires IsList(b) && Descending(Ids(b))
    ensures forall i, j :: 1 <= i < j <= b[0] ==> b[i] >= b[j]
  {
    forall i, j | 1 <= i < j <= b[0]
      ensures b[i] >= b[j]
    {
      assert Ids(b)[i - 1] >= Ids(b)[j - 1];
    }
  }

  predicate Distinct(s: seq<ID>) {
    forall i, j :: 0 <= i < j < |s| ==> s[i] != s[j]
  }

  lemma Twice(r: seq<ID>, i: nat, j: nat)
    requires i < j < |r| && r[i] == r[j]
    ensures multiset(r)[r[i]] >= 2
  {
    assert r == r[..j] + [r[j]] + r[j + 1..];
    assert r[i] in r[..j];
  }

  lemma {:induction false} OnlyOnce(s: seq<ID>, x: ID)
    requires Distinct(s)
    ensures multiset(s)[x] <= 1
  {
    if |s| > 0 {
      var n := |s| - 1;
      OnlyOnce(s[..n], x);
      assert s == s[..n] + [s[n]];
      if s[n] == x {
        assert x !in s[..n];
      }
    }
  }

  // ---------------------------------------------------------------- merge

  /** Merging two descending lists from their tails, equal ids from the second
      list going below those of the first. */
  ghost function Merge(a: seq<ID>, b: seq<ID>): (r: seq<ID>)
    decreases |a| + |b|
  {
    if |b| == 0 then a
    else if |a| > 0 && a[|a|-1] < b[|b|-1] then Merge(a[..|a|-1], b) + [a[|a|-1]]
    else Merge(a, b[..|b|-1]) + [b[|b|-1]]
  }

  lemma {:induction false} MergeContents(a: seq<ID>, b: seq<ID>)
    ensures |Merge(a, b)| == |a| + |b|
    ensures multiset(Merge(a, b)) == multiset(a) + multiset(b)
    decreases |a| + |b|
  {
    if |b| == 0 {
    } else if |a| > 0 && a[|a|-1] < b[|b|-1] {
      MergeContents(a[..|a|-1], b);
      assert a == a[..|a|-1] + [a[|a|-1]];
    } else {
      MergeContents(a, b[..|b|-1]);
      assert b == b[..|b|-1] + [b[|b|-1]];
    }
  }

  lemma {:induction false} MergeElems(a: seq<ID>, b: seq<ID>)
    ensures Elems(Merge(a, b)) == Elems(a) + Elems(b)
  {
    MergeContents(a, b);
    forall x
      ensures x in Merge(a, b) <==> x in a || x in b
    {
      assert x in Merge(a, b) <==> x in multiset(Merge(a, b));
    }
  }

  /** Merging lists with no common id keeps the order strict: as sets, a disjoint
      union. */
  lemma {:induction false} MergeStrict(a: seq<ID>, b: seq<ID>)
    requires StrictlyDescending(a) && StrictlyDescending(b) && Elems(a) !! Elems(b)
    ensures StrictlyDescending(Merge(a, b))
    decreases |a| + |b|
  {
    if |b| == 0 {
    } else if |a| > 0 && a[|a|-1] < b[|b|-1] {
      MergeStrict(a[..|a|-1], b);
      AppendLowest(a[..|a|-1], b, a[|a|-1]);
    } else {
      MergeStrict(a, b[..|b|-1]);
      assert |a| > 0 ==> a[|a|-1] in Elems(a) && b[|b|-1] in Elems(b);
      AppendLowest(a, b[..|b|-1], b[|b|-1]);
    }
  }

  /** Merging descending lists gives a descending list. */
  lemma {:induction false} MergeDescending(a: seq<ID>, b: seq<ID>)
    requires Descending(a) && Descending(b)
    ensures Descending(Merge(a, b))
    decreases |a| + |b|
  {
    if |b| == 0 {
    } else if |a| > 0 && a[|a|-1] < b[|b|-1] {
      MergeDescending(a[..|a|-1], b);
      AppendLow(a[..|a|-1], b, a[|a|-1]);
    } else {
      MergeDescending(a, b[..|b|-1]);
      AppendLow(a, b[..|b|-1], b[|b|-1]);
    }
  }

  lemma AppendLow(a: seq<ID>, b: seq<ID>, x: ID)
    requires Descending(Merge(a, b))
    requires forall i :: 0 <= i < |a| ==> a[i] >= x
    requires forall i :: 0 <= i < |b| ==> b[i] >= x
    ensures Descending(Merge(a, b) + [x])
  {
    MergeElems(a, b);
    forall i | 0 <= i < |Merge(a, b)|
      ensures Merge(a, b)[i] >= x
    {
      assert Merge(a, b)[i] in Elems(a) + Elems(b);
    }
  }

  lemma AppendLowest(a: seq<ID>, b: seq<ID>, x: ID)
    requires StrictlyDescending(Merge(a, b))
    requires forall y :: y in a || y in b ==> y > x
    ensures StrictlyDescending(Merge(a, b) + [x])
  {
    MergeElems(a, b);
    forall i | 0 <= i < |Merge(a, b)|
      ensures Merge(a, b)[i] > x
    {
      assert Merge(a, b)[i] in Elems(Merge(a, b));
    }
  }

  /** One step of the merge, seen from the finished list. */
  lemma MergeStep(a: seq<ID>, j: nat, b: seq<ID>, i: nat, r: seq<ID>)
    requires j <= |a| && 0 < i <= |b| && i + j <= |r| && r[..i + j] == Merge(a[..j], b[..i])
    ensures j > 0 && a[j-1] < b[i-1] ==> r[i + j - 1] == a[j-1] && r[..i + j - 1] == Merge(a[..j-1], b[..i])
    ensures j == 0 || a[j-1] >= b[i-1] ==> r[i + j - 1] == b[i-1] && r[..i + j - 1] == Merge(a[..j], b[..i-1])
  {
    var k := i + j;
    MergeContents(a[..j], b[..i]);
    assert j > 0 ==> a[..j][..j-1] == a[..j-1];
    assert b[..i][..i-1] == b[..i-1];
    assert r[..k][..k-1] == r[..k-1] && r[..k][k-1] == r[k-1];
  }

  /** The buffer during a merge: the first j ids of `a` are still in place, and the
      merged list `r` is finished from k on. */
  ghost predicate Merging(idl: array<ID>, a: seq<ID>, j: nat, r: seq<ID>, k: nat)
    requires j <= |a| && j <= k <= |r| < idl.Length
    reads idl
  {
    && idl[0] == MAX_ID
    && (forall h :: 0 < h <= j ==> idl[h] == a[h-1])
    && (forall h :: k < h <= |r| ==> idl[h] == r[h-1])
  }

  /** One round of mdb_midl_xmerge: ids of the first list below mergeId move up
      (word 0 stops the scan), then mergeId takes its place. */
  method MergeOne(idl: array<ID>, j0: nat, k0: nat, mergeId: ID, ghost a: seq<ID>, ghost b: seq<ID>,
                  ghost i: nat, ghost r: seq<ID>)
    returns (j: nat, k: nat)
    requires j0 <= |a| && i + j0 == k0 <= |r| < idl.Length && Merging(idl, a, j0, r, k0)
    requires 0 < i <= |b| && mergeId == b[i-1] <= MAX_ID && r[..k0] == Merge(a[..j0], b[..i])
    modifies idl
    ensures j <= j0 && i - 1 + j == k && Merging(idl, a, j, r, k) && r[..k] == Merge(a[..j], b[..i-1])
    ensures forall h :: |r| < h < idl.Length ==> idl[h] == old(idl[h])
  {
    hide Merge;
    j, k := j0, k0;
    var oldId := idl[j];
    while oldId < mergeId
      invariant j <= j0 && i + j == k && oldId == idl[j]
      invariant Merging(idl, a, j, r, k)
      invariant forall h :: |r| < h < idl.Length ==> idl[h] == old(idl[h])
      invariant r[..k] == Merge(a[..j], b[..i])
      decreases j
    {
      MergeStep(a, j, b, i, r);
      idl[k] := oldId;
      k := k - 1;
      j := j - 1;
      oldId := idl[j];
    }
    MergeStep(a, j, b, i, r);
    idl[k] := mergeId;
    k := k - 1;
  }

  /** mdb_midl_xmerge, in place from the tail. `mrg` may be the same buffer, as
      long as its list starts beyond the merged result. Word 0 serves as a
      sentinel during the merge. */
  method XMerge(idl: array<ID>, mrg: array<ID>, off: nat)
    requires IsList(idl[..])
    requires off < mrg.Length && off + mrg[off] < mrg.Length
    requires idl[0] + mrg[off] < idl.Length
    requires idl == mrg ==> off > idl[0] + mrg[off]
    requires forall k :: off < k <= off + mrg[off] ==> mrg[k] <= MAX_ID
    modifies idl
    ensures IsList(idl[..]) && idl[0] == old(idl[0]) + old(mrg[off])
    ensures Ids(idl[..]) == Merge(old(Ids(idl[..])), old(mrg[off + 1..off + 1 + mrg[off]]))
    ensures forall k :: idl[0] < k < idl.Length ==> idl[k] == old(idl[k])
  {
    hide Merge;
    var i, j := mrg[off], idl[0];
    var k, total := i + j, i + j;
    ghost var a, b := Ids(idl[..]), mrg[off + 1..off + 1 + i];
    ghost var r := Merge(a, b);
    MergeContents(a, b);
    idl[0] := MAX_ID;
    assert a[..j] == a && b[..i] == b && r[..k] == r;
    while i > 0
      invariant 0 <= i <= |b| && 0 <= j <= |a| && k == i + j
      invariant Merging(idl, a, j, r, k)
      invariant forall h :: total < h < idl.Length ==> idl[h] == old(idl[h])
      invariant r[..k] == Merge(a[..j], b[..i])
    {
      var mergeId := mrg[off + i];
      assert mergeId == b[i-1];
      j, k := MergeOne(idl, j, k, mergeId, a, b, i, r);
      i := i - 1;
    }
    MergeNothing(a[..j], b[..0]);
    idl[0] := total;
    assert Ids(idl[..]) == r;
  }

  lemma MergeNothing(a: seq<ID>, b: seq<ID>)
    requires b == []
    ensures Merge(a, b) == a
  {
  }
}
