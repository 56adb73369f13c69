/**
 me_pghead as a set of free pages: merging a freeDB record, taking a contiguous
 run for mdb_page_alloc and returning one in mdb_ovpage_free keep the list
 strictly descending and act as disjoint union and difference.
 */
module Pghead {
  import opened Idl
  import opened Wrappers
  import Mvcc

  /** pg, pg+1, ..., pg+num-1, largest first. */
  ghost function Run(pg: nat, num: nat): (r: seq<ID>)
    ensures |r| == num
    ensures forall q :: 0 <= q < num ==> r[q] == pg + num - 1 - q
  {
    seq(num, q requires 0 <= q < num => pg + num - 1 - q)
  }

  lemma RunElems(pg: nat, num: nat)
    ensures Elems(Run(pg, num)) == Mvcc.Range(pg, num) && StrictlyDescending(Run(pg, num))
  {
    forall p | p in Mvcc.Range(pg, num)
      ensures p in Run(pg, num)
    {
      assert Run(pg, num)[pg + num - 1 - p] == p;
    }
  }

  // ---------------------------------------------------------------- search

  /** In a strictly descending list the ends of a stretch decide it: the first
      exceeds the last by its length exactly when all pages are consecutive. */
  lemma {:induction false} EndsDecide(s: seq<ID>, from: nat, p: nat)
    requires StrictlyDescending(s) && from <= p < |s|
    ensures s[from] >= s[p] + (p - from)
    ensures s[from] == s[p] + (p - from) ==> s[from..p + 1] == Run(s[p], p - from + 1)
    decreases p - from
  {
    if from < p {
      EndsDecide(s, from + 1, p);
      assert s[from..p + 1] == [s[from]] + s[from + 1..p + 1];
    }
  }

  /** A run of free pages occupies a stretch of the list. */
  lemma {:induction false} RunIsStretch(s: seq<ID>, pg: nat, q: nat, p: nat)
    requires StrictlyDescending(s) && p < |s| && s[p] == pg
    requires forall x :: pg <= x <= pg + q ==> x in s
    ensures q <= p && s[p - q] == pg + q
  {
    if q > 0 {
      RunIsStretch(s, pg, q - 1, p);
      assert pg + q in s;
      var m :| 0 <= m < |s| && s[m] == pg + q;
      assert m < p - (q - 1);
    }
  }

  /** The pages pg..pg+num-1 are all free. */
  ghost predicate HasRun(s: seq<ID>, pg: nat, num: nat) {
    Mvcc.Range(pg, num) <= Elems(s)
  }

  lemma StretchIffRun(s: seq<ID>, p: nat, num: nat)
    requires StrictlyDescending(s) && p < |s| && num >= 1
    ensures HasRun(s, s[p], num) <==> num - 1 <= p && s[p - (num - 1)] == s[p] + (num - 1)
    ensures HasRun(s, s[p], num) ==> s[p + 1 - num..p + 1] == Run(s[p], num)
  {
    if HasRun(s, s[p], num) {
      forall x | s[p] <= x <= s[p] + (num - 1)
        ensures x in s
      {
        assert x in Mvcc.Range(s[p], num) && x in Elems(s);
      }
      RunIsStretch(s, s[p], num - 1, p);
    }
    if num - 1 <= p && s[p - (num - 1)] == s[p] + (num - 1) {
      EndsDecide(s, p - (num - 1), p);
      RunElems(s[p], num);
      assert forall x :: x in Run(s[p], num) ==> x in s[p + 1 - num..p + 1] && x in s;
    }
  }

  /** The search loop of mdb_page_alloc: one comparison per position. It finds the
      lowest run of num free pages, and reports 0 only when there is none. */
  method FindRun(mop: array<ID>, num: nat) returns (i: nat)
    requires IsList(mop[..]) && StrictlyDescending(Ids(mop[..])) && num >= 1
    ensures i == 0 ==> forall pg: nat :: !HasRun(Ids(mop[..]), pg, num)
    ensures i > 0 ==> num <= i <= mop[0] && Ids(mop[..])[i - num..i] == Run(mop[i], num)
    ensures i > 0 ==> forall pg: nat :: pg < mop[i] ==> !HasRun(Ids(mop[..]), pg, num)
  {
    hide HasRun, StrictlyDescending;
    var n2 := num - 1;
    ghost var s := Ids(mop[..]);
    i := mop[0];
    while i > n2
      invariant 0 <= i <= mop[0]
      invariant forall p :: i <= p < |s| ==> !HasRun(s, s[p], num)
      decreases i
    {
      StretchIffRun(s, i - 1, num);
      if mop[i - n2] == mop[i] + n2 {
        NoLowerRun(s, i, num);
        return;
      }
      i := i - 1;
    }
    forall p | 0 <= p < i
      ensures !HasRun(s, s[p], num)
    {
      StretchIffRun(s, p, num);
    }
    i := 0;
    NoLowerRun(s, 0, num);
  }

  /** Runs start at ids of the list, so those from position i on settle every run
      that starts below position i-1. */
  lemma NoLowerRun(s: seq<ID>, i: nat, num: nat)
    requires StrictlyDescending(s) && num >= 1 && i <= |s|
    requires forall p :: i <= p < |s| ==> !HasRun(s, s[p], num)
    ensures forall pg: nat :: i == 0 || pg < s[i - 1] ==> !HasRun(s, pg, num)
  {
    forall pg: nat | HasRun(s, pg, num)
      ensures i > 0 && pg >= s[i - 1]
    {
      assert pg in Mvcc.Range(pg, num) && pg in Elems(s);
      var p :| 0 <= p < |s| && s[p] == pg;
    }
  }

  // ---------------------------------------------------------------- removal

  /** Taking the run found at i out of the list: mop[0] shrinks and the stragglers
      below it move down. */
  method TakeRun(mop: array<ID>, i0: nat, num: nat)
    requires IsList(mop[..]) && 1 <= num <= i0 <= mop[0]
    modifies mop
    ensures IsList(mop[..])
    ensures Ids(mop[..]) == old(Ids(mop[..])[..i0 - num] + Ids(mop[..])[i0..])
  {
    var i, len := i0, mop[0] - num;
    mop[0] := len;
    var j := i - num;
    while j < len
      invariant i0 - num <= j <= len && i == j + num
      invariant mop[0] == len
      invariant forall h :: 0 < h <= i0 - num ==> mop[h] == old(mop[h])
      invariant forall h :: i0 - num < h <= j ==> mop[h] == old(mop[h + num])
      invariant forall h :: j < h < mop.Length ==> mop[h] == old(mop[h])
    {
      j, i := j + 1, i + 1;
      mop[j] := mop[i];
    }
    CutOut(old(mop[..]), mop[..], i0, num);
  }

  lemma CutOut(a: seq<ID>, b: seq<ID>, i: nat, num: nat)
    requires IsList(a) && 1 <= num <= i <= a[0] && |b| == |a| && b[0] == a[0] - num
    requires forall h :: 0 < h <= i - num ==> b[h] == a[h]
    requires forall h :: i - num < h <= b[0] ==> b[h] == a[h + num]
    ensures IsList(b) && Ids(b) == Ids(a)[..i - num] + Ids(a)[i..]
  {
    var s := Ids(a)[..i - num] + Ids(a)[i..];
    forall h | 0 <= h < b[0]
      ensures Ids(b)[h] == s[h]
    {
      assert Ids(b)[h] == b[h + 1];
    }
  }

  /** Which ids lie in a stretch of consecutive pages. */
  lemma StretchValues(s: seq<ID>, i: nat, num: nat, p: nat)
    requires StrictlyDescending(s) && 1 <= num <= i <= |s| && s[i - num..i] == Run(s[i - 1], num) && p < |s|
    ensures i - num <= p < i <==> s[i - 1] <= s[p] < s[i - 1] + num
  {
    assert s[i - num] == s[i - num..i][0];
  }

  lemma TakenMember(s: seq<ID>, i: nat, num: nat, x: nat)
    requires StrictlyDescending(s) && 1 <= num <= i <= |s| && s[i - num..i] == Run(s[i - 1], num)
    ensures x in s[..i - num] + s[i..] <==> x in s && !(s[i - 1] <= x < s[i - 1] + num)
  {
    hide StrictlyDescending, Run;
    if x in s[..i - num] + s[i..] {
      TakenWasThere(s, i, num, x);
    }
    if x in s && !(s[i - 1] <= x < s[i - 1] + num) {
      OthersStay(s, i, num, x);
    }
  }

  lemma TakenWasThere(s: seq<ID>, i: nat, num: nat, x: nat)
    requires StrictlyDescending(s) && 1 <= num <= i <= |s| && s[i - num..i] == Run(s[i - 1], num)
    requires x in s[..i - num] + s[i..]
    ensures x in s && !(s[i - 1] <= x < s[i - 1] + num)
  {
    hide StrictlyDescending, Run;
    var t := s[..i - num] + s[i..];
    var q :| 0 <= q < |t| && t[q] == x;
    var p := if q < i - num then q else q + num;
    assert t[q] == s[p];
    StretchValues(s, i, num, p);
  }

  lemma OthersStay(s: seq<ID>, i: nat, num: nat, x: nat)
    requires StrictlyDescending(s) && 1 <= num <= i <= |s| && s[i - num..i] == Run(s[i - 1], num)
    requires x in s && !(s[i - 1] <= x < s[i - 1] + num)
    ensures x in s[..i - num] + s[i..]
  {
    hide StrictlyDescending, Run;
    var p :| 0 <= p < |s| && s[p] == x;
    StretchValues(s, i, num, p);
    assert (s[..i - num] + s[i..])[if p < i - num then p else p - num] == x;
  }

  /** As a set, taking a run is a difference, and the pages taken are exactly the
      run. */
  lemma TakeRunIsDifference(s: seq<ID>, i: nat, num: nat)
    requires StrictlyDescending(s) && 1 <= num <= i <= |s| && s[i - num..i] == Run(s[i - 1], num)
    ensures StrictlyDescending(s[..i - num] + s[i..])
    ensures HasRun(s, s[i - 1], num)
    ensures Elems(s[..i - num] + s[i..]) == Elems(s) - Mvcc.Range(s[i - 1], num)
  {
    var t, r := s[..i - num] + s[i..], Mvcc.Range(s[i - 1], num);
    assert s[i - num] == s[i - num..i][0] == s[i - 1] + (num - 1);
    StretchIffRun(s, i - 1, num);
    forall x: nat
      ensures x in Elems(t) <==> x in Elems(s) && x !in r
    {
      TakenMember(s, i, num, x);
    }
  }

  /** The allocation of num pages from me_pghead: take the lowest run, if any. */
  method AllocFromHead(mop: array<ID>, num: nat) returns (r: Option<nat>)
    requires IsList(mop[..]) && StrictlyDescending(Ids(mop[..])) && num >= 1
    modifies mop
    ensures IsList(mop[..]) && StrictlyDescending(Ids(mop[..]))
    ensures r.None? ==> mop[..] == old(mop[..]) && forall pg: nat :: !HasRun(Ids(mop[..]), pg, num)
    ensures r.Some? ==>
              && Mvcc.Range(r.value, num) <= old(Elems(Ids(mop[..])))
              && Elems(Ids(mop[..])) == old(Elems(Ids(mop[..]))) - Mvcc.Range(r.value, num)
              && forall pg: nat :: pg < r.value ==> !old(HasRun(Ids(mop[..]), pg, num))
  {
    hide Elems, HasRun;
    var i := FindRun(mop, num);
    if i == 0 {
      r := None;
    } else {
      var pgno := mop[i];
      ghost var s := Ids(mop[..]);
      assert s[i - 1] == pgno;
      TakeRunIsDifference(s, i, num);
      RunMeans(s, pgno, num);
      TakeRun(mop, i, num);
      r := Some(pgno);
    }
  }

  lemma RunMeans(s: seq<ID>, pg: nat, num: nat)
    ensures HasRun(s, pg, num) <==> Mvcc.Range(pg, num) <= Elems(s)
  {
  }

  // ---------------------------------------------------------------- insertion

  /** How many ids of a descending list are at least pg. */
  ghost function Above(s: seq<ID>, pg: nat): (k: nat)
    ensures k <= |s|
    ensures k < |s| ==> s[|s|-1] < pg
    ensures k > 0 ==> s[k-1] >= pg
    ensures forall p :: k <= p < |s| ==> s[p] < pg
  {
    if |s| == 0 || s[|s|-1] >= pg then |s| else Above(s[..|s|-1], pg)
  }

  lemma AbovePrefix(s: seq<ID>, i: nat, pg: nat)
    requires 0 < i <= |s| && s[i - 1] < pg && Above(s[..i], pg) == Above(s, pg)
    ensures Above(s[..i - 1], pg) == Above(s, pg)
  {
    assert s[..i][..i - 1] == s[..i - 1];
  }

  /** The first loop of mdb_ovpage_free: ids below the run move up. */
  method ShiftBelow(mop: array<ID>, pg: nat, num: nat, ghost s: seq<ID>) returns (i: nat)
    requires IsList(mop[..]) && mop[0] + num < mop.Length && s == Ids(mop[..])
    modifies mop
    ensures i == Above(s, pg) && mop[0] == |s|
    ensures forall h :: 0 < h <= i ==> mop[h] == s[h - 1]
    ensures forall h :: i + num < h <= |s| + num ==> mop[h] == s[h - num - 1]
  {
    hide Above;
    i := mop[0];
    var j := i + num;
    assert s[..i] == s;
    while i > 0 && mop[i] < pg
      invariant 0 <= i <= |s| && j == i + num && mop[0] == |s|
      invariant Above(s[..i], pg) == Above(s, pg)
      invariant forall h :: 0 < h <= i ==> mop[h] == s[h - 1]
      invariant forall h :: j < h <= |s| + num ==> mop[h] == s[h - num - 1]
      decreases i
    {
      AbovePrefix(s, i, pg);
      mop[j] := mop[i];
      j := j - 1;
      i := i - 1;
    }
    AboveEnd(s, i, pg);
  }

  lemma AboveEnd(s: seq<ID>, i: nat, pg: nat)
    requires i <= |s| && (i > 0 ==> s[i - 1] >= pg) && Above(s[..i], pg) == Above(s, pg)
    ensures Above(s, pg) == i
  {
  }

  /** mdb_ovpage_free's insertion into me_pghead: ids below the run move up, then the
      run is written from its low end. */
  method InsertRange(mop: array<ID>, pg: nat, num: nat)
    requires IsList(mop[..]) && mop[0] + num < mop.Length
    modifies mop
    ensures IsList(mop[..])
    ensures var s := old(Ids(mop[..])); Ids(mop[..]) == s[..Above(s, pg)] + Run(pg, num) + s[Above(s, pg)..]
  {
    hide Above;
    ghost var s := Ids(mop[..]);
    var i := ShiftBelow(mop, pg, num, s);
    WriteRun(mop, i, i + num, pg);
    mop[0] := mop[0] + num;
    ghost var t := s[..i] + Run(pg, num) + s[i..];
    forall h | 0 <= h < |t|
      ensures mop[h + 1] == t[h]
    {
    }
    assert Ids(mop[..]) == t;
  }

  method WriteRun(mop: array<ID>, i: nat, j0: nat, pg0: nat)
    requires i <= j0 < mop.Length
    modifies mop
    ensures forall h :: 0 <= h < mop.Length && !(i < h <= j0) ==> mop[h] == old(mop[h])
    ensures forall h :: i < h <= j0 ==> mop[h] == pg0 + (j0 - h)
  {
    var j, pg := j0, pg0;
    while j > i
      invariant i <= j <= j0 && pg == pg0 + (j0 - j)
      invariant forall h :: 0 <= h < mop.Length && !(j < h <= j0) ==> mop[h] == old(mop[h])
      invariant forall h :: j < h <= j0 ==> mop[h] == pg0 + (j0 - h)
    {
      mop[j] := pg;
      j := j - 1;
      pg := pg + 1;
    }
  }

  /** As a set, inserting a run of pages that are not free is a disjoint union. */
  lemma InsertRangeIsUnion(s: seq<ID>, pg: nat, num: nat)
    requires StrictlyDescending(s) && Elems(s) !! Mvcc.Range(pg, num)
    ensures var t := s[..Above(s, pg)] + Run(pg, num) + s[Above(s, pg)..];
            StrictlyDescending(t) && Elems(t) == Elems(s) + Mvcc.Range(pg, num)
  {
    var k, r := Above(s, pg), Run(pg, num);
    RunElems(pg, num);
    AboveRun(s, pg, num);
    InsertOrdered(s, k, r, pg, num);
    hide StrictlyDescending, Above, Run, Mvcc.Range;
    forall x: nat
      ensures x in Elems(s[..k] + r + s[k..]) <==> x in Elems(s) || x in Elems(r)
    {
      InsertedMember(s, k, r, x);
    }
  }

  lemma AboveRun(s: seq<ID>, pg: nat, num: nat)
    requires StrictlyDescending(s) && Elems(s) !! Mvcc.Range(pg, num)
    ensures forall p :: 0 <= p < Above(s, pg) ==> s[p] >= pg + num
  {
    var k := Above(s, pg);
    forall p | 0 <= p < k
      ensures s[p] >= pg + num
    {
      assert s[p] in Elems(s) && s[p] >= s[k - 1] >= pg;
    }
  }

  lemma InsertedMember(s: seq<ID>, k: nat, r: seq<ID>, x: nat)
    requires k <= |s|
    ensures x in s[..k] + r + s[k..] <==> x in s || x in r
  {
    assert s == s[..k] + s[k..];
  }

  lemma InsertOrdered(s: seq<ID>, k: nat, r: seq<ID>, pg: nat, num: nat)
    requires StrictlyDescending(s) && StrictlyDescending(r) && k <= |s|
    requires forall p :: 0 <= p < k ==> s[p] >= pg + num
    requires forall p :: k <= p < |s| ==> s[p] < pg
    requires forall p :: 0 <= p < |r| ==> pg <= r[p] < pg + num
    ensures StrictlyDescending(s[..k] + r + s[k..])
  {
  }

  /** The capacity by which mdb_midl_append_range grows a list for n more ids:
      n | MDB_IDL_UM_MAX, that is, n with its low 17 bits set. */
  function GrowBy(n: nat): (g: nat)
    ensures g >= n && g >= UM_MAX
    ensures g % (UM_MAX + 1) == UM_MAX && g / (UM_MAX + 1) == n / (UM_MAX + 1)
  {
    n / (UM_MAX + 1) * (UM_MAX + 1) + UM_MAX
  }

  /** A 32-bit unsigned number taken as an int. */
  function AsInt(x: nat): int
    requires x < 0x1_0000_0000
  {
    if x < 0x8000_0000 then x else x - 0x1_0000_0000
  }

  /** mdb_midl_grow takes an int: exactly below 2^31 it grows the list by what was asked for,
      and from there on it would shrink it. */
  lemma GrowthFits(n: nat)
    requires n < 0x1_0000_0000
    ensures GrowBy(n) < 0x1_0000_0000
    ensures AsInt(GrowBy(n)) == GrowBy(n) <==> n < 0x8000_0000
    ensures n >= 0x8000_0000 ==> AsInt(GrowBy(n)) < 0
  {
  }

  /** A list length passed to mdb_midl_grow survives the cast to int exactly below 2^31. */
  lemma CastFits(n: nat)
    ensures AsInt(n % 0x1_0000_0000) == n <==> n < 0x8000_0000
  {
  }

  /** mdb_midl_append_range: the run is appended largest page first, in a larger copy of
      the list when there is no room. When the allocator refuses that, nothing changes. */
  method AppendRange(ids: array<ID>, id: nat, n: nat, memory: bool) returns (ok: bool, r: array<ID>)
    requires IsList(ids[..])
    modifies ids
    ensures ok <==> memory || old(ids[0]) + n < ids.Length
    ensures ok ==> IsList(r[..]) && Ids(r[..]) == old(Ids(ids[..])) + Run(id, n)
    ensures !ok ==> r == ids && ids[..] == old(ids[..])
    ensures ok ==> if old(ids[0]) + n < ids.Length then r == ids else fresh(r) && r.Length == ids.Length + GrowBy(n)
  {
    ghost var s := Ids(ids[..]);
    ok, r := true, ids;
    var len := ids[0];
    if len + n >= ids.Length {
      if !memory {
        return false, ids;
      }
      r := Realloc(ids, ids.Length + GrowBy(n));
      SameIds(ids[..], r[..]);
    }
    r[0] := len + n;
    WriteRun(r, len, len + n, id);
    forall h | 0 <= h < len + n
      ensures Ids(r[..])[h] == (s + Run(id, n))[h]
    {
      assert Ids(r[..])[h] == r[h + 1];
    }
  }

  lemma SameIds(a: seq<ID>, b: seq<ID>)
    requires IsList(a) && |a| <= |b| && b[..|a|] == a
    ensures IsList(b) && Ids(b) == Ids(a)
  {
    assert b[0] == b[..|a|][0] == a[0];
    forall h | 0 <= h < a[0]
      ensures Ids(b)[h] == Ids(a)[h]
    {
      assert b[h + 1] == b[..|a|][h + 1];
    }
  }

  /** realloc to a larger size. */
  method Realloc(ids: array<ID>, length: nat) returns (r: array<ID>)
    requires ids.Length <= length
    ensures fresh(r) && r.Length == length && r[..ids.Length] == ids[..]
  {
    r := new ID[length](k requires 0 <= k reads ids => if k < ids.Length then ids[k] else 0);
  }

  /** mdb_midl_append_list: in place when more than enough room is left, else in a copy that
      is longer by the list appended. */
  method AppendList(ids: array<ID>, app: array<ID>, memory: bool) returns (ok: bool, r: array<ID>)
    requires IsList(ids[..]) && IsList(app[..]) && ids != app
    modifies ids
    ensures ok <==> memory || old(ids[0]) + app[0] < ids.Length - 1
    ensures ok ==> IsList(r[..]) && Ids(r[..]) == old(Ids(ids[..])) + Ids(app[..])
    ensures !ok ==> r == ids && ids[..] == old(ids[..])
    ensures ok ==>
              if old(ids[0]) + app[0] < ids.Length - 1 then r == ids else fresh(r) && r.Length == ids.Length + app[0]
  {
    ghost var s := Ids(ids[..]);
    ok, r := true, ids;
    if ids[0] + app[0] >= ids.Length - 1 {
      if !memory {
        return false, ids;
      }
      r := Realloc(ids, ids.Length + app[0]);
      SameIds(ids[..], r[..]);
    }
    var len, i := r[0], 0;
    ghost var b := Ids(app[..]);
    while i < app[0]
      invariant 0 <= i <= app[0] && r[0] == len && app[..] == old(app[..])
      invariant forall h :: 0 <= h < len ==> r[h + 1] == s[h]
      invariant forall h :: 0 <= h < i ==> r[len + 1 + h] == b[h]
    {
      r[len + 1 + i] := app[i + 1];
      i := i + 1;
    }
    r[0] := len + app[0];
    JoinedIds(s, b, r[..]);
  }

  lemma JoinedIds(a: seq<ID>, b: seq<ID>, t: seq<ID>)
    requires IsList(t) && t[0] == |a| + |b|
    requires forall h :: 0 <= h < |a| ==> t[h + 1] == a[h]
    requires forall h :: 0 <= h < |b| ==> t[|a| + 1 + h] == b[h]
    ensures Ids(t) == a + b
  {
    forall h | 0 <= h < |a| + |b|
      ensures Ids(t)[h] == (a + b)[h]
    {
      assert Ids(t)[h] == t[h + 1];
      assert h >= |a| ==> t[|a| + 1 + (h - |a|)] == b[h - |a|];
    }
  }

  /** Merging a freeDB record into me_pghead is a disjoint union. */
  lemma RecordMergeIsUnion(head: seq<ID>, record: seq<ID>)
    requires StrictlyDescending(head) && StrictlyDescending(record) && Elems(head) !! Elems(record)
    ensures StrictlyDescending(Merge(head, record)) && Elems(Merge(head, record)) == Elems(head) + Elems(record)
  {
    MergeStrict(head, record);
    MergeElems(head, record);
  }

  /** The words mdb_midl_need asks for to hold `need` ids. */
  function NeedWords(need: nat): nat { (need + need / 4 + (256 + 2)) / 256 * 256 }

  /** The same in 32-bit unsigned arithmetic, as the code computes it. */
  function NeedWords32(num: nat, len: nat): nat {
    var need := (num + len) % 0x1_0000_0000;
    (need + need / 4 + (256 + 2)) % 0x1_0000_0000 / 256 * 256
  }

  /** The 32-bit code asks for that many words exactly if the sum with its quarter and the
      rounding fits; else for fewer. */
  lemma NeedFits(num: nat, len: nat)
    requires num < 0x1_0000_0000
    ensures var need := num + len;
            if need + need / 4 + (256 + 2) < 0x1_0000_0000 then NeedWords32(num, len) == NeedWords(need)
            else NeedWords32(num, len) < NeedWords(need)
  {
    var need := num + len;
    if need < 0x1_0000_0000 {
      assert need % 0x1_0000_0000 == need;
    } else {
      var low := need % 0x1_0000_0000;
      assert low <= need - 0x1_0000_0000;
    }
  }

  /** mdb_midl_need: the buffer is replaced by a larger one when num more ids would
      not fit, with a quarter and at least 256 words to spare; it fails only when the
      allocator refuses that. */
  method Need(ids: array<ID>, num: nat, memory: bool) returns (ok: bool, r: array<ID>)
    requires IsList(ids[..])
    ensures IsList(r[..]) && Ids(r[..]) == Ids(ids[..])
    ensures ok <==> r[0] + num < r.Length
    ensures ok <==> memory || ids[0] + num < ids.Length
    ensures r == ids || (fresh(r) && r.Length > ids.Length && r.Length % 256 == 255)
    ensures r == ids <==> ids[0] + num < ids.Length || !memory
    ensures r != ids ==> var need := num + ids[0]; need + need / 4 + 2 <= r.Length + 1 <= need + need / 4 + 258
  {
    ok, r := true, ids;
    var need := num + ids[0];
    if need > ids.Length - 1 {
      if !memory {
        return false, ids;
      }
      r := Realloc(ids, NeedWords(need) - 1);
      SameIds(ids[..], r[..]);
    }
  }
}
