/**
 What mdb_txn_commit does with the page lists when a nested transaction commits:
 pages the child dirtied leave the parent's spill list, pages it spilled leave the
 parent's dirty list, the dirty lists become their union, and the spill lists are
 joined and sorted.
 */
module NestedCommit {
  import Idl
  import IdlSortLimit
  import IdlSortMain
  import Pghead
  import opened DirtyList

  // ---------------------------------------------------------------- spill list

  /** Spill list entries are page numbers shifted left by one; an odd entry is
      deleted. This entry is for a page in c. */
  ghost predicate Dropped(e: nat, c: seq<ID2>) { exists j :: 0 <= j < |c| && 2 * c[j].mid == e }

  /** The order of a spill list. Live entries are distinct; a page that was unspilled in
      several nested transactions has left as many deleted entries. */
  ghost predicate Tidy(s: seq<nat>) {
    forall i, j :: 0 <= i < j < |s| ==> s[i] > s[j] || (s[i] == s[j] && s[i] % 2 == 1)
  }

  lemma BetweenIsKept(e: nat, c: seq<ID2>, i: nat)
    requires Ascending(c) && i <= |c|
    requires i > 0 ==> e > 2 * c[i-1].mid
    requires i < |c| ==> e < 2 * c[i].mid
    ensures !Dropped(e, c)
  {
    forall j | 0 <= j < |c|
      ensures 2 * c[j].mid != e
    {
      assert j < i ==> c[j].mid <= c[i-1].mid;
      assert j >= i ==> c[j].mid >= c[i].mid;
    }
  }

  /** The list while i entries of c have been looked up: positions after x are settled
      (entries of c became 1), those after y hold all the marks. */
  ghost predicate Marking(p: array<nat>, p0: seq<nat>, c: seq<ID2>, i: nat, x: nat, y: nat)
    reads p
  {
    && p.Length > |p0| && x <= y <= |p0| && i <= |c|
    && p[0] == Idl.MAX_ID
    && (forall h :: 0 < h <= x ==> p[h] == p0[h-1])
    && (forall h :: x < h <= |p0| ==> p[h] == if Dropped(p0[h-1], c) then 1 else p0[h-1])
    && (forall h :: x <= h < y ==> !Dropped(p0[h], c)) && (y < |p0| ==> Dropped(p0[y], c))
    && (i > 0 && x > 0 ==> p0[x-1] > 2 * c[i-1].mid)
  }

  /** One page of the child: walk left past smaller entries, then mark its own. */
  method MarkOne(p: array<nat>, pn: nat, x0: nat, y0: nat, ghost p0: seq<nat>, ghost c: seq<ID2>, ghost i: nat)
    returns (x: nat, y: nat)
    requires Tidy(p0) && Ascending(c) && Marking(p, p0, c, i, x0, y0)
    requires i < |c| && pn == 2 * c[i].mid <= Idl.MAX_ID
    modifies p
    ensures Marking(p, p0, c, i + 1, x, y)
  {
    hide Dropped;
    x, y := x0, y0;
    while pn > p[x]
      invariant Marking(p, p0, c, i, x, y)
      decreases x
    {
      BetweenIsKept(p0[x-1], c, i);
      x := x - 1;
    }
    if pn == p[x] {
      assert Dropped(p0[x-1], c) by {
        IsDropped(p0[x-1], c, i);
      }
      p[x] := 1;
      x := x - 1;
      y := x;
    }
  }

  lemma IsDropped(e: nat, c: seq<ID2>, i: nat)
    requires i < |c| && e == 2 * c[i].mid
    ensures Dropped(e, c)
  {
  }

  /** Keeps the entries that are not marked deleted. */
  ghost function Evens(s: seq<nat>): seq<nat> {
    if s == [] then [] else Evens(s[..|s|-1]) + if s[|s|-1] % 2 == 0 then [s[|s|-1]] else []
  }

  lemma {:induction false} EvensHold(s: seq<nat>, e: nat)
    ensures e in Evens(s) <==> e in s && e % 2 == 0
  {
    if s != [] {
      EvensHold(s[..|s|-1], e);
      assert s == s[..|s|-1] + [s[|s|-1]];
    }
  }

  lemma {:induction false} EvensShort(s: seq<nat>)
    ensures |Evens(s)| <= |s|
  {
    if s != [] {
      EvensShort(s[..|s|-1]);
    }
  }

  lemma EvensNext(s: seq<nat>, k: nat)
    requires k < |s|
    ensures Evens(s[..k + 1]) == Evens(s[..k]) + if s[k] % 2 == 0 then [s[k]] else []
    ensures |Evens(s[..k])| <= k
  {
    assert s[..k + 1][..k] == s[..k];
    EvensShort(s[..k]);
  }

  /** Squashes deleted entries out of positions y0+1..n. */
  method Squash(p: array<nat>, y0: nat, n: nat) returns (y: nat)
    requires y0 <= n < p.Length
    modifies p
    ensures y0 <= y <= n && p[1..y + 1] == old(p[1..y0 + 1] + Evens(p[y0 + 1..n + 1]))
  {
    hide Evens;
    ghost var before, s := p[1..y0 + 1], p[y0 + 1..n + 1];
    y := SquashAll(p, y0, n, before, s);
    TwoParts(p, before, Evens(s));
  }

  /** Positions before x have been looked at: `kept` are the entries of s kept of them, in
      place from position y0+1 on. */
  ghost predicate Squashing(p: array<nat>, pre: seq<nat>, s: seq<nat>, kept: seq<nat>, y0: nat, x: nat, y: nat)
    reads p
  {
    && y0 == |pre| && y - y0 == |kept| && y0 <= y < x <= y0 + |s| + 1 <= p.Length
    && (forall h :: x <= h <= y0 + |s| ==> p[h] == s[h - y0 - 1])
    && (forall h :: 0 < h <= y0 ==> p[h] == pre[h - 1])
    && (forall h :: y0 < h <= y ==> p[h] == kept[h - y0 - 1])
  }

  method SquashOne(p: array<nat>, x: nat, y: nat, ghost pre: seq<nat>, ghost s: seq<nat>, ghost kept: seq<nat>,
                   ghost y0: nat)
    returns (y': nat, ghost kept': seq<nat>)
    requires Squashing(p, pre, s, kept, y0, x, y) && x <= y0 + |s|
    modifies p
    ensures kept' == kept + if s[x - y0 - 1] % 2 == 0 then [s[x - y0 - 1]] else []
    ensures Squashing(p, pre, s, kept', y0, x + 1, y')
  {
    y', kept' := y, kept;
    if p[x] % 2 == 0 {
      kept' := kept + [p[x]];
      y' := y + 1;
      p[y'] := p[x];
    }
  }

  method SquashAll(p: array<nat>, y0: nat, n: nat, ghost pre: seq<nat>, ghost s: seq<nat>) returns (y: nat)
    requires y0 <= n < p.Length && pre == p[1..y0 + 1] && s == p[y0 + 1..n + 1]
    modifies p
    ensures Squashing(p, pre, s, Evens(s), y0, n + 1, y)
  {
    y := y0;
    var x := y0 + 1;
    ghost var kept := [];
    assert Evens(s[..0]) == [];
    assert Squashing(p, pre, s, kept, y0, x, y);
    hide Evens, Squashing;
    while x <= n
      invariant y0 < x <= n + 1 && 0 <= y
      invariant kept == Evens(s[..x - y0 - 1]) && Squashing(p, pre, s, kept, y0, x, y)
    {
      EvensNext(s, x - y0 - 1);
      y, kept := SquashOne(p, x, y, pre, s, kept, y0);
      x := x + 1;
    }
    assert s[..n - y0] == s;
  }

  lemma TwoParts(p: array<nat>, a: seq<nat>, b: seq<nat>)
    requires |a| + |b| < p.Length
    requires forall h :: 0 < h <= |a| ==> p[h] == a[h - 1]
    requires forall h :: |a| < h <= |a| + |b| ==> p[h] == b[h - |a| - 1]
    ensures p[1..|a| + |b| + 1] == a + b
  {
  }

  lemma {:induction false} EvensOrder(s: seq<nat>)
    requires forall i, j :: 0 <= i < j < |s| && s[i] % 2 == 0 && s[j] % 2 == 0 ==> s[i] > s[j]
    ensures Idl.StrictlyDescending(Evens(s))
  {
    if s != [] {
      var n := |s| - 1;
      EvensOrder(s[..n]);
      forall i | 0 <= i < |Evens(s[..n])|
        ensures s[n] % 2 == 0 ==> Evens(s[..n])[i] > s[n]
      {
        EvensHold(s[..n], Evens(s[..n])[i]);
      }
    }
  }

  /** The spill list left: deleted entries may be gone, entries of c are. */
  lemma SpillLeft(p0: seq<nat>, m: seq<nat>, c: seq<ID2>, y: nat)
    requires Tidy(p0) && |m| == |p0| && y <= |m|
    requires forall h :: 0 <= h < |m| ==> m[h] == if Dropped(p0[h], c) then 1 else p0[h]
    requires forall h :: 0 <= h < y ==> !Dropped(p0[h], c)
    ensures Tidy(m[..y] + Evens(m[y..]))
    ensures forall e :: e % 2 == 0 ==> (e in m[..y] + Evens(m[y..]) <==> e in p0 && !Dropped(e, c))
  {
    hide Dropped;
    EvensOrder(m[y..]);
    forall i, j | 0 <= i < y && 0 <= j < |Evens(m[y..])|
      ensures m[i] > Evens(m[y..])[j]
    {
      var e := Evens(m[y..])[j];
      EvensHold(m[y..], e);
      var h :| y <= h < |m| && m[h] == e;
    }
    forall e | e % 2 == 0
      ensures e in m[..y] + Evens(m[y..]) <==> e in p0 && !Dropped(e, c)
    {
      SpillMember(p0, m, c, y, e);
    }
  }

  lemma SpillMember(p0: seq<nat>, m: seq<nat>, c: seq<ID2>, y: nat, e: nat)
    requires |m| == |p0| && y <= |m| && e % 2 == 0
    requires forall h :: 0 <= h < |m| ==> m[h] == if Dropped(p0[h], c) then 1 else p0[h]
    ensures e in m[..y] + Evens(m[y..]) <==> e in p0 && !Dropped(e, c)
  {
    hide Dropped;
    EvensHold(m[y..], e);
    assert m == m[..y] + m[y..];
    if e in m {
      var h :| 0 <= h < |m| && m[h] == e;
    }
    if e in p0 && !Dropped(e, c) {
      var h :| 0 <= h < |p0| && p0[h] == e;
      assert m[h] == e;
    }
  }

  /** Marks every page of the child's dirty list; p[0] is the sentinel of the scan. */
  method MarkAll(p: array<nat>, src: array<ID2>) returns (y: nat)
    requires Idl.IsList(p[..]) && Tidy(Idl.Ids(p[..]))
    requires IsList(src[..]) && Ascending(Items(src[..]))
    requires forall e :: e in Items(src[..]) ==> 2 * e.mid <= Idl.MAX_ID
    modifies p
    ensures var p0, c := old(Idl.Ids(p[..])), Items(src[..]);
            && y <= |p0| && (forall h :: 0 <= h < y ==> !Dropped(p0[h], c)) && (y < |p0| ==> Dropped(p0[y], c))
            && forall h :: 0 <= h < |p0| ==> p[h + 1] == if Dropped(p0[h], c) then 1 else p0[h]
  {
    hide Dropped;
    ghost var p0, c := Idl.Ids(p[..]), Items(src[..]);
    var x, i := p[0], 0;
    y := x;
    p[0] := Idl.MAX_ID;
    while i < src[0].mid
      invariant 0 <= i <= |c| && 0 <= x && Marking(p, p0, c, i, x, y)
    {
      assert src[i + 1] == c[i] && c[i] in c;
      x, y := MarkOne(p, 2 * src[i + 1].mid, x, y, p0, c, i);
      i := i + 1;
    }
    forall h | 0 <= h < x
      ensures !Dropped(p0[h], c)
    {
      BetweenIsKept(p0[h], c, |c|);
    }
  }

  /** Where the first entry for a page of c is. */
  ghost function FirstDropped(p: seq<nat>, c: seq<ID2>): (y: nat)
    ensures y <= |p| && (forall h :: 0 <= h < y ==> !Dropped(p[h], c)) && (y < |p| ==> Dropped(p[y], c))
  {
    if p == [] || Dropped(p[0], c) then 0 else 1 + FirstDropped(p[1..], c)
  }

  /** What is left of a spill list: everything before the first entry for a page of c, and
      of the rest the live entries for other pages. */
  ghost function Remaining(p: seq<nat>, c: seq<ID2>): seq<nat> {
    var y := FirstDropped(p, c);
    p[..y] + Evens(Marked(p[y..], c))
  }

  ghost function Marked(p: seq<nat>, c: seq<ID2>): (m: seq<nat>)
    ensures |m| == |p| && forall h :: 0 <= h < |p| ==> m[h] == if Dropped(p[h], c) then 1 else p[h]
  {
    seq(|p|, h requires 0 <= h < |p| => if Dropped(p[h], c) then 1 else p[h])
  }

  lemma RemainingIs(p: seq<nat>, m: seq<nat>, c: seq<ID2>, y: nat)
    requires |m| == |p| && y <= |p| && forall h :: 0 <= h < |p| ==> m[h] == if Dropped(p[h], c) then 1 else p[h]
    requires (forall h :: 0 <= h < y ==> !Dropped(p[h], c)) && (y < |p| ==> Dropped(p[y], c))
    ensures m[..y] + Evens(m[y..]) == Remaining(p, c)
  {
    hide Dropped;
    var z := FirstDropped(p, c);
    assert y == z;
    assert m[..y] == p[..y];
    forall h | 0 <= h < |p| - y
      ensures m[y..][h] == Marked(p[y..], c)[h]
    {
      assert p[y..][h] == p[y + h];
    }
    assert m[y..] == Marked(p[y..], c);
  }

  /** Removes the pages of the child's dirty list from the parent's spill list. */
  method DropFromSpill(p: array<nat>, src: array<ID2>)
    requires Idl.IsList(p[..]) && Tidy(Idl.Ids(p[..]))
    requires IsList(src[..]) && Ascending(Items(src[..]))
    requires forall e :: e in Items(src[..]) ==> 2 * e.mid <= Idl.MAX_ID
    modifies p
    ensures Idl.IsList(p[..]) && Tidy(Idl.Ids(p[..])) && p[0] <= old(p[0])
    ensures Idl.Ids(p[..]) == Remaining(old(Idl.Ids(p[..])), Items(src[..]))
    ensures forall e :: e % 2 == 0 ==>
              (e in Idl.Ids(p[..]) <==> e in old(Idl.Ids(p[..])) && !Dropped(e, Items(src[..])))
  {
    hide Dropped, Tidy, Ascending;
    var n := p[0];
    ghost var p0, c := Idl.Ids(p[..]), Items(src[..]);
    var y := MarkAll(p, src);
    ghost var m := p[1..n + 1];
    SpillLeft(p0, m, c, y);
    RemainingIs(p0, m, c, y);
    assert p[1..y + 1] == m[..y] && p[y + 1..n + 1] == m[y..];
    y := Squash(p, y, n);
    p[0] := y;
    assert Idl.Ids(p[..]) == p[1..y + 1];
  }

  // ---------------------------------------------------------------- dirty list

  method ShiftDown(dst: array<ID2>, k: nat)
    requires IsList(dst[..]) && 1 <= k <= dst[0].mid
    modifies dst
    ensures IsList(dst[..]) && Items(dst[..]) == old(Items(dst[..])[..k - 1] + Items(dst[..])[k..])
  {
    var y, n := k, dst[0].mid;
    while y < n
      invariant k <= y <= n && dst[0].mid == n
      invariant forall h :: 0 < h < k ==> dst[h] == old(dst[h])
      invariant forall h :: k <= h < y ==> dst[h] == old(dst[h + 1])
      invariant forall h :: y <= h <= n && h > k ==> dst[h] == old(dst[h])
    {
      dst[y] := dst[y + 1];
      y := y + 1;
    }
    dst[0] := dst[0].(mid := n - 1);
    CutOut(old(dst[..]), dst[..], k);
  }

  lemma CutOut(a: seq<ID2>, b: seq<ID2>, k: nat)
    requires IsList(a) && 1 <= k <= a[0].mid && |b| == |a| && b[0].mid == a[0].mid - 1
    requires forall h :: 0 < h < k ==> b[h] == a[h]
    requires forall h :: k <= h < a[0].mid ==> b[h] == a[h + 1]
    ensures IsList(b) && Items(b) == Items(a)[..k - 1] + Items(a)[k..]
  {
    var s := Items(a)[..k - 1] + Items(a)[k..];
    forall h | 0 <= h < b[0].mid
      ensures Items(b)[h] == s[h]
    {
      assert Items(b)[h] == b[h + 1];
    }
  }

  lemma RemovedHolds(s: seq<ID2>, k: nat, e: ID2)
    requires Ascending(s) && k < |s|
    ensures Ascending(s[..k] + s[k + 1..])
    ensures e in s[..k] + s[k + 1..] <==> e in s && e.mid != s[k].mid
  {
    assert s == s[..k] + [s[k]] + s[k + 1..];
    if e in s[..k] {
      var i :| 0 <= i < k && s[i] == e;
    }
    if e in s[k + 1..] {
      var i :| k < i < |s| && s[i] == e;
    }
  }

  /** Removes page m from a dirty list, if it is there. */
  method RemovePage(dst: array<ID2>, m: nat)
    requires IsList(dst[..]) && Ascending(Items(dst[..]))
    modifies dst
    ensures IsList(dst[..]) && Ascending(Items(dst[..])) && dst[0].mid <= old(dst[0].mid)
    ensures forall e :: e in Items(dst[..]) <==> e in old(Items(dst[..])) && e.mid != m
  {
    hide Ascending;
    ghost var s := Items(dst[..]);
    var y := Search(dst, m);
    FoundAt(dst[..], y, m);
    if y <= dst[0].mid && dst[y].mid == m {
      assert s[y - 1] == dst[y];
      forall e
        ensures Ascending(s[..y - 1] + s[y..])
        ensures e in s[..y - 1] + s[y..] <==> e in s && e.mid != m
      {
        RemovedHolds(s, y - 1, e);
      }
      ShiftDown(dst, y);
    } else {
      assert forall e :: e in s ==> e.mid != m;
    }
  }

  /** Removes the pages the child spilled from the parent's dirty list. */
  method RemoveSpilled(dst: array<ID2>, spill: array<nat>)
    requires IsList(dst[..]) && Ascending(Items(dst[..])) && Idl.IsList(spill[..])
    modifies dst
    ensures IsList(dst[..]) && Ascending(Items(dst[..])) && dst[0].mid <= old(dst[0].mid)
    ensures forall e :: e in Items(dst[..]) <==> e in old(Items(dst[..])) && 2 * e.mid !in Idl.Ids(spill[..])
  {
    hide Ascending;
    var i := 1;
    ghost var l := Idl.Ids(spill[..]);
    while i <= spill[0]
      invariant 1 <= i <= spill[0] + 1 && spill[..] == old(spill[..])
      invariant IsList(dst[..]) && Ascending(Items(dst[..])) && dst[0].mid <= old(dst[0].mid)
      invariant forall e :: e in Items(dst[..]) <==> e in old(Items(dst[..])) && 2 * e.mid !in l[..i - 1]
    {
      var pn := spill[i];
      assert l[..i] == l[..i - 1] + [pn];
      if pn % 2 == 0 {
        RemovePage(dst, pn / 2);
      }
      i := i + 1;
    }
    assert l[..i - 1] == l;
  }

  // ---------------------------------------------------------------- commit

  ghost function Mids(s: seq<ID2>): set<nat> { set e | e in s :: e.mid }

  lemma {:induction false} MidsCount(s: seq<ID2>)
    requires Ascending(s)
    ensures |Mids(s)| == |s|
  {
    if s != [] {
      var n := |s| - 1;
      MidsCount(s[..n]);
      assert s == s[..n] + [s[n]];
      assert Mids(s) == Mids(s[..n]) + {s[n].mid};
      assert s[n].mid !in Mids(s[..n]);
    }
  }

  /** The dirty pages the child sees of itself and its parent: the parent's not hidden
      by a page the child spilled, and its own. */
  ghost function Visible(d: seq<ID2>, c: seq<ID2>, spill: seq<nat>): set<nat> {
    (set e | e in d && 2 * e.mid !in spill :: e.mid) + Mids(c)
  }

  lemma UnionCount(d0: seq<ID2>, d: seq<ID2>, c: seq<ID2>, spill: seq<nat>)
    requires Ascending(d) && Ascending(c)
    requires forall e :: e in d <==> e in d0 && 2 * e.mid !in spill
    ensures |Union(d, c)| == |Visible(d0, c, spill)|
  {
    hide Union;
    UnionAscending(d, c);
    MidsCount(Union(d, c));
    assert Mids(Union(d, c)) == Mids(d) + Mids(c) by {
      hide Mids;
      forall m
        ensures m in Mids(Union(d, c)) <==> m in Mids(d) || m in Mids(c)
      {
        UnionMids(d, c, m);
      }
    }
    VisibleIs(d0, d, c, spill);
  }

  lemma VisibleIs(d0: seq<ID2>, d: seq<ID2>, c: seq<ID2>, spill: seq<nat>)
    requires forall e :: e in d <==> e in d0 && 2 * e.mid !in spill
    ensures Visible(d0, c, spill) == Mids(d) + Mids(c)
  {
    var shown := set e | e in d0 && 2 * e.mid !in spill :: e.mid;
    forall m
      ensures m in shown <==> m in Mids(d)
    {
      if m in shown {
        var e :| e in d0 && 2 * e.mid !in spill && e.mid == m;
        assert e in d;
      }
      if m in Mids(d) {
        var e :| e in d && e.mid == m;
        assert e in d0;
      }
    }
  }

  lemma UnionMids(d: seq<ID2>, c: seq<ID2>, m: nat)
    requires Ascending(d) && Ascending(c)
    ensures m in Mids(Union(d, c)) <==> m in Mids(d) || m in Mids(c)
  {
    hide Union;
    if e :| e in Union(d, c) && e.mid == m {
      UnionHolds(d, c, e);
    }
    if e :| e in c && e.mid == m {
      UnionHolds(d, c, e);
    } else if e :| e in d && e.mid == m {
      UnionHolds(d, c, e);
      assert !Has(c, m);
    }
  }

  /** The lists merged: the parent's dirty list becomes the union by page number, with the
      child's entries winning. dirtyRoom is the child's mt_dirty_room: the list capacity
      less the dirty pages visible to it (all of them its own or its parent's when the
      parent has no parent). */
  method MergeDirty(dst: array<ID2>, src: array<ID2>, nested: bool, dirtyRoom: nat)
    requires dst != src && dst.Length == Idl.UM_MAX + 1
    requires IsList(dst[..]) && Ascending(Items(dst[..])) && IsList(src[..]) && Ascending(Items(src[..]))
    requires |Union(Items(dst[..]), Items(src[..]))| <= Idl.UM_MAX - dirtyRoom
    requires !nested ==> |Union(Items(dst[..]), Items(src[..]))| == Idl.UM_MAX - dirtyRoom
    modifies dst
    ensures IsList(dst[..]) && Ascending(Items(dst[..]))
    ensures forall e :: e in Items(dst[..]) <==>
              e in Items(src[..]) || (e in old(Items(dst[..])) && !Has(Items(src[..]), e.mid))
  {
    hide Union, Has, Ascending;
    ghost var d, c := Items(dst[..]), Items(src[..]);
    var x := dst[0].mid;
    dst[0] := dst[0].(mid := 0);
    assert dst[1..x + 1] == d;
    var len;
    if nested {
      len := UnionLength(dst, src, x);
    } else {
      len := Idl.UM_MAX - dirtyRoom;
    }
    MergeInto(dst, src, x, len);
    UnionAscending(d, c);
    forall e
      ensures e in Items(dst[..]) <==> e in c || (e in d && !Has(c, e.mid))
    {
      UnionHolds(d, c, e);
    }
  }

  // ---------------------------------------------------------------- spill lists merged

  /** mt_spill_pgs, which may be NULL. */
  ghost predicate SpillOk(a: array?<nat>)
    reads a
  {
    a != null ==> Idl.IsList(a[..])
  }

  ghost function Spilled(a: array?<nat>): seq<nat>
    requires SpillOk(a)
    reads a
  {
    if a == null then [] else Idl.Ids(a[..])
  }

  /** No page is live in both lists: mdb_page_spill does not spill a page that is on an
      ancestor's list. */
  ghost predicate LiveApart(a: seq<nat>, b: seq<nat>) {
    forall e :: e % 2 == 0 && e in a ==> e !in b
  }

  lemma {:induction false} TidyOnce(s: seq<nat>, e: nat)
    requires Tidy(s) && e % 2 == 0
    ensures multiset(s)[e] <= 1
  {
    if s != [] {
      var n := |s| - 1;
      TidyOnce(s[..n], e);
      assert s == s[..n] + [s[n]];
      if s[n] == e {
        assert e !in s[..n];
      }
    }
  }

  lemma AppendedOnce(a: seq<nat>, b: seq<nat>, e: nat)
    requires Tidy(a) && Tidy(b) && LiveApart(a, b) && e % 2 == 0
    ensures multiset(a + b)[e] <= 1
  {
    hide Tidy;
    TidyOnce(a, e);
    TidyOnce(b, e);
    assert multiset(a + b) == multiset(a) + multiset(b);
    assert e in multiset(a) <==> e in a;
    assert e in multiset(b) <==> e in b;
  }

  lemma SortedTidy(u: seq<nat>, v: seq<nat>)
    requires multiset(u) == multiset(v) && Idl.Descending(v)
    requires forall e :: e % 2 == 0 ==> multiset(u)[e] <= 1
    ensures Tidy(v)
  {
    forall i, j | 0 <= i < j < |v|
      ensures v[i] > v[j] || (v[i] == v[j] && v[i] % 2 == 1)
    {
      if v[i] == v[j] {
        Idl.Twice(v, i, j);
        assert multiset(u)[v[i]] >= 2;
      }
    }
  }

  lemma SameMembers(u: seq<nat>, v: seq<nat>)
    requires multiset(u) == multiset(v)
    ensures forall e :: e in u <==> e in v
  {
    assert forall e :: e in u <==> e in multiset(u);
    assert forall e :: e in v <==> e in multiset(v);
  }

  /** mdb_midl_sort of a whole list. */
  method SortList(ids: array<nat>)
    requires Idl.IsList(ids[..]) && ids[0] <= IdlSortLimit.SORTABLE
    modifies ids
    ensures Idl.IsList(ids[..]) && Idl.Descending(Idl.Ids(ids[..]))
    ensures multiset(Idl.Ids(ids[..])) == old(multiset(Idl.Ids(ids[..])))
  {
    ghost var n := ids[0];
    ghost var s := ids[..];
    var ok := IdlSortMain.Sort(ids, 0);
    assert ids[..][0] == s[0] && Idl.Ids(ids[..]) == ids[..][1..n + 1];
    forall i, j | 0 <= i < j < n
      ensures Idl.Ids(ids[..])[i] >= Idl.Ids(ids[..])[j]
    {
      assert ids[i + 1] >= ids[j + 1];
    }
  }

  /** The child's spill list is appended to the parent's, which is then sorted, or becomes
      the parent's. When there is no memory for that, the parent keeps its own. */
  method MergeSpill(pspill: array?<nat>, cspill: array?<nat>, memory: bool) returns (ok: bool, spill: array?<nat>)
    requires SpillOk(pspill) && SpillOk(cspill) && (pspill == null || pspill != cspill)
    requires |Spilled(pspill)| + |Spilled(cspill)| <= IdlSortLimit.SORTABLE
    modifies pspill
    ensures SpillOk(spill)
    ensures ok <==>
              || memory || pspill == null || cspill == null
              || old(|Spilled(pspill)|) + old(|Spilled(cspill)|) < pspill.Length - 1
    ensures forall e :: e in Spilled(spill) <==> e in old(Spilled(pspill)) || (ok && e in old(Spilled(cspill)))
    ensures old(Tidy(Spilled(pspill)) && Tidy(Spilled(cspill)) && LiveApart(Spilled(pspill), Spilled(cspill))) ==>
              Tidy(Spilled(spill))
  {
    ok, spill := true, pspill;
    if cspill != null {
      if pspill != null {
        hide Tidy, LiveApart, Idl.Descending;
        ghost var a, b := Spilled(pspill), Spilled(cspill);
        var list;
        ok, list := Pghead.AppendList(pspill, cspill, memory);
        ghost var u := Idl.Ids(list[..]);
        SortList(list);
        spill := list;
        SameMembers(u, Idl.Ids(list[..]));
        if Tidy(a) && Tidy(b) && LiveApart(a, b) {
          forall e | e % 2 == 0
            ensures multiset(u)[e] <= 1
          {
            TidyOnce(a, e);
            AppendedOnce(a, b, e);
          }
          SortedTidy(u, Idl.Ids(list[..]));
        }
      } else {
        spill := cspill;
      }
    }
  }

  // ---------------------------------------------------------------- the whole merge

  /** No dirty page is on the spill list. */
  ghost predicate Apart(d: seq<ID2>, l: seq<nat>) { forall e :: e in d ==> 2 * e.mid !in l }

  lemma StayApart(d0: seq<ID2>, d: seq<ID2>, c: seq<ID2>, p0: seq<nat>, b: seq<nat>, p: seq<nat>)
    requires Apart(d0, p0) && Apart(c, b)
    requires forall e :: e in d ==> e in c || (e in d0 && 2 * e.mid !in b)
    requires forall e :: e % 2 == 0 && e in p ==> (e in p0 && !Dropped(e, c)) || e in b
    ensures Apart(d, p)
  {
    forall e | e in d
      ensures 2 * e.mid !in p
    {
      if e in c {
        var j :| 0 <= j < |c| && c[j] == e;
        IsDropped(2 * e.mid, c, j);
      }
    }
  }

  lemma RemainingNone(c: seq<ID2>)
    ensures Remaining([], c) == []
  {
    assert Marked([], c) == [];
  }

  /** The parent's lists lose the pages that the child's lists replace. */
  method DropHidden(dst: array<ID2>, pspill: array?<nat>, src: array<ID2>, cspill: array?<nat>)
    requires dst != src && (pspill == null || pspill != cspill)
    requires IsList(dst[..]) && Ascending(Items(dst[..])) && IsList(src[..]) && Ascending(Items(src[..]))
    requires SpillOk(pspill) && Tidy(Spilled(pspill)) && SpillOk(cspill)
    requires forall e :: e in Items(src[..]) ==> 2 * e.mid <= Idl.MAX_ID
    modifies dst, pspill
    ensures IsList(dst[..]) && Ascending(Items(dst[..]))
    ensures forall e :: e in Items(dst[..]) <==> e in old(Items(dst[..])) && 2 * e.mid !in old(Spilled(cspill))
    ensures SpillOk(pspill) && Tidy(Spilled(pspill)) && |Spilled(pspill)| <= old(|Spilled(pspill)|)
    ensures Spilled(pspill) == Remaining(old(Spilled(pspill)), Items(src[..]))
    ensures forall e :: e % 2 == 0 ==>
              (e in Spilled(pspill) <==> e in old(Spilled(pspill)) && !Dropped(e, Items(src[..])))
  {
    hide Dropped, Ascending, Tidy, Remaining;
    RemainingNone(Items(src[..]));
    if pspill != null && pspill[0] > 0 {
      DropFromSpill(pspill, src);
    }
    if cspill != null && cspill[0] > 0 {
      RemoveSpilled(dst, cspill);
    }
  }

  /** The list part of committing a nested transaction. The parent's dirty list becomes
      the union by page number with the child's buffers winning, less the pages the child
      spilled; the parent's spill list loses the pages the child dirtied and gains those it
      spilled. A page that is dirty stays off the spill list. */
  method CommitLists(dst: array<ID2>, pspill: array?<nat>, src: array<ID2>, cspill: array?<nat>, nested: bool,
                     dirtyRoom: nat, memory: bool)
    returns (ok: bool, spill: array?<nat>)
    requires dst != src && (pspill == null || pspill != cspill) && dst.Length == Idl.UM_MAX + 1
    requires IsList(dst[..]) && Ascending(Items(dst[..])) && IsList(src[..]) && Ascending(Items(src[..]))
    requires SpillOk(pspill) && Tidy(Spilled(pspill)) && SpillOk(cspill)
    requires |Spilled(pspill)| + |Spilled(cspill)| <= IdlSortLimit.SORTABLE
    requires forall e :: e in Items(src[..]) ==> 2 * e.mid <= Idl.MAX_ID
    requires |Visible(Items(dst[..]), Items(src[..]), Spilled(cspill))| <= Idl.UM_MAX - dirtyRoom
    requires !nested ==> |Visible(Items(dst[..]), Items(src[..]), Spilled(cspill))| == Idl.UM_MAX - dirtyRoom
    modifies dst, pspill
    ensures IsList(dst[..]) && Ascending(Items(dst[..])) && SpillOk(spill)
    ensures ok <==>
              || memory || pspill == null || cspill == null
              || |Remaining(old(Spilled(pspill)), Items(src[..]))| + old(|Spilled(cspill)|) < pspill.Length - 1
    ensures forall e :: e in Items(dst[..]) <==>
              || e in Items(src[..])
              || (e in old(Items(dst[..])) && !Has(Items(src[..]), e.mid) && 2 * e.mid !in old(Spilled(cspill)))
    ensures forall e :: e % 2 == 0 ==>
              (e in Spilled(spill) <==>
                || (e in old(Spilled(pspill)) && !Dropped(e, Items(src[..])))
                || (ok && e in old(Spilled(cspill))))
    ensures old(Tidy(Spilled(cspill)) && LiveApart(Spilled(pspill), Spilled(cspill))) ==> Tidy(Spilled(spill))
    ensures old(Apart(Items(dst[..]), Spilled(pspill)) && Apart(Items(src[..]), Spilled(cspill))) ==>
              Apart(Items(dst[..]), Spilled(spill))
  {
    hide Union, Dropped, Has, Visible, Ascending, Tidy, LiveApart, Apart, Remaining;
    ghost var d0, c, p0, b := Items(dst[..]), Items(src[..]), Spilled(pspill), Spilled(cspill);
    DropHidden(dst, pspill, src, cspill);
    ghost var p1 := Spilled(pspill);
    UnionCount(d0, Items(dst[..]), c, b);
    MergeDirty(dst, src, nested, dirtyRoom);
    ok, spill := MergeSpill(pspill, cspill, memory);
    StillLiveApart(p0, p1, b);
    if Apart(d0, p0) && Apart(c, b) {
      StayApart(d0, Items(dst[..]), c, p0, b, Spilled(spill));
    }
  }

  lemma StillLiveApart(p0: seq<nat>, p1: seq<nat>, b: seq<nat>)
    requires forall e :: e % 2 == 0 && e in p1 ==> e in p0
    ensures LiveApart(p0, b) ==> LiveApart(p1, b)
  {
  }
}
