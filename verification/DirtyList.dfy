/**
 Dirty lists (MDB_ID2L, midl.c) and the in-place union that mdb_txn_commit makes of
 a child's dirty list and its parent's. Word 0 of a list counts the entries that
 follow it in ascending page order.
 */
module DirtyList {
  import Idl

  /** MDB_ID2: a page number and the buffer holding the dirty page. */
  datatype ID2 = ID2(mid: nat, mptr: nat)

  predicate Ascending(s: seq<ID2>) {
    && (forall i :: 0 <= i < |s| ==> s[i].mid > 0)
    && (forall i, j :: 0 <= i < j < |s| ==> s[i].mid < s[j].mid)
  }

  ghost predicate IsList(b: seq<ID2>) { |b| > 0 && b[0].mid < |b| }

  ghost function Items(b: seq<ID2>): seq<ID2>
    requires IsList(b)
  {
    b[1..b[0].mid + 1]
  }

  /** Page m is in the list. */
  predicate Has(s: seq<ID2>, m: nat) { exists i :: 0 <= i < |s| && s[i].mid == m }

  // ---------------------------------------------------------------- search, insert

  /** mdb_mid2l_search: the position of the first entry not below `id`. */
  method Search(ids: array<ID2>, id: nat) returns (cursor: nat)
    requires IsList(ids[..]) && Ascending(Items(ids[..]))
    ensures 1 <= cursor <= ids[0].mid + 1
    ensures forall k :: 1 <= k < cursor ==> ids[k].mid < id
    ensures forall k :: cursor <= k <= ids[0].mid ==> ids[k].mid >= id
  {
    var base := 0;
    cursor := 1;
    var val := 0;
    var n := ids[0].mid;
    AscendingInBuffer(ids[..]);
    while 0 < n
      invariant 0 <= base && 0 <= n && base + n <= ids[0].mid
      invariant forall k :: 1 <= k <= base ==> ids[k].mid < id
      invariant forall k :: base + n < k <= ids[0].mid ==> ids[k].mid > id
      invariant (val < 0 && cursor == base + n + 1) || (val > 0 && cursor == base) || (val == 0 && cursor == 1)
      invariant val == 0 ==> base == 0 && n == ids[0].mid
    {
      var pivot := n / 2;
      cursor := base + pivot + 1;
      val := if id < ids[cursor].mid then -1 else if id > ids[cursor].mid then 1 else 0;
      if val < 0 {
        n := pivot;
      } else if val > 0 {
        base := cursor;
        n := n - (pivot + 1);
      } else {
        return;
      }
    }
    if val > 0 {
      cursor := cursor + 1;
    }
  }

  lemma AscendingInBuffer(b: seq<ID2>)
    requires IsList(b) && Ascending(Items(b))
    ensures forall i, j :: 1 <= i < j <= b[0].mid ==> b[i].mid < b[j].mid
  {
    forall i, j | 1 <= i < j <= b[0].mid
      ensures b[i].mid < b[j].mid
    {
      assert Items(b)[i - 1].mid < Items(b)[j - 1].mid;
    }
  }

  /** Where page m belongs: the number of leading entries below it. */
  ghost function Place(s: seq<ID2>, m: nat): (k: nat)
    ensures k <= |s|
  {
    if s == [] || s[0].mid >= m then 0 else 1 + Place(s[1..], m)
  }

  ghost function Inserted(s: seq<ID2>, id: ID2): seq<ID2> {
    s[..Place(s, id.mid)] + [id] + s[Place(s, id.mid)..]
  }

  lemma {:induction false} PlaceIs(s: seq<ID2>, k: nat, m: nat)
    requires k <= |s| && (forall i :: 0 <= i < k ==> s[i].mid < m) && (k < |s| ==> s[k].mid >= m)
    ensures Place(s, m) == k
  {
    if k > 0 {
      PlaceIs(s[1..], k - 1, m);
    }
  }

  lemma {:induction false} PlaceBounds(s: seq<ID2>, m: nat)
    ensures forall i :: 0 <= i < Place(s, m) ==> s[i].mid < m
    ensures Place(s, m) < |s| ==> s[Place(s, m)].mid >= m
  {
    if s != [] && s[0].mid < m {
      PlaceBounds(s[1..], m);
    }
  }

  lemma InsertedOrder(s: seq<ID2>, k: nat, id: ID2)
    requires Ascending(s) && k <= |s| && id.mid > 0
    requires (forall i :: 0 <= i < k ==> s[i].mid < id.mid) && (forall i :: k <= i < |s| ==> s[i].mid > id.mid)
    ensures Ascending(s[..k] + [id] + s[k..])
  {
  }

  /** Inserting a new page keeps the order and adds exactly that entry. */
  lemma InsertedIs(s: seq<ID2>, id: ID2, e: ID2)
    requires Ascending(s) && !Has(s, id.mid) && id.mid > 0
    ensures Ascending(Inserted(s, id))
    ensures e in Inserted(s, id) <==> e in s || e == id
  {
    var k := Place(s, id.mid);
    PlaceBounds(s, id.mid);
    forall i | k <= i < |s|
      ensures s[i].mid > id.mid
    {
      assert s[i].mid != id.mid;
    }
    InsertedOrder(s, k, id);
    assert s == s[..k] + s[k..];
  }

  /** mdb_mid2l_insert: 0, or -1 for a duplicate, or -2 when the list is full. */
  method Insert(ids: array<ID2>, id: ID2) returns (rc: int)
    requires ids.Length == Idl.UM_MAX + 1 && IsList(ids[..]) && Ascending(Items(ids[..]))
    modifies ids
    ensures IsList(ids[..])
    ensures rc == (if old(Has(Items(ids[..]), id.mid)) then -1 else if old(ids[0].mid) >= Idl.UM_MAX then -2 else 0)
    ensures Items(ids[..]) == if rc == 0 then old(Inserted(Items(ids[..]), id)) else old(Items(ids[..]))
  {
    hide Ascending;
    var x := Search(ids, id.mid);
    ghost var s := Items(ids[..]);
    FoundAt(ids[..], x, id.mid);
    if x <= ids[0].mid && ids[x].mid == id.mid {
      return -1;
    }
    if ids[0].mid >= Idl.UM_MAX {
      return -2;
    }
    ShiftUp(ids, x);
    ids[x] := id;
    assert Items(ids[..]) == s[..x - 1] + [id] + s[x - 1..];
    rc := 0;
  }

  /** What the search position says about the list. */
  lemma FoundAt(b: seq<ID2>, x: nat, m: nat)
    requires IsList(b) && 1 <= x <= b[0].mid + 1
    requires forall k :: 1 <= k < x ==> b[k].mid < m
    requires forall k :: x <= k <= b[0].mid ==> b[k].mid >= m
    requires Ascending(Items(b))
    ensures Place(Items(b), m) == x - 1
    ensures Has(Items(b), m) <==> x <= b[0].mid && b[x].mid == m
  {
    var s := Items(b);
    assert forall k :: 0 <= k < |s| ==> s[k] == b[k + 1];
    PlaceIs(s, x - 1, m);
    if x <= b[0].mid && b[x].mid == m {
      assert s[x - 1].mid == m;
    } else {
      assert forall i :: x - 1 < i < |s| ==> s[i].mid > s[x - 1].mid;
    }
  }

  method ShiftUp(ids: array<ID2>, x: nat)
    requires IsList(ids[..]) && ids[0].mid + 1 < ids.Length && 1 <= x <= ids[0].mid + 1
    modifies ids
    ensures ids[0].mid == old(ids[0].mid) + 1
    ensures forall h :: 1 <= h < x ==> ids[h] == old(ids[h])
    ensures forall h :: x < h <= ids[0].mid ==> ids[h] == old(ids[h - 1])
  {
    ids[0] := ids[0].(mid := ids[0].mid + 1);
    var i := ids[0].mid;
    while i > x
      invariant x <= i <= old(ids[0].mid) + 1 && ids[0].mid == old(ids[0].mid) + 1
      invariant forall h :: 1 <= h <= i && h <= old(ids[0].mid) ==> ids[h] == old(ids[h])
      invariant forall h :: i < h <= old(ids[0].mid) + 1 ==> ids[h] == old(ids[h - 1])
    {
      ids[i] := ids[i - 1];
      i := i - 1;
    }
  }

  // ---------------------------------------------------------------- union

  /** The union of a parent's list d and a child's list c, from their tails; on a
      common page the child's buffer wins. */
  ghost function Union(d: seq<ID2>, c: seq<ID2>): seq<ID2>
    decreases |d| + |c|
  {
    if |c| == 0 then d
    else if |d| > 0 && c[|c|-1].mid < d[|d|-1].mid then Union(d[..|d|-1], c) + [d[|d|-1]]
    else if |d| > 0 && c[|c|-1].mid == d[|d|-1].mid then Union(d[..|d|-1], c[..|c|-1]) + [c[|c|-1]]
    else Union(d, c[..|c|-1]) + [c[|c|-1]]
  }

  /** Which entries the union holds: all of the child's, and the parent's whose page
      the child does not have. */
  lemma {:induction false} UnionHolds(d: seq<ID2>, c: seq<ID2>, e: ID2)
    requires Ascending(d) && Ascending(c)
    ensures e in Union(d, c) <==> e in c || (e in d && !Has(c, e.mid))
    decreases |d| + |c|
  {
    if |c| > 0 {
      var c', x := c[..|c|-1], c[|c|-1];
      assert c == c' + [x];
      HasSplits(c, e.mid);
      if |d| > 0 && x.mid <= d[|d|-1].mid {
        var d', y := d[..|d|-1], d[|d|-1];
        assert d == d' + [y];
        if x.mid < y.mid {
          UnionHolds(d', c, e);
          assert !Has(c, y.mid);
        } else {
          UnionHolds(d', c', e);
          assert e in d' ==> e.mid != x.mid;
        }
      } else {
        UnionHolds(d, c', e);
        assert e in d ==> e.mid != x.mid;
      }
    }
  }

  lemma HasSplits(c: seq<ID2>, m: nat)
    requires |c| > 0
    ensures Has(c, m) <==> Has(c[..|c|-1], m) || c[|c|-1].mid == m
  {
    if Has(c[..|c|-1], m) {
      var i :| 0 <= i < |c| - 1 && c[i].mid == m;
    }
    if i :| 0 <= i < |c| && c[i].mid == m {
      assert i < |c| - 1 ==> c[..|c|-1][i].mid == m;
    }
  }

  lemma AppendLargest(u: seq<ID2>, x: ID2)
    requires Ascending(u) && x.mid > 0 && forall e :: e in u ==> e.mid < x.mid
    ensures Ascending(u + [x])
  {
  }

  lemma {:induction false} UnionAscending(d: seq<ID2>, c: seq<ID2>)
    requires Ascending(d) && Ascending(c)
    ensures Ascending(Union(d, c))
    decreases |d| + |c|
  {
    if |c| > 0 {
      var x, c' := c[|c|-1], c[..|c|-1];
      if |d| > 0 && x.mid < d[|d|-1].mid {
        UnionAscending(d[..|d|-1], c);
        UnionBelow(d[..|d|-1], c, d[|d|-1]);
      } else if |d| > 0 && x.mid == d[|d|-1].mid {
        UnionAscending(d[..|d|-1], c');
        UnionBelow(d[..|d|-1], c', x);
      } else {
        UnionAscending(d, c');
        UnionBelow(d, c', x);
      }
    }
  }

  lemma UnionBelow(d: seq<ID2>, c: seq<ID2>, x: ID2)
    requires Ascending(d) && Ascending(c) && Ascending(Union(d, c)) && x.mid > 0
    requires |d| > 0 ==> d[|d|-1].mid < x.mid
    requires |c| > 0 ==> c[|c|-1].mid < x.mid
    ensures Ascending(Union(d, c) + [x])
  {
    forall e | e in Union(d, c)
      ensures e.mid < x.mid
    {
      UnionHolds(d, c, e);
    }
    AppendLargest(Union(d, c), x);
  }

  // ---------------------------------------------------------------- its length

  /** How many pages two lists have in common. */
  ghost function Common(d: seq<ID2>, c: seq<ID2>): int { |d| + |c| - |Union(d, c)| }

  lemma CommonStep(d: seq<ID2>, i: nat, c: seq<ID2>, y: nat)
    requires i <= |d| && y <= |c|
    ensures i == 0 || y == 0 ==> Common(d[..i], c[..y]) == 0
    ensures i > 0 && y > 0 && c[y-1].mid < d[i-1].mid ==> Common(d[..i], c[..y]) == Common(d[..i-1], c[..y])
    ensures i > 0 && y > 0 && c[y-1].mid == d[i-1].mid ==> Common(d[..i], c[..y]) == 1 + Common(d[..i-1], c[..y-1])
    ensures i > 0 && y > 0 && c[y-1].mid > d[i-1].mid ==> Common(d[..i], c[..y]) == Common(d[..i], c[..y-1])
  {
    assert i > 0 ==> d[..i][..i-1] == d[..i-1];
    assert y > 0 ==> c[..y][..y-1] == c[..y-1];
    if i == 0 {
      UnionEmpty(c[..y]);
    }
  }

  lemma {:induction false} UnionEmpty(c: seq<ID2>)
    ensures Union([], c) == c
  {
    if |c| > 0 {
      UnionEmpty(c[..|c|-1]);
    }
  }

  /** Entries above all of d are not common. */
  lemma {:induction false} CommonSkips(d: seq<ID2>, c: seq<ID2>, y: nat, y': nat)
    requires y <= y' <= |c|
    requires forall k :: y <= k < y' && |d| > 0 ==> c[k].mid > d[|d|-1].mid
    ensures Common(d, c[..y']) == Common(d, c[..y])
    decreases y'
  {
    if y < y' {
      CommonSkips(d, c, y, y' - 1);
      assert d[..|d|] == d;
      CommonStep(d, |d|, c, y');
      CommonStep(d, |d|, c, y' - 1);
    }
  }

  /** The length computed before a commit into a nested parent: both lengths less the
      pages counted twice. Word 0 of dst, zeroed, stops the scan. */
  method UnionLength(dst: array<ID2>, src: array<ID2>, x: nat) returns (len: nat)
    requires x < dst.Length && dst[0].mid == 0 && Ascending(dst[1..x + 1])
    requires IsList(src[..]) && Ascending(Items(src[..]))
    ensures len == |Union(dst[1..x + 1], Items(src[..]))|
  {
    hide Union;
    ghost var d, c := dst[1..x + 1], Items(src[..]);
    var total: int := x + src[0].mid;
    var pos := Search(src, dst[x].mid + 1);
    var y, i := pos - 1, x;
    assert c[..|c|] == c && d[..x] == d;
    CommonSkips(d, c, y, |c|);
    while y > 0 && i > 0
      invariant 0 <= i <= x && 0 <= y <= |c|
      invariant total - Common(d[..i], c[..y]) == |d| + |c| - Common(d, c)
      decreases y
    {
      var yp := src[y].mid;
      while yp < dst[i].mid
        invariant 0 <= i <= x
        invariant total - Common(d[..i], c[..y]) == |d| + |c| - Common(d, c)
        decreases i
      {
        CommonStep(d, i, c, y);
        i := i - 1;
      }
      CommonStep(d, i, c, y);
      CommonStep(d, i, c, y - 1);
      if yp == dst[i].mid {
        i := i - 1;
        total := total - 1;
      }
      y := y - 1;
    }
    CommonStep(d, i, c, y);
    len := total;
  }

  // ---------------------------------------------------------------- merge

  /** One step of the merge, seen from the finished list u. */
  lemma UnionStep(d: seq<ID2>, x: nat, c: seq<ID2>, y: nat, u: seq<ID2>, i: nat)
    requires x <= |d| && 0 < y <= |c| && i <= |u| && u[..i] == Union(d[..x], c[..y])
    ensures i > 0 && i >= x
    ensures x > 0 && c[y-1].mid < d[x-1].mid ==> u[i-1] == d[x-1] && u[..i-1] == Union(d[..x-1], c[..y])
    ensures x > 0 && c[y-1].mid == d[x-1].mid ==> u[i-1] == c[y-1] && u[..i-1] == Union(d[..x-1], c[..y-1])
    ensures x == 0 || c[y-1].mid > d[x-1].mid ==> u[i-1] == c[y-1] && u[..i-1] == Union(d[..x], c[..y-1])
  {
    assert x > 0 ==> d[..x][..x-1] == d[..x-1];
    assert c[..y][..y-1] == c[..y-1];
    assert u[..i][..i-1] == u[..i-1] && u[..i][i-1] == u[i-1];
    UnionLongest(d[..x], c[..y]);
  }

  lemma {:induction false} UnionLongest(d: seq<ID2>, c: seq<ID2>)
    ensures |Union(d, c)| >= |d| && |Union(d, c)| >= |c|
    decreases |d| + |c|
  {
    if |c| > 0 {
      if |d| > 0 && c[|c|-1].mid < d[|d|-1].mid {
        UnionLongest(d[..|d|-1], c);
      } else if |d| > 0 && c[|c|-1].mid == d[|d|-1].mid {
        UnionLongest(d[..|d|-1], c[..|c|-1]);
      } else {
        UnionLongest(d, c[..|c|-1]);
      }
    }
  }

  /** dst during the merge: the parent's first x entries are in place and the finished
      list u stands from i on. */
  ghost predicate Merging(dst: array<ID2>, d: seq<ID2>, x: nat, u: seq<ID2>, i: nat)
    requires x <= |d| && x <= i <= |u| < dst.Length
    reads dst
  {
    && dst[0].mid == 0
    && (forall h :: 0 < h <= x ==> dst[h] == d[h-1])
    && (forall h :: i < h <= |u| ==> dst[h] == u[h-1])
  }

  /** One entry of the child: larger entries of the parent move up, an entry for the
      same page is dropped, the child's takes its place. */
  method MergeOne(dst: array<ID2>, x0: nat, i0: nat, e: ID2, ghost d: seq<ID2>, ghost c: seq<ID2>, ghost y: nat,
                  ghost u: seq<ID2>)
    returns (x: nat, i: nat)
    requires x0 <= |d| && x0 <= i0 <= |u| < dst.Length && Merging(dst, d, x0, u, i0)
    requires 0 < y <= |c| && e == c[y-1] && e.mid > 0 && u[..i0] == Union(d[..x0], c[..y])
    modifies dst
    ensures x <= |d| && x <= i <= |u| && Merging(dst, d, x, u, i) && u[..i] == Union(d[..x], c[..y-1])
  {
    hide Union;
    x, i := x0, i0;
    UnionStep(d, x, c, y, u, i);
    while e.mid < dst[x].mid
      invariant x <= |d| && x <= i <= |u| && Merging(dst, d, x, u, i)
      invariant u[..i] == Union(d[..x], c[..y])
      decreases x
    {
      UnionStep(d, x, c, y, u, i);
      dst[i] := dst[x];
      i := i - 1;
      x := x - 1;
      UnionStep(d, x, c, y, u, i);
    }
    UnionStep(d, x, c, y, u, i);
    if e.mid == dst[x].mid {
      x := x - 1;   // free(dst[x].mptr)
    }
    dst[i] := e;
    i := i - 1;
    UnionFits(d[..x], c[..y-1], x);
  }

  lemma UnionFits(d: seq<ID2>, c: seq<ID2>, x: nat)
    requires |d| == x
    ensures |Union(d, c)| >= x
  {
    UnionLongest(d, c);
  }

  /** Merging a child's dirty list into its parent's, in place from the tail. With len
      the size of the union the write position never runs over entries still to be
      read, and meets the read position exactly when the child's list is done. */
  method MergeInto(dst: array<ID2>, src: array<ID2>, x0: nat, len: nat)
    requires dst != src && x0 < dst.Length && dst[0].mid == 0 && Ascending(dst[1..x0 + 1])
    requires IsList(src[..]) && Ascending(Items(src[..]))
    requires len == |Union(dst[1..x0 + 1], Items(src[..]))| < dst.Length
    modifies dst
    ensures IsList(dst[..]) && Items(dst[..]) == Union(old(dst[1..x0 + 1]), Items(src[..]))
  {
    hide Union;
    ghost var d, c := dst[1..x0 + 1], Items(src[..]);
    ghost var u := Union(d, c);
    var y, x, i := src[0].mid, x0, len;
    assert d[..x] == d && c[..y] == c && u[..i] == u;
    UnionFits(d, c, x0);
    while y > 0
      invariant 0 <= y <= |c| && 0 <= x <= |d| && x <= i <= |u| && Merging(dst, d, x, u, i)
      invariant u[..i] == Union(d[..x], c[..y])
      decreases y
    {
      assert src[y] == c[y-1];
      x, i := MergeOne(dst, x, i, src[y], d, c, y, u);
      y := y - 1;
    }
    UnionDone(d[..x], c[..0]);
    assert i == x;   // the assertion in the source
    dst[0] := dst[0].(mid := len);
    assert forall h :: 0 < h <= len ==> dst[h] == u[h-1];
    assert Items(dst[..]) == u;
  }

  lemma UnionDone(d: seq<ID2>, c: seq<ID2>)
    requires c == []
    ensures Union(d, c) == d
  {
  }
}
