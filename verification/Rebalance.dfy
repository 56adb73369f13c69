/**
 Rebalancing a leaf page with a neighbour (mdb_rebalance, mdb_node_move,
 mdb_page_merge): the two pages keep their nodes in order, and no node that is moved
 fails to fit.
 */
module Rebalance {
  import opened Arith
  import opened PageLayout
  import opened SlottedPage
  import opened SplitPoint
  import opened PageSplit

  const FILL_THRESHOLD := 250

  datatype Outcome = Unchanged | MovedOne | Merged

  /** The space nodes and offsets take. */
  ghost function Used(p: Page): int
    reads p
  {
    PMax(p) - (p.upper - p.lower)
  }

  /** PAGEFILL, in tenths of a percent. */
  function PageFill(p: Page): int
    requires PMax(p) > 0
    reads p
  {
    1000 * (PMax(p) - (p.upper - p.lower)) / PMax(p)
  }

  /** A leaf page of the tree: whole nodes, each at most me_nodemax. */
  ghost predicate Leaf(p: Page, nodemax: nat)
    reads p, p.ptrs, p.mem
  {
    && p.Valid() && p.leaf && PMax(p) > 0 && nodemax == NodeMax(PMax(p))
    && forall i :: 0 <= i < p.Num() ==> Len(p.Nodes()[i]) <= nodemax
  }

  /** Nodes and offsets account for the space used. */
  lemma UsedIs(p: Page)
    requires p.Valid()
    ensures Used(p) == Sum(Spaces(p.Nodes()), 0, p.Num()) + 2 * p.Num()
  {
    hide AllNodes, NodesAt, Tiled;
    TiledSum(p.ptrs[..p.Num()], Spaces(p.Nodes()), p.upper, p.mem.Length);
  }

  /** A page with at most one node is at most half full. */
  lemma OneNode(p: Page, nodemax: nat)
    requires Leaf(p, nodemax) && p.Num() <= 1
    ensures 2 * Used(p) <= PMax(p)
  {
    hide AllNodes, NodesAt, Heap;
    UsedIs(p);
    var sz := Spaces(p.Nodes());
    if p.Num() == 1 {
      assert Sum(sz, 0, 1) == Sum(sz, 0, 0) + sz[0];
      assert Len(p.Nodes()[0]) <= nodemax;
    }
  }

  lemma Ratio(u: int, p: int)
    requires p > 0
    ensures 1000 * u / p < FILL_THRESHOLD <==> 4 * u < p
  {
    var d := 1000 * u / p;
    if d < FILL_THRESHOLD {
      MulLe(d, 249, p);
    } else {
      MulLe(250, d, p);
    }
  }

  lemma FillIs(p: Page)
    requires PMax(p) > 0
    ensures PageFill(p) < FILL_THRESHOLD <==> 4 * Used(p) < PMax(p)
  {
    Ratio(PMax(p) - (p.upper - p.lower), PMax(p));
  }

  /** Reads node i. */
  method NodeAt(p: Page, i: nat, nodemax: nat) returns (q: Request)
    requires Leaf(p, nodemax) && i < p.Num()
    ensures var n := p.Nodes()[i]; q == Again(n, nodemax) && NodeOk(n) && n.LeafNode?
  {
    hide Tiled, Decode, HasNode, NodeOk;
    InHeap(p.mem[..], p.ptrs[..p.Num()], p.leaf, p.upper, p.Nodes(), i);
    var node := p.mem[p.ptrs[i]..];
    assert node == p.mem[..][p.ptrs[..p.Num()][i]..];
    DecodeOk(node, p.leaf);
    q := Again(Decode(node, p.leaf), nodemax);
  }

  /** Adds node i of src to dst at slot j. */
  method AddFrom(src: Page, i: nat, dst: Page, j: nat, nodemax: nat) returns (rc: AddResult)
    requires Leaf(src, nodemax) && dst.Valid() && Apart(src, dst) && i < src.Num() && j <= dst.Num()
    modifies dst, dst.ptrs, dst.mem
    ensures dst.Valid()
    ensures var n := src.Nodes()[i];
            && (rc.Added? <==> Even(Len(n)) + 2 <= old(dst.upper - dst.lower)) && (rc.Added? || rc.Full?)
            && (rc.Added? ==>
                  && dst.Nodes() == InsertAt(old(dst.Nodes()), j, n)
                  && dst.upper - dst.lower == old(dst.upper - dst.lower) - Even(Len(n)) - 2)
            && (!rc.Added? ==> dst.Nodes() == old(dst.Nodes()))
  {
    hide AllNodes, NodesAt, Heap, NodeOk, Request.Is, Request.Space, Request.Spills, Request.Ok, Again, InsertAt;
    ghost var n := src.Nodes()[i];
    var q := NodeAt(src, i, nodemax);
    assert Len(n) <= nodemax;
    AgainIs(n, nodemax);
    rc := dst.NodeAdd(j, q);
  }

  lemma Ends(s: seq<Node>, d: seq<Node>)
    requires |s| > 0
    ensures RemoveAt(s, |s| - 1) == s[..|s| - 1] && InsertAt(d, 0, s[|s| - 1]) == [s[|s| - 1]] + d
    ensures RemoveAt(s, 0) == s[1..] && InsertAt(d, |d|, s[0]) == d + [s[0]]
  {
  }

  /** mdb_node_move for leaf pages. */
  method NodeMove(src: Page, dst: Page, fromleft: bool, nodemax: nat) returns (rc: AddResult)
    requires Leaf(src, nodemax) && Leaf(dst, nodemax) && Apart(src, dst) && src.Num() > 0
    requires 4 * Used(dst) < PMax(dst)
    modifies src, src.ptrs, src.mem, dst, dst.ptrs, dst.mem
    ensures rc.Added? && src.Valid() && dst.Valid()
    ensures var s, d := old(src.Nodes()), old(dst.Nodes());
            if fromleft then src.Nodes() == s[..|s| - 1] && dst.Nodes() == [s[|s| - 1]] + d
            else src.Nodes() == s[1..] && dst.Nodes() == d + [s[0]]
  {
    hide AllNodes, NodesAt, Heap, InsertAt, RemoveAt, Page.Valid, Page.Nodes;
    Ends(src.Nodes(), dst.Nodes());
    var i := if fromleft then src.Num() - 1 else 0;
    var j := if fromleft then 0 else dst.Num();
    assert Len(src.Nodes()[i]) <= nodemax;
    rc := AddFrom(src, i, dst, j, nodemax);
    if !rc.Added? {
      return;
    }
    src.NodeDel(i);
  }

  lemma AppendOne(d: seq<Node>, s: seq<Node>, i: nat)
    requires i < |s|
    ensures InsertAt(d + s[..i], |d| + i, s[i]) == d + s[..i + 1]
  {
  }

  lemma SumStep(sz: seq<nat>, i: nat)
    requires i < |sz|
    ensures Sum(sz, 0, i + 1) == Sum(sz, 0, i) + sz[i] <= Sum(sz, 0, |sz|)
  {
    SumSplit(sz, 0, i + 1, |sz|);
  }

  /** mdb_page_merge for leaf pages: src's nodes after dst's. */
  method PageMerge(src: Page, dst: Page, nodemax: nat) returns (rc: AddResult)
    requires Leaf(src, nodemax) && Leaf(dst, nodemax) && Apart(src, dst) && Used(src) + Used(dst) <= PMax(dst)
    modifies dst, dst.ptrs, dst.mem
    ensures rc.Added? && dst.Valid() && dst.Nodes() == old(dst.Nodes()) + src.Nodes()
  {
    hide AllNodes, NodesAt, Heap, Sum, InsertAt, Even, Len, Page.Valid, Page.Nodes, PMax;
    ghost var s, d, sz := src.Nodes(), dst.Nodes(), Spaces(src.Nodes());
    ghost var room := dst.upper - dst.lower;
    UsedIs(src);
    SumNone(sz);
    rc := Added;
    var i, j := 0, dst.Num();
    while i < src.Num()
      invariant 0 <= i <= src.Num() && j == |d| + i && rc.Added?
      invariant Leaf(src, nodemax) && src.Nodes() == s && dst.Valid() && dst.Nodes() == d + s[..i]
      invariant dst.upper - dst.lower == room - Sum(sz, 0, i) - 2 * i
    {
      SumStep(sz, i);
      AppendOne(d, s, i);
      rc := AddFrom(src, i, dst, j, nodemax);
      if !rc.Added? {
        return;
      }
      i, j := i + 1, j + 1;
    }
  }

  lemma SumNone(sz: seq<nat>)
    ensures Sum(sz, 0, 0) == 0
  {
  }

  /** Whatever the rebalancing does, the pages fit. */
  lemma Fits(mp: Page, np: Page, nodemax: nat)
    requires Leaf(mp, nodemax) && Leaf(np, nodemax) && Apart(mp, np)
    requires PageFill(mp) < FILL_THRESHOLD || mp.Num() < 1
    ensures 4 * Used(mp) < PMax(mp)
    ensures PageFill(np) < FILL_THRESHOLD || np.Num() <= 1 ==> Used(mp) + Used(np) <= PMax(mp)
  {
    hide AllNodes, NodesAt, Heap;
    FillIs(mp);
    FillIs(np);
    if mp.Num() == 0 {
      UsedIs(mp);
    }
    if np.Num() <= 1 {
      OneNode(np, nodemax);
    }
  }

  /** mdb_rebalance for a leaf page mp that is not the root and its neighbour np, to the
      left if fromleft. */
  method Rebalance(mp: Page, np: Page, fromleft: bool, nodemax: nat) returns (rc: AddResult, out: Outcome)
    requires Leaf(mp, nodemax) && Leaf(np, nodemax) && Apart(mp, np)
    modifies mp, mp.ptrs, mp.mem, np, np.ptrs, np.mem
    ensures rc.Added? && mp.Valid() && np.Valid()
    ensures out.Unchanged? <==> old(4 * Used(mp) >= PMax(mp) && mp.Num() >= 1)
    ensures out.MovedOne? <==> !out.Unchanged? && old(4 * Used(np) >= PMax(np) && np.Num() > 1)
    ensures var m, n := old(mp.Nodes()), old(np.Nodes());
            match out
            case Unchanged => mp.Nodes() == m && np.Nodes() == n
            case MovedOne =>
              && |mp.Nodes()| == |m| + 1 && |np.Nodes()| == |n| - 1 >= 1
              && (if fromleft then np.Nodes() + mp.Nodes() == n + m else mp.Nodes() + np.Nodes() == m + n)
            case Merged => if fromleft then np.Nodes() == n + m else mp.Nodes() == m + n
  {
    hide AllNodes, NodesAt, Heap, PageFill, Used, Len, Page.Valid;
    rc, out := Added, Unchanged;
    FillIs(mp);
    FillIs(np);
    var minkeys, thresh := 1, FILL_THRESHOLD;
    if PageFill(mp) >= thresh && mp.Num() >= minkeys {
      return;
    }
    Fits(mp, np, nodemax);
    ghost var m, n := mp.Nodes(), np.Nodes();
    if PageFill(np) >= thresh && np.Num() > minkeys {
      out := MovedOne;
      rc := NodeMove(np, mp, fromleft, nodemax);
      MoveKeeps(m, n);
    } else {
      out := Merged;
      if !fromleft {
        rc := PageMerge(np, mp, nodemax);
      } else {
        rc := PageMerge(mp, np, nodemax);
      }
    }
  }

  lemma MoveKeeps(m: seq<Node>, n: seq<Node>)
    requires |n| > 0
    ensures n[..|n| - 1] + ([n[|n| - 1]] + m) == n + m
    ensures (m + [n[0]]) + n[1..] == m + n
  {
  }
}
