/**
 Splitting a page (mdb_page_split): the nodes of the page, with the new one among
 them, are moved in order to a right sibling and to a copy that replaces the page.
 */
module PageSplit {
  import opened PageLayout
  import opened SlottedPage
  import opened SplitPoint
  import opened Wrappers

  /** A node whose data is on the page is no larger than me_nodemax. */
  ghost predicate Inline(n: Node, nodemax: nat) {
    n.LeafNode? && !BigData(n.flags) ==> Len(n) <= nodemax
  }

  ghost predicate AllInline(ns: seq<Node>, nodemax: nat) {
    forall i :: 0 <= i < |ns| ==> Inline(ns[i], nodemax)
  }

  /** How a node is added again to another page. */
  function Again(n: Node, nodemax: nat): Request {
    if n.LeafNode? then Request(true, n.key, n.dsize, n.data, 0, n.flags, false, nodemax, None)
    else Request(false, n.key, 0, [], n.pgno, 0, false, nodemax, None)
  }

  lemma AgainIs(n: Node, nodemax: nat)
    requires NodeOk(n) && Inline(n, nodemax)
    ensures var q := Again(n, nodemax);
            && q.Ok() && !q.Spills() && q.Space() == Even(Len(n)) && q.leaf == n.LeafNode?
            && forall x :: q.Is(x) <==> x == n
  {
  }

  /** The first node of a branch page has no key. */
  function Blank(q: Request, blank: bool): Request {
    if blank then q.(key := []) else q
  }

  ghost function BlankFirst(ns: seq<Node>): seq<Node> {
    if ns != [] && ns[0].BranchNode? then [BranchNode(ns[0].pgno, [])] + ns[1..] else ns
  }

  /** n is entry i of the nodes with q inserted at newindx. */
  ghost predicate EntryIs(ns: seq<Node>, newindx: nat, q: Request, i: nat, blank: bool, n: Node)
    requires newindx <= |ns| && i <= |ns|
  {
    if i == newindx then Blank(q, blank).Is(n)
    else n == if blank && ns[Source(i, newindx)].BranchNode? then BranchNode(ns[Source(i, newindx)].pgno, [])
      else ns[Source(i, newindx)]
  }

  /** What entry i of the nodes with q inserted at newindx costs. */
  ghost function Cost(ns: seq<Node>, newindx: nat, q: Request, i: nat): nat
    requires newindx <= |ns| && i <= |ns|
  {
    2 + if i == newindx then q.Space() else Even(Len(ns[Source(i, newindx)]))
  }

  ghost function Costs(ns: seq<Node>, newindx: nat, q: Request): (c: seq<nat>)
    requires newindx <= |ns|
    ensures |c| == |ns| + 1 && forall i :: 0 <= i < |c| ==> c[i] == Cost(ns, newindx, q, i)
  {
    seq(|ns| + 1, i requires 0 <= i <= |ns| => Cost(ns, newindx, q, i))
  }

  /** The scratch offsets: entry h, unless it is the new one, is a node of mp. */
  ghost predicate Offsets(mp: Page, offs: array<nat>, newindx: nat, i: nat)
    requires mp.Valid()
    reads mp, mp.ptrs, mp.mem, offs
  {
    && newindx <= mp.Num() < offs.Length
    && forall h :: i <= h <= mp.Num() && h != newindx ==> offs[h] == mp.ptrs[Source(h, newindx)]
  }

  /** dst and its buffers are not those of mp. */
  ghost predicate Apart(mp: Page, dst: Page) {
    mp != dst && mp.ptrs != dst.ptrs && mp.mem != dst.mem && mp.leaf == dst.leaf && mp.mem.Length == dst.mem.Length
  }

  /** The space for nodes and offsets on an empty page. */
  function PMax(p: Page): nat { if p.mem.Length < PAGEHDRSZ then 0 else p.mem.Length - PAGEHDRSZ }

  /** "prepare to insert": the offsets of mp with a gap at newindx. */
  method Prepare(mp: Page, newindx: nat, offs: array<nat>)
    requires mp.Valid() && newindx <= mp.Num() < offs.Length && offs != mp.ptrs
    modifies offs
    ensures Offsets(mp, offs, newindx, 0)
  {
    hide AllNodes, Heap, NodesAt;
    var nkeys := mp.Num();
    var i, j := 0, 0;
    while i < nkeys
      invariant 0 <= i <= nkeys && j == (if i <= newindx then i else i + 1)
      invariant forall h :: 0 <= h < j && h != newindx ==> offs[h] == mp.ptrs[Source(h, newindx)]
    {
      if i == newindx {
        offs[j] := 0;
        j := j + 1;
      }
      offs[j] := mp.ptrs[i];
      i, j := i + 1, j + 1;
    }
  }

  /** The node of mp at entry i. */
  method Fetch(mp: Page, offs: array<nat>, i: nat, newindx: nat, nodemax: nat) returns (q: Request)
    requires mp.Valid() && Offsets(mp, offs, newindx, i) && i <= mp.Num() && i != newindx
    requires AllInline(mp.Nodes(), nodemax)
    ensures var n := mp.Nodes()[Source(i, newindx)];
            NodeOk(n) && n.LeafNode? == mp.leaf && Inline(n, nodemax) && q == Again(n, nodemax)
  {
    hide Tiled, Decode, HasNode, NodeOk;
    var ofs := offs[i];
    ghost var k := Source(i, newindx);
    InHeap(mp.mem[..], mp.ptrs[..mp.Num()], mp.leaf, mp.upper, mp.Nodes(), k);
    assert mp.mem[ofs..] == mp.mem[..][mp.ptrs[..mp.Num()][k]..];
    DecodeOk(mp.mem[ofs..], mp.leaf);
    q := Again(Decode(mp.mem[ofs..], mp.leaf), nodemax);
  }

  /** What is asked of mdb_node_add for entry i. */
  method Entry(mp: Page, offs: array<nat>, i: nat, first: bool, newindx: nat, q: Request) returns (e: Request)
    requires mp.Valid() && Offsets(mp, offs, newindx, i) && i <= mp.Num() && newindx <= mp.Num()
    requires q.Ok() && q.leaf == mp.leaf && AllInline(mp.Nodes(), q.nodemax)
    ensures e.Ok() && e.leaf == mp.leaf && (e.Spills() ==> i == newindx && q.Spills() && e.overflow == q.overflow)
    ensures e.Space() + 2 == if !mp.leaf && first then BLANK else Cost(mp.Nodes(), newindx, q, i)
    ensures forall n :: e.Is(n) ==> EntryIs(mp.Nodes(), newindx, q, i, !mp.leaf && first, n)
  {
    hide AllNodes, Heap, NodesAt, Decode, HasNode, NodeOk, Tiled, Offsets, AllInline;
    e := q;
    if i != newindx {
      e := Fetch(mp, offs, i, newindx, q.nodemax);
      AgainIs(mp.Nodes()[Source(i, newindx)], q.nodemax);
    }
    e := Blank(e, !mp.leaf && first);
  }

  /** One round of "Move nodes". */
  method MoveOne(mp: Page, offs: array<nat>, dst: Page, i: nat, newindx: nat, q: Request) returns (r: AddResult)
    requires mp.Valid() && dst.Valid() && Apart(mp, dst) && offs != mp.ptrs
    requires Offsets(mp, offs, newindx, i) && i <= mp.Num() && newindx <= mp.Num() && dst.Num() <= i
    requires q.Ok() && q.leaf == mp.leaf && AllInline(mp.Nodes(), q.nodemax)
    modifies dst, dst.ptrs, dst.mem
    ensures dst.Valid() && Offsets(mp, offs, newindx, i + 1)
    ensures var j := old(dst.Num()); var blank := !mp.leaf && j == 0;
            var cost := if blank then BLANK else Cost(mp.Nodes(), newindx, q, i);
            && (r.Full? <==> cost > old(dst.upper - dst.lower))
            && (r.NoPage? ==> i == newindx && q.Spills() && q.overflow.None?)
            && (r.Added? ==>
                  && dst.upper - dst.lower == old(dst.upper - dst.lower) - cost
                  && dst.Num() == j + 1 && dst.ptrs[j] == dst.upper
                  && dst.Nodes()[..j] == old(dst.Nodes())
                  && EntryIs(mp.Nodes(), newindx, q, i, blank, dst.Nodes()[j]))
  {
    hide AllNodes, Heap, NodesAt, AllInline, EntryIs, Cost, Request.Is, Request.Space, Request.Spills, Request.Ok;
    var j := dst.Num();
    var e := Entry(mp, offs, i, j == 0, newindx, q);
    r := dst.NodeAdd(j, e);
  }

  /** dst holds entries [from, i), moved there in order. */
  ghost predicate Moved(ns: seq<Node>, newindx: nat, q: Request, from: nat, i: nat, leaf: bool, out: seq<Node>)
    requires newindx <= |ns| && i <= |ns| + 1
  {
    && from <= i && |out| == i - from
    && forall j :: 0 <= j < |out| ==> EntryIs(ns, newindx, q, from + j, !leaf && j == 0, out[j])
  }

  /** The bytes entries [from, i) have taken. */
  ghost function Taken(c: seq<nat>, from: nat, i: nat, leaf: bool): nat
    requires from <= i <= |c|
  {
    if from == i then 0 else PageCost(c, from, i, leaf)
  }

  lemma TakenGrows(c: seq<nat>, from: nat, i: nat, to: nat, leaf: bool)
    requires from <= i <= to <= |c|
    ensures Taken(c, from, i, leaf) <= Taken(c, from, to, leaf)
    ensures i < |c| ==> Taken(c, from, i + 1, leaf) == Taken(c, from, i, leaf)
                        + if !leaf && i == from then BLANK else c[i]
  {
    if from < i {
      SumSplit(c, from, i, to);
      SumSplit(c, from + 1, i, to);
    }
    if i < |c| {
      assert Sum(c, from, i + 1) == Sum(c, from, i) + c[i];
      assert from < i ==> Sum(c, from + 1, i + 1) == Sum(c, from + 1, i) + c[i];
    }
  }

  lemma TakenAll(c: seq<nat>, from: nat, to: nat, leaf: bool)
    requires from < to <= |c|
    ensures Taken(c, from, from, leaf) == 0 && Taken(c, from, to, leaf) == PageCost(c, from, to, leaf)
  {
  }

  lemma MoveNone(ns: seq<Node>, newindx: nat, q: Request, from: nat, leaf: bool)
    requires newindx <= |ns| && from <= |ns|
    ensures Moved(ns, newindx, q, from, from, leaf, [])
  {
  }

  lemma MovedMore(ns: seq<Node>, newindx: nat, q: Request, from: nat, i: nat, leaf: bool, out: seq<Node>,
                  out': seq<Node>)
    requires newindx <= |ns| && i <= |ns| && Moved(ns, newindx, q, from, i, leaf, out)
    requires |out'| == |out| + 1 && out'[..|out|] == out && EntryIs(ns, newindx, q, i, !leaf && i == from, out'[|out|])
    ensures Moved(ns, newindx, q, from, i + 1, leaf, out')
  {
    hide EntryIs;
    forall j | 0 <= j < |out'|
      ensures EntryIs(ns, newindx, q, from + j, !leaf && j == 0, out'[j])
    {
      assert j < |out| ==> out'[j] == out[j];
    }
  }

  /** dst holds entries [from, i) and nothing else, the last of them lowest. */
  ghost predicate Filled(dst: Page, from: nat, i: nat, newindx: nat, q: Request, ns: seq<Node>)
    requires newindx <= |ns| && from <= i <= |ns| + 1
    reads dst, dst.ptrs, dst.mem
  {
    && dst.Valid() && dst.Num() == i - from && (i > from ==> dst.ptrs[i - from - 1] == dst.upper)
    && dst.upper - dst.lower == PMax(dst) - Taken(Costs(ns, newindx, q), from, i, dst.leaf)
    && Moved(ns, newindx, q, from, i, dst.leaf, dst.Nodes())
  }

  /** Entries [from, i) have been moved from mp, whose nodes are ns, to dst. */
  ghost predicate Stage(mp: Page, offs: array<nat>, dst: Page, from: nat, i: nat, newindx: nat, q: Request,
                        ns: seq<Node>)
    reads mp, mp.ptrs, mp.mem, dst, dst.ptrs, dst.mem, offs
    ensures Stage(mp, offs, dst, from, i, newindx, q, ns) ==>
              dst.Valid() && newindx <= |ns| && from <= i <= |ns| + 1 && mp.Valid() && mp.Nodes() == ns
                && Apart(mp, dst) && q.leaf == mp.leaf
    ensures Stage(mp, offs, dst, from, i, newindx, q, ns) ==> Filled(dst, from, i, newindx, q, ns)
  {
    && mp.Valid() && Apart(mp, dst) && offs != mp.ptrs && mp.Nodes() == ns
    && newindx <= |ns| && from <= i <= |ns| + 1
    && q.Ok() && q.leaf == mp.leaf && AllInline(ns, q.nodemax)
    && Offsets(mp, offs, newindx, i)
    && Filled(dst, from, i, newindx, q, ns)
  }

  lemma FilledMore(dst: Page, from: nat, i: nat, newindx: nat, q: Request, ns: seq<Node>, out: seq<Node>)
    requires newindx <= |ns| && from <= i <= |ns| && Moved(ns, newindx, q, from, i, dst.leaf, out) && dst.Valid()
    requires dst.Num() == i + 1 - from && dst.ptrs[i - from] == dst.upper && dst.Nodes()[..i - from] == out
    requires EntryIs(ns, newindx, q, i, !dst.leaf && i == from, dst.Nodes()[i - from])
    requires dst.upper - dst.lower == PMax(dst) - Taken(Costs(ns, newindx, q), from, i + 1, dst.leaf)
    ensures Filled(dst, from, i + 1, newindx, q, ns)
  {
    hide AllNodes, Heap, NodesAt, EntryIs, Taken, Costs;
    MovedMore(ns, newindx, q, from, i, dst.leaf, out, dst.Nodes());
  }

  method MoveStep(mp: Page, offs: array<nat>, dst: Page, ghost from: nat, i: nat, newindx: nat, q: Request,
                  ghost ns: seq<Node>)
    returns (r: AddResult)
    requires Stage(mp, offs, dst, from, i, newindx, q, ns) && i <= |ns|
    modifies dst, dst.ptrs, dst.mem
    ensures dst.Valid()
    ensures r.Full? <==> Taken(Costs(ns, newindx, q), from, i + 1, mp.leaf) > PMax(dst)
    ensures r.NoPage? ==> i == newindx && q.Spills() && q.overflow.None?
    ensures r.Added? ==> Stage(mp, offs, dst, from, i + 1, newindx, q, ns)
  {
    hide AllNodes, Heap, NodesAt, EntryIs, Moved, Taken, PageCost, Offsets, AllInline, Request.Is, Request.Space,
         Request.Spills, Request.Ok, Cost;
    ghost var out := dst.Nodes();
    TakenGrows(Costs(ns, newindx, q), from, i, i, mp.leaf);
    r := MoveOne(mp, offs, dst, i, newindx, q);
    if r.Added? {
      FilledMore(dst, from, i, newindx, q, ns, out);
    }
  }

  /** "Move nodes", for the entries that go to one page. The cursor's index, ki, becomes the
      position of the new entry if that is one of them. */
  method MoveRange(mp: Page, offs: array<nat>, dst: Page, from: nat, to: nat, newindx: nat, q: Request, ki0: nat,
                   ghost ns: seq<Node>)
    returns (r: AddResult, ki: nat)
    requires Stage(mp, offs, dst, from, from, newindx, q, ns) && from < to <= |ns| + 1
    modifies dst, dst.ptrs, dst.mem
    ensures dst.Valid()
    ensures var cost := PageCost(Costs(ns, newindx, q), from, to, mp.leaf); var pmax := PMax(dst);
            && (r.Full? ==> cost > pmax) && (r.Added? ==> cost <= pmax)
    ensures r.NoPage? ==> from <= newindx < to && q.Spills() && q.overflow.None?
    ensures r.Added? ==> Stage(mp, offs, dst, from, to, newindx, q, ns)
    ensures r.Added? ==> ki == if from <= newindx < to then newindx - from else ki0
  {
    hide Stage, Filled, Taken, PageCost, Request.Spills, Costs, Page.Valid, PMax;
    ghost var c, leaf, pmax := Costs(ns, newindx, q), mp.leaf, PMax(dst);
    TakenAll(c, from, to, leaf);
    r, ki := Added, ki0;
    var i, j := from, 0;
    while i < to
      invariant from <= i <= to && j == i - from && Stage(mp, offs, dst, from, i, newindx, q, ns) && r.Added?
      invariant i > from ==> Taken(c, from, i, leaf) <= pmax
      invariant ki == if from <= newindx < i then newindx - from else ki0
    {
      if i == newindx {
        ki := j;
      }
      TakenGrows(c, from, i + 1, to, leaf);
      r := MoveStep(mp, offs, dst, from, i, newindx, q, ns);
      if !r.Added? {
        return;
      }
      i, j := i + 1, j + 1;
    }
  }

  // ---------------------------------------------------------------- free space

  /** Some node starts where the heap does, unless the heap is empty. */
  lemma Lowest(ptrs: seq<nat>, sz: seq<nat>, upper: nat, psize: nat) returns (k: nat)
    requires Tiled(ptrs, sz, upper, psize) && upper <= psize
    ensures |ptrs| == |sz| && (|ptrs| == 0 ==> upper == psize) && (|ptrs| > 0 ==> k < |ptrs| && upper + sz[k] <= psize)
  {
    assert |ptrs| > 0 ==> upper <= ptrs[0] && ptrs[0] + sz[0] <= psize;
    k := 0;
    if upper < psize {
      assert Covered(ptrs, sz, upper);
      k :| Covers(ptrs, sz, k, upper);
    }
  }

  /** Nodes that tile the heap fill it exactly. */
  lemma {:induction false} TiledSum(ptrs: seq<nat>, sz: seq<nat>, upper: nat, psize: nat)
    requires Tiled(ptrs, sz, upper, psize) && upper <= psize
    ensures Sum(sz, 0, |sz|) == psize - upper
    decreases |ptrs|
  {
    hide Tiled, SqueezeAll;
    var k := Lowest(ptrs, sz, upper, psize);
    if |ptrs| > 0 {
      TiledRemove(ptrs, sz, upper, psize, k);
      RemovedLength(ptrs, k);
      TiledSum(SqueezeAll(RemoveAt(ptrs, k), ptrs[k], sz[k]), RemoveAt(sz, k), upper + sz[k], psize);
      SumInsert(RemoveAt(sz, k), sz, k, |sz| - 1);
    }
  }

  lemma CostsSum(ns: seq<Node>, newindx: nat, q: Request)
    requires newindx <= |ns|
    ensures var c := Costs(ns, newindx, q); Sum(c, 0, |c|) == Sum(Spaces(ns), 0, |ns|) + 2 * |ns| + c[newindx]
  {
    hide Even, Len, Request.Space;
    var c, sz := Costs(ns, newindx, q), Spaces(ns);
    var d: seq<nat> := seq(|ns|, i requires 0 <= i < |ns| => sz[i] + 2);
    SumPlus(sz, d, 2, |ns|);
    SumInsert(d, c, newindx, |ns|);
  }

  /** The free space of a page is what its nodes and their offsets leave. */
  lemma FreeSpace(mp: Page, newindx: nat, q: Request)
    requires mp.Valid() && newindx <= mp.Num()
    ensures var c := Costs(mp.Nodes(), newindx, q);
            mp.upper - mp.lower == PMax(mp) - (Sum(c, 0, |c|) - c[newindx])
  {
    hide AllNodes, NodesAt, Tiled, Cost, Costs;
    TiledSum(mp.ptrs[..mp.Num()], Spaces(mp.Nodes()), mp.upper, mp.mem.Length);
    CostsSum(mp.Nodes(), newindx, q);
  }

  // ---------------------------------------------------------------- the split point

  /** The space entry i takes, offset included, as the split-point scan counts it. */
  method EntryCost(mp: Page, offs: array<nat>, i: nat, newindx: nat, nsize: nat, q: Request) returns (cost: nat)
    requires mp.Valid() && Offsets(mp, offs, newindx, 0) && i <= mp.Num() && newindx <= mp.Num()
    requires nsize == q.Space() + 2
    ensures cost == Cost(mp.Nodes(), newindx, q, i)
  {
    hide AllNodes, NodesAt, Tiled, KeySize, Flags, DataSize;
    if i == newindx {
      return nsize;
    }
    ghost var k := Source(i, newindx);
    InHeap(mp.mem[..], mp.ptrs[..mp.Num()], mp.leaf, mp.upper, mp.Nodes(), k);
    var node := mp.mem[offs[i]..];
    assert node == mp.mem[..][mp.ptrs[..mp.Num()][k]..];
    cost := NODESIZE + KeySize(node) + 2;
    if mp.leaf {
      if BigData(Flags(node)) {
        cost := cost + 8;
      } else {
        cost := cost + DataSize(node);
      }
    }
    cost := Even(cost);
  }

  /** mdb_page_split's choice of the split point. */
  method FindSplit(mp: Page, offs: array<nat>, newindx: nat, nsize: nat, pmax: nat, q: Request) returns (split: nat)
    requires mp.Valid() && Offsets(mp, offs, newindx, 0) && newindx <= mp.Num() && nsize == q.Space() + 2
    requires Entries(Costs(mp.Nodes(), newindx, q), newindx, pmax)
    ensures 1 <= split <= mp.Num()
    ensures var c := Costs(mp.Nodes(), newindx, q);
            if Adjusts(mp.Num(), nsize, newindx, pmax) then BothFit(c, split, mp.leaf, pmax)
              else split == (mp.Num() + 1) / 2
  {
    hide AllNodes, Heap, NodesAt, Offsets, Entries, BothFit, Request.Space, Cost;
    ghost var c := Costs(mp.Nodes(), newindx, q);
    var nkeys := mp.Num();
    split := (nkeys + 1) / 2;
    assert nkeys >= 2 by {
      EntriesLength(c, newindx, pmax);
    }
    if nkeys < 20 || nsize > pmax / 16 || newindx >= nkeys {
      if newindx <= split || newindx >= nkeys {
        split := ScanForward(mp, offs, newindx, nsize, pmax, q, split);
      } else {
        split := ScanBackward(mp, offs, newindx, nsize, pmax, q, split);
      }
    }
  }

  lemma EntriesLength(c: seq<nat>, newindx: nat, pmax: nat)
    requires Entries(c, newindx, pmax)
    ensures |c| >= 3
  {
  }

  /** The scan from the left. */
  method ScanForward(mp: Page, offs: array<nat>, newindx: nat, nsize: nat, pmax: nat, q: Request, middle: nat)
    returns (split: nat)
    requires mp.Valid() && Offsets(mp, offs, newindx, 0) && newindx <= mp.Num() && nsize == q.Space() + 2
    requires Entries(Costs(mp.Nodes(), newindx, q), newindx, pmax)
    requires middle == (mp.Num() + 1) / 2 && (newindx <= middle || newindx >= mp.Num())
    ensures 1 <= split <= mp.Num() && BothFit(Costs(mp.Nodes(), newindx, q), split, mp.leaf, pmax)
  {
    hide AllNodes, Heap, NodesAt, Offsets, Entries, BothFit, Request.Space, Cost;
    ghost var c := Costs(mp.Nodes(), newindx, q);
    EntriesLength(c, newindx, pmax);
    var nkeys := mp.Num();
    var k := if newindx >= nkeys then nkeys else middle + 1 + if mp.leaf then 1 else 0;
    var psize := 0;
    split := 0;
    while split != k
      invariant 0 <= split < k && psize == Sum(c, 0, split) <= pmax
      decreases k - split
    {
      var cost := EntryCost(mp, offs, split, newindx, nsize, q);
      psize := psize + cost;
      assert psize == Sum(c, 0, split + 1);
      if psize > pmax || split == k - 1 {
        break;
      }
      split := split + 1;
    }
    if psize > pmax {
      StopForward(c, split, newindx, mp.leaf, pmax);
    } else if newindx >= nkeys {
      EndAppending(c, newindx, mp.leaf, pmax);
    } else {
      EndForward(c, split, newindx, mp.leaf, pmax);
    }
    FitBounds(c, split, mp.leaf, pmax);
  }

  lemma FitBounds(c: seq<nat>, split: nat, leaf: bool, pmax: nat)
    requires BothFit(c, split, leaf, pmax)
    ensures 1 <= split < |c|
  {
  }

  /** The scan from the right. */
  method ScanBackward(mp: Page, offs: array<nat>, newindx: nat, nsize: nat, pmax: nat, q: Request, middle: nat)
    returns (split: nat)
    requires mp.Valid() && Offsets(mp, offs, newindx, 0) && nsize == q.Space() + 2
    requires middle == (mp.Num() + 1) / 2 && middle < newindx < mp.Num()
    requires Entries(Costs(mp.Nodes(), newindx, q), newindx, pmax)
    ensures 1 <= split <= mp.Num() && BothFit(Costs(mp.Nodes(), newindx, q), split, mp.leaf, pmax)
  {
    hide AllNodes, Heap, NodesAt, Offsets, Entries, BothFit, Request.Space, Cost;
    ghost var c := Costs(mp.Nodes(), newindx, q);
    EntriesLength(c, newindx, pmax);
    var nkeys := mp.Num();
    var k := middle - 1;
    var psize := 0;
    var i := nkeys;
    while i != k
      invariant k < i <= nkeys && psize == Sum(c, i + 1, |c|) <= pmax
      decreases i - k
    {
      var cost := EntryCost(mp, offs, i, newindx, nsize, q);
      SumFirst(c, i, |c|);
      psize := psize + cost;
      if psize > pmax || i == k + 1 {
        break;
      }
      i := i - 1;
    }
    split := i + 1;
    if psize > pmax {
      StopBackward(c, i, newindx, mp.leaf, pmax);
    } else {
      SumSplit(c, i, i + 1, |c|);
      EndBackward(c, split, newindx, mp.leaf, pmax);
    }
    FitBounds(c, split, mp.leaf, pmax);
  }

  // ---------------------------------------------------------------- replacing the page

  /** Only the bytes from upper on matter. */
  lemma HeapCopied(mem: seq<byte>, ptrs: seq<nat>, leaf: bool, upper: nat, ns: seq<Node>, mem': seq<byte>)
    requires Heap(mem, ptrs, leaf, upper, ns) && upper <= |mem| == |mem'| && mem'[upper..] == mem[upper..]
    ensures Heap(mem', ptrs, leaf, upper, ns)
  {
    hide Tiled, Decode, HasNode;
    forall i | 0 <= i < |ptrs|
      ensures HasNode(mem'[ptrs[i]..], leaf) && Decode(mem'[ptrs[i]..], leaf) == ns[i]
    {
      AddKeeps(mem, ptrs, leaf, upper, ns, mem', i);
    }
    assert NodesAt(mem', ptrs, leaf) == ns;
  }

  method CopyPtrs(src: array<nat>, dst: array<nat>, n: nat)
    requires n <= src.Length && n <= dst.Length && src != dst
    modifies dst
    ensures dst[..n] == src[..n]
  {
    var i := 0;
    while i < n
      invariant 0 <= i <= n && forall h :: 0 <= h < i ==> dst[h] == src[h]
    {
      dst[i] := src[i];
      i := i + 1;
    }
  }

  method CopyTail(src: array<byte>, dst: array<byte>, ofs: nat)
    requires src != dst && ofs <= src.Length == dst.Length
    modifies dst
    ensures dst[..][ofs..] == src[..][ofs..]
  {
    CopyIn(dst, ofs, src[ofs..]);
    PartIs(dst, ofs, dst.Length);
    PartIs(src, ofs, src.Length);
  }

  /** The copy's offsets, bounds and heap replace the page's. The heap is copied from
      the last node added, which is the lowest. */
  method CopyBack(copy: Page, mp: Page)
    requires copy.Valid() && Apart(copy, mp) && copy.Num() > 0 && copy.ptrs[copy.Num() - 1] == copy.upper && mp.Valid()
    modifies mp, mp.ptrs, mp.mem
    ensures mp.Valid() && mp.Nodes() == copy.Nodes()
  {
    hide AllNodes, NodesAt, Heap;
    var nkeys := copy.Num();
    CopyPtrs(copy.ptrs, mp.ptrs, nkeys);
    mp.lower := copy.lower;
    mp.upper := copy.upper;
    var ofs := mp.ptrs[nkeys - 1];
    assert ofs == mp.ptrs[..nkeys][nkeys - 1] == copy.ptrs[..nkeys][nkeys - 1] == copy.upper;
    CopyTail(copy.mem, mp.mem, ofs);
    HeapCopied(copy.mem[..], copy.ptrs[..nkeys], copy.leaf, copy.upper, copy.Nodes(), mp.mem[..]);
    HeapNodes(mp.mem[..], mp.ptrs[..nkeys], mp.leaf, mp.upper, copy.Nodes());
  }

  lemma HeapNodes(mem: seq<byte>, ptrs: seq<nat>, leaf: bool, upper: nat, ns: seq<Node>)
    requires Heap(mem, ptrs, leaf, upper, ns)
    ensures AllNodes(mem, ptrs, leaf) && NodesAt(mem, ptrs, leaf) == ns
  {
  }

  // ---------------------------------------------------------------- the whole split

  /** Entry i, with its key left out if blank. */
  lemma EntryOf(ns: seq<Node>, newindx: nat, q: Request, i: nat, blank: bool, x: Node, n: Node)
    requires newindx <= |ns| && i <= |ns| && EntryIs(ns, newindx, q, i, blank, x) && n.LeafNode? == q.leaf
    requires (blank ==> !q.leaf)
    requires i == newindx ==> n == if q.leaf then x else BranchNode(q.pgno, q.key)
    ensures var y := InsertAt(ns, newindx, n)[i]; x == if blank && y.BranchNode? then BranchNode(y.pgno, []) else y
  {
    InsertedEntry(ns, newindx, n, i);
  }

  lemma HalfIs(ns: seq<Node>, newindx: nat, q: Request, from: nat, to: nat, leaf: bool, out: seq<Node>, n: Node)
    requires newindx <= |ns| && from < to <= |ns| + 1 && Moved(ns, newindx, q, from, to, leaf, out)
    requires q.leaf == leaf == n.LeafNode? && forall i :: 0 <= i < |ns| ==> ns[i].LeafNode? == leaf
    requires if leaf then from <= newindx < to ==> n == out[newindx - from] else n == BranchNode(q.pgno, q.key)
    ensures out == BlankFirst(InsertAt(ns, newindx, n)[from..to])
  {
    hide EntryIs, InsertAt;
    var all := InsertAt(ns, newindx, n);
    InsertLength(ns, newindx, n);
    forall j | 0 <= j < |out|
      ensures out[j] == if j == 0 && all[from].BranchNode? then BranchNode(all[from].pgno, []) else all[from + j]
    {
      InsertedEntry(ns, newindx, n, from + j);
      EntryOf(ns, newindx, q, from + j, !leaf && j == 0, out[j], n);
    }
  }

  /** The two pages hold the old nodes and the new one. */
  lemma Assemble(ns: seq<Node>, newindx: nat, q: Request, split: nat, leaf: bool, left: seq<Node>, right: seq<Node>)
    returns (n: Node)
    requires newindx <= |ns| && 1 <= split <= |ns|
    requires Moved(ns, newindx, q, 0, split, leaf, left) && Moved(ns, newindx, q, split, |ns| + 1, leaf, right)
    requires q.leaf == leaf && forall i :: 0 <= i < |ns| ==> ns[i].LeafNode? == leaf
    ensures q.Is(n) && left == BlankFirst(InsertAt(ns, newindx, n)[..split])
    ensures right == BlankFirst(InsertAt(ns, newindx, n)[split..])
  {
    hide BlankFirst, InsertAt;
    if !leaf {
      n := BranchNode(q.pgno, q.key);
    } else if newindx < split {
      assert EntryIs(ns, newindx, q, 0 + newindx, false, left[newindx]);
      n := left[newindx];
    } else {
      assert EntryIs(ns, newindx, q, split + (newindx - split), false, right[newindx - split]);
      n := right[newindx - split];
    }
    HalfIs(ns, newindx, q, 0, split, leaf, left, n);
    HalfIs(ns, newindx, q, split, |ns| + 1, leaf, right, n);
    InsertLength(ns, newindx, n);
    assert InsertAt(ns, newindx, n)[0..split] == InsertAt(ns, newindx, n)[..split];
    assert InsertAt(ns, newindx, n)[split..|ns| + 1] == InsertAt(ns, newindx, n)[split..];
  }

  /** A node as slot i of a page holds it: the first key of a branch page is left out. */
  ghost function BlankAt(n: Node, i: nat): Node {
    if i == 0 && n.BranchNode? then BranchNode(n.pgno, []) else n
  }

  /** What the two pages hold after the split. Slot ki of the page that got the new node
      holds it. */
  ghost predicate Divided(ns: seq<Node>, newindx: nat, q: Request, split: nat, sepkey: seq<byte>, ki: nat,
                          left: seq<Node>, right: seq<Node>)
    requires newindx <= |ns| && 1 <= split <= |ns|
  {
    exists n :: q.Is(n) && var all := InsertAt(ns, newindx, n); var page := if newindx < split then left else right;
      && left == BlankFirst(all[..split]) && right == BlankFirst(all[split..]) && sepkey == all[split].key
      && ki < |page| && page[ki] == BlankAt(n, ki)
  }

  /** Every node is at most me_nodemax. */
  ghost predicate Halves(ns: seq<Node>, q: Request, pmax: nat) {
    q.Space() <= NodeMax(pmax) && forall i :: 0 <= i < |ns| ==> Len(ns[i]) <= NodeMax(pmax)
  }

  lemma CostBound(ns: seq<Node>, newindx: nat, q: Request, i: nat, pmax: nat)
    requires newindx <= |ns| && i <= |ns| && Halves(ns, q, pmax)
    ensures BLANK <= Cost(ns, newindx, q, i) && 2 * Cost(ns, newindx, q, i) <= pmax
  {
    if i != newindx {
      assert Len(ns[Source(i, newindx)]) <= NodeMax(pmax);
    }
  }

  lemma EntriesOk(mp: Page, newindx: nat, q: Request)
    requires mp.Valid() && newindx <= mp.Num() && mp.Num() >= 2 && Halves(mp.Nodes(), q, PMax(mp))
    ensures Entries(Costs(mp.Nodes(), newindx, q), newindx, PMax(mp))
  {
    hide AllNodes, NodesAt, Heap, Halves, Cost;
    FreeSpace(mp, newindx, q);
    var c := Costs(mp.Nodes(), newindx, q);
    forall i | 0 <= i < |c|
      ensures BLANK <= c[i] && 2 * c[i] <= PMax(mp)
    {
      CostBound(mp.Nodes(), newindx, q, i, PMax(mp));
    }
  }

  /** mdb_leaf_size, mdb_branch_size. */
  function NewSize(q: Request): nat {
    var sz := NODESIZE + |q.key| + if q.leaf then q.dsize else 0;
    if q.leaf && sz > q.nodemax then Even(sz - q.dsize + 8 + 2) else Even(sz + 2)
  }

  lemma NewSizeIs(q: Request)
    requires !BigData(q.flags)
    ensures NewSize(q) == q.Space() + 2
  {
  }

  /** Chooses the split point and the separator key. */
  method Choose(mp: Page, newindx: nat, q: Request, offs: array<nat>) returns (split: nat, sepkey: seq<byte>)
    requires mp.Valid() && mp.Num() >= 2 && newindx <= mp.Num() < offs.Length && offs != mp.ptrs
    requires q.Ok() && q.leaf == mp.leaf && !BigData(q.flags) && AllInline(mp.Nodes(), q.nodemax)
    requires Halves(mp.Nodes(), q, PMax(mp))
    modifies offs
    ensures Offsets(mp, offs, newindx, 0) && 1 <= split <= mp.Num()
    ensures sepkey == if split == newindx then q.key else mp.Nodes()[Source(split, newindx)].key
    ensures var c := Costs(mp.Nodes(), newindx, q); var pmax := PMax(mp);
            if Adjusts(mp.Num(), c[newindx], newindx, pmax) then BothFit(c, split, mp.leaf, pmax)
              else split == (mp.Num() + 1) / 2
  {
    hide AllNodes, NodesAt, Heap, BothFit, Entries, Request.Ok, Halves, AllInline, NewSize, Request.Space;
    Prepare(mp, newindx, offs);
    EntriesOk(mp, newindx, q);
    NewSizeIs(q);
    split := FindSplit(mp, offs, newindx, NewSize(q), PMax(mp), q);
    if split == newindx {
      sepkey := q.key;
    } else {
      var e := Fetch(mp, offs, split, newindx, q.nodemax);
      sepkey := e.key;
    }
  }

  /** Nothing moved yet. */
  lemma Start(mp: Page, offs: array<nat>, dst: Page, from: nat, newindx: nat, q: Request, ns: seq<Node>)
    requires mp.Valid() && dst.Valid() && Apart(mp, dst) && offs != mp.ptrs && mp.Nodes() == ns
    requires dst.Num() == 0 && dst.upper == dst.mem.Length && newindx <= |ns| && from <= |ns|
    requires q.Ok() && q.leaf == mp.leaf && AllInline(ns, q.nodemax) && Offsets(mp, offs, newindx, 0)
    ensures Stage(mp, offs, dst, from, from, newindx, q, ns)
  {
    hide AllNodes, NodesAt, Heap, Moved, AllInline, Request.Ok, Costs;
    MoveNone(ns, newindx, q, from, mp.leaf);
  }

  /** Both rounds of "Move nodes": the right page first. */
  method MoveAll(mp: Page, offs: array<nat>, rp: Page, copy: Page, split: nat, newindx: nat, q: Request,
                 ghost ns: seq<Node>)
    returns (r: AddResult, ki: nat)
    requires Stage(mp, offs, rp, split, split, newindx, q, ns) && Stage(mp, offs, copy, 0, 0, newindx, q, ns)
    requires 1 <= split <= |ns|
    requires Apart(rp, copy) && offs == copy.ptrs
    modifies rp, rp.ptrs, rp.mem, copy, copy.ptrs, copy.mem
    ensures rp.Valid() && copy.Valid()
    ensures var c := Costs(ns, newindx, q); var pmax := PMax(mp);
            && (r.Added? ==> BothFit(c, split, mp.leaf, pmax)) && (r.Full? ==> !BothFit(c, split, mp.leaf, pmax))
    ensures r.NoPage? ==> q.Spills() && q.overflow.None?
    ensures r.Added? ==> Filled(copy, 0, split, newindx, q, ns) && Filled(rp, split, |ns| + 1, newindx, q, ns)
    ensures r.Added? ==> ki == if newindx < split then newindx else newindx - split
  {
    hide AllNodes, NodesAt, Heap, Moved, Request.Spills, Taken, PageCost, Costs, Stage, Filled, Page.Valid, Page.Nodes;
    r, ki := MoveRange(mp, offs, rp, split, mp.Num() + 1, newindx, q, newindx, ns);
    if r.Added? {
      r, ki := MoveRange(mp, offs, copy, 0, split, newindx, q, ki, ns);
    }
  }

  lemma Finish(copy: Page, rp: Page, split: nat, newindx: nat, q: Request, ns: seq<Node>, sepkey: seq<byte>,
               ki: nat)
    requires newindx <= |ns| && 1 <= split <= |ns| && Filled(copy, 0, split, newindx, q, ns)
    requires Filled(rp, split, |ns| + 1, newindx, q, ns)
    requires copy.leaf == rp.leaf == q.leaf && forall i :: 0 <= i < |ns| ==> ns[i].LeafNode? == q.leaf
    requires sepkey == if split == newindx then q.key else ns[Source(split, newindx)].key
    requires ki == if newindx < split then newindx else newindx - split
    ensures Divided(ns, newindx, q, split, sepkey, ki, copy.Nodes(), rp.Nodes())
  {
    hide AllNodes, NodesAt, Heap, Moved, Taken, BlankFirst, Costs, InsertAt;
    var n := Assemble(ns, newindx, q, split, q.leaf, copy.Nodes(), rp.Nodes());
    InsertedEntry(ns, newindx, n, split);
    assert n.key == q.key;
    NewAt(ns, newindx, n, split, ki);
  }

  /** Where the new node is. */
  lemma NewAt(ns: seq<Node>, newindx: nat, n: Node, split: nat, ki: nat)
    requires newindx <= |ns| && 1 <= split <= |ns|
    requires ki == if newindx < split then newindx else newindx - split
    ensures |InsertAt(ns, newindx, n)| == |ns| + 1
    ensures var all := InsertAt(ns, newindx, n); var half := if newindx < split then all[..split] else all[split..];
            ki < |BlankFirst(half)| && BlankFirst(half)[ki] == BlankAt(n, ki)
  {
    InsertLength(ns, newindx, n);
    InsertedEntry(ns, newindx, n, newindx);
  }

  lemma SameKind(mp: Page)
    requires mp.Valid()
    ensures forall i :: 0 <= i < mp.Num() ==> mp.Nodes()[i].LeafNode? == mp.leaf
  {
    hide Decode, Tiled, Spaces;
  }

  lemma LastLowest(copy: Page, split: nat, newindx: nat, q: Request, ns: seq<Node>)
    requires newindx <= |ns| && 0 < split <= |ns| && Filled(copy, 0, split, newindx, q, ns)
    ensures copy.Valid() && copy.Num() > 0 && copy.Num() <= copy.ptrs.Length && copy.ptrs[copy.Num() - 1] == copy.upper
  {
  }

  /** Moves the nodes and replaces the page. */
  method Divide(mp: Page, rp: Page, copy: Page, newindx: nat, q: Request, split: nat, ghost sepkey: seq<byte>,
                ghost ns: seq<Node>)
    returns (r: AddResult, ki: nat)
    requires Stage(mp, copy.ptrs, rp, split, split, newindx, q, ns) && Stage(mp, copy.ptrs, copy, 0, 0, newindx, q, ns)
    requires Apart(rp, copy) && 1 <= split <= |ns|
    requires sepkey == if split == newindx then q.key else ns[Source(split, newindx)].key
    modifies mp, mp.ptrs, mp.mem, rp, rp.ptrs, rp.mem, copy, copy.ptrs, copy.mem
    ensures mp.Valid() && rp.Valid()
    ensures r.Added? ==> Divided(ns, newindx, q, split, sepkey, ki, mp.Nodes(), rp.Nodes())
    ensures r.Added? ==> ki == if newindx < split then newindx else newindx - split
    ensures !r.Added? ==> mp.Nodes() == ns
    ensures r.NoPage? ==> q.Spills() && q.overflow.None?
    ensures var c := Costs(ns, newindx, q); var pmax := PMax(mp);
            && (r.Added? ==> BothFit(c, split, mp.leaf, pmax)) && (r.Full? ==> !BothFit(c, split, mp.leaf, pmax))
  {
    hide NodesAt, Divided, BothFit, Request.Spills, Costs, Stage, Filled, PMax, Page.Valid, Page.Nodes;
    SameKind(mp);
    r, ki := MoveAll(mp, copy.ptrs, rp, copy, split, newindx, q, ns);
    if r.Added? {
      Finish(copy, rp, split, newindx, q, ns, sepkey, ki);
      LastLowest(copy, split, newindx, q, ns);
      CopyBack(copy, mp);
    }
  }

  /** mdb_page_split, up to the update of the parent page. The cursor ends on the new node,
      on slot ki of the page itself if that went left of the split, and else of rp. */
  method Split(mp: Page, newindx: nat, q: Request)
    returns (r: AddResult, rp: Page, split: nat, sepkey: seq<byte>, ki: nat)
    requires mp.Valid() && mp.Num() >= 2 && newindx <= mp.Num()
    requires q.Ok() && q.leaf == mp.leaf && !BigData(q.flags) && AllInline(mp.Nodes(), q.nodemax)
    requires Halves(mp.Nodes(), q, PMax(mp))
    modifies mp, mp.ptrs, mp.mem
    ensures mp.Valid() && rp.Valid() && fresh(rp) && rp.leaf == mp.leaf
    ensures 1 <= split <= old(mp.Num())
    ensures r.Added? ==> Divided(old(mp.Nodes()), newindx, q, split, sepkey, ki, mp.Nodes(), rp.Nodes())
    ensures r.Added? ==> ki == if newindx < split then newindx else newindx - split
    ensures !r.Added? ==> mp.Nodes() == old(mp.Nodes())
    ensures r.NoPage? ==> q.Spills() && q.overflow.None?
    ensures var c := Costs(old(mp.Nodes()), newindx, q); var pmax := PMax(mp);
            && (r.Added? ==> BothFit(c, split, mp.leaf, pmax))
            && (!r.NoPage? ==>
                  (r.Full? <==>
                    && !Adjusts(old(mp.Num()), c[newindx], newindx, pmax)
                    && !BothFit(c, (old(mp.Num()) + 1) / 2, mp.leaf, pmax)))
  {
    hide AllNodes, NodesAt, Heap, Divided, BothFit, Request.Ok, Request.Spills, Halves, AllInline, Offsets, Costs,
         Stage;
    ghost var ns := mp.Nodes();
    var psize := mp.mem.Length;
    rp := new Page(mp.leaf, psize);
    var copy := new Page(mp.leaf, psize);
    split, sepkey := Choose(mp, newindx, q, copy.ptrs);
    hide Adjusts, PMax;
    Start(mp, copy.ptrs, rp, split, newindx, q, ns);
    Start(mp, copy.ptrs, copy, 0, newindx, q, ns);
    r, ki := Divide(mp, rp, copy, newindx, q, split, sepkey, ns);
  }
}
