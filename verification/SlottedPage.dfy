/**
 B+tree pages (mdb_node_add, mdb_node_del): an unsorted heap of nodes growing down
 from the end of the page and sorted offsets growing up from the header. A page
 refines a sequence of nodes; adding and deleting insert and remove at an index
 and leave every other node's bytes as they were.
 */
module SlottedPage {
  import opened PageLayout
  import opened Wrappers

  const PAGEHDRSZ := 16

  /** Nodes stored at the offsets ptrs of a page. */
  ghost predicate AllNodes(mem: seq<byte>, ptrs: seq<nat>, leaf: bool) {
    forall i :: 0 <= i < |ptrs| ==> ptrs[i] <= |mem| && HasNode(mem[ptrs[i]..], leaf)
  }

  ghost function NodesAt(mem: seq<byte>, ptrs: seq<nat>, leaf: bool): (r: seq<Node>)
    requires AllNodes(mem, ptrs, leaf)
    ensures |r| == |ptrs|
    ensures forall i :: 0 <= i < |r| ==> r[i] == Decode(mem[ptrs[i]..], leaf)
  {
    seq(|ptrs|, i requires 0 <= i < |ptrs| => Decode(mem[ptrs[i]..], leaf))
  }

  /** The heap space of each node: its length rounded up to even. */
  ghost function Spaces(ns: seq<Node>): (r: seq<nat>)
    ensures |r| == |ns|
    ensures forall i :: 0 <= i < |r| ==> r[i] == Even(Len(ns[i]))
  {
    seq(|ns|, i requires 0 <= i < |ns| => Even(Len(ns[i])))
  }

  /** A page's heap: nodes ns at ptrs tile [upper, |mem|). */
  ghost predicate Heap(mem: seq<byte>, ptrs: seq<nat>, leaf: bool, upper: nat, ns: seq<Node>) {
    && AllNodes(mem, ptrs, leaf)
    && NodesAt(mem, ptrs, leaf) == ns
    && Tiled(ptrs, Spaces(ns), upper, |mem|)
  }

  /** A node is unchanged at its new place if its bytes are. */
  lemma NodeMoves(mem: seq<byte>, p: nat, mem': seq<byte>, p': nat, leaf: bool)
    requires p <= |mem| && HasNode(mem[p..], leaf)
    requires p' + NodeLen(mem[p..], leaf) <= |mem'|
    requires mem'[p'..p' + NodeLen(mem[p..], leaf)] == mem[p..p + NodeLen(mem[p..], leaf)]
    ensures HasNode(mem'[p'..], leaf) && Decode(mem'[p'..], leaf) == Decode(mem[p..], leaf)
  {
    var n := NodeLen(mem[p..], leaf);
    assert mem'[p'..][..n] == mem'[p'..p' + n];
    assert mem[p..][..n] == mem[p..p + n];
    DecodeLocal(mem[p..], mem'[p'..], leaf);
  }

  /** mem' is mem with node n written just below upper. */
  ghost predicate Wrote(mem: seq<byte>, mem': seq<byte>, upper: nat, n: Node) {
    && Even(Len(n)) <= upper <= |mem| == |mem'|
    && mem'[upper - Even(Len(n))..upper - Even(Len(n)) + Len(n)] == Encode(n)
    && mem'[upper..] == mem[upper..]
  }

  lemma AddEntry(mem: seq<byte>, ptrs: seq<nat>, leaf: bool, upper: nat, ns: seq<Node>, mem': seq<byte>, k: nat,
                 n: Node, i: nat)
    requires Heap(mem, ptrs, leaf, upper, ns) && k <= |ptrs| && NodeOk(n) && n.LeafNode? == leaf
    requires Wrote(mem, mem', upper, n)
    requires i <= |ptrs|
    ensures var p := InsertAt(ptrs, k, upper - Even(Len(n)))[i];
            p <= |mem'| && HasNode(mem'[p..], leaf) && Decode(mem'[p..], leaf) == InsertAt(ns, k, n)[i]
  {
    hide Tiled, HasNode, Decode, Spaces, NodesAt, NodeOk, Encode, InsertAt;
    var ofs := upper - Even(Len(n));
    InsertedEntry(ptrs, k, ofs, i);
    InsertedEntry(ns, k, n, i);
    if i == k {
      assert mem'[ofs..][..Len(n)] == mem'[ofs..ofs + Len(n)];
      RoundTrip(n, mem'[ofs..]);
    } else {
      AddKeeps(mem, ptrs, leaf, upper, ns, mem', Source(i, k));
    }
  }

  /** Adding node n: its offset inserted at k. */
  lemma HeapAdd(mem: seq<byte>, ptrs: seq<nat>, leaf: bool, upper: nat, ns: seq<Node>, mem': seq<byte>, k: nat, n: Node)
    requires Heap(mem, ptrs, leaf, upper, ns) && k <= |ptrs| && NodeOk(n) && n.LeafNode? == leaf
    requires Wrote(mem, mem', upper, n)
    ensures Heap(mem', InsertAt(ptrs, k, upper - Even(Len(n))), leaf, upper - Even(Len(n)), InsertAt(ns, k, n))
  {
    hide HasNode, Decode, Tiled, Encode;
    var ptrs', ns' := InsertAt(ptrs, k, upper - Even(Len(n))), InsertAt(ns, k, n);
    forall i | 0 <= i < |ptrs'|
      ensures ptrs'[i] <= |mem'| && HasNode(mem'[ptrs'[i]..], leaf) && Decode(mem'[ptrs'[i]..], leaf) == ns'[i]
    {
      AddEntry(mem, ptrs, leaf, upper, ns, mem', k, n, i);
    }
    assert NodesAt(mem', ptrs', leaf) == ns';
    assert Spaces(ns') == InsertAt(Spaces(ns), k, Even(Len(n)));
    TiledAdd(ptrs, Spaces(ns), upper, |mem|, k, Even(Len(n)));
  }

  lemma AddKeeps(mem: seq<byte>, ptrs: seq<nat>, leaf: bool, upper: nat, ns: seq<Node>, mem': seq<byte>, j: nat)
    requires Heap(mem, ptrs, leaf, upper, ns) && j < |ptrs|
    requires upper <= |mem| == |mem'| && mem'[upper..] == mem[upper..]
    ensures HasNode(mem'[ptrs[j]..], leaf) && Decode(mem'[ptrs[j]..], leaf) == ns[j]
  {
    var p := ptrs[j];
    assert mem'[p..] == mem'[upper..][p - upper..];
    assert mem[p..] == mem[upper..][p - upper..];
  }

  /** mem' is mem with [upper, ptr) moved up by size: mdb_node_del's memmove. */
  ghost predicate Compacted(mem: seq<byte>, mem': seq<byte>, upper: nat, ptr: nat, size: nat) {
    && upper <= ptr && ptr + size <= |mem| == |mem'|
    && (forall x :: upper <= x < ptr ==> mem'[x + size] == mem[x])
    && (forall x :: ptr + size <= x < |mem| ==> mem'[x] == mem[x])
  }

  lemma RemoveEntry(mem: seq<byte>, ptrs: seq<nat>, leaf: bool, upper: nat, ns: seq<Node>, mem': seq<byte>, k: nat,
                    i: nat)
    requires Heap(mem, ptrs, leaf, upper, ns) && k < |ptrs| && Compacted(mem, mem', upper, ptrs[k], Spaces(ns)[k])
    requires i < |ptrs| - 1
    ensures var p := SqueezeAll(RemoveAt(ptrs, k), ptrs[k], Spaces(ns)[k])[i];
            p <= |mem'| && HasNode(mem'[p..], leaf) && Decode(mem'[p..], leaf) == RemoveAt(ns, k)[i]
  {
    hide Compacted, Tiled, HasNode, Decode, NodeLen, Spaces, NodesAt, SqueezeAll;
    var j, ptr, size := Before(i, k), ptrs[k], Spaces(ns)[k];
    RemovedEntry(ptrs, Spaces(ns), upper, |mem|, k, i);
    var p := ptrs[j];
    var n := NodeLen(mem[p..], leaf);
    assert ns[j] == Decode(mem[p..], leaf) && n <= Spaces(ns)[j];
    MovedBytes(mem, mem', upper, ptr, size, p, n);
    CompactedSize(mem, mem', upper, ptr, size);
    NodeMoves(mem, p, mem', Squeeze(p, ptr, size), leaf);
  }

  lemma MovedBytes(mem: seq<byte>, mem': seq<byte>, upper: nat, ptr: nat, size: nat, p: nat, n: nat)
    requires Compacted(mem, mem', upper, ptr, size)
    requires p + n <= ptr || p >= ptr + size
    requires upper + size <= Squeeze(p, ptr, size) && Squeeze(p, ptr, size) + n <= |mem| && n > 0
    ensures mem'[Squeeze(p, ptr, size)..Squeeze(p, ptr, size) + n] == mem[p..p + n]
  {
    var p' := Squeeze(p, ptr, size);
    var a, b := mem'[p'..p' + n], mem[p..p + n];
    forall i | 0 <= i < n
      ensures a[i] == b[i]
    {
      var x := p + i;
      assert p < ptr ==> mem'[x + size] == mem[x];
    }
  }

  /** Deleting node k and compacting leaves the other nodes, tiled again. */
  lemma HeapRemove(mem: seq<byte>, ptrs: seq<nat>, leaf: bool, upper: nat, ns: seq<Node>, mem': seq<byte>, k: nat)
    requires Heap(mem, ptrs, leaf, upper, ns) && k < |ptrs| && Compacted(mem, mem', upper, ptrs[k], Spaces(ns)[k])
    ensures Heap(mem', SqueezeAll(RemoveAt(ptrs, k), ptrs[k], Spaces(ns)[k]), leaf, upper + Spaces(ns)[k],
                 RemoveAt(ns, k))
  {
    hide HasNode, Decode, Tiled, Compacted;
    var size := Spaces(ns)[k];
    var ptrs', ns' := SqueezeAll(RemoveAt(ptrs, k), ptrs[k], size), RemoveAt(ns, k);
    forall i | 0 <= i < |ptrs'|
      ensures ptrs'[i] <= |mem'| && HasNode(mem'[ptrs'[i]..], leaf) && Decode(mem'[ptrs'[i]..], leaf) == ns'[i]
    {
      RemoveEntry(mem, ptrs, leaf, upper, ns, mem', k, i);
    }
    assert NodesAt(mem', ptrs', leaf) == ns';
    assert Spaces(ns') == RemoveAt(Spaces(ns), k);
    CompactedSize(mem, mem', upper, ptrs[k], size);
    TiledRemove(ptrs, Spaces(ns), upper, |mem|, k);
  }

  /** Where node k is, and the space it takes. */
  lemma InHeap(mem: seq<byte>, ptrs: seq<nat>, leaf: bool, upper: nat, ns: seq<Node>, k: nat)
    requires Heap(mem, ptrs, leaf, upper, ns) && k < |ptrs|
    ensures upper <= ptrs[k] && ptrs[k] + Even(Len(ns[k])) <= |mem| && Even(Len(ns[k])) == Spaces(ns)[k]
    ensures HasNode(mem[ptrs[k]..], leaf) && Len(ns[k]) == NodeLen(mem[ptrs[k]..], leaf)
  {
  }

  lemma CompactedSize(mem: seq<byte>, mem': seq<byte>, upper: nat, ptr: nat, size: nat)
    requires Compacted(mem, mem', upper, ptr, size)
    ensures |mem'| == |mem|
  {
  }

  // ---------------------------------------------------------------- memory

  /** A part of an array is that part of its contents. */
  lemma PartIs(mem: array<byte>, from: nat, to: nat)
    requires from <= to <= mem.Length
    ensures mem[..][from..to] == mem[from..to]
    ensures to == mem.Length ==> mem[..][from..] == mem[from..] == mem[from..to]
  {
    forall i | 0 <= i < to - from
      ensures mem[..][from..to][i] == mem[from..to][i]
    {
      assert mem[..][from + i] == mem[from + i];
    }
  }

  /** memcpy of bytes to an offset. */
  method CopyIn(mem: array<byte>, ofs: nat, bytes: seq<byte>)
    requires ofs + |bytes| <= mem.Length
    modifies mem
    ensures mem[ofs..ofs + |bytes|] == bytes
    ensures forall x :: 0 <= x < mem.Length && !(ofs <= x < ofs + |bytes|) ==> mem[x] == old(mem[x])
  {
    var i := 0;
    while i < |bytes|
      invariant 0 <= i <= |bytes|
      invariant forall x :: 0 <= x < i ==> mem[ofs + x] == bytes[x]
      invariant forall x :: 0 <= x < mem.Length && !(ofs <= x < ofs + i) ==> mem[x] == old(mem[x])
    {
      mem[ofs + i] := bytes[i];
      i := i + 1;
    }
  }

  /** memmove of [src, src + len) up by size; the ranges may overlap. */
  method MoveUp(mem: array<byte>, src: nat, len: nat, size: nat)
    requires src + len + size <= mem.Length
    modifies mem
    ensures Compacted(old(mem[..]), mem[..], src, src + len, size)
  {
    ghost var m := mem[..];
    var i := len;
    while i > 0
      invariant 0 <= i <= len
      invariant forall x :: src + i + size <= x < src + len + size ==> mem[x] == m[x - size]
      invariant forall x :: 0 <= x < src + i + size ==> mem[x] == m[x]
      invariant forall x :: src + len + size <= x < mem.Length ==> mem[x] == m[x]
    {
      i := i - 1;
      mem[src + i + size] := mem[src + i];
    }
    ghost var m' := mem[..];
    forall x | src <= x < src + len
      ensures m'[x + size] == m[x]
    {
      assert mem[x + size] == m[x + size - size];
    }
  }

  /** Moves higher offsets up one slot and stores a new one at indx. */
  method InsertPtr(ptrs: array<nat>, n: nat, indx: nat, ofs: nat)
    requires indx <= n < ptrs.Length
    modifies ptrs
    ensures ptrs[..n + 1] == InsertAt(old(ptrs[..n]), indx, ofs) && ptrs[indx] == ofs
    ensures forall h :: n < h < ptrs.Length ==> ptrs[h] == old(ptrs[h])
  {
    hide InsertAt;
    ghost var s := ptrs[..n];
    ghost var r: seq<nat> := InsertAt(s, indx, ofs);
    InsertLength(s, indx, ofs);
    var i := n;
    while i > indx
      invariant indx <= i <= n
      invariant forall h :: 0 <= h < i ==> ptrs[h] == s[h]
      invariant forall h :: i < h <= n ==> ptrs[h] == r[h]
      invariant forall h :: n < h < ptrs.Length ==> ptrs[h] == old(ptrs[h])
    {
      InsertedEntry(s, indx, ofs, i);
      ptrs[i] := ptrs[i - 1];
      i := i - 1;
    }
    ptrs[indx] := ofs;
    forall h | 0 <= h <= n
      ensures ptrs[h] == r[h]
    {
      InsertedEntry(s, indx, ofs, h);
    }
    assert ptrs[..n + 1] == r;
  }

  /** Entry h of the offsets after node indx is squeezed out. */
  lemma RemovedPtr(s: seq<nat>, indx: nat, size: nat, h: nat)
    requires indx < |s| && h < |s| - 1
    ensures SqueezeAll(RemoveAt(s, indx), s[indx], size)[h] == Squeeze(s[Before(h, indx)], s[indx], size)
  {
    assert RemoveAt(s, indx)[h] == s[Before(h, indx)];
  }

  /** The offset loop of mdb_node_del: drops slot indx and moves offsets below the
      deleted node up by its size, in one pass over the same array. */
  method RemovePtr(ptrs: array<nat>, n: nat, indx: nat, size: nat)
    requires indx < n <= ptrs.Length
    modifies ptrs
    ensures ptrs[..n - 1] == SqueezeAll(RemoveAt(old(ptrs[..n]), indx), old(ptrs[indx]), size)
  {
    hide SqueezeAll, RemoveAt;
    ghost var s := ptrs[..n];
    ghost var r := SqueezeAll(RemoveAt(s, indx), s[indx], size);
    assert |r| == n - 1 by {
      RemovedLength(s, indx);
    }
    var ptr := ptrs[indx];
    var i, j := 0, 0;
    while i < n
      invariant 0 <= i <= n && j == (if i <= indx then i else i - 1)
      invariant forall h :: i <= h < n ==> ptrs[h] == s[h]
      invariant forall h :: 0 <= h < j ==> ptrs[h] == r[h]
    {
      if i != indx {
        RemovedPtr(s, indx, size, j);
        ptrs[j] := if ptrs[i] < ptr then ptrs[i] + size else ptrs[i];
        j := j + 1;
      }
      i := i + 1;
    }
    assert ptrs[..n - 1] == r;
  }

  lemma RemovedLength<T>(s: seq<T>, k: nat)
    requires k < |s|
    ensures |RemoveAt(s, k)| == |s| - 1
  {
  }

  /** Writes header, key and, unless the space is only reserved, data. */
  method WriteNode(mem: array<byte>, ofs: nat, header: seq<byte>, key: seq<byte>, data: seq<byte>)
    requires |header| == NODESIZE && ofs + NODESIZE + |key| + |data| <= mem.Length
    modifies mem
    ensures mem[ofs..ofs + NODESIZE + |key| + |data|] == header + key + data
    ensures forall x :: 0 <= x < mem.Length && !(ofs <= x < ofs + NODESIZE + |key| + |data|) ==> mem[x] == old(mem[x])
  {
    CopyIn(mem, ofs, header);
    ghost var h := mem[ofs..ofs + NODESIZE];
    CopyIn(mem, ofs + NODESIZE, key);
    assert forall i :: 0 <= i < |h| ==> h[i] == mem[ofs + i];
    ghost var hk := mem[ofs..ofs + NODESIZE + |key|];
    assert hk == header + key;
    CopyIn(mem, ofs + NODESIZE + |key|, data);
    assert forall i :: 0 <= i < |hk| ==> hk[i] == mem[ofs + i];
  }

  // ---------------------------------------------------------------- pages

  datatype AddResult =
    | Added
    | Full       // MDB_PAGE_FULL
    | NoPage     // no overflow page could be allocated

  /** A page number as eight bytes, least significant first. */
  function Put64(x: nat): (r: seq<byte>)
    ensures |r| == 8
  {
    Put16(x % 0x10000) + Put16(x / 0x10000 % 0x10000) + Put16(x / 0x1_0000_0000 % 0x10000)
      + Put16(x / 0x1_0000_0000_0000)
  }

  /** What the caller of mdb_node_add asks for. overflow is the page that mdb_page_new
      returns if it is called; with reserve the data is filled in later. */
  datatype Request = Request(leaf: bool, key: seq<byte>, dsize: nat, data: seq<byte>, pgno: nat, flags: nat,
                             reserve: bool, nodemax: nat, overflow: Option<nat>)
  {
    ghost predicate Ok() {
      && |key| < 0x10000 && dsize < 0x1_0000_0000 && pgno < 0x1_0000_0000_0000 && flags < 0x10000
      && (leaf ==> |data| == if BigData(flags) then 8 else dsize)
    }

    /** The data does not fit in a node and goes to an overflow page. */
    predicate Spills() { leaf && !BigData(flags) && NODESIZE + |key| + dsize > nodemax }

    /** Heap space the node takes. */
    function Space(): nat {
      if !leaf then Even(NODESIZE + |key|)
      else if BigData(flags) || Spills() then Even(NODESIZE + |key| + 8)
      else Even(NODESIZE + |key| + dsize)
    }

    /** n is the node asked for. */
    ghost predicate Is(n: Node) {
      if !leaf then n == BranchNode(pgno, key)
      else if Spills() then overflow.Some? && n == LeafNode(flags + F_BIGDATA, key, dsize, Put64(overflow.value))
      else if reserve && !BigData(flags) then n.LeafNode? && n == LeafNode(flags, key, dsize, n.data)
        && |n.data| == dsize
      else n == LeafNode(flags, key, dsize, data)
    }

    /** The header and the bytes after the key that are written for it. */
    ghost predicate Parts(header: seq<byte>, tail: seq<byte>) {
      if !leaf then header == Header(pgno % 0x1_0000_0000, pgno / 0x1_0000_0000, |key|) && tail == []
      else if Spills() then
        overflow.Some? && header == Header(dsize, flags + F_BIGDATA, |key|) && tail == Put64(overflow.value)
      else
        header == Header(dsize, flags, |key|) && tail == if reserve && !BigData(flags) then [] else data
    }
  }

  /** mem' is mem with the parts of a node written in the size bytes below upper. */
  ghost predicate WroteParts(mem: seq<byte>, mem': seq<byte>, upper: nat, size: nat, header: seq<byte>, key: seq<byte>,
                             data: seq<byte>) {
    && |header| + |key| + |data| <= size <= upper <= |mem| == |mem'|
    && mem'[upper - size..upper - size + |header| + |key| + |data|] == header + key + data
    && mem'[upper..] == mem[upper..]
  }

  lemma PartsAre(mem: seq<byte>, mem': seq<byte>, upper: nat, size: nat, header: seq<byte>, key: seq<byte>,
                 tail: seq<byte>, n: Node)
    requires WroteParts(mem, mem', upper, size, header, key, tail) && header + key + tail == Encode(n)
    requires size == Even(Len(n))
    ensures Wrote(mem, mem', upper, n)
  {
    hide Encode;
  }

  /** Reserved space is part of the node, whatever bytes it holds. */
  lemma PartsExtend(mem: seq<byte>, mem': seq<byte>, upper: nat, size: nat, header: seq<byte>, key: seq<byte>, d: nat)
    returns (tail: seq<byte>)
    requires WroteParts(mem, mem', upper, size, header, key, []) && |header| + |key| + d <= size
    ensures |tail| == d && WroteParts(mem, mem', upper, size, header, key, tail)
  {
    var ofs := upper - size;
    var k := ofs + |header| + |key|;
    tail := mem'[k..k + d];
    assert header + key + [] == header + key;
    assert mem'[ofs..k + d] == mem'[ofs..k] + tail;
  }

  /** Writing the parts writes the node asked for. */
  lemma PartsMake(q: Request, mem: seq<byte>, mem': seq<byte>, upper: nat, header: seq<byte>, tail: seq<byte>)
    returns (n: Node)
    requires q.Ok() && q.Parts(header, tail) && WroteParts(mem, mem', upper, q.Space(), header, q.key, tail)
    ensures NodeOk(n) && n.LeafNode? == q.leaf && q.Is(n) && Even(Len(n)) == q.Space() && Wrote(mem, mem', upper, n)
  {
    hide Header, Put64, Put16, WroteParts, Wrote;
    var t := tail;
    if q.leaf && q.reserve && !BigData(q.flags) && !q.Spills() {
      t := PartsExtend(mem, mem', upper, q.Space(), header, q.key, q.dsize);
    }
    if !q.leaf {
      n := BranchNode(q.pgno, q.key);
    } else {
      n := LeafNode(if q.Spills() then q.flags + F_BIGDATA else q.flags, q.key, q.dsize, t);
    }
    assert header + q.key + t == Encode(n);
    PartsAre(mem, mem', upper, q.Space(), header, q.key, t, n);
  }

  class Page {
    const leaf: bool
    const ptrs: array<nat>
    const mem: array<byte>
    var lower: nat
    var upper: nat

    ghost predicate Valid()
      reads this, ptrs, mem
    {
      && lower == PAGEHDRSZ + 2 * Num() && lower <= upper <= mem.Length
      && Num() <= ptrs.Length && mem.Length <= PAGEHDRSZ + 2 * ptrs.Length
      && AllNodes(mem[..], ptrs[..Num()], leaf)
      && Heap(mem[..], ptrs[..Num()], leaf, upper, NodesAt(mem[..], ptrs[..Num()], leaf))
    }

    /** NUMKEYS. */
    function Num(): nat
      reads this
    {
      if lower < PAGEHDRSZ then 0 else (lower - PAGEHDRSZ) / 2
    }

    /** What the page holds. */
    ghost function Nodes(): (r: seq<Node>)
      requires Valid()
      reads this, ptrs, mem
      ensures |r| == Num()
    {
      NodesAt(mem[..], ptrs[..Num()], leaf)
    }

    /** An empty page of psize bytes. */
    constructor (isLeaf: bool, psize: nat)
      requires PAGEHDRSZ <= psize
      ensures Valid() && Nodes() == [] && leaf == isLeaf && mem.Length == psize && lower == PAGEHDRSZ && upper == psize
      ensures fresh(ptrs) && fresh(mem) && ptrs.Length == psize
    {
      leaf := isLeaf;
      lower, upper := PAGEHDRSZ, psize;
      ptrs := new nat[psize];
      mem := new byte[psize];
      new;
      assert Tiled([], [], psize, psize);
      assert Spaces([]) == [];
    }

    /** The "update" part of mdb_node_add: takes the space and writes the node. */
    method Place(indx: nat, size: nat, header: seq<byte>, key: seq<byte>, data: seq<byte>)
      requires Valid() && indx <= Num() && |header| == NODESIZE
      requires size + 2 <= upper - lower && NODESIZE + |key| + |data| <= size
      modifies this, ptrs, mem
      ensures lower == old(lower) + 2 && upper == old(upper) - size
      ensures ptrs[..Num()] == InsertAt(old(ptrs[..Num()]), indx, upper) && ptrs[indx] == upper
      ensures forall h :: old(Num()) < h < ptrs.Length ==> ptrs[h] == old(ptrs[h])
      ensures WroteParts(old(mem[..]), mem[..], old(upper), size, header, key, data)
    {
      hide AllNodes, Heap, NodesAt, InsertAt;
      ghost var m := mem[..];
      var ofs := upper - size;
      InsertPtr(ptrs, Num(), indx, ofs);
      upper := ofs;
      lower := lower + 2;
      WriteNode(mem, ofs, header, key, data);
      PartIs(mem, ofs, ofs + NODESIZE + |key| + |data|);
      ghost var above, was := mem[..][ofs + size..], m[ofs + size..];
      forall i | 0 <= i < |was|
        ensures above[i] == was[i]
      {
        assert mem[ofs + size + i] == m[ofs + size + i];
      }
    }

    /** mdb_node_add. */
    method NodeAdd(indx: nat, q: Request) returns (r: AddResult)
      requires Valid() && indx <= Num() && q.leaf == leaf && q.Ok()
      modifies this, ptrs, mem
      ensures Valid()
      ensures r.Full? <==> q.Space() > old(upper) - old(lower) - 2
      ensures r.NoPage? <==> !r.Full? && q.Spills() && q.overflow.None?
      ensures r.Added? ==> exists n :: q.Is(n) && Nodes() == InsertAt(old(Nodes()), indx, n)
      ensures r.Added? ==> lower == old(lower) + 2 && upper == old(upper) - q.Space() == ptrs[indx]
      ensures forall h :: old(Num()) < h < ptrs.Length ==> ptrs[h] == old(ptrs[h])
      ensures !r.Added? ==> Nodes() == old(Nodes()) && lower == old(lower) && upper == old(upper)
    {
      var room := upper - lower - 2;
      var size := NODESIZE + |q.key|;
      var header, tail := Header(q.dsize, q.flags, |q.key|), q.data;
      if !leaf {
        size := Even(size);
        header, tail := Header(q.pgno % 0x1_0000_0000, q.pgno / 0x1_0000_0000, |q.key|), [];
      } else if BigData(q.flags) {
        size := Even(size + 8);
      } else if size + q.dsize > q.nodemax {
        size := Even(size + 8);
        if size <= room {
          if q.overflow.None? {
            return NoPage;
          }
          header, tail := Header(q.dsize, q.flags + F_BIGDATA, |q.key|), Put64(q.overflow.value);
        }
      } else {
        size := Even(size + q.dsize);
        tail := if q.reserve then [] else q.data;
      }
      if size > room {
        return Full;
      }
      Update(indx, q, header, tail);
      r := Added;
    }

    /** The "update" part of mdb_node_add. */
    method Update(indx: nat, q: Request, header: seq<byte>, tail: seq<byte>)
      requires Valid() && indx <= Num() && q.leaf == leaf && q.Ok() && q.Parts(header, tail)
      requires q.Space() + 2 <= upper - lower
      modifies this, ptrs, mem
      ensures Valid()
      ensures exists n :: q.Is(n) && Nodes() == InsertAt(old(Nodes()), indx, n)
      ensures lower == old(lower) + 2 && upper == old(upper) - q.Space() == ptrs[indx]
      ensures forall h :: old(Num()) < h < ptrs.Length ==> ptrs[h] == old(ptrs[h])
    {
      hide AllNodes, NodesAt, Tiled, Wrote, WroteParts;
      ghost var m, p, u, ns := mem[..], ptrs[..Num()], upper, Nodes();
      Place(indx, q.Space(), header, q.key, tail);
      ghost var n := PartsMake(q, m, mem[..], u, header, tail);
      HeapAdd(m, p, leaf, u, ns, mem[..], indx, n);
    }

    /** The heap space of node indx, from its header. */
    method SpaceAt(indx: nat) returns (sz: nat)
      requires Valid() && indx < Num()
      ensures sz == Even(Len(Nodes()[indx])) && upper <= ptrs[indx] && ptrs[indx] + sz <= mem.Length
    {
      hide AllNodes, NodesAt, Tiled, KeySize, Flags, DataSize;
      InHeap(mem[..], ptrs[..Num()], leaf, upper, Nodes(), indx);
      var node := mem[ptrs[indx]..];
      assert node == mem[..][ptrs[..Num()][indx]..];
      sz := NODESIZE + KeySize(node);
      if leaf {
        if BigData(Flags(node)) {
          sz := sz + 8;
        } else {
          sz := sz + DataSize(node);
        }
      }
      sz := Even(sz);
    }

    /** Drops offset indx and closes the gap of sz bytes the node leaves. */
    method Close(indx: nat, sz: nat)
      requires lower == PAGEHDRSZ + 2 * Num() && indx < Num() <= ptrs.Length
      requires upper <= ptrs[indx] && ptrs[indx] + sz <= mem.Length
      modifies this, ptrs, mem
      ensures lower == old(lower) - 2 && Num() == old(Num()) - 1 && upper == old(upper) + sz
      ensures ptrs[..Num()] == SqueezeAll(RemoveAt(old(ptrs[..Num()]), indx), old(ptrs[indx]), sz)
      ensures Compacted(old(mem[..]), mem[..], old(upper), old(ptrs[indx]), sz)
    {
      hide Compacted, SqueezeAll, RemoveAt;
      var ptr := ptrs[indx];
      RemovePtr(ptrs, Num(), indx, sz);
      MoveUp(mem, upper, ptr - upper, sz);
      lower := lower - 2;
      upper := upper + sz;
    }

    /** mdb_node_del. */
    method NodeDel(indx: nat)
      requires Valid() && indx < Num()
      modifies this, ptrs, mem
      ensures Valid() && Nodes() == RemoveAt(old(Nodes()), indx)
      ensures lower == old(lower) - 2 && upper == old(upper) + Even(Len(old(Nodes())[indx]))
    {
      hide AllNodes, NodesAt, Tiled, Compacted, SqueezeAll, Spaces, Len, Even, RemoveAt;
      var sz := SpaceAt(indx);
      ghost var m, p, u, ns := mem[..], ptrs[..Num()], upper, Nodes();
      assert sz == Spaces(ns)[indx];
      Close(indx, sz);
      HeapRemove(m, p, leaf, u, ns, mem[..], indx);
    }
  }
}
