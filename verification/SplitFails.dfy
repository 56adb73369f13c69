/**
 A page whose split fails: built node by node, and too full for a small new node.
 */
module SplitFails {
  import opened PageLayout
  import opened SlottedPage
  import opened SplitPoint
  import opened PageSplit
  import opened Wrappers

  const NODEMAX := 2038

  function Zeros(n: nat): (r: seq<byte>)
    ensures |r| == n
  {
    seq(n, _ => 0)
  }

  /** Node i of the page: nine with 426 bytes of data, then eleven without any. */
  function SampleNode(i: nat): Node
    requires i < 20
  {
    LeafNode(0, [i, 0], if i < 9 then 426 else 0, Zeros(if i < 9 then 426 else 0))
  }

  ghost function Sample(): (ns: seq<Node>)
    ensures |ns| == 20 && forall i :: 0 <= i < 20 ==> ns[i] == SampleNode(i)
  {
    seq(20, i requires 0 <= i < 20 => SampleNode(i))
  }

  /** What the first i nodes and their offsets take. */
  function SampleCost(i: nat): nat { if i <= 9 then 438 * i else 3942 + 12 * (i - 9) }

  lemma SampleOk(i: nat)
    requires i < 20
    ensures var n, q := SampleNode(i), Again(SampleNode(i), NODEMAX);
            && NodeOk(n) && Inline(n, NODEMAX) && Len(n) <= NODEMAX && q.Ok() && q.leaf && !q.Spills()
            && q.Space() + 2 == Even(Len(n)) + 2 == SampleCost(i + 1) - SampleCost(i) && forall x :: q.Is(x) <==> x == n
  {
    AgainIs(SampleNode(i), NODEMAX);
  }

  method Build() returns (mp: Page)
    ensures fresh(mp) && fresh(mp.ptrs) && fresh(mp.mem) && mp.Valid() && mp.leaf && mp.mem.Length == 4096
    ensures mp.Nodes() == Sample() && mp.upper - mp.lower == 6
  {
    hide AllNodes, NodesAt, Heap, SampleNode, NodeOk, Len, Again, Request.Is, Request.Ok, Request.Space, Request.Spills;
    mp := new Page(true, 4096);
    var i := 0;
    while i < 20
      invariant 0 <= i <= 20 && fresh(mp) && fresh(mp.ptrs) && fresh(mp.mem)
      invariant mp.Valid() && mp.Num() == i && mp.Nodes() == Sample()[..i]
      invariant mp.upper - mp.lower == 4080 - SampleCost(i)
    {
      SampleOk(i);
      ghost var ns := mp.Nodes();
      var r := mp.NodeAdd(i, Again(SampleNode(i), NODEMAX));
      assert InsertAt(ns, i, SampleNode(i)) == Sample()[..i + 1];
      i := i + 1;
    }
  }

  function NewNode(): Request { Request(true, [4, 1], 238, Zeros(238), 0, 0, false, NODEMAX, None) }

  lemma SampleFits()
    ensures AllInline(Sample(), NODEMAX) && Halves(Sample(), NewNode(), 4080)
    ensures Costs(Sample(), 5, NewNode()) == Mixed()
  {
    hide NodeOk;
    forall i | 0 <= i < 20
      ensures Inline(Sample()[i], NODEMAX) && Len(Sample()[i]) <= NODEMAX
      ensures Even(Len(Sample()[i])) + 2 == if i < 9 then 438 else 12
    {
      SampleOk(i);
    }
    forall i | 0 <= i < 21
      ensures Costs(Sample(), 5, NewNode())[i] == Mixed()[i]
    {
      assert i != 5 ==> Even(Len(Sample()[Source(i, 5)])) + 2 == Mixed()[i];
    }
  }

  /** mdb_page_split returns MDB_PAGE_FULL for that page and a node of 248 bytes. */
  method Fails() returns (r: AddResult)
    ensures r.Full?
  {
    hide AllNodes, NodesAt, Heap, BothFit, Entries, Sample, NewNode, Halves, AllInline;
    SampleFits();
    MixedHalves();
    NewIs();
    var mp := Build();
    var rp, split, sepkey, ki;
    r, rp, split, sepkey, ki := Split(mp, 5, NewNode());
  }

  lemma NewIs()
    ensures var q := NewNode(); q.Ok() && q.leaf && !BigData(q.flags) && !q.Spills() && q.nodemax == NODEMAX
  {
  }
}
