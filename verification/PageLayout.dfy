/**
 Nodes in the heap of a slotted page: how they are encoded, and what it means that
 they tile the heap.
 */
module PageLayout {

  type byte = x: int | 0 <= x < 256

  const NODESIZE := 8
  const F_BIGDATA := 1

  /** A node as the tree sees it. dsize is the size of the data; with F_BIGDATA the
      data bytes are the number of the overflow page that holds it. */
  datatype Node =
    | LeafNode(flags: nat, key: seq<byte>, dsize: nat, data: seq<byte>)
    | BranchNode(pgno: nat, key: seq<byte>)

  predicate BigData(flags: nat) { flags % 2 == 1 }

  ghost predicate NodeOk(n: Node) {
    match n
    case LeafNode(flags, key, dsize, data) =>
      && flags < 0x10000 && |key| < 0x10000 && dsize < 0x1_0000_0000
      && |data| == if BigData(flags) then 8 else dsize
    case BranchNode(pgno, key) => pgno < 0x1_0000_0000_0000 && |key| < 0x10000
  }

  function Len(n: Node): nat { NODESIZE + |n.key| + if n.LeafNode? then |n.data| else 0 }

  function Even(n: nat): (r: nat)
    ensures n <= r <= n + 1 && r % 2 == 0
  {
    if n % 2 == 0 then n else n + 1
  }

  function U16(b: seq<byte>, i: nat): (r: nat)
    requires i + 2 <= |b|
    ensures r < 0x10000
  {
    (b[i] as int) + 256 * (b[i + 1] as int)
  }

  function Put16(x: nat): (r: seq<byte>)
    ensures |r| == 2
  {
    [x % 256, x / 256 % 256]
  }

  // ---------------------------------------------------------------- decoding

  function KeySize(b: seq<byte>): nat
    requires |b| >= NODESIZE
  {
    U16(b, 6)
  }

  function Flags(b: seq<byte>): nat
    requires |b| >= NODESIZE
  {
    U16(b, 4)
  }

  /** NODEDSZ. */
  function DataSize(b: seq<byte>): nat
    requires |b| >= NODESIZE
  {
    U16(b, 0) + 0x10000 * U16(b, 2)
  }

  /** How many bytes follow the key in the node. */
  function Payload(b: seq<byte>, leaf: bool): nat
    requires |b| >= NODESIZE
  {
    if !leaf then 0 else if BigData(Flags(b)) then 8 else DataSize(b)
  }

  function NodeLen(b: seq<byte>, leaf: bool): nat
    requires |b| >= NODESIZE
  {
    NODESIZE + KeySize(b) + Payload(b, leaf)
  }

  /** A whole node starts at the front of b. */
  predicate HasNode(b: seq<byte>, leaf: bool) {
    |b| >= NODESIZE && NodeLen(b, leaf) <= |b|
  }

  function Decode(b: seq<byte>, leaf: bool): (n: Node)
    requires HasNode(b, leaf)
    ensures Len(n) == NodeLen(b, leaf) && n.LeafNode? == leaf
  {
    var key := b[NODESIZE..NODESIZE + KeySize(b)];
    if leaf then
      LeafNode(Flags(b), key, DataSize(b), b[NODESIZE + KeySize(b)..NodeLen(b, leaf)])
    else
      BranchNode(U16(b, 0) + 0x10000 * U16(b, 2) + 0x1_0000_0000 * U16(b, 4), key)
  }

  lemma DecodeOk(b: seq<byte>, leaf: bool)
    requires HasNode(b, leaf)
    ensures NodeOk(Decode(b, leaf))
  {
  }

  /** Decoding looks at the node's own bytes only. */
  lemma DecodeLocal(b: seq<byte>, c: seq<byte>, leaf: bool)
    requires HasNode(b, leaf) && |c| >= NodeLen(b, leaf) && c[..NodeLen(b, leaf)] == b[..NodeLen(b, leaf)]
    ensures HasNode(c, leaf) && NodeLen(c, leaf) == NodeLen(b, leaf) && Decode(c, leaf) == Decode(b, leaf)
  {
    var n := NodeLen(b, leaf);
    assert forall i :: 0 <= i < n ==> c[i] == c[..n][i] == b[i];
    assert c[NODESIZE..NODESIZE + KeySize(b)] == b[NODESIZE..NODESIZE + KeySize(b)];
    assert leaf ==> c[NODESIZE + KeySize(b)..n] == b[NODESIZE + KeySize(b)..n];
  }

  // ---------------------------------------------------------------- encoding

  /** The node header: mn_lo, mn_hi, mn_flags, mn_ksize. */
  function Header(lohi: nat, flags: nat, ksize: nat): (r: seq<byte>)
    ensures |r| == NODESIZE
  {
    Put16(lohi % 0x10000) + Put16(lohi / 0x10000) + Put16(flags) + Put16(ksize)
  }

  function Encode(n: Node): (r: seq<byte>)
    ensures |r| == Len(n)
  {
    match n
    case LeafNode(flags, key, dsize, data) => Header(dsize, flags, |key|) + key + data
    case BranchNode(pgno, key) => Header(pgno % 0x1_0000_0000, pgno / 0x1_0000_0000, |key|) + key
  }

  lemma Put16Reads(b: seq<byte>, i: nat, x: nat)
    requires i + 2 <= |b| && b[i..i + 2] == Put16(x) && x < 0x10000
    ensures U16(b, i) == x
  {
    assert b[i] == b[i..i + 2][0] && b[i + 1] == b[i..i + 2][1];
  }

  lemma HeaderReads(b: seq<byte>, lohi: nat, flags: nat, ksize: nat)
    requires |b| >= NODESIZE && b[..NODESIZE] == Header(lohi, flags, ksize)
    requires lohi < 0x1_0000_0000 && flags < 0x10000 && ksize < 0x10000
    ensures DataSize(b) == lohi && Flags(b) == flags && KeySize(b) == ksize
  {
    var h := Header(lohi, flags, ksize);
    assert b[0..2] == h[0..2] == Put16(lohi % 0x10000);
    assert b[2..4] == h[2..4] == Put16(lohi / 0x10000);
    assert b[4..6] == h[4..6] == Put16(flags);
    assert b[6..8] == h[6..8] == Put16(ksize);
    Put16Reads(b, 0, lohi % 0x10000);
    Put16Reads(b, 2, lohi / 0x10000);
    Put16Reads(b, 4, flags);
    Put16Reads(b, 6, ksize);
  }

  /** What is written is what is read back, whatever follows it on the page. */
  lemma RoundTrip(n: Node, b: seq<byte>)
    requires NodeOk(n) && |b| >= Len(n) && b[..Len(n)] == Encode(n)
    ensures HasNode(b, n.LeafNode?) && Decode(b, n.LeafNode?) == n
  {
    var e := Encode(n);
    var k := |n.key|;
    assert b[..NODESIZE] == e[..NODESIZE];
    assert forall i :: 0 <= i < Len(n) ==> b[i] == b[..Len(n)][i];
    if n.LeafNode? {
      HeaderReads(b, n.dsize, n.flags, k);
      assert b[NODESIZE..NODESIZE + k] == n.key;
      assert b[NODESIZE + k..Len(n)] == n.data;
    } else {
      HeaderReads(b, n.pgno % 0x1_0000_0000, n.pgno / 0x1_0000_0000, k);
      assert b[NODESIZE..NODESIZE + k] == n.key;
    }
  }

  // ---------------------------------------------------------------- tiling

  /** Node i covers offset x. */
  predicate Covers(ptrs: seq<nat>, sz: seq<nat>, i: int, x: int) {
    0 <= i < |ptrs| && i < |sz| && ptrs[i] <= x < ptrs[i] + sz[i]
  }

  ghost predicate Covered(ptrs: seq<nat>, sz: seq<nat>, x: int) { exists i :: Covers(ptrs, sz, i, x) }

  /** The nodes at ptrs, of sizes sz, fill [upper, psize) without gap or overlap. */
  ghost predicate Tiled(ptrs: seq<nat>, sz: seq<nat>, upper: nat, psize: nat) {
    && |ptrs| == |sz|
    && (forall i :: 0 <= i < |ptrs| ==> upper <= ptrs[i] && ptrs[i] + sz[i] <= psize && sz[i] > 0)
    && (forall i, j :: 0 <= i < |ptrs| && 0 <= j < |ptrs| && i != j ==>
          ptrs[i] + sz[i] <= ptrs[j] || ptrs[j] + sz[j] <= ptrs[i])
    && (forall x :: upper <= x < psize ==> Covered(ptrs, sz, x))
  }

  ghost function InsertAt<T>(s: seq<T>, k: nat, x: T): seq<T>
    requires k <= |s|
  {
    s[..k] + [x] + s[k..]
  }

  ghost function RemoveAt<T>(s: seq<T>, k: nat): seq<T>
    requires k < |s|
  {
    s[..k] + s[k + 1..]
  }

  /** Where entry i of a list with an entry inserted at k came from, i != k. */
  ghost function Source(i: nat, k: nat): nat
    requires i != k
  {
    if i < k then i else i - 1
  }

  lemma InsertedEntry<T>(s: seq<T>, k: nat, x: T, i: nat)
    requires k <= |s| && i <= |s|
    ensures InsertAt(s, k, x)[i] == if i == k then x else s[Source(i, k)]
  {
  }

  lemma AddedCovered(ptrs: seq<nat>, sz: seq<nat>, upper: nat, psize: nat, k: nat, size: nat, x: int)
    requires Tiled(ptrs, sz, upper, psize) && k <= |ptrs| && 0 < size <= upper <= psize && upper - size <= x < psize
    ensures Covered(InsertAt(ptrs, k, upper - size), InsertAt(sz, k, size), x)
  {
    var ptrs', sz' := InsertAt(ptrs, k, upper - size), InsertAt(sz, k, size);
    if x < upper {
      assert Covers(ptrs', sz', k, x);
    } else {
      assert Covered(ptrs, sz, x);
      var i :| Covers(ptrs, sz, i, x);
      assert Covers(ptrs', sz', if i < k then i else i + 1, x);
    }
  }

  /** A node added just below the others. */
  lemma TiledAdd(ptrs: seq<nat>, sz: seq<nat>, upper: nat, psize: nat, k: nat, size: nat)
    requires Tiled(ptrs, sz, upper, psize) && k <= |ptrs| && 0 < size <= upper <= psize
    ensures Tiled(InsertAt(ptrs, k, upper - size), InsertAt(sz, k, size), upper - size, psize)
  {
    hide Covered, InsertAt;
    var ptrs', sz' := InsertAt(ptrs, k, upper - size), InsertAt(sz, k, size);
    InsertLength(ptrs, k, upper - size);
    InsertLength(sz, k, size);
    forall i | 0 <= i < |ptrs'|
      ensures ptrs'[i] == if i == k then upper - size else ptrs[Source(i, k)]
      ensures sz'[i] == if i == k then size else sz[Source(i, k)]
    {
      InsertedEntry(ptrs, k, upper - size, i);
      InsertedEntry(sz, k, size, i);
    }
    forall x | upper - size <= x < psize
      ensures Covered(ptrs', sz', x)
    {
      AddedCovered(ptrs, sz, upper, psize, k, size, x);
    }
  }

  lemma InsertLength<T>(s: seq<T>, k: nat, x: T)
    requires k <= |s|
    ensures |InsertAt(s, k, x)| == |s| + 1
  {
  }

  /** Offsets after the node at `ptr`, of size s, is squeezed out. */
  ghost function Squeeze(p: nat, ptr: nat, s: nat): nat { if p < ptr then p + s else p }

  ghost function SqueezeAll(ptrs: seq<nat>, ptr: nat, s: nat): (r: seq<nat>)
    ensures |r| == |ptrs| && forall i :: 0 <= i < |r| ==> r[i] == Squeeze(ptrs[i], ptr, s)
  {
    seq(|ptrs|, i requires 0 <= i < |ptrs| => Squeeze(ptrs[i], ptr, s))
  }

  /** Where entry i of a list with entry k removed came from. */
  ghost function Before(i: nat, k: nat): nat { if i < k then i else i + 1 }

  lemma RemovedEntry(ptrs: seq<nat>, sz: seq<nat>, upper: nat, psize: nat, k: nat, i: nat)
    requires Tiled(ptrs, sz, upper, psize) && k < |ptrs| && i < |ptrs| - 1
    ensures var i0 := Before(i, k);
            && RemoveAt(ptrs, k)[i] == ptrs[i0] && RemoveAt(sz, k)[i] == sz[i0]
            && (ptrs[i0] + sz[i0] <= ptrs[k] || ptrs[i0] >= ptrs[k] + sz[k])
            && upper + sz[k] <= Squeeze(ptrs[i0], ptrs[k], sz[k])
            && Squeeze(ptrs[i0], ptrs[k], sz[k]) + sz[i0] <= psize && sz[i0] > 0
  {
  }

  lemma RemovedDisjoint(ptrs: seq<nat>, sz: seq<nat>, upper: nat, psize: nat, k: nat, i: nat, j: nat)
    requires Tiled(ptrs, sz, upper, psize) && k < |ptrs| && i < |ptrs| && j < |ptrs| && i != j && i != k && j != k
    ensures var a, b := Squeeze(ptrs[i], ptrs[k], sz[k]), Squeeze(ptrs[j], ptrs[k], sz[k]);
            a + sz[i] <= b || b + sz[j] <= a
  {
  }

  lemma RemovedCovered(ptrs: seq<nat>, sz: seq<nat>, upper: nat, psize: nat, k: nat, x: int)
    requires Tiled(ptrs, sz, upper, psize) && k < |ptrs| && upper + sz[k] <= x < psize
    ensures Covered(SqueezeAll(RemoveAt(ptrs, k), ptrs[k], sz[k]), RemoveAt(sz, k), x)
  {
    var y := if x < ptrs[k] + sz[k] then x - sz[k] else x;
    assert Covered(ptrs, sz, y);
    var i :| Covers(ptrs, sz, i, y);
    assert i != k;
    var i' := if i < k then i else i - 1;
    RemovedEntry(ptrs, sz, upper, psize, k, i');
    assert Covers(SqueezeAll(RemoveAt(ptrs, k), ptrs[k], sz[k]), RemoveAt(sz, k), i', x);
  }

  /** Deleting node k and moving everything below it up keeps the tiling. */
  lemma TiledRemove(ptrs: seq<nat>, sz: seq<nat>, upper: nat, psize: nat, k: nat)
    requires Tiled(ptrs, sz, upper, psize) && k < |ptrs|
    ensures Tiled(SqueezeAll(RemoveAt(ptrs, k), ptrs[k], sz[k]), RemoveAt(sz, k), upper + sz[k], psize)
  {
    hide Covered, Squeeze;
    var rp, sz' := RemoveAt(ptrs, k), RemoveAt(sz, k);
    var ptrs' := SqueezeAll(rp, ptrs[k], sz[k]);
    forall i | 0 <= i < |rp|
      ensures upper + sz[k] <= ptrs'[i] && ptrs'[i] + sz'[i] <= psize && sz'[i] > 0
    {
      RemovedEntry(ptrs, sz, upper, psize, k, i);
    }
    forall i, j | 0 <= i < |rp| && 0 <= j < |rp| && i != j
      ensures ptrs'[i] + sz'[i] <= ptrs'[j] || ptrs'[j] + sz'[j] <= ptrs'[i]
    {
      RemovedEntry(ptrs, sz, upper, psize, k, i);
      RemovedEntry(ptrs, sz, upper, psize, k, j);
      RemovedDisjoint(ptrs, sz, upper, psize, k, Before(i, k), Before(j, k));
    }
    forall x | upper + sz[k] <= x < psize
      ensures Covered(ptrs', sz', x)
    {
      RemovedCovered(ptrs, sz, upper, psize, k, x);
    }
  }
}
