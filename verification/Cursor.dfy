/**
 Cursors (mdb_cursor_first, mdb_cursor_next, mdb_cursor_sibling): a stack of pages and
 indices that steps through the leaf entries of a B+tree in order.
 */
module Cursor {
  import opened Wrappers

  const CURSOR_STACK := 32

  datatype Tree<E> = Leaf(entries: seq<E>) | Branch(kids: seq<Tree<E>>)

  /** NUMKEYS. */
  function Num<E>(t: Tree<E>): nat { if t.Leaf? then |t.entries| else |t.kids| }

  /** The entries under the first n slots of a page. */
  ghost function Prefix<E>(t: Tree<E>, n: nat): seq<E>
    requires n <= Num(t)
    decreases t, n
  {
    if t.Leaf? then t.entries[..n]
    else if n == 0 then []
    else Prefix(t, n - 1) + Flatten(t.kids[n - 1])
  }

  /** All entries under a page, in order. */
  ghost function Flatten<E>(t: Tree<E>): seq<E>
    decreases t, Num(t) + 1
  {
    Prefix(t, Num(t))
  }

  /** Every leaf is at the same depth and no page is empty. */
  ghost predicate Uniform<E>(t: Tree<E>, depth: nat)
    decreases t
  {
    && Num(t) > 0 && depth > 0 && (t.Leaf? <==> depth == 1)
    && (t.Branch? ==> forall i :: 0 <= i < |t.kids| ==> Uniform(t.kids[i], depth - 1))
  }

  lemma {:induction false} PrefixPart<E>(t: Tree<E>, i: nat, n: nat)
    requires i <= n <= Num(t)
    ensures Prefix(t, i) <= Prefix(t, n)
  {
    if i < n && t.Branch? {
      PrefixPart(t, i, n - 1);
    }
  }

  // ---------------------------------------------------------------- paths

  /** pg and ki go down from the root, each page being the child the index above it
      selects. */
  ghost predicate Path<E>(root: Tree<E>, pg: seq<Tree<E>>, ki: seq<nat>) {
    && 0 < |pg| == |ki| && pg[0] == root
    && (forall l :: 0 <= l < |pg| ==> ki[l] < Num(pg[l]))
    && (forall l :: 0 < l < |pg| ==> Child(pg[l - 1], ki[l - 1], pg[l]))
  }

  ghost predicate Child<E>(t: Tree<E>, i: nat, kid: Tree<E>) {
    t.Branch? && i < |t.kids| && t.kids[i] == kid
  }

  /** How many entries come before the ones under pg[l]. */
  ghost function Before<E>(pg: seq<Tree<E>>, ki: seq<nat>, l: nat): nat
    requires l < |pg| == |ki| && forall m :: 0 <= m < |pg| ==> ki[m] < Num(pg[m])
  {
    if l == 0 then 0 else Before(pg, ki, l - 1) + |Prefix(pg[l - 1], ki[l - 1])|
  }

  /** The entries under the page at level l are part of the whole. */
  lemma {:induction false} Located<E>(root: Tree<E>, pg: seq<Tree<E>>, ki: seq<nat>, l: nat)
    requires Path(root, pg, ki) && l < |pg|
    ensures Before(pg, ki, l) + |Flatten(pg[l])| <= |Flatten(root)|
    ensures Flatten(root)[Before(pg, ki, l)..][..|Flatten(pg[l])|] == Flatten(pg[l])
  {
    if l > 0 {
      var b, t, i := Before(pg, ki, l - 1), pg[l - 1], ki[l - 1];
      Located(root, pg, ki, l - 1);
      assert Child(t, i, pg[l]);
      PrefixPart(t, i + 1, Num(t));
      var all, part := Flatten(root), Flatten(t);
      assert Prefix(t, i + 1) == Prefix(t, i) + Flatten(pg[l]);
      var p, n := |Prefix(t, i)|, |Flatten(pg[l])|;
      assert part[..p + n] == Prefix(t, i + 1);
      assert part[p..p + n] == Flatten(pg[l]);
      SliceOfSlice(all, b, |part|, p, n);
    }
  }

  lemma SliceOfSlice<T>(s: seq<T>, b: nat, len: nat, p: nat, n: nat)
    requires b + len <= |s| && p + n <= len
    ensures s[b..][..len][p..p + n] == s[b + p..][..n]
  {
    var part, slice := s[b..][..len], s[b + p..][..n];
    forall i | 0 <= i < n
      ensures part[p..p + n][i] == slice[i]
    {
      assert part[p + i] == s[b + p + i];
    }
  }

  /** Where the cursor's entry is in the whole. */
  lemma EntryAt<E>(root: Tree<E>, pg: seq<Tree<E>>, ki: seq<nat>)
    requires Path(root, pg, ki) && pg[|pg| - 1].Leaf?
    ensures var l := |pg| - 1; Before(pg, ki, l) + ki[l] < |Flatten(root)|
    ensures var l := |pg| - 1; Flatten(root)[Before(pg, ki, l) + ki[l]] == pg[l].entries[ki[l]]
  {
    var l := |pg| - 1;
    Located(root, pg, ki, l);
    assert Flatten(pg[l]) == pg[l].entries;
    assert Flatten(root)[Before(pg, ki, l)..][..|Flatten(pg[l])|][ki[l]] == pg[l].entries[ki[l]];
  }

  /** Before looks at the levels above only. */
  lemma {:induction false} BeforeSame<E>(pg: seq<Tree<E>>, ki: seq<nat>, pg': seq<Tree<E>>, ki': seq<nat>, l: nat)
    requires l < |pg| == |ki| && forall m :: 0 <= m < |pg| ==> ki[m] < Num(pg[m])
    requires l < |pg'| == |ki'| && forall m :: 0 <= m < |pg'| ==> ki'[m] < Num(pg'[m])
    requires pg[..l] == pg'[..l] && ki[..l] == ki'[..l]
    ensures Before(pg, ki, l) == Before(pg', ki', l)
  {
    if l > 0 {
      assert pg[l - 1] == pg[..l][l - 1] && ki[l - 1] == ki[..l][l - 1];
      assert pg'[l - 1] == pg'[..l][l - 1] && ki'[l - 1] == ki'[..l][l - 1];
      assert pg[..l - 1] == pg[..l][..l - 1] && pg'[..l - 1] == pg'[..l][..l - 1];
      assert ki[..l - 1] == ki[..l][..l - 1] && ki'[..l - 1] == ki'[..l][..l - 1];
      BeforeSame(pg, ki, pg', ki', l - 1);
    }
  }

  /** Pages of a path have their place in the uniform tree. */
  lemma {:induction false} PathDepth<E>(root: Tree<E>, pg: seq<Tree<E>>, ki: seq<nat>, depth: nat, l: nat)
    requires Path(root, pg, ki) && Uniform(root, depth) && l < |pg|
    ensures l < depth && Uniform(pg[l], depth - l)
  {
    if l > 0 {
      PathDepth(root, pg, ki, depth, l - 1);
      assert Child(pg[l - 1], ki[l - 1], pg[l]);
    }
  }

  // ---------------------------------------------------------------- moves on the stack

  ghost function Last<T>(s: seq<T>): T
    requires |s| > 0
  {
    s[|s| - 1]
  }

  /** The entries before those under the top page. */
  ghost function BeforeTop<E>(root: Tree<E>, pg: seq<Tree<E>>, ki: seq<nat>): nat
    requires Path(root, pg, ki)
  {
    Before(pg, ki, |pg| - 1)
  }

  lemma Pop<E>(root: Tree<E>, pg: seq<Tree<E>>, ki: seq<nat>)
    requires Path(root, pg, ki) && |pg| > 1
    ensures var pg', ki' := pg[..|pg| - 1], ki[..|ki| - 1];
            && Path(root, pg', ki') && Child(Last(pg'), Last(ki'), Last(pg))
            && BeforeTop(root, pg, ki) == BeforeTop(root, pg', ki') + |Prefix(Last(pg'), Last(ki'))|
  {
    hide Prefix, Flatten, Child;
    var n := |pg| - 1;
    var pg', ki' := pg[..n], ki[..n];
    forall l | 0 < l < n
      ensures Child(pg'[l - 1], ki'[l - 1], pg'[l])
    {
      assert Child(pg[l - 1], ki[l - 1], pg[l]);
    }
    assert Path(root, pg', ki');
    hide Path;
    assert pg'[..n - 1] == pg[..n - 1] && ki'[..n - 1] == ki[..n - 1];
    BeforeSame(pg, ki, pg', ki', n - 1);
  }

  lemma Push<E>(root: Tree<E>, pg: seq<Tree<E>>, ki: seq<nat>, kid: Tree<E>, i: nat)
    requires Path(root, pg, ki) && Child(Last(pg), Last(ki), kid) && i < Num(kid)
    ensures var pg', ki' := pg + [kid], ki + [i];
            && Path(root, pg', ki')
            && BeforeTop(root, pg', ki') == BeforeTop(root, pg, ki) + |Prefix(Last(pg), Last(ki))|
  {
    var n := |pg|;
    var pg', ki' := pg + [kid], ki + [i];
    forall l | 0 < l < n + 1
      ensures Child(pg'[l - 1], ki'[l - 1], pg'[l])
    {
      assert l < n ==> Child(pg[l - 1], ki[l - 1], pg[l]);
    }
    BeforeSame(pg, ki, pg', ki', n - 1);
  }

  lemma Turn<E>(root: Tree<E>, pg: seq<Tree<E>>, ki: seq<nat>, i: nat)
    requires Path(root, pg, ki) && i < Num(Last(pg))
    ensures var ki' := ki[|ki| - 1 := i]; Path(root, pg, ki') && BeforeTop(root, pg, ki') == BeforeTop(root, pg, ki)
  {
    var n := |pg| - 1;
    var ki' := ki[n := i];
    forall l | 0 < l < |pg|
      ensures Child(pg[l - 1], ki'[l - 1], pg[l])
    {
      assert Child(pg[l - 1], ki[l - 1], pg[l]);
    }
    BeforeSame(pg, ki, pg, ki', n);
  }

  /** The new top page comes right after, or right before, the old one. */
  ghost predicate Stepped<E>(root: Tree<E>, pg: seq<Tree<E>>, ki: seq<nat>, pg': seq<Tree<E>>, ki': seq<nat>,
                             right: bool) {
    && Path(root, pg, ki) && Path(root, pg', ki') && |pg'| == |pg|
    && if right then
         BeforeTop(root, pg', ki') == BeforeTop(root, pg, ki) + |Flatten(Last(pg))| && Last(ki') == 0
       else
         BeforeTop(root, pg', ki') + |Flatten(Last(pg'))| == BeforeTop(root, pg, ki) && Last(ki') == Num(Last(pg')) - 1
  }

  /** There is no page on that side. */
  ghost predicate AtEdge<E>(root: Tree<E>, pg: seq<Tree<E>>, ki: seq<nat>, right: bool) {
    && Path(root, pg, ki)
    && if right then BeforeTop(root, pg, ki) + |Flatten(Last(pg))| == |Flatten(root)| else BeforeTop(root, pg, ki) == 0
  }

  /** The parent's index moved by one. */
  lemma StepWithin<E>(root: Tree<E>, pg: seq<Tree<E>>, ki: seq<nat>, i: nat, right: bool, depth: nat)
    requires Path(root, pg, ki) && |pg| > 1 && Uniform(root, depth)
    requires var p, k := pg[|pg| - 2], ki[|ki| - 2]; i < Num(p) && if right then i == k + 1 else i + 1 == k
    ensures var p := pg[|pg| - 2]; p.Branch? && i < |p.kids| && Num(p.kids[i]) > 0
    ensures var n, kid := |pg| - 1, pg[|pg| - 2].kids[i];
            Stepped(root, pg, ki, pg[..n] + [kid], ki[..n][n - 1 := i] + [if right then 0 else Num(kid) - 1], right)
  {
    var n := |pg| - 1;
    var p, k := pg[n - 1], ki[n - 1];
    assert |pg| == |ki| && Child(p, k, pg[n]);
    hide Path, BeforeTop, Uniform, Prefix, Flatten;
    PathDepth(root, pg, ki, depth, n - 1);
    KidsUniform(p, depth - (n - 1), i);
    Switch(root, pg, ki, i, if right then 0 else Num(p.kids[i]) - 1);
    PrefixNext(p, if right then k else i);
  }

  /** The top page is replaced by kid i of its parent. */
  lemma Switch<E>(root: Tree<E>, pg: seq<Tree<E>>, ki: seq<nat>, i: nat, j: nat)
    requires Path(root, pg, ki) && |pg| > 1
    requires var p := pg[|pg| - 2]; p.Branch? && i < |p.kids| && j < Num(p.kids[i])
    ensures var n, p, k := |pg| - 1, pg[|pg| - 2], ki[|pg| - 2];
            var pg', ki' := pg[..n] + [p.kids[i]], ki[..n][n - 1 := i] + [j];
            && Path(root, pg', ki')
            && BeforeTop(root, pg', ki') + |Prefix(p, k)| == BeforeTop(root, pg, ki) + |Prefix(p, i)|
  {
    assert |pg| == |ki|;
    hide Path, BeforeTop, Prefix;
    var n := |pg| - 1;
    Pop(root, pg, ki);
    Turn(root, pg[..n], ki[..n], i);
    Push(root, pg[..n], ki[..n][n - 1 := i], pg[n - 1].kids[i], j);
  }

  lemma KidsUniform<E>(p: Tree<E>, depth: nat, i: nat)
    requires p.Branch? && Uniform(p, depth) && i < |p.kids|
    ensures Num(p.kids[i]) > 0
  {
    assert Uniform(p.kids[i], depth - 1);
  }

  lemma PrefixNext<E>(p: Tree<E>, i: nat)
    requires p.Branch? && i < |p.kids|
    ensures Prefix(p, i + 1) == Prefix(p, i) + Flatten(p.kids[i])
  {
  }

  /** The parent itself stepped to its sibling. */
  lemma StepAcross<E>(root: Tree<E>, pg: seq<Tree<E>>, ki: seq<nat>, pg1: seq<Tree<E>>, ki1: seq<nat>, right: bool,
                      depth: nat)
    requires Path(root, pg, ki) && |pg| > 1 && Uniform(root, depth)
    requires Stepped(root, pg[..|pg| - 1], ki[..|pg| - 1], pg1, ki1, right)
    requires var p, k := pg[|pg| - 2], ki[|ki| - 2]; if right then k + 1 >= Num(p) else k == 0
    ensures |pg1| == |ki1| == |pg| - 1 && Last(pg1).Branch? && Last(ki1) < |Last(pg1).kids|
    ensures Num(Last(pg1).kids[Last(ki1)]) > 0
    ensures var kid := Last(pg1).kids[Last(ki1)];
            Stepped(root, pg, ki, pg1 + [kid], ki1 + [if right then 0 else Num(kid) - 1], right)
  {
    var n := |pg| - 1;
    Pop(root, pg, ki);
    PathDepth(root, pg, ki, depth, n);
    PathDepth(root, pg1, ki1, depth, n - 1);
    var p, k, t := pg[n - 1], ki[n - 1], Last(pg1);
    var kid := t.kids[Last(ki1)];
    Push(root, pg1, ki1, kid, if right then 0 else Num(kid) - 1);
    if right {
      assert Flatten(p) == Prefix(p, k) + Flatten(p.kids[k]);
    } else {
      assert Flatten(t) == Prefix(t, Last(ki1)) + Flatten(kid);
    }
  }

  lemma TopIs<E>(root: Tree<E>, pg: seq<Tree<E>>, ki: seq<nat>)
    requires Path(root, pg, ki)
    ensures |pg| == |ki| && (forall m :: 0 <= m < |pg| ==> ki[m] < Num(pg[m]))
    ensures BeforeTop(root, pg, ki) == Before(pg, ki, |pg| - 1)
  {
  }

  lemma InRange<E>(root: Tree<E>, pg: seq<Tree<E>>, ki: seq<nat>, l: nat)
    requires Path(root, pg, ki) && l < |pg|
    ensures ki[l] < Num(pg[l])
  {
  }

  lemma RootAlone<E>(root: Tree<E>, pg: seq<Tree<E>>, ki: seq<nat>, right: bool)
    requires Path(root, pg, ki) && |pg| == 1
    ensures AtEdge(root, pg, ki, right)
  {
  }

  lemma JustRoot<E>(root: Tree<E>, depth: nat)
    requires Uniform(root, depth)
    ensures depth > 0 && Path(root, [root], [0]) && BeforeTop(root, [root], [0]) == 0
  {
  }

  /** Down to the first child of a branch page. */
  lemma Descend<E>(root: Tree<E>, pg: seq<Tree<E>>, ki: seq<nat>, depth: nat)
    requires Path(root, pg, ki) && BeforeTop(root, pg, ki) == 0 && Last(pg).Branch? && Last(ki) == 0
    requires Uniform(root, depth)
    ensures |pg| < depth && |Last(pg).kids| > 0
    ensures var kid := Last(pg).kids[0]; Path(root, pg + [kid], ki + [0]) && BeforeTop(root, pg + [kid], ki + [0]) == 0
  {
    PathDepth(root, pg, ki, depth, |pg| - 1);
    var kid := Last(pg).kids[0];
    assert Uniform(kid, depth - |pg|);
    Push(root, pg, ki, kid, 0);
  }

  lemma AtBottom<E>(root: Tree<E>, pg: seq<Tree<E>>, ki: seq<nat>, depth: nat)
    requires Path(root, pg, ki) && Uniform(root, depth)
    ensures Last(pg).Leaf? <==> |pg| == depth
  {
    PathDepth(root, pg, ki, depth, |pg| - 1);
  }

  lemma OneLevel<E>(root: Tree<E>, pg: seq<Tree<E>>, ki: seq<nat>)
    requires Path(root, pg, ki) && |pg| == 1
    ensures Path(root, pg, ki[0 := 0]) && BeforeTop(root, pg, ki[0 := 0]) == 0
  {
  }

  /** From the last entry of a leaf to the first of the next leaf. */
  lemma NextLeaf<E>(root: Tree<E>, pg: seq<Tree<E>>, ki: seq<nat>, pg': seq<Tree<E>>, ki': seq<nat>, depth: nat)
    requires Stepped(root, pg, ki, pg', ki', true) && Last(pg).Leaf? && Last(ki) + 1 >= Num(Last(pg))
    requires Uniform(root, depth) && |pg| == depth
    ensures Path(root, pg, ki) && Path(root, pg', ki') && |pg'| == |pg| && Last(pg').Leaf?
    ensures BeforeTop(root, pg', ki') + Last(ki') == BeforeTop(root, pg, ki) + Last(ki) + 1
  {
    AtBottom(root, pg', ki', depth);
    InRange(root, pg, ki, |pg| - 1);
    assert Flatten(Last(pg)) == Last(pg).entries;
  }

  lemma NoNext<E>(root: Tree<E>, pg: seq<Tree<E>>, ki: seq<nat>)
    requires AtEdge(root, pg, ki, true) && Last(pg).Leaf? && Last(ki) + 1 >= Num(Last(pg))
    ensures Path(root, pg, ki) && BeforeTop(root, pg, ki) + Last(ki) + 1 == |Flatten(root)|
  {
    InRange(root, pg, ki, |pg| - 1);
    assert Flatten(Last(pg)) == Last(pg).entries;
  }

  /** The parent has no sibling, so neither has the page. */
  lemma EdgeUp<E>(root: Tree<E>, pg: seq<Tree<E>>, ki: seq<nat>, right: bool)
    requires Path(root, pg, ki) && |pg| > 1 && AtEdge(root, pg[..|pg| - 1], ki[..|pg| - 1], right)
    requires var p, k := pg[|pg| - 2], ki[|ki| - 2]; if right then k + 1 >= Num(p) else k == 0
    ensures AtEdge(root, pg, ki, right)
  {
    Pop(root, pg, ki);
    var p, k := pg[|pg| - 2], ki[|ki| - 2];
    if right {
      assert Flatten(p) == Prefix(p, k) + Flatten(p.kids[k]);
    }
  }

  // ---------------------------------------------------------------- cursors

  class Cursor<E> {
    const root: Option<Tree<E>>  // None for P_INVALID
    ghost const depth: nat
    const pg: array<Tree<E>>
    const ki: array<nat>
    var snum: nat
    var initialized: bool
    var eof: bool

    ghost predicate Shape() {
      pg.Length == ki.Length == CURSOR_STACK && (root.Some? ==> Uniform(root.value, depth) && depth <= CURSOR_STACK)
    }

    /** The first n levels of the stack are a path. */
    ghost predicate OnPath(n: nat)
      reads pg, ki
    {
      0 < n <= pg.Length && n <= ki.Length && root.Some? && Path(root.value, pg[..n], ki[..n])
    }

    ghost predicate Valid()
      reads this, pg, ki
    {
      && Shape()
      && (initialized ==>
            && snum == depth && OnPath(snum) && pg[snum - 1].Leaf?
            && (eof ==> AtEdge(root.value, pg[..snum], ki[..snum], true)))  // on the last leaf
    }

    /** The number of entries before the cursor's. */
    ghost function Pos(): nat
      requires OnPath(snum)
      reads this, pg, ki
    {
      BeforeTop(root.value, pg[..snum], ki[..snum]) + ki[snum - 1]
    }

    ghost function All(): seq<E> { if root.None? then [] else Flatten(root.value) }

    constructor (root: Option<Tree<E>>, ghost depth: nat)
      requires root.Some? ==> Uniform(root.value, depth) && depth <= CURSOR_STACK
      ensures Valid() && !initialized && this.root == root && this.depth == depth && fresh(pg) && fresh(ki)
    {
      this.root, this.depth := root, depth;
      pg := new Tree<E>[CURSOR_STACK](_ => Leaf([]));
      ki := new nat[CURSOR_STACK](_ => 0);
      snum, initialized, eof := 0, false, false;
    }

    /** mdb_cursor_push of the child the top index selects, then its index set to i. */
    method PushKid(kid: Tree<E>, i: nat)
      requires Shape() && snum < CURSOR_STACK
      modifies this`snum, pg, ki
      ensures snum == old(snum) + 1 && pg[..snum] == old(pg[..snum]) + [kid] && ki[..snum] == old(ki[..snum]) + [i]
    {
      pg[snum] := kid;
      ki[snum] := i;
      snum := snum + 1;
    }

    /** Steps the parent's index by one, inside the parent. */
    method Within(right: bool, ghost pg0: seq<Tree<E>>, ghost ki0: seq<nat>)
      requires Shape() && root.Some? && 0 < snum < CURSOR_STACK && |pg0| == |ki0| == snum + 1
      requires Path(root.value, pg0, ki0)
      requires pg[..snum] == pg0[..snum] && ki[..snum] == ki0[..snum]
      requires if right then ki[snum - 1] + 1 < Num(pg[snum - 1]) else ki[snum - 1] > 0
      modifies this`snum, pg, ki
      ensures snum == old(snum) + 1 && Stepped(root.value, pg0, ki0, pg[..snum], ki[..snum], right)
    {
      hide Stepped, Path, Uniform;
      ghost var n := snum;
      assert pg[n - 1] == pg[..n][n - 1] == pg0[n - 1] && ki[n - 1] == ki[..n][n - 1] == ki0[n - 1];
      assert ki0[n - 1] < Num(pg0[n - 1]) by {
        InRange(root.value, pg0, ki0, n - 1);
      }
      ghost var i := if right then ki0[n - 1] + 1 else ki0[n - 1] - 1;
      StepWithin(root.value, pg0, ki0, i, right, depth);
      if right {
        ki[snum - 1] := ki[snum - 1] + 1;
      } else {
        ki[snum - 1] := ki[snum - 1] - 1;
      }
      assert ki[..n] == ki0[..n][n - 1 := i];
      var mp := pg[snum - 1].kids[ki[snum - 1]];
      PushKid(mp, if right then 0 else Num(mp) - 1);
    }

    /** The parent has stepped to its sibling; down to its first or last child. */
    method Across(right: bool, ghost pg0: seq<Tree<E>>, ghost ki0: seq<nat>)
      requires Shape() && root.Some? && 0 < snum < CURSOR_STACK && |pg0| == |ki0| == snum + 1
      requires Path(root.value, pg0, ki0)
      requires Stepped(root.value, pg0[..snum], ki0[..snum], pg[..snum], ki[..snum], right)
      requires if right then ki0[snum - 1] + 1 >= Num(pg0[snum - 1]) else ki0[snum - 1] == 0
      modifies this`snum, pg, ki
      ensures snum == old(snum) + 1 && Stepped(root.value, pg0, ki0, pg[..snum], ki[..snum], right)
    {
      hide Stepped, Path, Uniform;
      StepAcross(root.value, pg0, ki0, pg[..snum], ki[..snum], right, depth);
      assert pg[snum - 1] == Last(pg[..snum]) && ki[snum - 1] == Last(ki[..snum]);
      var mp := pg[snum - 1].kids[ki[snum - 1]];
      PushKid(mp, if right then 0 else Num(mp) - 1);
    }

    /** mdb_cursor_sibling. */
    method Sibling(right: bool) returns (ok: bool)
      requires Shape() && OnPath(snum)
      modifies this`snum, pg, ki
      ensures snum == old(snum)
      ensures ok ==> Stepped(root.value, old(pg[..snum]), old(ki[..snum]), pg[..snum], ki[..snum], right)
      ensures !ok ==> pg[..] == old(pg[..]) && ki[..] == old(ki[..])
      ensures !ok ==> AtEdge(root.value, pg[..snum], ki[..snum], right)
      decreases snum
    {
      hide Stepped, Path, Uniform, AtEdge;
      ghost var t, pg0, ki0 := root.value, pg[..snum], ki[..snum];
      if snum < 2 {
        RootAlone(t, pg0, ki0, right);
        return false;
      }
      Pop(t, pg0, ki0);
      snum := snum - 1;
      assert pg[..snum] == pg0[..snum] && ki[..snum] == ki0[..snum];
      assert pg[snum - 1] == pg0[snum - 1] && ki[snum - 1] == ki0[snum - 1];
      if (if right then ki[snum - 1] + 1 >= Num(pg[snum - 1]) else ki[snum - 1] == 0) {
        ok := Sibling(right);
        if !ok {
          // undo the pop
          snum := snum + 1;
          EdgeUp(t, pg0, ki0, right);
          assert pg[..snum] == old(pg[..])[..snum] == pg0 && ki[..snum] == old(ki[..])[..snum] == ki0;
          return;
        }
        Across(right, pg0, ki0);
      } else {
        Within(right, pg0, ki0);
      }
      ok := true;
    }

    /** The entry at the cursor is the one at its position in the whole. */
    lemma Here()
      requires Valid() && initialized
      ensures snum > 0 && ki[snum - 1] < |pg[snum - 1].entries| && Pos() < |All()|
      ensures pg[snum - 1].entries[ki[snum - 1]] == All()[Pos()]
    {
      EntryAt(root.value, pg[..snum], ki[..snum]);
    }

    /** mdb_page_search with MDB_PS_FIRST on a tree that is not empty: down the first
        children to a leaf. */
    method SearchFirst()
      requires Shape() && root.Some?
      modifies this`snum, pg, ki
      ensures snum == depth && 0 < snum && pg[snum - 1].Leaf?
      ensures Path(root.value, pg[..snum], ki[..snum][snum - 1 := 0])
      ensures BeforeTop(root.value, pg[..snum], ki[..snum][snum - 1 := 0]) == 0
    {
      hide Path, Uniform, BeforeTop;
      ghost var t := root.value;
      pg[0] := root.value;
      snum := 1;
      JustRoot(t, depth);
      assert pg[..1] == [t] && ki[..1][0 := 0] == [0];
      while pg[snum - 1].Branch?
        invariant 0 < snum <= depth && Path(t, pg[..snum], ki[..snum][snum - 1 := 0])
        invariant BeforeTop(t, pg[..snum], ki[..snum][snum - 1 := 0]) == 0
        decreases depth - snum
      {
        ghost var pg0, ki0 := pg[..snum], ki[..snum][snum - 1 := 0];
        Descend(t, pg0, ki0, depth);
        ki[snum - 1] := 0;
        assert ki[..snum] == ki0;
        PushKid(pg[snum - 1].kids[0], 0);
        assert ki[..snum][snum - 1 := 0] == ki0 + [0];
      }
      AtBottom(t, pg[..snum], ki[..snum][snum - 1 := 0], depth);
    }

    /** mdb_cursor_first. */
    method First() returns (e: Option<E>)
      requires Valid()
      modifies this, pg, ki
      ensures Valid() && (e.None? <==> All() == [])
      ensures e.Some? ==> On(0) && e.value == All()[0]
    {
      hide Path, Uniform, BeforeTop, AtEdge;
      if !initialized || snum != 1 {
        if root.None? {
          return None;
        }
        SearchFirst();
      }
      ghost var ki0 := ki[..snum];
      assert pg[0] == pg[..snum][0];
      if initialized && old(snum) == 1 {
        OneLevel(root.value, pg[..snum], ki0);
      }
      initialized := true;
      eof := false;
      ki[snum - 1] := 0;
      assert ki[..snum] == ki0[snum - 1 := 0];
      Here();
      e := Some(pg[snum - 1].entries[ki[snum - 1]]);
    }

    /** The cursor is on entry p of the whole. */
    ghost predicate On(p: nat)
      reads this, pg, ki
    {
      initialized && OnPath(snum) && Pos() == p < |All()|
    }

    /** The leaf moves on. */
    method NextPage() returns (ok: bool)
      requires Valid() && initialized && !eof && ki[snum - 1] + 1 >= Num(pg[snum - 1])
      modifies this`snum, pg, ki
      ensures snum == old(snum) && OnPath(snum) && pg[snum - 1].Leaf? && (!ok <==> old(Pos()) + 1 == |All()|)
      ensures ok ==> Pos() == old(Pos()) + 1
      ensures !ok ==> pg[..] == old(pg[..]) && ki[..] == old(ki[..])
      ensures !ok ==> AtEdge(root.value, pg[..snum], ki[..snum], true)
    {
      hide Path, Uniform, BeforeTop, Stepped, AtEdge;
      ghost var t, pg0, ki0 := root.value, pg[..snum], ki[..snum];
      Here();
      ok := Sibling(true);
      if ok {
        NextLeaf(t, pg0, ki0, pg[..snum], ki[..snum], depth);
        EntryAt(t, pg[..snum], ki[..snum]);
        TopIs(t, pg[..snum], ki[..snum]);
      } else {
        NoNext(t, pg0, ki0);
        assert pg[..snum] == old(pg[..])[..snum] == pg0 && ki[..snum] == old(ki[..])[..snum] == ki0;
        assert pg[snum - 1] == old(pg[..])[snum - 1];
      }
    }

    /** The index on the leaf, or else the leaf, moves on. */
    method Advance() returns (ok: bool)
      requires Valid() && initialized && !eof
      modifies this`snum, pg, ki
      ensures snum == old(snum) && OnPath(snum) && pg[snum - 1].Leaf? && (!ok <==> old(Pos()) + 1 == |All()|)
      ensures ok ==> Pos() == old(Pos()) + 1
      ensures !ok ==> pg[..] == old(pg[..]) && ki[..] == old(ki[..])
      ensures !ok ==> AtEdge(root.value, pg[..snum], ki[..snum], true)
    {
      hide Path, Uniform, BeforeTop, Stepped, AtEdge;
      Here();
      if ki[snum - 1] + 1 >= Num(pg[snum - 1]) {
        ok := NextPage();
      } else {
        NextSlot();
        ok := true;
      }
    }

    /** The index on the leaf moves on. */
    method NextSlot()
      requires Valid() && initialized && ki[snum - 1] + 1 < Num(pg[snum - 1])
      modifies ki
      ensures OnPath(snum) && Pos() == old(Pos()) + 1 < |All()|
    {
      hide Path, Uniform, BeforeTop, Stepped, AtEdge;
      ghost var t, ki0 := root.value, ki[..snum];
      ghost var last := snum - 1;
      Here();
      Turn(t, pg[..snum], ki0, ki[last] + 1);
      ki[snum - 1] := ki[snum - 1] + 1;
      assert ki[..snum] == ki0[last := ki[last]];
      EntryAt(t, pg[..snum], ki[..snum]);
      TopIs(t, pg[..snum], ki[..snum]);
    }

    /** mdb_cursor_next, without duplicates. */
    method Next() returns (e: Option<E>)
      requires Valid()
      modifies this, pg, ki
      ensures Valid() && (e.None? <==> old(if initialized then Pos() + 1 == |All()| else All() == []))
      ensures e.Some? ==> On(old(if initialized then Pos() + 1 else 0)) && e.value == All()[Pos()]
      ensures old(initialized) && e.None? ==> snum == old(snum) && pg[..] == old(pg[..]) && ki[..] == old(ki[..])
    {
      hide Path, Uniform, BeforeTop, AtEdge;
      if !initialized {
        e := First();
        return;
      }
      Here();
      if eof {
        if ki[snum - 1] >= Num(pg[snum - 1]) - 1 {
          NoNext(root.value, pg[..snum], ki[..snum]);
          return None;
        }
        eof := false;
      }
      var ok := Advance();
      if !ok {
        assert pg[..snum] == old(pg[..])[..snum] && ki[..snum] == old(ki[..])[..snum];
        eof := true;
        return None;
      }
      Here();
      e := Some(pg[snum - 1].entries[ki[snum - 1]]);
    }

    /** The first entry and then the next one until there is none: all of them in order. */
    method Scan() returns (out: seq<E>)
      requires Valid()
      modifies this, pg, ki
      ensures Valid() && out == All()
    {
      hide Valid, Pos;
      out := [];
      var e := First();
      while e.Some?
        invariant Valid() && |out| <= |All()| && out == All()[..|out|]
        invariant e.Some? ==> On(|out|) && e.value == All()[|out|]
        invariant e.None? ==> |out| == |All()|
        decreases |All()| - |out|
      {
        out := out + [e.value];
        e := Next();
      }
    }
  }
}
