/**
 Losing a meta page that was written but not synced brings back the one it replaced.
 When that is a whole snapshot, exactly.
 */
module MvccFallback {
  import opened Wrappers
  import opened Mvcc
  import opened MvccInvariant
  import opened MvccSafety

  /** After this step no crash can lose the newest meta page. */
  ghost predicate Settles(st: Step) { st.Sync? || st.MetaSync? || st.Crash? }

  lemma UnsettledStep(s: State, st: Step)
    requires Enabled(s, st) && !Settles(st) && !st.WriteMeta?
    ensures var s' := Apply(s, st);
            && s'.shaky == s.shaky
            && if st.Flush? then s'.unsynced == s.unsynced + {st.p} && s'.disk == s.disk[st.p := st.d]
               else s'.unsynced == s.unsynced && s'.disk == s.disk
  {
    hide MovePages, CanMove, ReclaimTxn, SaveTxn, BeginTxn, Distributes, MetaAt;
  }

  lemma ShakyStep(s: State, st: Step)
    requires Enabled(s, st) && Apply(s, st).shaky.Some?
    ensures st.WriteMeta? || (s.shaky.Some? && !Settles(st))
  {
    hide MovePages, CanMove, ReclaimTxn, SaveTxn, BeginTxn, Distributes, MetaAt;
  }

  /** Whenever a crash could lose the newest meta page, that page was written by a commit
      after which nothing was synced. */
  lemma {:induction false} WrittenAt(states: seq<State>, steps: seq<Step>, k: nat) returns (j: nat)
    requires IsRun(states, steps) && k < |states| && states[k].shaky.Some?
    ensures j < k && steps[j].WriteMeta? && forall h :: j < h < k ==> !Settles(steps[h])
  {
    hide Apply, Settles;
    assert k > 0;
    assert states[k] == Apply(states[k-1], steps[k-1]);
    ShakyStep(states[k-1], steps[k-1]);
    if steps[k-1].WriteMeta? {
      j := k - 1;
    } else {
      j := WrittenAt(states, steps, k - 1);
    }
  }

  /** Page p was written by a step after j and before k. */
  ghost predicate Flushed(steps: seq<Step>, j: nat, k: nat, p: Pgno) {
    exists h :: j < h < k <= |steps| && FlushOf(steps[h], p)
  }

  ghost predicate FlushOf(st: Step, p: Pgno) { st.Flush? && st.p == p }

  /** At s, a crash could bring m back; of its pages exactly those written since step j are
      unsynced, and the disk holds of the others what it held at s0. */
  ghost predicate Tracks(s0: State, s: State, m: Meta, steps: seq<Step>, j: nat, k: nat) {
    && s.shaky == Some(m)
    && (forall p :: p in m.snap.view ==> (p in s.unsynced <==> Flushed(steps, j, k, p)))
    && (forall p :: p in m.snap.view && p !in s.unsynced ==>
          (p in s.disk <==> p in s0.disk) && (p in s.disk ==> s.disk[p] == s0.disk[p]))
  }

  lemma FlushedNext(steps: seq<Step>, j: nat, k: nat, p: Pgno)
    requires j < k < |steps|
    ensures Flushed(steps, j, k + 1, p) <==> Flushed(steps, j, k, p) || FlushOf(steps[k], p)
  {
    if FlushOf(steps[k], p) {
      assert Flushed(steps, j, k + 1, p);
    }
  }

  lemma TracksStep(s0: State, s: State, m: Meta, steps: seq<Step>, j: nat, k: nat)
    requires j < k < |steps| && Tracks(s0, s, m, steps, j, k)
    requires Enabled(s, steps[k]) && !Settles(steps[k]) && !steps[k].WriteMeta?
    ensures Tracks(s0, Apply(s, steps[k]), m, steps, j, k + 1)
  {
    hide Apply, Flushed, Enabled;
    UnsettledStep(s, steps[k]);
    forall p | p in m.snap.view
      ensures p in Apply(s, steps[k]).unsynced <==> Flushed(steps, j, k + 1, p)
    {
      FlushedNext(steps, j, k, p);
    }
  }

  /** A commit syncs everything before it writes its meta page. */
  lemma TracksFirst(s: State, steps: seq<Step>, j: nat)
    requires Inv(s) && Enabled(s, WriteMeta) && j < |steps|
    ensures Tracks(s, Apply(s, WriteMeta), Alt(s), steps, j, j + 1)
  {
    hide ExactlyOnce, SafeMeta, SafeTxn, OnDisk, Partition, SlotInv, OldestInv, PrevInv, SnapInv, MetaWrite;
    WriteMetaPages(s);
  }

  /** No commit can follow before a sync. */
  lemma NoSecondWrite(s: State)
    requires Inv(s) && s.shaky.Some?
    ensures !Enabled(s, WriteMeta)
  {
    hide ExactlyOnce, SafeMeta, SafeTxn, OnDisk, Partition, SlotInv, OldestInv, SnapInv, WriterInv, Replaced;
  }

  lemma {:induction false} TracksRun(states: seq<State>, steps: seq<Step>, j: nat, k: nat)
    requires IsRun(states, steps) && j < k < |states| && steps[j].WriteMeta?
    requires forall h :: j < h < k ==> !Settles(steps[h])
    ensures Tracks(states[j], states[k], Alt(states[j]), steps, j, k)
  {
    hide Apply, Tracks, Settles, Inv;
    RunInv(states, steps, k - 1);
    assert states[k] == Apply(states[k-1], steps[k-1]);
    if k == j + 1 {
      TracksFirst(states[j], steps, j);
    } else {
      TracksRun(states, steps, j, k - 1);
      TracksShaky(states[j], states[k-1], Alt(states[j]), steps, j, k - 1);
      NoSecondWrite(states[k-1]);
      TracksStep(states[j], states[k-1], Alt(states[j]), steps, j, k - 1);
    }
  }

  lemma TracksShaky(s0: State, s: State, m: Meta, steps: seq<Step>, j: nat, k: nat)
    requires Tracks(s0, s, m, steps, j, k)
    ensures s.shaky == Some(m)
  {
  }

  /** The meta page that losing the newest one brings back is a whole snapshot, whatever
      the pages not yet synced then hold. */
  ghost predicate FallbackWhole(s: State) {
    forall junk :: Enabled(s, Crash(junk, true)) ==> WholeAfter(s, junk)
  }

  ghost predicate WholeAfter(s: State, junk: map<Pgno, Contents>)
    requires Enabled(s, Crash(junk, true))
  {
    var s' := Apply(s, Crash(junk, true));
    Complete(s', OtherMeta(s'))
  }

  lemma AfterCrash(s: State, junk: map<Pgno, Contents>)
    requires Inv(s) && Enabled(s, Crash(junk, true))
    ensures WholeAfter(s, junk) <==>
              OnDisk(s.disk + junk, s.shaky.value.snap.view) && ExactlyOnce(s.shaky.value.snap, s.shaky.value.txnid)
  {
    hide ExactlyOnce, SafeMeta, SafeTxn, OnDisk, Partition, SlotInv, OldestInv, SnapInv, Restart, TakeBack, OtherMeta;
    CrashPages(s, junk, true);
  }

  lemma NoFlushWhole(s0: State, s: State, m: Meta, steps: seq<Step>, j: nat, k: nat)
    requires Inv(s) && Tracks(s0, s, m, steps, j, k) && Complete(s0, m)
    requires forall p :: p in m.snap.view ==> !Flushed(steps, j, k, p)
    ensures FallbackWhole(s)
  {
    hide ExactlyOnce, Inv, Flushed, WholeAfter;
    forall junk | Enabled(s, Crash(junk, true))
      ensures WholeAfter(s, junk)
    {
      assert forall p :: p in m.snap.view ==> p !in junk.Keys;
      AfterCrash(s, junk);
    }
  }

  /** Junk in a page that was written, and not synced, spoils the snapshot. */
  lemma FlushSpoils(s0: State, s: State, m: Meta, steps: seq<Step>, j: nat, k: nat, p: Pgno, d: Contents, d': Contents)
    requires Inv(s) && Tracks(s0, s, m, steps, j, k) && d != d'
    requires p in m.snap.view && Flushed(steps, j, k, p)
    ensures !FallbackWhole(s)
  {
    hide ExactlyOnce, Inv, Flushed, WholeAfter;
    var junk := map[p := if m.snap.view[p] == d then d' else d];
    assert (s.disk + junk)[p] != m.snap.view[p];
    assert Enabled(s, Crash(junk, true));
    AfterCrash(s, junk);
  }

  lemma WholeBefore(s0: State, s: State, m: Meta, steps: seq<Step>, j: nat, k: nat)
    requires Inv(s) && Tracks(s0, s, m, steps, j, k) && FallbackWhole(s)
    requires forall p :: p in m.snap.view ==> !Flushed(steps, j, k, p)
    ensures Complete(s0, m)
  {
    hide ExactlyOnce, Inv, Flushed, WholeAfter;
    assert Enabled(s, Crash(map[], true));
    AfterCrash(s, map[]);
    assert s.disk + map[] == s.disk;
  }

  /** Exactly when the snapshot before the newest one survives the loss of the newest meta
      page: between the commit that wrote this page, at j, and the crash, none of its pages
      may be written; and it must have been whole at j, which it was unless an earlier
      crash had brought it back damaged. */
  lemma FallbackExact(states: seq<State>, steps: seq<Step>, j: nat, k: nat, d: Contents, d': Contents)
    requires IsRun(states, steps) && j < k < |states| && steps[j].WriteMeta? && d != d'
    requires forall h :: j < h < k ==> !Settles(steps[h])
    ensures states[k].shaky == Some(Alt(states[j]))
    ensures FallbackWhole(states[k]) <==>
              && Complete(states[j], Alt(states[j]))
              && forall p :: p in Alt(states[j]).snap.view ==> !Flushed(steps, j, k, p)
    ensures !Damaged(states[j]) ==> Complete(states[j], Alt(states[j]))
  {
    hide Complete, Inv, Flushed, FallbackWhole, Tracks, Settles;
    var s0, s, m := states[j], states[k], Alt(states[j]);
    RunInv(states, steps, k);
    TracksRun(states, steps, j, k);
    TracksShaky(s0, s, m, steps, j, k);
    WholeAtCommit(states, steps, j);
    if p :| p in m.snap.view && Flushed(steps, j, k, p) {
      FlushSpoils(s0, s, m, steps, j, k, p, d, d');
    } else if Complete(s0, m) {
      NoFlushWhole(s0, s, m, steps, j, k);
    } else if FallbackWhole(s) {
      WholeBefore(s0, s, m, steps, j, k);
    }
  }

  lemma WholeAtCommit(states: seq<State>, steps: seq<Step>, j: nat)
    requires IsRun(states, steps) && j < |steps| && steps[j].WriteMeta?
    ensures !Damaged(states[j]) ==> Complete(states[j], Alt(states[j]))
  {
    hide ExactlyOnce, SafeMeta, SafeTxn, OnDisk, Partition, SlotInv, OldestInv, PrevInv;
    RunInv(states, steps, j);
    TwoMetas(states[j]);
  }
}
