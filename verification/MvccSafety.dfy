/**
 What the multi-version protocol guarantees, over every run.
 */
module MvccSafety {
  import opened Wrappers
  import opened Mvcc
  import opened MvccInvariant

  lemma {:induction false} RunInv(states: seq<State>, steps: seq<Step>, k: nat)
    requires IsRun(states, steps) && k < |states|
    ensures Inv(states[k])
  {
    if k == 0 {
      InitInv(states[0]);
    } else {
      RunInv(states, steps, k - 1);
      StepInv(states[k-1], steps[k-1]);
    }
  }

  ghost predicate ReadsAt(s: State, i: nat, t: Txnid, m: Meta) {
    i < |s.slots| && s.slots[i].thread == Reading(t, m)
  }

  /** A thread is reading only because it was, or has just copied the meta page. */
  lemma ReadingComesFrom(s: State, st: Step, i: nat, t: Txnid, m: Meta)
    requires Enabled(s, st) && ReadsAt(Apply(s, st), i, t, m)
    ensures ReadsAt(s, i, t, m) || (st == CopyMeta(i) && m == MetaAt(s, t))
  {
    hide MovePages, CanMove, ReclaimTxn, SaveTxn, BeginTxn, Distributes, MetaAt;
  }

  lemma CopiedFrom(s: State, i: nat, t: Txnid, m: Meta)
    requires Enabled(s, CopyMeta(i)) && ReadsAt(Apply(s, CopyMeta(i)), i, t, m)
    ensures s.slots[i].thread.t == t
  {
  }

  ghost predicate Untouched(s: State, m: Meta) {
    OnDisk(s.disk, m.snap.view) && (s.w.Writing? ==> forall p :: p in m.snap.view ==> p !in s.w.txn.dirty)
  }

  lemma ReadingUntouched(s: State, i: nat, t: Txnid, m: Meta)
    requires Inv(s) && ReadsAt(s, i, t, m)
    ensures t <= m.txnid && Untouched(s, m)
  {
    assert SlotOk(s, i, s.slots[i]);
  }

  /** The meta page a pinned thread is about to copy is complete. */
  lemma MetaExact(s: State, i: nat)
    requires Inv(s) && Enabled(s, CopyMeta(i))
    ensures var m := MetaAt(s, s.slots[i].thread.t); ExactlyOnce(m.snap, m.txnid)
  {
    assert SlotOk(s, i, s.slots[i]);
  }

  /** Snapshot safety. A thread that is reading at the end of a run copied its
      snapshot from a meta page at some earlier moment; that snapshot has an id no
      older than the one the thread published, and from that moment on, at every
      state of the run, every page of it still holds its committed contents and is
      not writable by the transaction in progress. */
  lemma {:induction false} SnapshotSafety(states: seq<State>, steps: seq<Step>, k: nat, i: nat, t: Txnid, m: Meta)
    returns (from: nat)
    requires IsRun(states, steps) && k < |states| && ReadsAt(states[k], i, t, m)
    ensures from < k && steps[from] == CopyMeta(i)
    ensures m == MetaAt(states[from], t) && t <= m.txnid && ExactlyOnce(m.snap, m.txnid)
    ensures forall h :: from < h <= k ==> ReadsAt(states[h], i, t, m) && Untouched(states[h], m)
  {
    hide Inv, ExactlyOnce, Untouched, Enabled;
    RunInv(states, steps, k);
    ReadingUntouched(states[k], i, t, m);
    assert k > 0;
    assert states[k] == Apply(states[k-1], steps[k-1]);
    ReadingComesFrom(states[k-1], steps[k-1], i, t, m);
    if ReadsAt(states[k-1], i, t, m) {
      from := SnapshotSafety(states, steps, k - 1, i, t, m);
    } else {
      from := k - 1;
      RunInv(states, steps, from);
      CopiedFrom(states[from], i, t, m);
      MetaExact(states[from], i);
    }
  }

  /** While the writer runs, no page write can hit a page of a snapshot that
      someone reads or that a meta page names, unless that is the older meta page
      and a crash has brought it back. */
  lemma WritesMissSnapshots(states: seq<State>, steps: seq<Step>, k: nat, p: Pgno, d: Contents)
    requires IsRun(states, steps) && k < |steps| && steps[k] == Flush(p, d)
    ensures p !in Cur(states[k]).snap.view && (Damaged(states[k]) || p !in Alt(states[k]).snap.view)
    ensures forall i: nat, t: Txnid, m :: ReadsAt(states[k], i, t, m) ==> p !in m.snap.view
  {
    RunInv(states, steps, k);
    forall i: nat, t: Txnid, m | ReadsAt(states[k], i, t, m)
      ensures p !in m.snap.view
    {
      assert SlotOk(states[k], i, states[k].slots[i]);
    }
  }

  /** The cached me_pgoldest of every process never exceeds the id of a reader
      that passed the recheck. */
  lemma CachedOldestIsSafe(states: seq<State>, steps: seq<Step>, k: nat, i: nat, e: nat)
    requires IsRun(states, steps) && k < |states| && i < |states[k].slots|
    requires states[k].slots[i].thread.Pinned? || states[k].slots[i].thread.Reading?
    ensures Oldest(states[k], e) <= states[k].slots[i].thread.t
    ensures states[k].slots[i].txnid == Some(states[k].slots[i].thread.t)
  {
    RunInv(states, steps, k);
    assert SlotOk(states[k], i, states[k].slots[i]);
  }

  ghost predicate Complete(s: State, m: Meta) {
    OnDisk(s.disk, m.snap.view) && ExactlyOnce(m.snap, m.txnid)
  }

  /** The snapshot mdb_env_pick_meta finds is whole at every state, and so is the one
      before it, unless that was brought back by a crash after one of its pages was written. */
  lemma BothSnapshotsWhole(states: seq<State>, steps: seq<Step>, k: nat)
    requires IsRun(states, steps) && k < |states|
    ensures Complete(states[k], PickMeta(states[k])) && Complete(states[k], Cur(states[k]))
    ensures Damaged(states[k]) || Complete(states[k], OtherMeta(states[k]))
    ensures states[k].shaky.Some? ==> Complete(states[k], OtherMeta(states[k]))
    ensures states[k].w.Writing? ==>
              && states[k].w.txn.id == Cur(states[k]).txnid + 1
              && PickMeta(states[k]) == Cur(states[k])
              && (Alt(states[k]).txnid + 2 == states[k].w.txn.id || states[k].w.txn.id == 1)
  {
    hide ExactlyOnce, SafeMeta, SafeTxn, OnDisk, Partition;
    RunInv(states, steps, k);
    TwoMetas(states[k]);
  }

  ghost predicate LosesMeta(st: Step) { st.Crash? && st.lost }

  lemma DamageStep(s: State, st: Step)
    requires Enabled(s, st) && Damaged(Apply(s, st))
    ensures if LosesMeta(st) then s.stale && s.shaky.Some? else Damaged(s) && !st.WriteMeta?
  {
  }

  /** The step writes a page of a snapshot that a crash could bring back. */
  ghost predicate Hits(s: State, st: Step) { st.Flush? && Reuses(s, st.p) }

  lemma StaleStep(s: State, st: Step)
    requires Enabled(s, st) && Apply(s, st).stale
    ensures s.stale || Hits(s, st)
  {
    hide MovePages, CanMove, ReclaimTxn, SaveTxn, BeginTxn, Distributes, MetaAt;
  }

  lemma {:induction false} StaleComesFrom(states: seq<State>, steps: seq<Step>, k: nat) returns (hit: nat)
    requires IsRun(states, steps) && k < |states| && states[k].stale
    ensures hit < k && Hits(states[hit], steps[hit])
  {
    hide Apply, Hits, Enabled;
    assert k > 0;
    assert states[k] == Apply(states[k-1], steps[k-1]);
    StaleStep(states[k-1], steps[k-1]);
    if Hits(states[k-1], steps[k-1]) {
      hit := k - 1;
    } else {
      hit := StaleComesFrom(states, steps, k - 1);
    }
  }

  /** The older meta page can only be unreliable after a page of a replaced snapshot was
      written and a crash then brought one back, and no longer than until the next commit
      writes over it. */
  lemma {:induction false} DamageComesFrom(states: seq<State>, steps: seq<Step>, k: nat) returns (hit: nat, from: nat)
    requires IsRun(states, steps) && k < |states| && Damaged(states[k])
    ensures hit < from < k && Hits(states[hit], steps[hit])
    ensures LosesMeta(steps[from]) && states[from].stale && states[from].shaky.Some?
    ensures forall h :: from < h < k ==> !steps[h].WriteMeta?
  {
    hide Apply, Hits, Enabled;
    assert k > 0;
    assert states[k] == Apply(states[k-1], steps[k-1]);
    DamageStep(states[k-1], steps[k-1]);
    if LosesMeta(steps[k-1]) {
      from := k - 1;
      hit := StaleComesFrom(states, steps, from);
    } else {
      hit, from := DamageComesFrom(states, steps, k - 1);
    }
  }

  /** The snapshot transaction N would commit, or is committing. */
  ghost predicate Commits(s: State, id: Txnid) {
    (s.w.MetaWritten? || s.w.MetaDurable? || s.w.OwnerDied?) && PickMeta(s).txnid == id == s.mti + 1
  }

  /** Crash recovery: whatever the interrupted state, the meta page picked afterwards is
      the newest one written, N, or the one before it, N-1, when the newest had not yet
      been synced; its pages are all on disk, and so are those of the other meta page
      unless that is one of which a page had been written before it was brought back. */
  lemma CrashRecovers(states: seq<State>, steps: seq<Step>, k: nat, junk: map<Pgno, Contents>, lost: bool)
    requires IsRun(states, steps) && k < |steps| && steps[k] == Crash(junk, lost)
    ensures var s, s' := states[k], states[k+1];
            && (PickMeta(s) == Cur(s) || Commits(s, PickMeta(s).txnid))
            && PickMeta(s') == (if lost then OtherMeta(s) else PickMeta(s))
            && (lost ==> PickMeta(s').txnid + 1 == PickMeta(s).txnid)
            && PickMeta(s').txnid == s'.mti
            && Complete(s', PickMeta(s'))
            && (Complete(s', OtherMeta(s')) || (s.stale && (lost || Damaged(s))))
  {
    hide Partition, SafeTxn, SafeMeta, OnDisk, ExactlyOnce, Restart, TakeBack, Settle, PickMeta, OtherMeta;
    var s, s' := states[k], states[k+1];
    assert s' == Apply(s, steps[k]);
    RunInv(states, steps, k);
    RunInv(states, steps, k + 1);
    TwoMetas(s);
    CrashPages(s, junk, lost);
  }

  /** The newest snapshot that no crash can take back. */
  ghost function DurableId(s: State): Txnid {
    if s.shaky.Some? then OtherMeta(s).txnid else PickMeta(s).txnid
  }

  lemma DurableIdStep(s: State, st: Step)
    requires Inv(s) && Enabled(s, st)
    ensures DurableId(s) <= DurableId(Apply(s, st))
  {
    hide ExactlyOnce, SafeMeta, SafeTxn, OnDisk, Partition, SlotInv, OldestInv, SnapInv, Restart, MetaWrite;
    TwoMetas(s);
    if st.Crash? {
      CrashPages(s, st.junk, st.lost);
    } else if st.WriteMeta? {
      WriteMetaPages(s);
    } else {
      hide Apply;
      OtherStepPages(s, st);
    }
  }

  /** Only a commit and a crash write meta pages; the newest is unsynced until it is synced. */
  lemma OtherStepPages(s: State, st: Step)
    requires Enabled(s, st) && !st.Crash? && !st.WriteMeta?
    ensures var s' := Apply(s, st);
            s'.meta0 == s.meta0 && s'.meta1 == s.meta1 && (s'.shaky == s.shaky || s'.shaky.None?)
  {
    hide MovePages, CanMove, ReclaimTxn, SaveTxn, BeginTxn, Distributes, MetaAt;
  }

  lemma {:induction false} DurableIdGrows(states: seq<State>, steps: seq<Step>, j: nat, k: nat)
    requires IsRun(states, steps) && j <= k < |states|
    ensures DurableId(states[j]) <= DurableId(states[k]) <= PickMeta(states[k]).txnid
  {
    hide DurableId, Apply;
    if j < k {
      DurableIdGrows(states, steps, j, k - 1);
      RunInv(states, steps, k - 1);
      assert states[k] == Apply(states[k-1], steps[k-1]);
      DurableIdStep(states[k-1], steps[k-1]);
    }
    NoNewerDurable(states[k]);
  }

  lemma NoNewerDurable(s: State)
    ensures DurableId(s) <= PickMeta(s).txnid
  {
  }

  /** Durability: once the meta page of commit N has been synced, no later step, crash or
      death of a process makes mdb_env_pick_meta find a snapshot older than N. */
  lemma CommitSurvives(states: seq<State>, steps: seq<Step>, j: nat, k: nat)
    requires IsRun(states, steps) && j < k < |states| && steps[j].MetaSync?
    ensures states[j].w.MetaWritten? && PickMeta(states[k]).txnid >= states[j].w.id
  {
    hide ExactlyOnce, SafeMeta, SafeTxn, OnDisk, Partition, SlotInv, OldestInv, SnapInv;
    RunInv(states, steps, j);
    assert states[j+1] == Apply(states[j], steps[j]);
    PickIsCur(states[j]);
    assert DurableId(states[j+1]) == states[j].w.id;
    DurableIdGrows(states, steps, j + 1, k);
  }

  /** A writer that dies before or after writing its meta page: the next writer
      starts from the newest snapshot and takes the id after it. */
  lemma NextWriterFollowsNewest(states: seq<State>, steps: seq<Step>, k: nat, e: nat)
    requires IsRun(states, steps) && k + 1 < |steps| && steps[k].Recover? && steps[k+1] == Begin(e)
    ensures states[k+2].w.txn.id == PickMeta(states[k]).txnid + 1
    ensures states[k+2].w.txn.work == PickMeta(states[k]).snap.view
    ensures PickMeta(states[k]).txnid == states[k].mti || Commits(states[k], PickMeta(states[k]).txnid)
  {
    hide ExactlyOnce, SafeMeta, SafeTxn, OnDisk, Partition, SlotInv, OldestInv, PrevInv, SnapInv, WriterInv;
    RunInv(states, steps, k);
    assert states[k+1] == Apply(states[k], steps[k]);
    assert states[k+2] == Apply(states[k+1], steps[k+1]);
  }

  /** Page conservation at commit: pages 2..last of the new snapshot split exactly
      between its trees and its freeDB records. */
  lemma CommitConserves(states: seq<State>, steps: seq<Step>, k: nat)
    requires IsRun(states, steps) && k < |steps| && steps[k].WriteMeta?
    ensures ExactlyOnce(PickMeta(states[k+1]).snap, states[k].w.txn.id)
    ensures PickMeta(states[k+1]).txnid == states[k].w.txn.id
  {
    hide ExactlyOnce, SafeMeta, SafeTxn, OnDisk, Partition, SlotInv, OldestInv, PrevInv, MetaWrite;
    RunInv(states, steps, k);
    RunInv(states, steps, k + 1);
    assert states[k+1] == Apply(states[k], steps[k]);
    WriteMetaPages(states[k]);
  }

  lemma OtherStepId(s: State, st: Step)
    requires Enabled(s, st) && !st.Crash? && !st.Publish? && !st.Recover?
    ensures Apply(s, st).mti == s.mti
  {
    hide MovePages, CanMove, ReclaimTxn, SaveTxn, BeginTxn, Distributes, MetaAt;
  }

  lemma PublishedIdStep(s: State, st: Step)
    requires Inv(s) && Enabled(s, st) && !st.Crash?
    ensures Apply(s, st).mti == s.mti || Apply(s, st).mti == s.mti + 1
  {
    hide SlotInv, OldestInv, SnapInv, PrevInv, WriterInv, PickMeta;
    if st.Publish? || st.Recover? {
      TwoMetas(s);
    } else {
      hide Apply;
      OtherStepId(s, st);
    }
  }

  /** The published id grows by at most one and falls, by one, exactly when a crash takes
      back a commit that was published by recovery and never synced. */
  lemma PublishedIdGrows(states: seq<State>, steps: seq<Step>, k: nat)
    requires IsRun(states, steps) && k < |steps|
    ensures states[k].mti <= states[k+1].mti + 1 && states[k+1].mti <= states[k].mti + 1
    ensures states[k+1].mti < states[k].mti <==> LosesMeta(steps[k]) && PickMeta(states[k]) == Cur(states[k])
  {
    hide Apply, SlotInv, OldestInv, SnapInv, Restart, TakeBack, Settle, PickMeta, OtherMeta, Replaced, WriterInv;
    var s, st := states[k], steps[k];
    RunInv(states, steps, k);
    assert states[k+1] == Apply(s, st);
    TwoMetas(s);
    if st.Crash? {
      CrashIs(s, st.junk, st.lost);
      CrashPages(s, st.junk, st.lost);
    } else {
      PublishedIdStep(s, st);
    }
  }

  lemma CrashIs(s: State, junk: map<Pgno, Contents>, lost: bool)
    requires Enabled(s, Crash(junk, lost))
    ensures Apply(s, Crash(junk, lost)) == Restart(if lost then TakeBack(s) else Settle(s), junk)
  {
    hide Restart, TakeBack, Settle;
  }
}
