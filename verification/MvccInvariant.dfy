/**
 The inductive invariant of the multi-version protocol and its preservation by
 every step.
 */
module MvccInvariant {
  import opened Wrappers
  import opened Mvcc

  // ---------------------------------------------------------------- parts

  /** Page conservation for a committed snapshot: pages 2..last are each used by
      a database or listed in exactly one freeDB record, and nothing else is. */
  ghost predicate ExactlyOnce(sn: Snapshot, id: Txnid) {
    && sn.last >= 1
    && (forall p :: p in sn.view ==> 2 <= p <= sn.last)
    && (forall r :: r in sn.free ==> 1 <= r <= id)
    && (forall r: Txnid, p: Pgno :: Lists(sn.free, 0, r, p) ==> 2 <= p <= sn.last && p !in sn.view)
    && (forall r, q, p :: Lists(sn.free, 0, r, p) && Lists(sn.free, 0, q, p) ==> r == q)
    && (forall p :: 2 <= p <= sn.last ==> p in sn.view || Listed(sn.free, 0, p))
  }

  /** The same while a transaction runs: the pages below mt_next_pgno are split
      between its trees, loose pages, me_pghead, mt_free_pgs and the records it
      has not consumed. */
  ghost predicate Partition(x: Txn) {
    && (forall p :: p in x.work ==> 2 <= p < x.next && p !in x.loose && p !in x.head && p !in x.freed)
    && (forall p :: p in x.loose ==> 2 <= p < x.next && p !in x.head && p !in x.freed)
    && (forall p :: p in x.head ==> 2 <= p < x.next && p !in x.freed)
    && (forall p :: p in x.freed ==> 2 <= p < x.next)
    && (forall r: Txnid, p: Pgno :: Lists(x.rest, x.pglast, r, p) ==>
          2 <= p < x.next && p !in x.work && p !in x.loose && p !in x.head && p !in x.freed)
    && (forall r, q, p :: Lists(x.rest, x.pglast, r, p) && Lists(x.rest, x.pglast, q, p) ==> r == q)
    && (forall p :: 2 <= p < x.next ==>
          p in x.work || p in x.loose || p in x.head || p in x.freed || Listed(x.rest, x.pglast, p))
  }

  /** Version m, pinned at id t, is out of reach of snapshot n's free records:
      those that list its pages are all newer than t. */
  ghost predicate SafeMeta(n: Snapshot, m: Snapshot, t: Txnid) {
    && (forall p :: p in m.view ==> p <= n.last)
    && (forall r: Txnid, p: Pgno :: Lists(n.free, 0, r, p) && p in m.view ==> r > t)
  }

  /** The same against a running transaction, which also must not own the pages. */
  ghost predicate SafeTxn(x: Txn, m: Snapshot, t: Txnid) {
    && (forall p :: p in m.view ==> p < x.next && p !in x.dirty && p !in x.head)
    && (forall r: Txnid, p: Pgno :: Lists(x.rest, x.pglast, r, p) && p in m.view ==> r > t)
  }

  ghost predicate OnDisk(disk: map<Pgno, Contents>, view: map<Pgno, Contents>) {
    forall p :: p in view ==> p in disk && disk[p] == view[p]
  }

  /** Everything that keeps version m readable for someone pinned at t. */
  ghost predicate Intact(s: State, m: Snapshot, t: Txnid) {
    && SafeMeta(PickMeta(s).snap, m, t)
    && (s.w.Writing? ==> SafeTxn(s.w.txn, m, t))
    && OnDisk(s.disk, m.view)
  }

  ghost predicate Durable(s: State, m: Snapshot) {
    forall p :: p in m.view ==> p !in s.unsynced
  }

  ghost predicate Older(m: Meta, mti: Txnid) {
    m.txnid + 1 == mti || (mti == 0 && m.txnid == 0)
  }

  ghost predicate MetaInv(s: State) {
    && Cur(s).txnid == s.mti
    && (match s.w
        case Unlocked => Older(Alt(s), s.mti)
        case Writing(_) => Older(Alt(s), s.mti)
        case OwnerDied => Older(Alt(s), s.mti) || Alt(s).txnid == s.mti + 1
        case MetaWritten(id) => id == Alt(s).txnid == s.mti + 1
        case MetaDurable(id) => id == Alt(s).txnid == s.mti + 1)
  }

  /** A meta page whose snapshot is complete, on disk and out of the writer's reach. */
  ghost predicate Whole(s: State, m: Meta) {
    ExactlyOnce(m.snap, m.txnid) && Intact(s, m.snap, m.txnid) && Durable(s, m.snap)
  }

  ghost predicate SnapInv(s: State) {
    Whole(s, Cur(s)) && (Damaged(s) || Whole(s, Alt(s)))
  }

  /** What a crash that loses the newest meta page falls back to: the snapshot before, and
      what that page replaced. */
  ghost predicate PrevInv(s: State) {
    && (s.w.MetaWritten? ==> s.shaky.Some?)
    && (s.w.MetaDurable? ==> s.shaky.None? && !s.stale)
    && (Damaged(s) ==> Older(Alt(s), s.mti))
    && (s.shaky.Some? ==>
          && OtherMeta(s).txnid + 1 == PickMeta(s).txnid && Older(s.shaky.value, OtherMeta(s).txnid)
          && (s.w.Writing? ==> !s.w.txn.phase.Synced?)
          && (!s.stale ==> Replaced(s, s.shaky.value)))
  }

  /** The snapshot that was replaced is still whole. */
  ghost predicate Replaced(s: State, m: Meta) {
    && ExactlyOnce(m.snap, m.txnid) && SafeMeta(OtherMeta(s).snap, m.snap, m.txnid)
    && OnDisk(s.disk, m.snap.view) && Durable(s, m.snap)
  }

  ghost predicate WriterInv(s: State) {
    s.w.Writing? ==>
      var x := s.w.txn;
      && x.id == s.mti + 1
      && x.next >= 2
      && Partition(x)
      && x.loose <= x.dirty
      && x.pglast <= s.mti && (!x.hasHead ==> x.head == {} && x.pglast == 0)
      && (x.phase.Saved? || x.phase.Synced? ==> x.pglast == 0 && x.loose == {} && x.head == {} && x.freed == {})
      && (forall r :: r in x.rest ==> 1 <= r <= if x.phase.Saved? || x.phase.Synced? then x.id else s.mti)
      && (forall p :: p in x.work && p !in x.dirty ==> p in Cur(s).snap.view && x.work[p] == Cur(s).snap.view[p])
      && (x.phase.Scanning? ==> x.phase.left <= |s.slots| && x.phase.acc <= s.mti)
      && (x.phase.Synced? ==> s.unsynced == {} && OnDisk(s.disk, x.work))
  }

  ghost predicate OldestInv(s: State) {
    forall e :: e in s.oldest ==> s.oldest[e] <= s.mti
  }

  /** No cached me_pgoldest exceeds t, and a scan in progress has either taken t
      into account or has yet to read slot i. */
  ghost predicate Guarded(s: State, i: nat, t: Txnid) {
    && (forall e :: e in s.oldest ==> s.oldest[e] <= t)
    && (IsScanning(s) ==> s.w.txn.phase.acc <= t || i < s.w.txn.phase.left)
  }

  ghost predicate SlotOk(s: State, i: nat, slot: Slot) {
    match slot.thread
    case Gone => true
    case Parked => slot.pid > 0
    case Loaded(t) => slot.pid > 0 && t <= s.mti
    case Stored(t) => slot.pid > 0 && slot.txnid == Some(t) && t <= s.mti
    case Pinned(t) =>
      && slot.pid > 0 && slot.txnid == Some(t) && t <= s.mti && Guarded(s, i, t)
      && MetaAt(s, t).txnid >= t && (Damaged(s) ==> t == s.mti)
    case Reading(t, m) =>
      && slot.pid > 0 && slot.txnid == Some(t) && t <= s.mti && Guarded(s, i, t)
      && t <= m.txnid && Intact(s, m.snap, t)
  }

  ghost predicate SlotInv(s: State) {
    forall i :: 0 <= i < |s.slots| ==> SlotOk(s, i, s.slots[i])
  }

  ghost predicate Inv(s: State) {
    MetaInv(s) && SnapInv(s) && PrevInv(s) && WriterInv(s) && OldestInv(s) && SlotInv(s)
  }

  lemma InitInv(s: State)
    requires Init(s)
    ensures Inv(s)
  {
  }

  // ---------------------------------------------------------------- what a step keeps

  lemma PickIsCur(s: State)
    requires MetaInv(s) && !s.w.OwnerDied?
    ensures s.w.Unlocked? || s.w.Writing? ==> PickMeta(s) == Cur(s)
    ensures s.w.MetaWritten? || s.w.MetaDurable? ==> PickMeta(s) == Alt(s)
  {
  }

  /** Versions pinned at ids up to b that were intact are intact. */
  ghost predicate Keeps(s: State, s': State, b: Txnid) {
    forall m, t: Txnid :: t <= b && Intact(s, m, t) ==> Intact(s', m, t)
  }

  ghost predicate Pins(slot: Slot, t: Txnid) { slot.pid > 0 && slot.txnid == Some(t) }

  ghost predicate GuardsKept(s: State, s': State) {
    forall i, t :: 0 <= i < |s.slots| && Pins(s.slots[i], t) && Guarded(s, i, t) ==> Guarded(s', i, t)
  }

  /** Meta pages only get newer, and none is damaged that was not. */
  ghost predicate MetasKept(s: State, s': State) {
    && s.mti <= s'.mti && s.meta0.txnid <= s'.meta0.txnid && s.meta1.txnid <= s'.meta1.txnid
    && (Damaged(s') ==> Damaged(s) && s.mti == s'.mti)
  }

  lemma SlotKept(s: State, s': State, i: nat)
    requires SlotInv(s) && s.slots == s'.slots && i < |s.slots|
    requires Keeps(s, s', s.mti) && GuardsKept(s, s') && MetasKept(s, s')
    ensures SlotOk(s', i, s'.slots[i])
  {
    hide Intact, Guarded;
    assert SlotOk(s, i, s.slots[i]);
    var th := s.slots[i].thread;
    if th.Pinned? || th.Reading? {
      assert Pins(s.slots[i], th.t);
    }
    if th.Reading? {
      assert Intact(s, th.m.snap, th.t);
    }
  }

  lemma SlotsKept(s: State, s': State)
    requires SlotInv(s) && s.slots == s'.slots
    requires Keeps(s, s', s.mti) && GuardsKept(s, s') && MetasKept(s, s')
    ensures SlotInv(s')
  {
    hide SlotOk, Keeps, GuardsKept, MetasKept;
    forall i | 0 <= i < |s.slots|
      ensures SlotOk(s', i, s'.slots[i])
    {
      SlotKept(s, s', i);
    }
  }

  lemma WholeKept(s: State, s': State, m: Meta, b: Txnid)
    requires Whole(s, m) && m.txnid <= b && Keeps(s, s', b) && (Durable(s, m.snap) ==> Durable(s', m.snap))
    ensures Whole(s', m)
  {
    hide Intact, ExactlyOnce, Durable;
    assert Intact(s, m.snap, m.txnid);
  }

  /** The same meta pages stay whole. */
  lemma SnapsKept(s: State, s': State, b: Txnid)
    requires SnapInv(s) && Keeps(s, s', b) && Cur(s).txnid <= b && Alt(s).txnid <= b
    requires (Cur(s') == Cur(s) && Alt(s') == Alt(s)) || (Cur(s') == Alt(s) && Alt(s') == Cur(s) && !Damaged(s))
    requires Damaged(s) ==> Damaged(s')
    requires forall m :: Whole(s, m) && Durable(s, m.snap) ==> Durable(s', m.snap)
    ensures SnapInv(s')
  {
    hide Keeps, Durable;
    if Whole(s, Cur(s)) {
      WholeDurable(s, Cur(s));
      WholeKept(s, s', Cur(s), b);
    }
    if Whole(s, Alt(s)) {
      WholeDurable(s, Alt(s));
      WholeKept(s, s', Alt(s), b);
    }
  }

  lemma WholeDurable(s: State, m: Meta)
    requires Whole(s, m)
    ensures Durable(s, m.snap)
  {
  }

  /** Steps that touch neither meta pages nor the disk. */
  ghost predicate SameStore(s: State, s': State) {
    && s'.meta0 == s.meta0 && s'.meta1 == s.meta1 && s'.disk == s.disk && s'.unsynced == s.unsynced
    && s'.shaky == s.shaky && s'.stale == s.stale
  }

  lemma SameSnaps(s: State, s': State, b: Txnid)
    requires SnapInv(s) && SameStore(s, s') && Keeps(s, s', b) && Cur(s).txnid <= b && Alt(s).txnid <= b
    requires s'.mti == s.mti || (s'.mti == s.mti + 1 && !Damaged(s))
    ensures SnapInv(s')
  {
    hide Keeps, Whole;
    forall m | Whole(s, m) && Durable(s, m.snap)
      ensures Durable(s', m.snap)
    {
    }
    SnapsKept(s, s', b);
  }

  // ---------------------------------------------------------------- readers

  /** Changing the slots leaves the writer's side of the invariant alone. */
  lemma SlotsOnly(s: State, s': State)
    requires Inv(s)
    requires s' == s.(slots := s'.slots) && |s.slots| <= |s'.slots|
    ensures MetaInv(s') && SnapInv(s') && PrevInv(s') && WriterInv(s') && OldestInv(s')
  {
    hide ExactlyOnce, SafeMeta, SafeTxn, Partition, OnDisk, SlotInv;
  }

  lemma SlotOkSame(s: State, s': State, i: nat, slot: Slot)
    requires s' == s.(slots := s'.slots) && SlotOk(s, i, slot)
    ensures SlotOk(s', i, slot)
  {
    hide SafeMeta, SafeTxn, OnDisk;
  }

  lemma ReaderSlotOk(s: State, st: Step)
    requires Inv(s) && Enabled(s, st) && ReaderStep(st)
    ensures var s' := Apply(s, st); st.i < |s'.slots| && SlotOk(s, st.i, s'.slots[st.i])
  {
    hide ExactlyOnce, SafeMeta, SafeTxn, Partition, OnDisk, Durable, WriterInv, OldestInv;
    if st.CopyMeta? {
      CopyMetaOk(s, st.i);
    } else if st.Recheck? {
      RecheckOk(s, st.i);
    } else {
      assert st.i < |s.slots| ==> SlotOk(s, st.i, s.slots[st.i]);
    }
  }

  lemma CopyMetaOk(s: State, i: nat)
    requires Inv(s) && Enabled(s, CopyMeta(i))
    ensures SlotOk(s, i, Apply(s, CopyMeta(i)).slots[i])
  {
    hide ExactlyOnce, Partition, OnDisk, Durable, WriterInv, OldestInv;
    assert SlotOk(s, i, s.slots[i]);
  }

  /** A reader whose recheck succeeds is guarded: no oldest id exceeds the published one. */
  lemma RecheckOk(s: State, i: nat)
    requires Inv(s) && Enabled(s, Recheck(i))
    ensures SlotOk(s, i, Apply(s, Recheck(i)).slots[i])
  {
    hide ExactlyOnce, SafeMeta, SafeTxn, Partition, OnDisk, Durable;
    assert SlotOk(s, i, s.slots[i]);
  }

  lemma ReaderStepInv(s: State, st: Step)
    requires Inv(s) && Enabled(s, st) && ReaderStep(st)
    ensures Inv(Apply(s, st))
  {
    hide MetaInv, SnapInv, PrevInv, WriterInv, OldestInv, SlotOk;
    var s' := Apply(s, st);
    SlotsOnly(s, s');
    ReaderSlotOk(s, st);
    forall i | 0 <= i < |s'.slots|
      ensures SlotOk(s', i, s'.slots[i])
    {
      SlotOkSame(s, s', i, s'.slots[i]);
    }
  }

  // ---------------------------------------------------------------- the writer

  /** While a transaction runs its lists may change; nothing is taken back by a crash but
      the meta page before. */
  lemma WritingPrev(s: State, s': State)
    requires PrevInv(s) && s.w.Writing? && s'.w.Writing?
    requires s'.mti == s.mti && SameStore(s, s')
    requires s'.w.txn.phase.Synced? ==> s.w.txn.phase.Synced?
    ensures PrevInv(s')
  {
    hide ExactlyOnce, SafeMeta, OnDisk;
  }

  /** A step that only moves pages between the transaction's own lists keeps the
      invariant when it keeps the transaction well formed and makes no pinned
      version reachable. */
  lemma TxnOnly(s: State, x: Txn)
    requires Inv(s) && s.w.Writing? && !IsScanning(s)
    requires x.phase == s.w.txn.phase || x.phase.Saved?
    requires WriterInv(SetTxn(s, x))
    requires forall m, t: Txnid :: t <= s.mti && SafeTxn(s.w.txn, m, t) ==> SafeTxn(x, m, t)
    ensures Inv(SetTxn(s, x))
  {
    hide WriterInv, SlotInv, SnapInv, PrevInv;
    var s' := SetTxn(s, x);
    forall m, t: Txnid | t <= s.mti && Intact(s, m, t)
      ensures Intact(s', m, t)
    {
      IntactTxn(s, x, m, t);
    }
    assert GuardsKept(s, s');
    SlotsKept(s, s');
    WritingPrev(s, s');
    SameSnaps(s, s', s.mti);
  }

  lemma IntactTxn(s: State, x: Txn, m: Snapshot, t: Txnid)
    requires s.w.Writing? && t <= s.mti && Intact(s, m, t)
    requires SafeTxn(s.w.txn, m, t) ==> SafeTxn(x, m, t)
    ensures Intact(SetTxn(s, x), m, t)
  {
  }

  lemma BeginSafe(s: State, e: nat, m: Snapshot, t: Txnid)
    requires MetaInv(s) && Enabled(s, Begin(e)) && Intact(s, m, t)
    ensures Intact(Apply(s, Begin(e)), m, t)
  {
    PickIsCur(s);
  }

  lemma BeginWriter(s: State, e: nat)
    requires MetaInv(s) && Enabled(s, Begin(e)) && ExactlyOnce(Cur(s).snap, s.mti)
    ensures WriterInv(Apply(s, Begin(e)))
  {
  }

  lemma BeginInv(s: State, e: nat)
    requires Inv(s) && Enabled(s, Begin(e))
    ensures Inv(Apply(s, Begin(e)))
  {
    hide ExactlyOnce, Intact, Partition, WriterInv, SlotInv, Durable, SafeMeta, OnDisk, PrevInv;
    var s' := Apply(s, Begin(e));
    BeginWriter(s, e);
    forall m, t: Txnid | t <= s.mti && Intact(s, m, t)
      ensures Intact(s', m, t)
    {
      BeginSafe(s, e, m, t);
    }
    assert GuardsKept(s, s');
    SlotsKept(s, s');
    SameSnaps(s, s', s.mti);
    BeginPrev(s, e);
  }

  lemma BeginPrev(s: State, e: nat)
    requires PrevInv(s) && Enabled(s, Begin(e))
    ensures PrevInv(Apply(s, Begin(e)))
  {
    hide ExactlyOnce, SafeMeta, OnDisk;
  }

  lemma SamePartition(x: Txn, y: Txn)
    requires Partition(x) && y == x.(phase := y.phase)
    ensures Partition(y)
  {
  }

  /** Scanning changes neither pages nor versions. */
  lemma ScanFrame(s: State, s': State)
    requires Inv(s) && s.w.Writing? && s'.w.Writing?
    requires s' == s.(w := s'.w, oldest := s'.oldest) && s'.w.txn == s.w.txn.(phase := s'.w.txn.phase)
    requires !s.w.txn.phase.Saved? && !s.w.txn.phase.Synced? && !s'.w.txn.phase.Saved? && !s'.w.txn.phase.Synced?
    requires s'.w.txn.phase.Scanning? ==> s'.w.txn.phase.left <= |s.slots| && s'.w.txn.phase.acc <= s.mti
    requires OldestInv(s') && GuardsKept(s, s')
    ensures Inv(s')
  {
    hide GuardsKept, SlotInv, SnapInv, PrevInv, OldestInv, Partition;
    SamePartition(s.w.txn, s'.w.txn);
    forall m, t: Txnid | t <= s.mti && Intact(s, m, t)
      ensures Intact(s', m, t)
    {
    }
    SlotsKept(s, s');
    WritingPrev(s, s');
    SameSnaps(s, s', s.mti);
  }

  lemma ScanGuards(s: State, st: Step)
    requires Inv(s) && Enabled(s, st)
    requires st.ScanStart? || st.ScanPid? || st.ScanTxnid? || st.ScanDone?
    ensures OldestInv(Apply(s, st)) && GuardsKept(s, Apply(s, st))
  {
    hide ExactlyOnce, SafeMeta, SafeTxn, Partition, OnDisk, Durable, SnapInv, PrevInv, MetaInv, SlotInv;
  }

  lemma ScanStepInv(s: State, st: Step)
    requires Inv(s) && Enabled(s, st)
    requires st.ScanStart? || st.ScanPid? || st.ScanTxnid? || st.ScanDone?
    ensures Inv(Apply(s, st))
  {
    hide MetaInv, SnapInv, PrevInv, OldestInv, SlotInv, GuardsKept, Partition;
    ScanGuards(s, st);
    ScanFrame(s, Apply(s, st));
  }

  /** Reclaiming: every pinned version is pinned at an id the cached oldest does
      not exceed, so the record taken lists none of its pages. */
  lemma ReclaimSafe(x: Txn, r: Txnid, m: Snapshot, t: Txnid)
    requires r in x.rest && r > x.pglast && (forall q :: q in x.rest && q > x.pglast ==> r <= q)
    requires SafeTxn(x, m, t) && r <= t
    ensures SafeTxn(ReclaimTxn(x, r), m, t)
  {
    assert forall q: Txnid, p: Pgno :: Lists(x.rest, r, q, p) ==> Lists(x.rest, x.pglast, q, p);
    assert forall p :: p in x.rest[r] ==> Lists(x.rest, x.pglast, r, p);
  }

  lemma ReclaimPartition(x: Txn, r: Txnid)
    requires Partition(x) && r in x.rest && r > x.pglast
    requires forall q :: q in x.rest && q > x.pglast ==> r <= q
    ensures Partition(ReclaimTxn(x, r))
  {
    assert forall q: Txnid, p: Pgno :: Lists(x.rest, r, q, p) ==> Lists(x.rest, x.pglast, q, p);
    assert forall p :: p in x.rest[r] ==> Lists(x.rest, x.pglast, r, p);
    forall p | Listed(x.rest, x.pglast, p) && p !in x.rest[r]
      ensures Listed(x.rest, r, p)
    {
      var q :| Lists(x.rest, x.pglast, q, p);
      assert Lists(x.rest, r, q, p);
    }
  }

  /** A record older than every cached and scanned oldest id is out of the readers' reach. */
  lemma ReclaimSlot(s: State, r: Txnid, i: nat)
    requires Inv(s) && Enabled(s, Reclaim(r)) && i < |s.slots|
    ensures SlotOk(Apply(s, Reclaim(r)), i, s.slots[i])
  {
    hide Partition, ExactlyOnce, SafeMeta, SafeTxn, OnDisk, Durable, WriterInv, SnapInv, PrevInv;
    assert SlotOk(s, i, s.slots[i]);
    var th := s.slots[i].thread;
    if th.Reading? {
      ReclaimSafe(s.w.txn, r, th.m.snap, th.t);
    }
  }

  lemma ReclaimWriter(s: State, r: Txnid)
    requires WriterInv(s) && OldestInv(s) && Enabled(s, Reclaim(r))
    ensures WriterInv(Apply(s, Reclaim(r)))
  {
    hide Partition;
    ReclaimPartition(s.w.txn, r);
  }

  lemma ReclaimWhole(s: State, r: Txnid, m: Meta)
    requires Whole(s, m) && Enabled(s, Reclaim(r)) && r <= m.txnid
    ensures Whole(Apply(s, Reclaim(r)), m)
  {
    hide ExactlyOnce, SafeMeta, SafeTxn, OnDisk;
    ReclaimSafe(s.w.txn, r, m.snap, m.txnid);
  }

  lemma ReclaimInv(s: State, r: Txnid)
    requires Inv(s) && Enabled(s, Reclaim(r))
    ensures Inv(Apply(s, Reclaim(r)))
  {
    hide Partition, Whole, WriterInv, SlotOk, PrevInv;
    var s' := Apply(s, Reclaim(r));
    ReclaimWriter(s, r);
    WritingPrev(s, s');
    ReclaimWhole(s, r, Cur(s));
    if !Damaged(s) {
      ReclaimWhole(s, r, Alt(s));
    }
    forall i | 0 <= i < |s.slots|
      ensures SlotOk(s', i, s'.slots[i])
    {
      ReclaimSlot(s, r, i);
    }
  }

  lemma MovePartition(x: Txn, mv: Move)
    requires Partition(x) && x.next >= 2 && CanMove(x, mv)
    ensures Partition(MovePages(x, mv))
  {
  }

  lemma MoveSafe(x: Txn, mv: Move, m: Snapshot, t: Txnid)
    requires Partition(x) && x.next >= 2 && x.loose <= x.dirty && CanMove(x, mv)
    requires SafeTxn(x, m, t)
    ensures SafeTxn(MovePages(x, mv), m, t)
  {
  }

  lemma MoveWriter(s: State, mv: Move)
    requires WriterInv(s) && Enabled(s, Page(mv))
    ensures WriterInv(Apply(s, Page(mv)))
  {
    hide Partition;
    MovePartition(s.w.txn, mv);
  }

  lemma PageInv(s: State, mv: Move)
    requires Inv(s) && Enabled(s, Page(mv))
    ensures Inv(Apply(s, Page(mv)))
  {
    hide Partition, MetaInv, SnapInv, PrevInv, SlotInv, OldestInv, SafeTxn, MovePages, CanMove;
    var x := s.w.txn;
    MoveWriter(s, mv);
    MovedPhase(x, mv);
    forall m, t: Txnid | t <= s.mti && SafeTxn(x, m, t)
      ensures SafeTxn(MovePages(x, mv), m, t)
    {
      MoveSafe(x, mv, m, t);
    }
    TxnOnly(s, MovePages(x, mv));
  }

  lemma MovedPhase(x: Txn, mv: Move)
    requires CanMove(x, mv)
    ensures MovePages(x, mv).phase == x.phase
  {
  }

  // ---------------------------------------------------------------- commit

  ghost predicate CanSave(x: Txn, kept: map<Txnid, set<Pgno>>) {
    && Partition(x) && x.loose <= x.dirty && x.next >= 2 && x.pglast < x.id
    && (forall r :: r in x.rest ==> 1 <= r < x.id)
    && Distributes(kept, x.head + x.loose, x.pglast)
  }

  /** Where a record of the saved freelist comes from. */
  lemma SavedLists(x: Txn, kept: map<Txnid, set<Pgno>>, r: Txnid, p: Pgno)
    requires CanSave(x, kept)
    ensures Lists(SaveTxn(x, kept).rest, 0, r, p) <==>
            || Lists(x.rest, x.pglast, r, p)
            || Lists(kept, 0, r, p)
            || (r == x.id && p in x.freed)
  {
  }

  lemma SavePartition(x: Txn, kept: map<Txnid, set<Pgno>>)
    requires CanSave(x, kept)
    ensures Partition(SaveTxn(x, kept))
  {
    var x' := SaveTxn(x, kept);
    forall r, p
      ensures Lists(x'.rest, 0, r, p) <==>
              || Lists(x.rest, x.pglast, r, p)
              || Lists(kept, 0, r, p)
              || (r == x.id && p in x.freed)
    {
      SavedLists(x, kept, r, p);
    }
    forall p | 2 <= p < x.next && p !in x.work
      ensures Listed(x'.rest, 0, p)
    {
      if p in x.freed {
        assert Lists(x'.rest, 0, x.id, p);
      } else if p in x.head || p in x.loose {
        var r :| Lists(kept, 0, r, p);
        assert Lists(x'.rest, 0, r, p);
      } else {
        var r :| Lists(x.rest, x.pglast, r, p);
        assert Lists(x'.rest, 0, r, p);
      }
    }
  }

  lemma SaveSafe(x: Txn, kept: map<Txnid, set<Pgno>>, m: Snapshot, t: Txnid)
    requires CanSave(x, kept)
    requires SafeTxn(x, m, t) && t < x.id
    ensures SafeTxn(SaveTxn(x, kept), m, t)
  {
    forall r: Txnid, p: Pgno | Lists(SaveTxn(x, kept).rest, 0, r, p) && p in m.view
      ensures r > t
    {
      SavedLists(x, kept, r, p);
    }
  }

  lemma SaveWriter(s: State, kept: map<Txnid, set<Pgno>>)
    requires WriterInv(s) && MetaInv(s) && Enabled(s, SaveFreelist(kept))
    ensures WriterInv(Apply(s, SaveFreelist(kept))) && CanSave(s.w.txn, kept)
  {
    hide Partition;
    SavePartition(s.w.txn, kept);
  }

  lemma SaveInv(s: State, kept: map<Txnid, set<Pgno>>)
    requires Inv(s) && Enabled(s, SaveFreelist(kept))
    ensures Inv(Apply(s, SaveFreelist(kept)))
  {
    hide Partition, MetaInv, SnapInv, PrevInv, SlotInv, OldestInv, SafeTxn, CanSave;
    var x := s.w.txn;
    SaveWriter(s, kept);
    forall m, t: Txnid | t <= s.mti && SafeTxn(x, m, t)
      ensures SafeTxn(SaveTxn(x, kept), m, t)
    {
      SaveSafe(x, kept, m, t);
    }
    TxnOnly(s, SaveTxn(x, kept));
  }

  lemma FlushIntact(s: State, p: Pgno, d: Contents, m: Snapshot, t: Txnid)
    requires Enabled(s, Flush(p, d)) && Intact(s, m, t)
    ensures Intact(Apply(s, Flush(p, d)), m, t) && (Durable(s, m) ==> Durable(Apply(s, Flush(p, d)), m))
  {
  }

  /** What a crash can bring back stays whole until one of its pages is written. */
  lemma FlushPrev(s: State, p: Pgno, d: Contents)
    requires PrevInv(s) && Enabled(s, Flush(p, d))
    ensures PrevInv(Apply(s, Flush(p, d)))
  {
    hide ExactlyOnce, SafeMeta;
  }

  /** Writing pages back touches only pages the transaction owns. */
  lemma FlushInv(s: State, p: Pgno, d: Contents)
    requires Inv(s) && Enabled(s, Flush(p, d))
    ensures Inv(Apply(s, Flush(p, d)))
  {
    hide Partition, ExactlyOnce, SafeMeta, SafeTxn, OnDisk, Durable, Intact, SlotInv, SnapInv, PrevInv;
    var s' := Apply(s, Flush(p, d));
    forall m, t: Txnid | t <= s.mti && Intact(s, m, t)
      ensures Intact(s', m, t)
    {
      FlushIntact(s, p, d, m, t);
    }
    assert GuardsKept(s, s');
    SlotsKept(s, s');
    FlushPrev(s, p, d);
    forall m | Whole(s, m) && Durable(s, m.snap)
      ensures Durable(s', m.snap)
    {
      FlushIntact(s, p, d, m.snap, m.txnid);
    }
    SnapsKept(s, s', s.mti);
  }

  /** When all is flushed, the disk holds what the transaction sees. */
  lemma AllFlushed(s: State)
    requires WriterInv(s) && OnDisk(s.disk, Cur(s).snap.view) && Enabled(s, Sync)
    ensures OnDisk(s.disk, s.w.txn.work)
  {
    hide Partition;
  }

  lemma SyncWriter(s: State)
    requires WriterInv(s) && Enabled(s, Sync) && OnDisk(s.disk, s.w.txn.work)
    ensures WriterInv(Apply(s, Sync))
  {
    hide Partition, OnDisk;
    SamePartition(s.w.txn, Apply(s, Sync).w.txn);
  }

  lemma SyncIntact(s: State, m: Snapshot, t: Txnid)
    requires Enabled(s, Sync) && Intact(s, m, t)
    ensures Intact(Apply(s, Sync), m, t) && Durable(Apply(s, Sync), m)
  {
    hide SafeMeta, OnDisk;
  }

  /** Once synced, nothing can be taken back, and the older meta page is whole if a meta
      page was still to reach the disk. */
  lemma SyncInv(s: State)
    requires Inv(s) && Enabled(s, Sync)
    ensures Inv(Apply(s, Sync))
  {
    hide ExactlyOnce, SafeMeta, SafeTxn, OnDisk, Durable, Intact, Partition, SlotInv, WriterInv;
    var s' := Apply(s, Sync);
    assert OnDisk(s.disk, Cur(s).snap.view) by {
      IntactOnDisk(s, Cur(s).snap, s.mti);
    }
    AllFlushed(s);
    SyncWriter(s);
    forall m, t: Txnid | t <= s.mti && Intact(s, m, t)
      ensures Intact(s', m, t)
    {
      SyncIntact(s, m, t);
    }
    assert GuardsKept(s, s');
    SlotsKept(s, s');
    SyncIntact(s, Cur(s).snap, s.mti);
    if !Damaged(s) {
      SyncIntact(s, Alt(s).snap, Alt(s).txnid);
    }
  }

  lemma IntactOnDisk(s: State, m: Snapshot, t: Txnid)
    requires Intact(s, m, t)
    ensures OnDisk(s.disk, m.view)
  {
  }

  /** A version safe from the transaction is safe from the snapshot it commits. */
  lemma CommitSafe(x: Txn, m: Snapshot, t: Txnid)
    requires SafeTxn(x, m, t) && x.pglast == 0 && x.next >= 2
    requires forall r :: r in x.rest ==> r >= 1
    ensures SafeMeta(Snapshot(x.work, x.rest, x.next - 1), m, t)
  {
  }

  lemma CommitExact(x: Txn)
    requires Partition(x) && x.pglast == 0 && x.loose == {} && x.head == {} && x.freed == {} && x.next >= 2
    requires forall r :: r in x.rest ==> 1 <= r <= x.id
    ensures ExactlyOnce(Snapshot(x.work, x.rest, x.next - 1), x.id)
  {
  }

  lemma WriteMetaIntact(s: State, m: Snapshot, t: Txnid)
    requires MetaInv(s) && WriterInv(s) && Enabled(s, WriteMeta) && Intact(s, m, t)
    ensures Intact(Apply(s, WriteMeta), m, t)
  {
    hide Partition, ExactlyOnce;
    var s', x := Apply(s, WriteMeta), s.w.txn;
    assert PickMeta(s') == Meta(x.id, Snapshot(x.work, x.rest, x.next - 1));
    CommitSafe(x, m, t);
  }

  /** Where the two meta pages are after the write. */
  lemma WriteMetaPages(s: State)
    requires MetaInv(s) && s.w.Writing? && s.w.txn.id == s.mti + 1 && s.w.txn.next > 0
    ensures var s', x := MetaWrite(s, s.w.txn), s.w.txn;
            && MetaInv(s') && Cur(s') == Cur(s) == OtherMeta(s')
            && Alt(s') == PickMeta(s') == Meta(x.id, Snapshot(x.work, x.rest, x.next - 1))
            && s'.shaky == Some(Alt(s)) && s'.stale == s.stale && s'.w == MetaWritten(x.id)
            && s'.disk == s.disk && s'.unsynced == s.unsynced && s'.slots == s.slots && s'.oldest == s.oldest
            && s'.mti == s.mti && s.meta0.txnid <= s'.meta0.txnid && s.meta1.txnid <= s'.meta1.txnid
  {
  }

  lemma CommitWhole(s: State, s': State, x: Txn)
    requires WriterInv(s) && s.w == Writing(x) && x.phase.Synced? && s'.disk == s.disk && s'.unsynced == {}
    requires s'.w.MetaWritten?
    requires PickMeta(s') == Meta(x.id, Snapshot(x.work, x.rest, x.next - 1))
    ensures Whole(s', PickMeta(s'))
  {
    hide Partition, ExactlyOnce, OnDisk;
    CommitExact(x);
    ExactSafe(PickMeta(s'));
  }

  /** A snapshot's own records list none of its pages. */
  lemma ExactSafe(m: Meta)
    requires ExactlyOnce(m.snap, m.txnid)
    ensures SafeMeta(m.snap, m.snap, m.txnid)
  {
  }

  lemma WriteMetaInv(s: State)
    requires Inv(s) && Enabled(s, WriteMeta)
    ensures Inv(Apply(s, WriteMeta))
  {
    hide Partition, ExactlyOnce, SafeTxn, SafeMeta, OnDisk, Durable, Intact, SlotInv, WriterInv, MetaWrite;
    var s' := MetaWrite(s, s.w.txn);
    WriterFacts(s);
    WriteMetaPages(s);
    forall m, t: Txnid | t <= s.mti && Intact(s, m, t)
      ensures Intact(s', m, t)
    {
      WriteMetaIntact(s, m, t);
    }
    assert GuardsKept(s, s');
    SlotsKept(s, s');
    CommitWhole(s, s', s.w.txn);
    WriteMetaDurable(s, s', Cur(s));
    WholeKept(s, s', Cur(s), s.mti);
    if !s.stale {
      WasWhole(s, s', Alt(s));
    }
    WriteMetaRest(s, s');
  }

  lemma WriterFacts(s: State)
    requires WriterInv(s) && s.w.Writing?
    ensures s.w.txn.id == s.mti + 1 && (s.w.txn.phase.Synced? ==> s.unsynced == {})
  {
  }

  lemma WriteMetaDurable(s: State, s': State, m: Meta)
    requires s'.unsynced == s.unsynced
    ensures Durable(s, m.snap) ==> Durable(s', m.snap)
  {
  }

  /** What the new meta page replaced was whole. */
  lemma WasWhole(s: State, s': State, m: Meta)
    requires Whole(s, m) && s'.disk == s.disk && s'.unsynced == s.unsynced && OtherMeta(s') == PickMeta(s)
    ensures Replaced(s', m)
  {
    hide ExactlyOnce, SafeMeta, OnDisk;
  }

  lemma WriteMetaRest(s: State, s': State)
    requires OldestInv(s) && s'.oldest == s.oldest && s'.mti == s.mti && s'.w.MetaWritten?
    ensures OldestInv(s') && WriterInv(s')
  {
  }

  // ---------------------------------------------------------------- endings

  /** Ending the transaction, in whatever way, moves no page and writes no meta. */
  lemma EndTxnInv(s: State, s': State)
    requires Inv(s) && SameStore(s, s') && s'.slots == s.slots && s'.oldest == s.oldest
    requires !s'.w.Writing? && MetaInv(s') && PrevInv(s') && (s'.mti == s.mti || (s'.mti == s.mti + 1 && !Damaged(s)))
    ensures Inv(s')
  {
    hide ExactlyOnce, SafeMeta, SafeTxn, OnDisk, Durable, PrevInv, SlotInv, SnapInv;
    forall m, t: Txnid | t <= s.mti + 1 && Intact(s, m, t)
      ensures Intact(s', m, t)
    {
    }
    assert GuardsKept(s, s');
    SlotsKept(s, s');
    SameSnaps(s, s', s.mti + 1);
  }

  lemma AbortInv(s: State)
    requires Inv(s) && Enabled(s, Abort)
    ensures Inv(Apply(s, Abort))
  {
    hide ExactlyOnce, SafeMeta, SafeTxn, OnDisk, SlotInv, SnapInv, WriterInv, OldestInv;
    EndTxnInv(s, Apply(s, Abort));
  }

  lemma OwnerDiesInv(s: State)
    requires Inv(s) && Enabled(s, OwnerDies)
    ensures Inv(Apply(s, OwnerDies))
  {
    hide ExactlyOnce, SafeMeta, SafeTxn, OnDisk, SlotInv, SnapInv, WriterInv, OldestInv;
    EndTxnInv(s, Apply(s, OwnerDies));
  }

  lemma PublishInv(s: State)
    requires Inv(s) && Enabled(s, Publish)
    ensures Inv(Apply(s, Publish))
  {
    hide ExactlyOnce, SafeMeta, SafeTxn, OnDisk, SlotInv, SnapInv, WriterInv, OldestInv;
    EndTxnInv(s, Apply(s, Publish));
  }

  lemma RecoverInv(s: State)
    requires Inv(s) && Enabled(s, Recover)
    ensures Inv(Apply(s, Recover))
  {
    hide ExactlyOnce, SafeMeta, SafeTxn, OnDisk, SlotInv, SnapInv, WriterInv, OldestInv;
    TwoMetas(s);
    EndTxnInv(s, Apply(s, Recover));
  }

  lemma MetaSyncInv(s: State)
    requires Inv(s) && Enabled(s, MetaSync)
    ensures Inv(Apply(s, MetaSync))
  {
    hide ExactlyOnce, SafeMeta, SafeTxn, OnDisk, Durable, SlotInv, WriterInv, OldestInv;
    var s' := Apply(s, MetaSync);
    forall m, t: Txnid | t <= s.mti + 1 && Intact(s, m, t)
      ensures Intact(s', m, t)
    {
    }
    assert GuardsKept(s, s');
    SlotsKept(s, s');
    WriteMetaDurable(s, s', Cur(s));
    WholeKept(s, s', Cur(s), s.mti + 1);
    WriteMetaDurable(s, s', Alt(s));
    WholeKept(s, s', Alt(s), s.mti + 1);
    MetaSyncRest(s, s');
  }

  lemma MetaSyncRest(s: State, s': State)
    requires OldestInv(s) && s'.oldest == s.oldest && s'.mti == s.mti && s'.w.MetaDurable?
    ensures OldestInv(s') && WriterInv(s')
  {
  }

  /** Losing power keeps whatever is on disk of both metas' snapshots. */
  lemma CrashKeeps(s: State, junk: map<Pgno, Contents>, m: Snapshot)
    requires junk.Keys <= s.unsynced && Durable(s, m) && OnDisk(s.disk, m.view)
    ensures OnDisk(s.disk + junk, m.view)
  {
  }

  /** The two meta pages are Cur and Alt, the newer one and the other one. */
  lemma TwoMetas(s: State)
    requires MetaInv(s)
    ensures (PickMeta(s) == Cur(s) && OtherMeta(s) == Alt(s)) || (PickMeta(s) == Alt(s) && OtherMeta(s) == Cur(s))
    ensures PickMeta(s).txnid >= s.mti && (PickMeta(s) == Cur(s) || PickMeta(s).txnid == s.mti + 1)
  {
  }

  /** After a crash that leaves meta page m the newest, m is whole. */
  lemma CrashWhole(s: State, s': State, junk: map<Pgno, Contents>, m: Meta)
    requires Whole(s, m) && junk.Keys <= s.unsynced && s'.disk == s.disk + junk && s'.unsynced == {} && s'.w.Unlocked?
    requires PickMeta(s') == m
    ensures Whole(s', m)
  {
    CrashKeeps(s, junk, m.snap);
    assert SafeMeta(m.snap, m.snap, m.txnid);
  }

  /** What holds of a machine that has just come up again. */
  lemma CrashRest(s: State)
    requires s.slots == [] && s.oldest == map[] && s.w.Unlocked?
    ensures SlotInv(s) && OldestInv(s) && WriterInv(s)
  {
  }

  /** Each meta page holds transactions of its own parity, or the first, empty one. */
  lemma Parity(s: State)
    requires MetaInv(s)
    ensures s.meta0.txnid % 2 == 0 && (s.meta1.txnid % 2 == 1 || s.meta0.txnid == s.meta1.txnid == 0)
  {
  }

  /** Restarting publishes the newest meta page. */
  lemma RestartPages(s: State, junk: map<Pgno, Contents>)
    requires s.meta0.txnid % 2 == 0 && (s.meta1.txnid % 2 == 1 || s.meta0.txnid == s.meta1.txnid == 0)
    requires Older(OtherMeta(s), PickMeta(s).txnid)
    ensures var s' := Restart(s, junk);
            MetaInv(s') && Cur(s') == PickMeta(s') == PickMeta(s) && Alt(s') == OtherMeta(s') == OtherMeta(s)
  {
  }

  /** Where the two meta pages are after losing the newest one. */
  lemma TakeBackPages(s: State)
    requires MetaInv(s) && PrevInv(s) && s.shaky.Some?
    ensures var s' := TakeBack(s);
            && PickMeta(s') == OtherMeta(s) && OtherMeta(s') == s.shaky.value
            && Older(OtherMeta(s'), PickMeta(s').txnid)
            && s'.meta0.txnid % 2 == 0 && (s'.meta1.txnid % 2 == 1 || s'.meta0.txnid == s'.meta1.txnid == 0)
  {
    hide Replaced;
    Parity(s);
  }

  lemma SettlePages(s: State)
    requires MetaInv(s)
    ensures var s' := Settle(s);
            && PickMeta(s') == PickMeta(s) && OtherMeta(s') == OtherMeta(s)
            && Older(OtherMeta(s'), PickMeta(s').txnid)
            && s'.meta0.txnid % 2 == 0 && (s'.meta1.txnid % 2 == 1 || s'.meta0.txnid == s'.meta1.txnid == 0)
  {
    Parity(s);
  }

  /** Where the two meta pages are after a crash. */
  lemma CrashPages(s: State, junk: map<Pgno, Contents>, lost: bool)
    requires MetaInv(s) && PrevInv(s) && (lost ==> s.shaky.Some?)
    ensures var s' := Restart(if lost then TakeBack(s) else Settle(s), junk);
            && MetaInv(s') && PickMeta(s') == Cur(s') && OtherMeta(s') == Alt(s')
            && Cur(s') == (if lost then OtherMeta(s) else PickMeta(s))
            && Alt(s') == (if lost then s.shaky.value else OtherMeta(s))
            && s'.shaky.None? && s'.stale == (if lost then s.stale else Damaged(s))
            && s'.disk == s.disk + junk && s'.unsynced == {} && s'.w.Unlocked?
            && s'.slots == [] && s'.oldest == map[]
  {
    hide Replaced, PickMeta, OtherMeta;
    if lost {
      TakeBackPages(s);
      RestartPages(TakeBack(s), junk);
    } else {
      SettlePages(s);
      RestartPages(Settle(s), junk);
    }
  }

  lemma CrashLostInv(s: State, junk: map<Pgno, Contents>)
    requires Inv(s) && junk.Keys <= s.unsynced && s.shaky.Some?
    ensures Inv(Restart(TakeBack(s), junk))
  {
    hide ExactlyOnce, SafeMeta, SafeTxn, SlotInv, OldestInv, WriterInv, TakeBack, Restart, PickMeta, OtherMeta;
    var s' := Restart(TakeBack(s), junk);
    CrashPages(s, junk, true);
    TwoMetas(s);
    CrashWhole(s, s', junk, OtherMeta(s));
    if !s.stale {
      CrashKeeps(s, junk, s.shaky.value.snap);
    }
    CrashRest(s');
  }

  lemma CrashKeptInv(s: State, junk: map<Pgno, Contents>)
    requires Inv(s) && junk.Keys <= s.unsynced
    ensures Inv(Restart(Settle(s), junk))
  {
    hide ExactlyOnce, SafeMeta, SafeTxn, SlotInv, OldestInv, WriterInv, Settle, Restart, PickMeta, OtherMeta;
    var s' := Restart(Settle(s), junk);
    CrashPages(s, junk, false);
    TwoMetas(s);
    CrashWhole(s, s', junk, PickMeta(s));
    if !Damaged(s) {
      CrashKeeps(s, junk, OtherMeta(s).snap);
    }
    CrashRest(s');
  }

  lemma StepInv(s: State, st: Step)
    requires Inv(s) && Enabled(s, st)
    ensures Inv(Apply(s, st))
  {
    if st.Begin? {
      BeginInv(s, st.e);
    } else if st.Reclaim? {
      ReclaimInv(s, st.r);
    } else if st.Page? {
      PageInv(s, st.move);
    } else if st.SaveFreelist? {
      SaveInv(s, st.kept);
    } else if st.Flush? {
      FlushInv(s, st.p, st.d);
    } else if st.Sync? {
      SyncInv(s);
    } else if st.WriteMeta? {
      WriteMetaInv(s);
    } else if st.Crash? {
      if st.lost {
        CrashLostInv(s, st.junk);
      } else {
        CrashKeptInv(s, st.junk);
      }
    } else if ReaderStep(st) {
      ReaderStepInv(s, st);
    } else if st.ScanStart? || st.ScanPid? || st.ScanTxnid? || st.ScanDone? {
      ScanStepInv(s, st);
    } else if st.Abort? {
      AbortInv(s);
    } else if st.OwnerDies? {
      OwnerDiesInv(s);
    } else if st.Publish? {
      PublishInv(s);
    } else if st.Recover? {
      RecoverInv(s);
    } else {
      MetaSyncInv(s);
    }
  }
}
