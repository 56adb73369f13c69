/**
 LMDB's multi-version protocol: one copy-on-write writer, any number of
 lock-free readers that publish a transaction id in a slot table, two meta
 pages written alternately, and a freeDB whose records are reclaimed only when
 they are older than the oldest reader. The protocol is a step system; a run is
 any interleaving of its steps, crashes and deaths included.
 */
module Mvcc {
  import opened Wrappers

  type Pgno = nat
  type Txnid = nat

  /** What one page holds. */
  type Contents(==, !new)

  /** One version of the database: the pages its trees use (the freeDB's own
      pages included) with their contents, the freeDB records, and mm_last_pg. */
  datatype Snapshot = Snapshot(view: map<Pgno, Contents>, free: map<Txnid, set<Pgno>>, last: Pgno)

  /** MDB_meta. */
  datatype Meta = Meta(txnid: Txnid, snap: Snapshot)

  /** Where the thread that owns a reader slot is in mdb_txn_renew0. */
  datatype Thread =
    | Gone                         // no thread; the slot may be stale
    | Parked                       // owns the slot; the next thing it does is load mti_txnid
    | Loaded(t: Txnid)             // has read mti_txnid
    | Stored(t: Txnid)             // has written mr_txnid
    | Pinned(t: Txnid)             // the recheck of mti_txnid succeeded
    | Reading(t: Txnid, m: Meta)   // has copied the meta page

  /** MDB_reader; txnid == None is (txnid_t)-1. */
  datatype Slot = Slot(pid: nat, txnid: Option<Txnid>, thread: Thread)

  /** Scanning is mdb_find_oldest in progress: slots below `left` are still to be
      read, and pidSeen says that slot left-1 was seen to have an owner. */
  datatype Phase = Open | Scanning(left: nat, acc: Txnid, pidSeen: bool) | Saved | Synced

  /** A top-level write transaction. `dirty` is every page it has made writable
      and not given back (dirty list, spill list and loose pages), `rest` is the
      freeDB as this transaction sees it, of which records up to pglast have been
      consumed into `head` (me_pghead; hasHead says it is not NULL). */
  datatype Txn = Txn(
    env: nat, id: Txnid, phase: Phase,
    work: map<Pgno, Contents>, dirty: set<Pgno>, loose: set<Pgno>,
    head: set<Pgno>, hasHead: bool, pglast: Txnid,
    freed: set<Pgno>, rest: map<Txnid, set<Pgno>>, next: Pgno)

  /** The writer mutex. MetaWritten: the meta page is written but may not have
      reached the disk. MetaDurable: only the publication of mti_txnid is missing. */
  datatype Writer =
    | Unlocked
    | OwnerDied
    | Writing(txn: Txn)
    | MetaWritten(id: Txnid)
    | MetaDurable(id: Txnid)

  /** `oldest` is me_pgoldest, one per process environment. `unsynced` are the
      pages written since the last fdatasync. `shaky` is what the newest meta page
      replaced, while that page may not have reached the disk: a crash can bring it
      back. `stale` records that a page of the snapshot in `shaky` has been written
      since or, when a crash has brought that back after such a write, that the older
      meta page may name it. */
  datatype State = State(
    meta0: Meta, meta1: Meta, mti: Txnid, slots: seq<Slot>, oldest: map<nat, Txnid>,
    disk: map<Pgno, Contents>, unsynced: set<Pgno>, shaky: Option<Meta>, stale: bool, w: Writer)

  function MetaAt(s: State, t: Txnid): Meta {
    if t % 2 == 0 then s.meta0 else s.meta1
  }

  /** The published snapshot, and the other meta page. */
  function Cur(s: State): Meta { MetaAt(s, s.mti) }
  function Alt(s: State): Meta { MetaAt(s, s.mti + 1) }

  /** mdb_env_pick_meta. */
  function PickMeta(s: State): Meta {
    if s.meta0.txnid < s.meta1.txnid then s.meta1 else s.meta0
  }

  /** The other meta page. */
  function OtherMeta(s: State): Meta {
    if s.meta0.txnid < s.meta1.txnid then s.meta0 else s.meta1
  }

  /** The older meta page was brought back by a crash and cannot be relied on. */
  predicate Damaged(s: State) { s.stale && s.shaky.None? }

  function PutMeta(s: State, m: Meta): State {
    if m.txnid % 2 == 0 then s.(meta0 := m) else s.(meta1 := m)
  }

  function Oldest(s: State, e: nat): Txnid {
    if e in s.oldest then s.oldest[e] else 0
  }

  function Range(pg: Pgno, num: nat): (r: set<Pgno>)
    ensures forall p :: p in r <==> pg <= p < pg + num
  {
    if num == 0 then {} else Range(pg, num - 1) + {pg + num - 1}
  }

  /** Record r, newer than t, lists page p. */
  predicate Lists(free: map<Txnid, set<Pgno>>, t: Txnid, r: Txnid, p: Pgno) {
    r in free && r > t && p in free[r]
  }

  /** Some record newer than t lists page p. */
  ghost predicate Listed(free: map<Txnid, set<Pgno>>, t: Txnid, p: Pgno) {
    exists r :: Lists(free, t, r, p)
  }

  /** What mdb_freelist_save must achieve: `kept` puts each page of `pages` into
      exactly one record, under keys in [1, pglast]. */
  ghost predicate Distributes(kept: map<Txnid, set<Pgno>>, pages: set<Pgno>, pglast: Txnid) {
    && (forall r :: r in kept ==> 1 <= r <= pglast)
    && (forall r, p :: Lists(kept, 0, r, p) ==> p in pages)
    && (forall r, q, p :: Lists(kept, 0, r, p) && Lists(kept, 0, q, p) ==> r == q)
    && (forall p :: p in pages ==> Listed(kept, 0, p))
  }

  function Above(free: map<Txnid, set<Pgno>>, t: Txnid): map<Txnid, set<Pgno>> {
    map r | r in free && r > t :: free[r]
  }

  // ---------------------------------------------------------------- steps

  /** How a write transaction moves pages between its lists: mdb_page_alloc from
      the loose list, from me_pghead or past the last page; a store into a dirty
      page; a page appended to mt_free_pgs (mdb_page_touch after allocating the
      copy, mdb_page_loose of a page that is not ours); mdb_page_loose of a dirty
      page; a loose page put in mt_free_pgs by mdb_freelist_save when there is no
      me_pghead; mdb_ovpage_free of a dirty overflow run. */
  datatype Move =
    | AllocLoose(p: Pgno, d: Contents)
    | AllocHead(p: Pgno, num: nat, d: Contents)
    | AllocNew(num: nat, d: Contents)
    | Write(p: Pgno, d: Contents)
    | FreePage(p: Pgno)
    | Loosen(p: Pgno)
    | FreeLoose(p: Pgno)
    | FreeOverflow(p: Pgno, num: nat)

  predicate CanMove(x: Txn, mv: Move) {
    match mv
    case AllocLoose(p, d) => p in x.loose
    case AllocHead(p, num, d) => Range(p, num) <= x.head
    case AllocNew(num, d) => true
    case Write(p, d) => p in x.work && p in x.dirty
    case FreePage(p) => p in x.work
    case Loosen(p) => p in x.work && p in x.dirty
    case FreeLoose(p) => p in x.loose && !x.hasHead
    case FreeOverflow(p, num) => x.hasHead && Range(p, num) <= x.work.Keys && Range(p, num) <= x.dirty
  }

  function FillPages(work: map<Pgno, Contents>, pages: set<Pgno>, d: Contents): map<Pgno, Contents> {
    work + (map p | p in pages :: d)
  }

  function MovePages(x: Txn, mv: Move): Txn {
    match mv
    case AllocLoose(p, d) => x.(loose := x.loose - {p}, work := x.work[p := d])
    case AllocHead(p, num, d) =>
      x.(head := x.head - Range(p, num), dirty := x.dirty + Range(p, num), work := FillPages(x.work, Range(p, num), d))
    case AllocNew(num, d) =>
      var r := Range(x.next, num);
      x.(next := x.next + num, dirty := x.dirty + r, work := FillPages(x.work, r, d))
    case Write(p, d) => x.(work := x.work[p := d])
    case FreePage(p) => x.(work := x.work - {p}, freed := x.freed + {p})
    case Loosen(p) => x.(work := x.work - {p}, loose := x.loose + {p})
    case FreeLoose(p) => x.(loose := x.loose - {p}, freed := x.freed + {p})
    case FreeOverflow(p, num) =>
      x.(work := x.work - Range(p, num), dirty := x.dirty - Range(p, num), head := x.head + Range(p, num))
  }

  datatype Step =
    // reader threads
    | Claim(i: nat, pid: nat)
    | Load(i: nat)
    | Store(i: nat)
    | Recheck(i: nat)
    | CopyMeta(i: nat)
    | EndRead(i: nat)
    | Release(i: nat)
    | ThreadDies(i: nat)
    | ClearStale(i: nat)
    // the writer
    | Begin(e: nat)
    | ScanStart
    | ScanPid
    | ScanTxnid
    | ScanDone
    | Reclaim(r: Txnid)
    | Page(move: Move)
    | Flush(p: Pgno, d: Contents)
    | SaveFreelist(kept: map<Txnid, set<Pgno>>)
    | Sync
    | WriteMeta
    | MetaSync
    | Publish
    | Abort
    | OwnerDies
    | Recover
    // the machine
    | Crash(junk: map<Pgno, Contents>, lost: bool)

  predicate ThreadAt(s: State, i: nat) { i < |s.slots| }

  predicate IsOpen(s: State) { s.w.Writing? && s.w.txn.phase.Open? }

  predicate IsScanning(s: State) { s.w.Writing? && s.w.txn.phase.Scanning? }

  /** Steps of reader threads. */
  predicate ReaderStep(st: Step) {
    st.Claim? || st.Load? || st.Store? || st.Recheck? || st.CopyMeta? || st.EndRead? || st.Release?
    || st.ThreadDies? || st.ClearStale?
  }

  predicate ReaderCan(s: State, st: Step)
    requires ReaderStep(st)
  {
    match st
    case Claim(i, pid) =>
      && pid > 0 && i <= |s.slots|
      && (i < |s.slots| ==> s.slots[i].pid == 0 && s.slots[i].thread.Gone?)
    case Load(i) => ThreadAt(s, i) && s.slots[i].thread.Parked?
    case Store(i) => ThreadAt(s, i) && s.slots[i].thread.Loaded?
    case Recheck(i) => ThreadAt(s, i) && s.slots[i].thread.Stored?
    case CopyMeta(i) => ThreadAt(s, i) && s.slots[i].thread.Pinned?
    case EndRead(i) => ThreadAt(s, i) && s.slots[i].thread.Reading?
    case Release(i) => ThreadAt(s, i) && s.slots[i].thread.Parked?
    case ThreadDies(i) => ThreadAt(s, i)
    case ClearStale(i) => ThreadAt(s, i) && s.slots[i].thread.Gone?
  }

  ghost predicate Enabled(s: State, st: Step) {
    if ReaderStep(st) then ReaderCan(s, st) else
    match st
    case Begin(e) => s.w.Unlocked?
    case ScanStart => IsOpen(s) && s.w.txn.id > 0
    case ScanPid => IsScanning(s) && s.w.txn.phase.left > 0 && !s.w.txn.phase.pidSeen && s.w.txn.phase.left <= |s.slots|
    case ScanTxnid =>
      && IsScanning(s) && s.w.txn.phase.left > 0 && s.w.txn.phase.pidSeen
      && s.w.txn.phase.left <= |s.slots|
    case ScanDone => IsScanning(s) && s.w.txn.phase.left == 0
    case Reclaim(r) =>
      && IsOpen(s) && r in s.w.txn.rest && s.w.txn.pglast < r < Oldest(s, s.w.txn.env)
      && (forall q :: q in s.w.txn.rest && q > s.w.txn.pglast ==> r <= q)
    case Page(move) => IsOpen(s) && CanMove(s.w.txn, move)
    case Flush(p, d) =>
      && s.w.Writing? && (s.w.txn.phase.Open? || s.w.txn.phase.Saved?)
      && p in s.w.txn.dirty && (p in s.w.txn.work ==> d == s.w.txn.work[p])
    case SaveFreelist(kept) =>
      && IsOpen(s) && (!s.w.txn.hasHead ==> s.w.txn.loose == {})
      && Distributes(kept, s.w.txn.head + s.w.txn.loose, s.w.txn.pglast)
    case Sync =>
      && s.w.Writing? && s.w.txn.phase.Saved?
      && (forall p :: p in s.w.txn.work && p in s.w.txn.dirty ==> p in s.disk && s.disk[p] == s.w.txn.work[p])
    case WriteMeta => s.w.Writing? && s.w.txn.phase.Synced? && s.w.txn.next > 0
    case MetaSync => s.w.MetaWritten?
    case Publish => s.w.MetaDurable?
    case Abort => s.w.Writing?
    case OwnerDies => !s.w.Unlocked? && !s.w.OwnerDied?
    case Recover => s.w.OwnerDied?
    case Crash(junk, lost) => junk.Keys <= s.unsynced && (lost ==> s.shaky.Some?)
  }

  function SetThread(s: State, i: nat, th: Thread): State
    requires i < |s.slots|
  {
    s.(slots := s.slots[i := s.slots[i].(thread := th)])
  }

  function SetTxn(s: State, txn: Txn): State { s.(w := Writing(txn)) }

  function BeginTxn(s: State, e: nat): Txn {
    Txn(e, s.mti + 1, Open, Cur(s).snap.view, {}, {}, {}, false, 0, {}, Cur(s).snap.free, Cur(s).snap.last + 1)
  }

  /** The freeDB that mdb_freelist_save leaves: records not consumed, records that
      keep what is left of me_pghead, and one for the pages this transaction freed. */
  function SavedRecords(rest: map<Txnid, set<Pgno>>, pglast: Txnid, kept: map<Txnid, set<Pgno>>,
                        id: Txnid, freed: set<Pgno>): map<Txnid, set<Pgno>>
  {
    var records := Above(rest, pglast) + kept;
    if freed == {} then records else records[id := freed]
  }

  /** mdb_freelist_save as one step. Its page operations are steps of their own. */
  function SaveTxn(x: Txn, kept: map<Txnid, set<Pgno>>): Txn {
    x.(phase := Saved, loose := {}, head := {}, freed := {}, pglast := 0,
       rest := SavedRecords(x.rest, x.pglast, kept, x.id, x.freed))
  }

  function ReclaimTxn(x: Txn, r: Txnid): Txn
    requires r in x.rest
  {
    x.(head := x.head + x.rest[r], hasHead := true, pglast := r)
  }

  function ScanOne(s: State): State
    requires IsScanning(s) && 0 < s.w.txn.phase.left <= |s.slots|
  {
    var txn := s.w.txn;
    var ph := txn.phase;
    var slot := s.slots[ph.left - 1];
    if !ph.pidSeen then
      SetTxn(s, txn.(phase := if slot.pid == 0 then ph.(left := ph.left - 1) else ph.(pidSeen := true)))
    else
      var acc := if slot.txnid.Some? && slot.txnid.value < ph.acc then slot.txnid.value else ph.acc;
      SetTxn(s, txn.(phase := Scanning(ph.left - 1, acc, false)))
  }

  /** Page p belongs to the snapshot that the newest meta page, not yet synced, replaced. */
  predicate Reuses(s: State, p: Pgno) { s.shaky.Some? && p in s.shaky.value.snap.view }

  /** The newest meta page is on disk for good: what it replaced no longer matters. */
  function Settle(s: State): State {
    if s.shaky.Some? then s.(shaky := None, stale := false) else s
  }

  /** The newest meta page is lost, and what it replaced is back. */
  function TakeBack(s: State): State
    requires s.shaky.Some?
  {
    if s.meta0.txnid < s.meta1.txnid then s.(meta1 := s.shaky.value, shaky := None)
    else s.(meta0 := s.shaky.value, shaky := None)
  }

  /** mdb_env_write_meta. */
  function MetaWrite(s: State, txn: Txn): State
    requires txn.next > 0
  {
    PutMeta(s, Meta(txn.id, Snapshot(txn.work, txn.rest, txn.next - 1)))
      .(shaky := Some(MetaAt(s, txn.id)), w := MetaWritten(txn.id))
  }

  /** The machine comes up again: the reader table and the lock are gone, and pages that
      were not synced may hold anything. */
  function Restart(s: State, junk: map<Pgno, Contents>): State {
    s.(mti := PickMeta(s).txnid, slots := [], oldest := map[], disk := s.disk + junk, unsynced := {}, w := Unlocked)
  }

  function Apply(s: State, st: Step): State
    requires Enabled(s, st)
  {
    match st
    case Claim(i, pid) =>
      var slot := Slot(pid, None, Parked);
      if i < |s.slots| then s.(slots := s.slots[i := slot]) else s.(slots := s.slots + [slot])
    case Load(i) => SetThread(s, i, Loaded(s.mti))
    case Store(i) =>
      var t := s.slots[i].thread.t;
      s.(slots := s.slots[i := s.slots[i].(txnid := Some(t), thread := Stored(t))])
    case Recheck(i) =>
      var t := s.slots[i].thread.t;
      SetThread(s, i, if t == s.mti then Pinned(t) else Parked)
    case CopyMeta(i) => SetThread(s, i, Reading(s.slots[i].thread.t, MetaAt(s, s.slots[i].thread.t)))
    case EndRead(i) => s.(slots := s.slots[i := s.slots[i].(txnid := None, thread := Parked)])
    case Release(i) => s.(slots := s.slots[i := Slot(0, None, Gone)])
    case ThreadDies(i) => SetThread(s, i, Gone)
    case ClearStale(i) => s.(slots := s.slots[i := s.slots[i].(pid := 0)])
    case Begin(e) => SetTxn(s, BeginTxn(s, e))
    case ScanStart => SetTxn(s, s.w.txn.(phase := Scanning(|s.slots|, s.w.txn.id - 1, false)))
    case ScanPid => ScanOne(s)
    case ScanTxnid => ScanOne(s)
    case ScanDone =>
      s.(oldest := s.oldest[s.w.txn.env := s.w.txn.phase.acc], w := Writing(s.w.txn.(phase := Open)))
    case Reclaim(r) => SetTxn(s, ReclaimTxn(s.w.txn, r))
    case Page(move) => SetTxn(s, MovePages(s.w.txn, move))
    case Flush(p, d) => s.(disk := s.disk[p := d], unsynced := s.unsynced + {p}, stale := s.stale || Reuses(s, p))
    case SaveFreelist(kept) => SetTxn(s, SaveTxn(s.w.txn, kept))
    case Sync => Settle(s).(unsynced := {}, w := Writing(s.w.txn.(phase := Synced)))
    case WriteMeta => MetaWrite(s, s.w.txn)
    case MetaSync => Settle(s).(w := MetaDurable(s.w.id))
    case Publish => s.(mti := s.w.id, w := Unlocked)
    case Abort => s.(w := Unlocked)
    case OwnerDies => s.(w := OwnerDied)
    case Recover => s.(mti := PickMeta(s).txnid, w := Unlocked)
    case Crash(junk, lost) => Restart(if lost then TakeBack(s) else Settle(s), junk)
  }

  /** A freshly created environment: mdb_env_init_meta writes the same empty
      meta to both pages. */
  ghost predicate Init(s: State) {
    && s.meta0 == s.meta1 == Meta(0, Snapshot(map[], map[], 1))
    && s.mti == 0 && s.slots == [] && s.oldest == map[] && s.unsynced == {} && s.w.Unlocked?
    && s.shaky.None? && !s.stale
  }

  /** States a run goes through; states[k+1] follows from states[k] by steps[k]. */
  ghost predicate IsRun(states: seq<State>, steps: seq<Step>) {
    && |states| == |steps| + 1
    && Init(states[0])
    && (forall k :: 0 <= k < |steps| ==> Enabled(states[k], steps[k]) && states[k+1] == Apply(states[k], steps[k]))
  }
}
