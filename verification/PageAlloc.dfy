/**
 mdb_page_alloc: the lists it works on, tied to the protocol. Whatever reader threads do
 meanwhile, the allocator only takes steps the protocol allows, so its pages are out of
 every reader's reach.
 */
module PageAlloc {
  import opened Arith
  import opened Wrappers
  import opened Idl
  import opened Mvcc
  import opened MvccInvariant
  import opened MvccSafety
  import Pghead

  datatype Result = Got(pgno: Pgno) | TxnFull | MapFull | NoMemory

  /** The freeDB: a list of page numbers under each transaction id. */
  type FreeDb = map<Txnid, seq<ID>>

  /** me_pghead holds the pages the protocol says; it is NULL until a record is read. */
  ghost predicate HeadIs(mop: array?<ID>, x: Txn)
    reads mop
  {
    && x.hasHead == (mop != null)
    && (mop != null ==>
          IsList(mop[..]) && StrictlyDescending(Ids(mop[..])) && Elems(Ids(mop[..])) == x.head)
  }

  ghost predicate RecordsAre(db: FreeDb, x: Txn) {
    && db.Keys == x.rest.Keys
    && (forall k :: k in db ==> RecordIs(db[k], x.rest[k]))
  }

  ghost predicate RecordIs(ids: seq<ID>, pages: set<Pgno>) {
    StrictlyDescending(ids) && Elems(ids) == pages && forall p :: p in ids ==> p <= MAX_ID
  }

  /** The steps the allocator takes, and those of the readers it runs beside. */
  ghost predicate Allowed(st: Step) {
    || ReaderStep(st) || st.ScanStart? || st.ScanPid? || st.ScanTxnid? || st.ScanDone? || st.Reclaim?
    || (st.Page? && (st.move.AllocLoose? || st.move.AllocHead? || st.move.AllocNew?))
  }

  ghost predicate Grown(before: seq<Step>, steps: seq<Step>) {
    before <= steps && forall k :: |before| <= k < |steps| ==> Allowed(steps[k])
  }

  /** A scan of the reader table was finished meanwhile. */
  ghost predicate Scanned(before: seq<Step>, steps: seq<Step>) {
    exists k :: |before| <= k < |steps| && steps[k].ScanDone?
  }

  lemma GrownTwice(a: seq<Step>, b: seq<Step>, c: seq<Step>)
    requires Grown(a, b) && Grown(b, c)
    ensures Grown(a, c) && (Scanned(a, b) || Scanned(b, c) ==> Scanned(a, c))
  {
    forall k | |a| <= k < |c|
      ensures Allowed(c[k])
    {
      assert k < |b| ==> c[k] == b[k];
    }
    if k :| |a| <= k < |b| && b[k].ScanDone? {
      assert c[k].ScanDone?;
    }
  }

  lemma PageStep(s: State, mv: Move)
    requires IsOpen(s) && CanMove(s.w.txn, mv)
    ensures Enabled(s, Page(mv)) && Apply(s, Page(mv)) == SetTxn(s, MovePages(s.w.txn, mv))
  {
    hide MovePages, CanMove;
  }

  /** Starting and finishing a scan. */
  lemma ScanEnds(s: State)
    requires s.w.Writing?
    ensures var x := s.w.txn;
            && (x.phase.Open? && x.id > 0 ==>
                  && Enabled(s, ScanStart)
                  && Apply(s, ScanStart) == SetTxn(s, x.(phase := Scanning(|s.slots|, x.id - 1, false))))
            && (x.phase.Scanning? && x.phase.left == 0 ==>
                  && Enabled(s, ScanDone)
                  && Apply(s, ScanDone) ==
                     s.(oldest := s.oldest[x.env := x.phase.acc], w := Writing(x.(phase := Open))))
  {
  }

  /** Reading the two words of a slot. */
  lemma ScanReads(s: State)
    requires IsScanning(s) && 0 < s.w.txn.phase.left <= |s.slots|
    ensures if s.w.txn.phase.pidSeen then Enabled(s, ScanTxnid) && Apply(s, ScanTxnid) == ScanOne(s)
            else Enabled(s, ScanPid) && Apply(s, ScanPid) == ScanOne(s)
  {
    hide ScanOne;
  }

  lemma ReaderOnly(s: State, st: Step)
    requires ReaderStep(st) && Enabled(s, st)
    ensures var s' := Apply(s, st); s' == s.(slots := s'.slots) && |s'.slots| >= |s.slots|
  {
  }

  /** No num consecutive pages are free. */
  ghost predicate NoRun(head: set<Pgno>, num: nat) { forall pg: nat :: !(Range(pg, num) <= head) }

  ghost predicate NoRunBelow(head: set<Pgno>, low: Pgno, num: nat) {
    forall pg: nat :: pg < low ==> !(Range(pg, num) <= head)
  }

  lemma RunsAre(s: seq<ID>, num: nat, low: Pgno)
    ensures (forall pg: nat :: !Pghead.HasRun(s, pg, num)) ==> NoRun(Elems(s), num)
    ensures (forall pg: nat :: pg < low ==> !Pghead.HasRun(s, pg, num)) ==> NoRunBelow(Elems(s), low, num)
  {
    forall pg: nat
      ensures Pghead.HasRun(s, pg, num) <==> Range(pg, num) <= Elems(s)
    {
      Pghead.RunMeans(s, pg, num);
    }
  }

  /** Every record not yet consumed is too recent to be reclaimed. */
  ghost predicate NoneOld(s: State)
    requires s.w.Writing?
  {
    forall k :: k in s.w.txn.rest && k > s.w.txn.pglast ==> Oldest(s, s.w.txn.env) <= k
  }

  /** The records that were consumed while me_pglast moved up to `last`. */
  ghost function Consumed(x: Txn, last: Txnid): set<Txnid> { set k | k in x.rest && x.pglast < k <= last }

  lemma ConsumedNone(x: Txn)
    ensures |Consumed(x, x.pglast)| == 0
  {
    assert Consumed(x, x.pglast) == {};
  }

  lemma ConsumedMore(x: Txn, last: Txnid, k: Txnid)
    requires x.pglast <= last < k && k in x.rest
    ensures |Consumed(x, k)| >= |Consumed(x, last)| + 1
  {
    var more := Consumed(x, last) + {k};
    assert k !in Consumed(x, last) && more <= Consumed(x, k);
    SubsetSize(more, Consumed(x, k));
  }

  lemma SubsetSize(a: set<Txnid>, b: set<Txnid>)
    requires a <= b
    ensures |a| <= |b|
  {
    assert b == a + (b - a);
  }

  /** How far me_pglast can still move. */
  ghost function Ahead(s: State): nat
    requires s.w.Writing?
  {
    if s.w.txn.pglast <= s.mti then s.mti - s.w.txn.pglast else 0
  }

  /** Where a search that began at s0 is: at least `read` records have been consumed, and
      foundOld says that the reader table was scanned. */
  ghost predicate Seeking(s0: State, steps0: seq<Step>, s: State, steps: seq<Step>, read: int, foundOld: bool) {
    && Fetched(s0, s) && Grown(steps0, steps) && (foundOld ==> Scanned(steps0, steps))
    && s0.w.txn.pglast <= s.w.txn.pglast <= s.mti
    && read <= |Consumed(s0.w.txn, s.w.txn.pglast)|
  }

  lemma SeekingStarts(s: State, steps: seq<Step>)
    requires s.w.Writing? && Inv(s)
    ensures Seeking(s, steps, s, steps, 0, false)
  {
    WriterBounds(s);
    FetchedNone(s);
    GrownNone(steps);
    ConsumedNone(s.w.txn);
  }

  lemma SeekingMeans(s0: State, steps0: seq<Step>, s: State, steps: seq<Step>, read: int, foundOld: bool)
    requires Seeking(s0, steps0, s, steps, read, foundOld)
    ensures Fetched(s0, s) && Grown(steps0, steps) && (foundOld ==> Scanned(steps0, steps))
    ensures s0.w.Writing? && s.w.Writing? && read <= |Consumed(s0.w.txn, s.w.txn.pglast)|
  {
  }

  lemma SeekingMore(s0: State, steps0: seq<Step>, s1: State, steps1: seq<Step>, s: State, steps: seq<Step>, read: int,
                    found1: bool, foundOld: bool)
    requires Seeking(s0, steps0, s1, steps1, read - 1, found1) || Seeking(s0, steps0, s1, steps1, read, found1)
    requires Fetched(s1, s) && Grown(steps1, steps) && Inv(s)
    requires foundOld ==> found1 || Scanned(steps1, steps)
    requires s.w.txn.pglast > s1.w.txn.pglast && s.w.txn.pglast in s.w.txn.rest
    ensures Seeking(s0, steps0, s, steps, read, foundOld) && Ahead(s) < Ahead(s1)
  {
    hide Consumed, Inv, Scanned, Grown;
    WriterBounds(s);
    GrownTwice(steps0, steps1, steps);
    FetchedTwice(s0, s1, s);
    ConsumedMore(s0.w.txn, s1.w.txn.pglast, s.w.txn.pglast);
  }

  lemma SeekingSame(s0: State, steps0: seq<Step>, s1: State, steps1: seq<Step>, s: State, steps: seq<Step>, read: int,
                    found1: bool, foundOld: bool)
    requires Seeking(s0, steps0, s1, steps1, read - 1, found1) || Seeking(s0, steps0, s1, steps1, read, found1)
    requires Fetched(s1, s) && Grown(steps1, steps) && s.w == s1.w
    requires foundOld ==> found1 || Scanned(steps1, steps)
    ensures Seeking(s0, steps0, s, steps, read - 1, foundOld)
  {
    hide Consumed, Scanned, Grown;
    GrownTwice(steps0, steps1, steps);
    FetchedTwice(s0, s1, s);
  }

  /** Records are left that could only be judged by scanning the reader table. */
  ghost predicate AnyLeft(x: Txn) { exists k :: k in x.rest && k > x.pglast }

  /** A record's pages are not in me_pghead yet. */
  lemma RecordApart(s: State, k: Txnid)
    requires Inv(s) && s.w.Writing? && k in s.w.txn.rest && k > s.w.txn.pglast
    ensures s.w.txn.rest[k] !! s.w.txn.head
  {
    hide ExactlyOnce, SafeMeta, SafeTxn, OnDisk, SlotInv, OldestInv, PrevInv, SnapInv;
    var x := s.w.txn;
    forall p | p in x.rest[k]
      ensures p !in x.head
    {
      assert Lists(x.rest, x.pglast, k, p);
    }
  }

  lemma WriterBounds(s: State)
    requires Inv(s) && s.w.Writing?
    ensures var x := s.w.txn; x.id == s.mti + 1 && x.pglast <= s.mti && (!x.hasHead ==> x.head == {} && x.pglast == 0)
    ensures Oldest(s, s.w.txn.env) <= s.mti
  {
    hide ExactlyOnce, SafeMeta, SafeTxn, OnDisk, Partition, SlotInv, PrevInv, SnapInv;
  }

  /** What the transaction has made writable is in no snapshot that is being read, nor in
      the published one. */
  lemma DirtyIsPrivate(s: State)
    requires Inv(s) && s.w.Writing?
    ensures s.w.txn.dirty !! Cur(s).snap.view.Keys
    ensures forall i: nat, t: Txnid, m :: ReadsAt(s, i, t, m) ==> s.w.txn.dirty !! m.snap.view.Keys
  {
    hide ExactlyOnce, SafeMeta, OnDisk, Partition, OldestInv, PrevInv, WriterInv;
    forall i: nat, t: Txnid, m | ReadsAt(s, i, t, m)
      ensures s.w.txn.dirty !! m.snap.view.Keys
    {
      assert SlotOk(s, i, s.slots[i]);
    }
  }

  /** Pages of the loose list, of me_pghead or past the last one are not in use. */
  lemma FreeIsUnused(s: State)
    requires Inv(s) && s.w.Writing?
    ensures var x := s.w.txn;
            && x.loose <= x.dirty && x.loose !! x.work.Keys && x.head !! x.work.Keys
            && forall p :: p in x.work ==> p < x.next
  {
    hide ExactlyOnce, SafeMeta, SafeTxn, OnDisk, SlotInv, OldestInv, PrevInv, SnapInv;
  }

  class Allocator {
    var s: State                  // of all processes
    ghost var states: seq<State>  // how it came about
    ghost var steps: seq<Step>
    var future: seq<seq<Step>>    // what the readers try to do each time they get to run
    var mop: array?<ID>           // me_pghead
    var loose: seq<Pgno>          // mt_loose_pgs
    const db: FreeDb              // the records this transaction sees

    ghost predicate OnRun()
      reads `s, `states, `steps
    {
      IsRun(states, steps) && states[|steps|] == s
    }

    ghost predicate Valid()
      reads this, mop
    {
      && OnRun() && IsOpen(s) && HeadIs(mop, s.w.txn) && RecordsAre(db, s.w.txn)
      && Distinct(loose) && Elems(loose) == s.w.txn.loose
    }

    constructor (s: State, ghost states: seq<State>, ghost steps: seq<Step>, future: seq<seq<Step>>,
                 mop: array?<ID>, loose: seq<Pgno>, db: FreeDb)
      requires IsRun(states, steps) && states[|steps|] == s && IsOpen(s)
      requires HeadIs(mop, s.w.txn) && RecordsAre(db, s.w.txn) && Distinct(loose) && Elems(loose) == s.w.txn.loose
      ensures Valid() && this.s == s && this.states == states && this.steps == steps && this.future == future
      ensures this.mop == mop && this.loose == loose && this.db == db
    {
      this.s, this.states, this.steps, this.future := s, states, steps, future;
      this.mop, this.loose, this.db := mop, loose, db;
    }

    lemma Here()
      requires OnRun()
      ensures Inv(s)
    {
      RunInv(states, steps, |steps|);
    }

    method Take(st: Step)
      requires OnRun() && Enabled(s, st)
      modifies this`s, this`states, this`steps
      ensures OnRun() && s == Apply(old(s), st) && steps == old(steps) + [st]
    {
      hide Enabled, Apply, Init;
      s := Apply(s, st);
      states, steps := states + [s], steps + [st];
    }

    /** The readers run. */
    method Others()
      requires OnRun()
      modifies this`s, this`states, this`steps, this`future
      ensures OnRun() && s == old(s).(slots := s.slots) && |s.slots| >= |old(s).slots| && Grown(old(steps), steps)
    {
      if future == [] {
        return;
      }
      hide OnRun, Apply, Enabled;
      var batch, i := future[0], 0;
      future := future[1..];
      while i < |batch|
        invariant 0 <= i <= |batch|
        invariant OnRun() && s == old(s).(slots := s.slots) && |s.slots| >= |old(s).slots| && Grown(old(steps), steps)
      {
        if ReaderStep(batch[i]) && ReaderCan(s, batch[i]) {
          CanIsEnabled(s, batch[i]);
          ReaderOnly(s, batch[i]);
          Take(batch[i]);
        }
        i := i + 1;
      }
    }

    /** mdb_find_oldest, one read at a time. */
    method FindOldest() returns (oldest: Txnid)
      requires OnRun() && IsOpen(s)
      modifies this`s, this`states, this`steps, this`future
      ensures OnRun() && s == old(s).(slots := s.slots, oldest := s.oldest)
      ensures Oldest(s, s.w.txn.env) == oldest && Grown(old(steps), steps) && Scanned(old(steps), steps)
    {
      hide OnRun, Apply, Enabled, Inv;
      Others();
      Here();
      WriterBounds(s);
      ScanEnds(s);
      ghost var x := s.w.txn;
      oldest := s.w.txn.id - 1;
      var i := |s.slots|;
      Take(ScanStart);
      while i > 0
        invariant 0 <= i <= |s.slots| && OnRun() && Grown(old(steps), steps)
        invariant s == old(s).(slots := s.slots, w := Writing(x.(phase := Scanning(i, oldest, false))))
      {
        oldest := ScanSlot(i, oldest);
        i := i - 1;
      }
      Others();
      ghost var before := steps;
      ScanEnds(s);
      Take(ScanDone);
      assert steps[|before|].ScanDone?;
    }

    /** One reader slot. */
    method ScanSlot(i: nat, oldest0: Txnid) returns (oldest: Txnid)
      requires OnRun() && s.w.Writing? && s.w.txn.phase == Scanning(i, oldest0, false) && 0 < i <= |s.slots|
      modifies this`s, this`states, this`steps, this`future
      ensures OnRun() && Grown(old(steps), steps) && |s.slots| >= |old(s).slots|
      ensures s == old(s).(slots := s.slots, w := Writing(old(s).w.txn.(phase := Scanning(i - 1, oldest, false))))
    {
      hide OnRun, Apply, Enabled;
      oldest := oldest0;
      Others();
      var pid := s.slots[i - 1].pid;
      ScanReads(s);
      Take(ScanPid);
      if pid != 0 {
        Others();
        var mr := s.slots[i - 1].txnid;
        if mr.Some? && oldest > mr.value {
          oldest := mr.value;
        }
        ScanReads(s);
        Take(ScanTxnid);
      }
    }

    /** When the record `last` is too recent for the cached oldest id, the reader table is
        scanned, once per call. */
    method Refresh(last: Txnid, oldest0: Txnid, foundOld0: bool) returns (oldest: Txnid, foundOld: bool)
      requires OnRun() && IsOpen(s) && Oldest(s, s.w.txn.env) == oldest0
      modifies this`s, this`states, this`steps, this`future
      ensures OnRun() && s == old(s).(slots := s.slots, oldest := s.oldest) && Grown(old(steps), steps)
      ensures Oldest(s, s.w.txn.env) == oldest && (foundOld0 ==> foundOld) && (oldest <= last ==> foundOld)
      ensures foundOld ==> foundOld0 || Scanned(old(steps), steps)
    {
      oldest, foundOld := oldest0, foundOld0;
      if oldest <= last && !foundOld {
        oldest := FindOldest();
        foundOld := true;
      }
    }

    /** A record is merged into me_pghead, which is allocated or grown for it. */
    method MergeRecord(record: seq<ID>, memory: bool) returns (ok: bool)
      requires mop != null ==> IsList(mop[..]) && StrictlyDescending(Ids(mop[..]))
      requires StrictlyDescending(record) && forall p :: p in record ==> p <= MAX_ID
      requires mop != null ==> Elems(Ids(mop[..])) !! Elems(record)
      modifies this`mop, mop
      ensures mop == old(mop) || fresh(mop)
      ensures ok ==> mop != null && IsList(mop[..]) && StrictlyDescending(Ids(mop[..]))
      ensures ok ==> Elems(Ids(mop[..])) == old(if mop == null then {} else Elems(Ids(mop[..]))) + Elems(record)
      ensures !ok ==> !memory && mop == old(mop) && (mop != null ==> mop[..] == old(mop[..]))
    {
      hide Merge, StrictlyDescending;
      ok := memory;
      if mop == null {
        if !memory {
          return;
        }
        mop := new ID[|record| + 1](_ => 0);
        assert Ids(mop[..]) == [];
        NothingDescends();
      } else {
        var r;
        ok, r := Pghead.Need(mop, |record|, memory);
        if !ok {
          return;
        }
        mop := r;
      }
      ghost var head := Ids(mop[..]);
      var idl := ReadRecord(record);
      XMerge(mop, idl, 0);
      Pghead.RecordMergeIsUnion(head, record);
    }

    /** The oldest record not consumed, if it is older than every reader, is. */
    method Consume(k: Txnid, memory: bool) returns (ok: bool)
      requires Valid() && Enabled(s, Reclaim(k))
      modifies this, mop
      ensures Valid() && (mop == old(mop) || fresh(mop)) && loose == old(loose) && Grown(old(steps), steps)
      ensures if ok then s == SetTxn(old(s), ReclaimTxn(old(s).w.txn, k)).(slots := s.slots)
              else !memory && s == old(s)
    {
      hide OnRun, StrictlyDescending, Elems, Inv;
      Here();
      RecordApart(s, k);
      WriterBounds(s);
      assert RecordIs(db[k], s.w.txn.rest[k]);
      ok := MergeRecord(db[k], memory);
      if ok {
        Others();
        Take(Reclaim(k));
      }
    }

    /** mdb_cursor_get: the first record after those consumed. */
    method NextRecord() returns (k: Option<Txnid>)
      requires s.w.Writing? && RecordsAre(db, s.w.txn)
      ensures k.None? ==> !AnyLeft(s.w.txn)
      ensures k.Some? ==> First(s.w.txn, k.value)
    {
      var p := s.w.txn.pglast;
      SameKeys(db, s.w.txn);
      hide RecordsAre;
      var left := set k | k in db && k > p;
      assert forall k :: k in left <==> k in db && k > p;
      if left == {} {
        return None;
      }
      var any :| any in left;
      FirstAbove(db.Keys, p, any);
      var r :| r in db && r > p && forall q :: q in db && q > p ==> r <= q;
      k := Some(r);
    }

    /** One more record: `last` is me_pglast and then the record looked at. */
    method FetchMore(last0: Txnid, oldest0: Txnid, foundOld0: bool, memory: bool)
      returns (m: More, last: Txnid, oldest: Txnid, foundOld: bool)
      requires Valid() && last0 == s.w.txn.pglast && oldest0 == Oldest(s, s.w.txn.env)
      modifies this, mop
      ensures Valid() && (mop == old(mop) || fresh(mop)) && loose == old(loose) && Grown(old(steps), steps)
      ensures Fetched(old(s), s) && oldest == Oldest(s, s.w.txn.env)
      ensures (foundOld0 ==> foundOld) && (foundOld ==> foundOld0 || Scanned(old(steps), steps))
      ensures match m
              case Merged => last == s.w.txn.pglast > last0 && last in s.w.txn.rest
              case Stop => s.w == old(s).w && NoneOld(s) && (AnyLeft(s.w.txn) ==> foundOld)
              case Fail => s.w == old(s).w && !memory
    {
      hide OnRun, HeadIs, RecordsAre, Scanned, Grown, Distinct, Elems, Enabled, AnyLeft, NoneOld, First;
      last := last0 + 1;
      oldest, foundOld := Refresh(last, oldest0, foundOld0);
      m := Stop;
      if oldest <= last {
        TooRecent(s, last);
        return;
      }
      ghost var steps1 := steps;
      var next := NextRecord();
      if next.None? {
        TooRecent(s, last);
        return;
      }
      var k := next.value;
      last := k;
      oldest, foundOld := Refresh(last, oldest, foundOld);
      GrownTwice(old(steps), steps1, steps);
      if oldest <= last {
        TooRecent(s, last);
        return;
      }
      CanReclaim(s, k);
      ghost var steps2 := steps;
      var ok := Consume(k, memory);
      GrownTwice(old(steps), steps2, steps);
      m := if ok then Merged else Fail;
    }

    /** The search of mdb_page_alloc: a run of num pages in me_pghead, which grows by one
        record at a time until it has one, 60 * num records have been read in vain, or no
        record is older than every reader. */
    method Seek(num: nat, memory: bool) returns (ok: bool, i: nat)
      requires Valid() && num >= 1
      modifies this, mop
      ensures Valid() && (mop == old(mop) || fresh(mop)) && loose == old(loose) && Grown(old(steps), steps)
      ensures Fetched(old(s), s) && (!ok ==> !memory)
      ensures ok && i > 0 ==>
                && mop != null && num <= i <= mop[0] && Ids(mop[..])[i - num..i] == Pghead.Run(mop[i], num)
                && NoRunBelow(s.w.txn.head, mop[i], num)
      ensures ok && i == 0 ==> NoRun(s.w.txn.head, num)
      ensures ok && i == 0 ==>
                || |Consumed(old(s).w.txn, s.w.txn.pglast)| >= 60 * num
                || (NoneOld(s) && (AnyLeft(s.w.txn) ==> Scanned(old(steps), steps)))
    {
      hide OnRun, RecordsAre, Scanned, Grown, Distinct, AnyLeft, NoneOld, Inv, NoRun, StrictlyDescending, Elems,
           Fetched, Consumed, HeadIs, NoRunBelow, Pghead.Run, Seeking, Oldest;
      var retry, foundOld := 60 * num, false;
      var last, oldest := s.w.txn.pglast, Oldest(s, s.w.txn.env);
      ok, i := true, 0;
      Here();
      SeekingStarts(s, steps);
      while true
        invariant Valid() && (mop == old(mop) || fresh(mop)) && loose == old(loose) && ok && i == 0
        invariant Seeking(old(s), old(steps), s, steps, 60 * num - retry, foundOld) && 0 <= retry
        invariant last == s.w.txn.pglast && oldest == Oldest(s, s.w.txn.env)
        decreases Ahead(s)
      {
        SeekingMeans(old(s), old(steps), s, steps, 60 * num - retry, foundOld);
        var enough;
        i, enough := Find(num);
        if i > 0 {
          return;
        }
        if enough {
          retry := retry - 1;
          if retry < 0 {
            return;
          }
        }
        ghost var s1, steps1, found1 := s, steps, foundOld;
        var m;
        m, last, oldest, foundOld := FetchMore(last, oldest, foundOld, memory);
        Here();
        if m.Merged? {
          SeekingMore(old(s), old(steps), s1, steps1, s, steps, 60 * num - retry, found1, foundOld);
        } else {
          SeekingSame(old(s), old(steps), s1, steps1, s, steps, 60 * num - retry, found1, foundOld);
          SeekingMeans(old(s), old(steps), s, steps, 60 * num - retry - 1, foundOld);
          return m.Stop?, 0;
        }
      }
    }

    /** mdb_page_alloc: a loose page, the lowest run of num pages in me_pghead after reading
        as many records as it takes, or new pages. The pages were not in use, and no reader
        can see them. New pages are taken, or asked for in vain, only if me_pghead has no
        run and either this call has read 60 * num records or every record left is too recent
        for the readers seen by a scan during this call. */
    method Alloc(num: nat, dirtyRoom: nat, maxpg: nat, memory: bool, d: Contents) returns (r: Result)
      requires Valid() && num >= 1
      modifies this, mop
      ensures Valid() && Grown(old(steps), steps)
      ensures if r.Got? then Placed(old(s), s, Range(r.pgno, num), d) else Fetched(old(s), s)
      ensures r.TxnFull? <==> dirtyRoom == 0 && (num > 1 || old(loose) == [])
      ensures r.NoMemory? ==> !memory
      ensures r.MapFull? ==> old(s).w.txn.next + num >= maxpg
      ensures num == 1 && old(loose) != [] ==> r == Got(old(loose)[0]) && loose == old(loose)[1..]
      ensures r.MapFull? || s.w.txn.next > old(s).w.txn.next ==>
                && NoRun(s.w.txn.head, num)
                && (|| |Consumed(old(s).w.txn, s.w.txn.pglast)| >= 60 * num
                    || (NoneOld(s) && (AnyLeft(s.w.txn) ==> Scanned(old(steps), steps))))
      ensures s.w.txn.next > old(s).w.txn.next ==>
                r == Got(old(s).w.txn.next) && s.w.txn.next == old(s).w.txn.next + num
      ensures r.Got? && s.w.txn.next == old(s).w.txn.next && !(num == 1 && old(loose) != []) ==>
                NoRunBelow(s.w.txn.head, r.pgno, num)
    {
      hide OnRun, RecordsAre, Scanned, Grown, AnyLeft, NoneOld, Inv, NoRun, NoRunBelow, StrictlyDescending, Fetched,
           Placed;
      GrownNone(steps);
      FetchedNone(s);
      if num == 1 && loose != [] {
        var p := TakeLoose(d);
        return Got(p);
      }
      if dirtyRoom == 0 {
        return TxnFull;
      }
      var ok, i;
      ok, i := Seek(num, memory);
      ghost var before, s1 := steps, s;
      FetchedKeeps(old(s), s1);
      if !ok {
        return NoMemory;
      }
      if i == 0 && s.w.txn.next + num >= maxpg {
        return MapFull;
      }
      if !memory {
        return NoMemory;
      }
      var p;
      if i > 0 {
        p := TakeHead(i, num, d);
      } else {
        p := TakeNew(num, d);
      }
      GrownTwice(old(steps), before, steps);
      PlacedLater(old(s), s1, s, Range(p, num), d);
      r := Got(p);
    }

    method TakeLoose(d: Contents) returns (p: Pgno)
      requires Valid() && loose != []
      modifies this
      ensures Valid() && mop == old(mop) && Grown(old(steps), steps)
      ensures p == old(loose)[0] && loose == old(loose)[1..]
      ensures Placed(old(s), s, Range(p, 1), d) && s.w.txn.next == old(s).w.txn.next
    {
      hide OnRun, Inv, HeadIs, RecordsAre, Apply, Enabled;
      Others();
      Here();
      FreeIsUnused(s);
      p := loose[0];
      FirstOf(loose);
      loose := loose[1..];
      FillOne(s.w.txn.work, p, d);
      HeadStays(mop, s.w.txn, MovePages(s.w.txn, AllocLoose(p, d)));
      RecordsStay(db, s.w.txn, MovePages(s.w.txn, AllocLoose(p, d)));
      PageStep(s, AllocLoose(p, d));
      Take(Page(AllocLoose(p, d)));
      Here();
      DirtyIsPrivate(s);
    }

    method TakeNew(num: nat, d: Contents) returns (p: Pgno)
      requires Valid() && num >= 1
      modifies this
      ensures Valid() && mop == old(mop) && loose == old(loose) && Grown(old(steps), steps)
      ensures p == old(s).w.txn.next && s.w.txn.next == p + num && Placed(old(s), s, Range(p, num), d)
      ensures s.w.txn.head == old(s).w.txn.head && s.w.txn.pglast == old(s).w.txn.pglast
      ensures NoneOld(old(s)) ==> NoneOld(s)
      ensures AnyLeft(s.w.txn) <==> AnyLeft(old(s).w.txn)
    {
      hide OnRun, Inv, HeadIs, RecordsAre, Apply, Enabled;
      Others();
      Here();
      FreeIsUnused(s);
      p := s.w.txn.next;
      HeadStays(mop, s.w.txn, MovePages(s.w.txn, AllocNew(num, d)));
      RecordsStay(db, s.w.txn, MovePages(s.w.txn, AllocNew(num, d)));
      PageStep(s, AllocNew(num, d));
      Take(Page(AllocNew(num, d)));
      Here();
      DirtyIsPrivate(s);
    }

    method TakeHead(i: nat, num: nat, d: Contents) returns (p: Pgno)
      requires Valid() && num >= 1 && mop != null && num <= i <= mop[0]
      requires Ids(mop[..])[i - num..i] == Pghead.Run(mop[i], num) && NoRunBelow(s.w.txn.head, mop[i], num)
      modifies this, mop
      ensures Valid() && mop == old(mop) && loose == old(loose) && Grown(old(steps), steps)
      ensures p == old(mop[i]) && s.w.txn.next == old(s).w.txn.next && Placed(old(s), s, Range(p, num), d)
      ensures NoRunBelow(s.w.txn.head, p, num)
    {
      hide OnRun, Inv, RecordsAre, StrictlyDescending, Distinct, Apply, Enabled, NoRunBelow, Placed, MovePages, CanMove;
      Others();
      Here();
      p := mop[i];
      ghost var x := s.w.txn;
      CutRun(mop, i, num);
      HeadMoves(x, p, num, d);
      RecordsStay(db, x, MovePages(x, AllocHead(p, num, d)));
      PageStep(s, AllocHead(p, num, d));
      ghost var s1 := s;
      Take(Page(AllocHead(p, num, d)));
      Here();
      HeadPlaced(s1, s, p, num, d);
      PlacedLater(old(s), s1, s, Range(p, num), d);
    }

    /** The lowest run of num pages in me_pghead, if there is one. */
    method Find(num: nat) returns (i: nat, enough: bool)
      requires Valid() && num >= 1
      ensures enough <==> |s.w.txn.head| >= num
      ensures i > 0 ==>
                && mop != null && num <= i <= mop[0] && Ids(mop[..])[i - num..i] == Pghead.Run(mop[i], num)
                && NoRunBelow(s.w.txn.head, mop[i], num)
      ensures i == 0 ==> NoRun(s.w.txn.head, num)
    {
      hide OnRun, RecordsAre, Distinct, Inv, StrictlyDescending, Elems, Pghead.HasRun, NoRun, NoRunBelow, Pghead.Run;
      i, enough := 0, false;
      Here();
      WriterBounds(s);
      if mop == null {
        NothingDescends();
        ShortList([], num);
        return;
      }
      HowMany(Ids(mop[..]));
      if mop[0] < num {
        ShortList(Ids(mop[..]), num);
      } else {
        enough := true;
        i := Pghead.FindRun(mop, num);
        RunsAre(Ids(mop[..]), num, mop[i]);
      }
    }
  }

  /** Cutting a run out of me_pghead. */
  method CutRun(mop: array<ID>, i: nat, num: nat)
    requires IsList(mop[..]) && StrictlyDescending(Ids(mop[..])) && 1 <= num <= i <= mop[0]
    requires Ids(mop[..])[i - num..i] == Pghead.Run(mop[i], num)
    modifies mop
    ensures IsList(mop[..]) && StrictlyDescending(Ids(mop[..])) && Range(old(mop[i]), num) <= old(Elems(Ids(mop[..])))
    ensures Elems(Ids(mop[..])) == old(Elems(Ids(mop[..]))) - Range(old(mop[i]), num)
  {
    hide StrictlyDescending, Elems;
    assert Ids(mop[..])[i - 1] == mop[i];
    Pghead.TakeRunIsDifference(Ids(mop[..]), i, num);
    Pghead.RunMeans(Ids(mop[..]), mop[i], num);
    Pghead.TakeRun(mop, i, num);
  }

  lemma HeadMoves(x: Txn, p: Pgno, num: nat, d: Contents)
    requires Range(p, num) <= x.head
    ensures CanMove(x, AllocHead(p, num, d))
    ensures var y := MovePages(x, AllocHead(p, num, d));
            && y.head == x.head - Range(p, num) && y.rest == x.rest && y.hasHead == x.hasHead && y.phase == x.phase
            && y.loose == x.loose && y.next == x.next
  {
  }

  lemma HeadPlaced(s: State, s': State, p: Pgno, num: nat, d: Contents)
    requires Inv(s) && Inv(s') && s.w.Writing? && Range(p, num) <= s.w.txn.head
    requires s' == SetTxn(s, MovePages(s.w.txn, AllocHead(p, num, d)))
    ensures Placed(s, s', Range(p, num), d)
    ensures NoRunBelow(s.w.txn.head, p, num) ==> NoRunBelow(s'.w.txn.head, p, num)
  {
    hide Inv;
    FreeIsUnused(s);
    DirtyIsPrivate(s');
  }

  /** The pages were not in use and now belong to the transaction, hold d, and are in no
      snapshot that is published or being read. */
  ghost predicate Placed(s: State, s': State, pages: set<Pgno>, d: Contents) {
    && s.w.Writing? && s'.w.Writing?
    && pages <= s'.w.txn.dirty && pages !! s.w.txn.work.Keys
    && s'.w.txn.work == FillPages(s.w.txn.work, pages, d)
    && pages !! Cur(s').snap.view.Keys
    && (forall i: nat, t: Txnid, m :: ReadsAt(s', i, t, m) ==> pages !! m.snap.view.Keys)
  }

  lemma PlacedLater(s0: State, s: State, s': State, pages: set<Pgno>, d: Contents)
    requires Placed(s, s', pages, d) && Fetched(s0, s)
    ensures Placed(s0, s', pages, d)
  {
  }

  lemma FetchedNone(s: State)
    ensures s.w.Writing? ==> Fetched(s, s)
  {
  }

  lemma FetchedKeeps(s: State, s': State)
    requires Fetched(s, s')
    ensures s.w.Writing? && s'.w.Writing? && s'.w.txn.next == s.w.txn.next && s'.w.txn.work == s.w.txn.work
  {
  }

  lemma FetchedTwice(s: State, s1: State, s2: State)
    requires Fetched(s, s1) && Fetched(s1, s2)
    ensures Fetched(s, s2) && s2.mti == s1.mti && s2.w.txn.rest == s.w.txn.rest
  {
  }

  lemma FirstOf(loose: seq<Pgno>)
    requires Distinct(loose) && loose != []
    ensures Distinct(loose[1..]) && Elems(loose[1..]) == Elems(loose) - {loose[0]} && loose[0] in Elems(loose)
  {
    assert loose == [loose[0]] + loose[1..];
    assert loose[0] !in loose[1..];
  }

  lemma FillOne(work: map<Pgno, Contents>, p: Pgno, d: Contents)
    ensures FillPages(work, Range(p, 1), d) == work[p := d] && Range(p, 1) == {p}
  {
  }

  lemma HeadStays(mop: array?<ID>, x: Txn, y: Txn)
    requires HeadIs(mop, x) && y.head == x.head && y.hasHead == x.hasHead
    ensures HeadIs(mop, y)
  {
  }

  lemma RecordsStay(db: FreeDb, x: Txn, y: Txn)
    requires RecordsAre(db, x) && y.rest == x.rest
    ensures RecordsAre(db, y)
  {
  }

  lemma GrownNone(steps: seq<Step>)
    ensures Grown(steps, steps)
  {
  }

  /** k is the first record not consumed. */
  ghost predicate First(x: Txn, k: Txnid) {
    k in x.rest && k > x.pglast && forall q :: q in x.rest && q > x.pglast ==> k <= q
  }

  lemma TooRecent(s: State, last: Txnid)
    requires s.w.Writing?
    requires !AnyLeft(s.w.txn) || last == s.w.txn.pglast + 1 || First(s.w.txn, last)
    requires AnyLeft(s.w.txn) ==> Oldest(s, s.w.txn.env) <= last
    ensures NoneOld(s)
  {
    forall k | k in s.w.txn.rest && k > s.w.txn.pglast
      ensures Oldest(s, s.w.txn.env) <= k
    {
      assert AnyLeft(s.w.txn);
    }
  }

  lemma CanReclaim(s: State, k: Txnid)
    requires IsOpen(s) && First(s.w.txn, k) && k < Oldest(s, s.w.txn.env)
    ensures Enabled(s, Reclaim(k)) && k > s.w.txn.pglast && k in s.w.txn.rest
  {
  }

  datatype More = Merged | Stop | Fail

  /** Reading records changes nothing but me_pghead, me_pglast and the cached oldest id. */
  ghost predicate Fetched(s: State, s': State) {
    && s.w.Writing? && s'.w.Writing?
    && s' == s.(slots := s'.slots, oldest := s'.oldest, w := s'.w)
    && var x, x' := s.w.txn, s'.w.txn; x' == x.(head := x'.head, hasHead := x'.hasHead, pglast := x'.pglast)
  }

  lemma SameKeys(db: FreeDb, x: Txn)
    requires RecordsAre(db, x)
    ensures forall k :: k in db <==> k in x.rest
  {
    assert forall k :: k in db.Keys <==> k in x.rest.Keys;
  }

  lemma {:induction false} HowMany(s: seq<ID>)
    requires StrictlyDescending(s)
    ensures |Elems(s)| == |s|
  {
    if s != [] {
      var n := |s| - 1;
      HowMany(s[..n]);
      assert s == s[..n] + [s[n]];
      assert Elems(s) == Elems(s[..n]) + {s[n]} && s[n] !in Elems(s[..n]);
    }
  }

  /** A list shorter than num has no run of num pages. */
  lemma ShortList(s: seq<ID>, num: nat)
    requires StrictlyDescending(s) && |s| < num
    ensures NoRun(Elems(s), num)
  {
    forall pg: nat | Range(pg, num) <= Elems(s)
      ensures false
    {
      assert pg in Range(pg, num) && pg in s;
      var p :| 0 <= p < |s| && s[p] == pg;
      assert Pghead.HasRun(s, s[p], num);
      Pghead.StretchIffRun(s, p, num);
    }
  }

  /** mdb_node_read: the record's list in memory. */
  method ReadRecord(record: seq<ID>) returns (idl: array<ID>)
    requires forall p :: p in record ==> p <= MAX_ID
    ensures fresh(idl) && idl.Length == |record| + 1 && idl[0] == |record| && idl[1..1 + idl[0]] == record
    ensures forall k :: 0 < k <= |record| ==> idl[k] <= MAX_ID
  {
    idl := new ID[|record| + 1](k requires 0 <= k <= |record| => if k == 0 then |record| else record[k - 1]);
    forall k | 0 < k <= |record|
      ensures idl[k] == record[k - 1] <= MAX_ID
    {
      assert record[k - 1] in record;
    }
    forall k | 0 <= k < |record|
      ensures idl[1..1 + |record|][k] == record[k]
    {
      assert idl[k + 1] == record[k];
    }
  }

  lemma NothingDescends()
    ensures StrictlyDescending([]) && Elems([]) == {}
  {
  }

  lemma CanIsEnabled(s: State, st: Step)
    requires ReaderStep(st) && ReaderCan(s, st)
    ensures Enabled(s, st)
  {
  }
}
