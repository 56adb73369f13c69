/**
 Runs that reach what the safety theorems speak of, and one that reaches a state in
 which the older meta page cannot be relied on.
 */
module MvccRuns {
  import opened Wrappers
  import opened Mvcc
  import opened MvccInvariant
  import opened MvccSafety

  /** A run that ends in state s. */
  ghost predicate EndsIn(states: seq<State>, steps: seq<Step>, s: State) {
    IsRun(states, steps) && states[|steps|] == s
  }

  lemma Take(states: seq<State>, steps: seq<Step>, s: State, st: Step) returns (states': seq<State>, steps': seq<Step>)
    requires EndsIn(states, steps, s) && Enabled(s, st)
    ensures EndsIn(states', steps', Apply(s, st))
  {
    hide Enabled, Apply;
    states', steps' := states + [Apply(s, st)], steps + [st];
  }

  /** A reader pins the empty snapshot. */
  lemma ReaderStarts(s: State) returns (states: seq<State>, steps: seq<Step>)
    requires Init(s)
    ensures EndsIn(states, steps, s.(slots := [Slot(1, Some(0), Reading(0, s.meta0))]))
  {
    states, steps := [s], [];
    assert EndsIn(states, steps, s);
    hide EndsIn;
    states, steps := Take(states, steps, s, Claim(0, 1));
    states, steps := Take(states, steps, s.(slots := [Slot(1, None, Parked)]), Load(0));
    states, steps := Pins(states, steps, s);
  }

  lemma Pins(states0: seq<State>, steps0: seq<Step>, s: State) returns (states: seq<State>, steps: seq<Step>)
    requires s.mti == 0 && EndsIn(states0, steps0, s.(slots := [Slot(1, None, Loaded(0))]))
    ensures EndsIn(states, steps, s.(slots := [Slot(1, Some(0), Reading(0, s.meta0))]))
  {
    hide EndsIn;
    var a, b, c, d := Slot(1, None, Loaded(0)), Slot(1, Some(0), Stored(0)), Slot(1, Some(0), Pinned(0)),
      Slot(1, Some(0), Reading(0, s.meta0));
    assert [a][0 := b] == [b] && [b][0 := c] == [c] && [c][0 := d] == [d];
    states, steps := Take(states0, steps0, s.(slots := [a]), Store(0));
    states, steps := Take(states, steps, s.(slots := [b]), Recheck(0));
    states, steps := Take(states, steps, s.(slots := [c]), CopyMeta(0));
  }

  /** A transaction that has taken one new page. */
  ghost function OnePage(s: State, d: Contents): Txn {
    var v := Cur(s).snap;
    Txn(0, s.mti + 1, Open, v.view[v.last + 1 := d], {v.last + 1}, {}, {}, false, 0, {}, v.free, v.last + 2)
  }

  lemma TakePage(states0: seq<State>, steps0: seq<Step>, s: State, d: Contents)
    returns (states: seq<State>, steps: seq<Step>)
    requires EndsIn(states0, steps0, s) && s.w.Unlocked? && s.shaky.None?
    ensures EndsIn(states, steps, SetTxn(s, OnePage(s, d)))
  {
    hide EndsIn;
    var v := Cur(s).snap;
    states, steps := Take(states0, steps0, s, Begin(0));
    states, steps := Take(states, steps, SetTxn(s, BeginTxn(s, 0)), Page(AllocNew(1, d)));
    assert Range(v.last + 1, 1) == {v.last + 1};
    assert FillPages(v.view, {v.last + 1}, d) == v.view[v.last + 1 := d];
  }

  /** Its free list is saved and its page written. */
  lemma SavePage(states0: seq<State>, steps0: seq<Step>, s: State, x: Txn, p: Pgno)
    returns (states: seq<State>, steps: seq<Step>)
    requires EndsIn(states0, steps0, s) && s.w == Writing(x) && x.phase == Open && p in x.dirty && p in x.work
    requires s.shaky.None?
    requires x.loose == x.head == {} && x.pglast == 0
    ensures EndsIn(states, steps,
                   SetTxn(s, SaveTxn(x, map[])).(disk := s.disk[p := x.work[p]], unsynced := s.unsynced + {p}))
  {
    hide EndsIn;
    states, steps := Take(states0, steps0, s, Flush(p, x.work[p]));
    var s1 := s.(disk := s.disk[p := x.work[p]], unsynced := s.unsynced + {p});
    states, steps := Take(states, steps, s1, SaveFreelist(map[]));
  }

  /** The meta page a transaction writes. */
  ghost function NewMeta(x: Txn): Meta
    requires x.next > 0
  {
    Meta(x.id, Snapshot(x.work, x.rest, x.next - 1))
  }

  lemma WritePage(states0: seq<State>, steps0: seq<Step>, s: State, x: Txn, p: Pgno)
    returns (states: seq<State>, steps: seq<Step>)
    requires EndsIn(states0, steps0, s) && s.w == Writing(x) && x.phase == Saved && x.next > 0 && s.shaky.None?
    requires x.dirty == {p} && p in x.work && p in s.disk && s.disk[p] == x.work[p]
    ensures EndsIn(states, steps,
                   PutMeta(s, NewMeta(x)).(unsynced := {}, shaky := Some(MetaAt(s, x.id)), w := MetaWritten(x.id)))
  {
    hide EndsIn;
    states, steps := Take(states0, steps0, s, Sync);
    states, steps := Take(states, steps, s.(unsynced := {}, w := Writing(x.(phase := Synced))), WriteMeta);
  }

  lemma PublishPage(states0: seq<State>, steps0: seq<Step>, s: State) returns (states: seq<State>, steps: seq<Step>)
    requires EndsIn(states0, steps0, s) && s.w.MetaWritten? && s.shaky.Some?
    ensures EndsIn(states, steps, s.(shaky := None, stale := false, mti := s.w.id, w := Unlocked))
  {
    hide EndsIn;
    states, steps := Take(states0, steps0, s, MetaSync);
    states, steps := Take(states, steps, s.(shaky := None, stale := false, w := MetaDurable(s.w.id)), Publish);
  }

  /** The state after the first commit, of page 2. */
  ghost function AfterFirst(s: State, d: Contents): State {
    s.(meta1 := Meta(1, Snapshot(map[2 := d], map[], 2)), disk := s.disk[2 := d], unsynced := {}, mti := 1)
  }

  lemma FirstCommit(states0: seq<State>, steps0: seq<Step>, s: State, d: Contents)
    returns (states: seq<State>, steps: seq<Step>)
    requires EndsIn(states0, steps0, s) && s.w.Unlocked? && s.shaky.None? && !s.stale
    requires s.mti == 0 && s.meta0 == Meta(0, Snapshot(map[], map[], 1))
    ensures EndsIn(states, steps, AfterFirst(s, d))
  {
    hide EndsIn;
    var x := OnePage(s, d);
    states, steps := TakePage(states0, steps0, s, d);
    states, steps := SavePage(states, steps, SetTxn(s, x), x, 2);
    var y := SaveTxn(x, map[]);
    assert y.rest == map[];
    var s1 := SetTxn(s, y).(disk := s.disk[2 := d], unsynced := s.unsynced + {2});
    states, steps := WritePage(states, steps, s1, y, 2);
    var s2 := PutMeta(s1, NewMeta(y)).(unsynced := {}, shaky := Some(MetaAt(s1, y.id)), w := MetaWritten(y.id));
    states, steps := PublishPage(states, steps, s2);
    assert s2.(shaky := None, stale := false, mti := 1, w := Unlocked) == AfterFirst(s, d);
  }

  /** A reader keeps the empty snapshot while a transaction commits a page. */
  lemma ReadDuringCommit(s: State, d: Contents) returns (states: seq<State>, steps: seq<Step>)
    requires Init(s)
    ensures IsRun(states, steps)
    ensures var s' := states[|steps|]; ReadsAt(s', 0, 0, s.meta0) && s'.mti == 1 && 2 in Cur(s').snap.view
  {
    states, steps := ReaderStarts(s);
    states, steps := FirstCommit(states, steps, s.(slots := [Slot(1, Some(0), Reading(0, s.meta0))]), d);
  }

  // ------------------------------------------- losing a meta page that others built on

  /** The second commit takes page 3 and frees page 2. */
  ghost function AfterSecond(s: State, d: Contents): State {
    AfterFirst(s, d).(meta0 := Meta(2, Snapshot(map[3 := d], map[2 := {2}], 3)),
                      disk := s.disk[2 := d][3 := d], mti := 2)
  }

  lemma SecondCommit(states0: seq<State>, steps0: seq<Step>, s0: State, d: Contents)
    returns (states: seq<State>, steps: seq<Step>)
    requires EndsIn(states0, steps0, AfterFirst(s0, d)) && s0.w.Unlocked? && s0.shaky.None? && !s0.stale
    ensures EndsIn(states, steps, AfterSecond(s0, d))
  {
    hide EndsIn;
    var s := AfterFirst(s0, d);
    var x := OnePage(s, d);
    states, steps := TakePage(states0, steps0, s, d);
    states, steps := Take(states, steps, SetTxn(s, x), Page(FreePage(2)));
    var y := MovePages(x, FreePage(2));
    assert y.work == map[3 := d];
    states, steps := SavePage(states, steps, SetTxn(s, y), y, 3);
    var z := SaveTxn(y, map[]);
    assert 2 in y.freed && y.freed == {2};
    assert Above(y.rest, 0) + map[] == map[];
    assert z.rest == map[2 := {2}];
    var s1 := SetTxn(s, z).(disk := s.disk[3 := d], unsynced := s.unsynced + {3});
    states, steps := WritePage(states, steps, s1, z, 3);
    var s2 := PutMeta(s1, NewMeta(z)).(unsynced := {}, shaky := Some(MetaAt(s1, z.id)), w := MetaWritten(z.id));
    states, steps := PublishPage(states, steps, s2);
    assert s2.(shaky := None, stale := false, mti := 2, w := Unlocked) == AfterSecond(s0, d);
  }

  /** The writer of the third commit dies after writing its meta page, and the next
      process publishes it. */
  ghost function AfterThird(s: State, d: Contents): State {
    AfterSecond(s, d).(meta1 := Meta(3, Snapshot(map[3 := d, 4 := d], map[2 := {2}], 4)),
                       shaky := Some(Meta(1, Snapshot(map[2 := d], map[], 2))),
                       disk := s.disk[2 := d][3 := d][4 := d], mti := 3)
  }

  lemma Recovers(states0: seq<State>, steps0: seq<Step>, s: State) returns (states: seq<State>, steps: seq<Step>)
    requires EndsIn(states0, steps0, s) && s.w.MetaWritten?
    ensures EndsIn(states, steps, s.(mti := PickMeta(s).txnid, w := Unlocked))
  {
    hide EndsIn;
    states, steps := Take(states0, steps0, s, OwnerDies);
    states, steps := Take(states, steps, s.(w := OwnerDied), Recover);
  }

  lemma ThirdDies(states0: seq<State>, steps0: seq<Step>, s0: State, d: Contents)
    returns (states: seq<State>, steps: seq<Step>)
    requires EndsIn(states0, steps0, AfterSecond(s0, d)) && s0.w.Unlocked? && s0.shaky.None? && !s0.stale
    ensures EndsIn(states, steps, AfterThird(s0, d))
  {
    hide EndsIn;
    var s := AfterSecond(s0, d);
    var x := OnePage(s, d);
    assert x.work == map[3 := d, 4 := d];
    states, steps := TakePage(states0, steps0, s, d);
    states, steps := SavePage(states, steps, SetTxn(s, x), x, 4);
    var y := SaveTxn(x, map[]);
    assert y.rest == map[2 := {2}];
    var s1 := SetTxn(s, y).(disk := s.disk[4 := d], unsynced := s.unsynced + {4});
    states, steps := WritePage(states, steps, s1, y, 4);
    var s2 := PutMeta(s1, NewMeta(y)).(unsynced := {}, shaky := Some(MetaAt(s1, y.id)), w := MetaWritten(y.id));
    states, steps := Recovers(states, steps, s2);
    assert s2.(mti := 3, w := Unlocked) == AfterThird(s0, d);
  }

  /** A transaction begins and scans the empty reader table. */
  lemma BeginAndScan(states0: seq<State>, steps0: seq<Step>, s: State)
    returns (states: seq<State>, steps: seq<Step>)
    requires EndsIn(states0, steps0, s) && s.w.Unlocked? && s.slots == [] && s.shaky.Some?
    ensures EndsIn(states, steps, SetTxn(s, BeginTxn(s, 0)).(oldest := s.oldest[0 := s.mti]))
  {
    hide EndsIn;
    var x := BeginTxn(s, 0);
    states, steps := Take(states0, steps0, s, Begin(0));
    var s1 := SetTxn(s, x);
    states, steps := Take(states, steps, s1, ScanStart);
    states, steps := Take(states, steps, SetTxn(s1, x.(phase := Scanning(0, s.mti, false))), ScanDone);
  }

  /** Transaction x after taking the only free record, r, of page p. */
  ghost function Taken(x: Txn, r: Txnid, p: Pgno, d: Contents): Txn {
    x.(hasHead := true, pglast := r, dirty := x.dirty + {p}, work := x.work[p := d])
  }

  lemma TakeRecord(states0: seq<State>, steps0: seq<Step>, s: State, x: Txn, r: Txnid, p: Pgno, d: Contents)
    returns (states: seq<State>, steps: seq<Step>)
    requires EndsIn(states0, steps0, s) && s.w == Writing(x) && x.phase == Open && x.head == {}
    requires x.rest == map[r := {p}] && x.pglast < r < Oldest(s, x.env)
    ensures EndsIn(states, steps, SetTxn(s, Taken(x, r, p, d)))
  {
    hide EndsIn;
    TakesOnly(x, r, p, d);
    hide MovePages, CanMove, ReclaimTxn, Taken;
    states, steps := Take(states0, steps0, s, Reclaim(r));
    states, steps := Take(states, steps, SetTxn(s, ReclaimTxn(x, r)), Page(AllocHead(p, 1, d)));
  }

  /** It takes the only free record, of one page, and writes that page. */
  lemma ReusePage(states0: seq<State>, steps0: seq<Step>, s: State, x: Txn, r: Txnid, p: Pgno, d: Contents)
    returns (states: seq<State>, steps: seq<Step>)
    requires EndsIn(states0, steps0, s) && s.w == Writing(x) && x.phase == Open && x.head == {}
    requires x.rest == map[r := {p}] && x.pglast < r < Oldest(s, x.env) && Reuses(s, p)
    ensures EndsIn(states, steps, SetTxn(s, Taken(x, r, p, d))
                     .(disk := s.disk[p := d], unsynced := s.unsynced + {p}, stale := true))
  {
    hide EndsIn;
    states, steps := TakeRecord(states0, steps0, s, x, r, p, d);
    states, steps := Take(states, steps, SetTxn(s, Taken(x, r, p, d)), Flush(p, d));
  }

  lemma TakesOnly(x: Txn, r: Txnid, p: Pgno, d: Contents)
    requires x.head == {} && x.rest == map[r := {p}]
    ensures var y := ReclaimTxn(x, r);
            && y.phase == x.phase && CanMove(y, AllocHead(p, 1, d))
            && MovePages(y, AllocHead(p, 1, d)) == Taken(x, r, p, d)
  {
    var y := ReclaimTxn(x, r);
    assert Range(p, 1) == {p} && y.head == {p};
    assert FillPages(x.work, {p}, d) == x.work[p := d];
  }

  /** The fourth transaction takes record 2. */
  ghost function FourthTxn(d: Contents, d2: Contents): Txn {
    Txn(0, 4, Open, map[3 := d, 4 := d, 2 := d2], {2}, {}, {}, true, 2, {}, map[2 := {2}], 5)
  }

  lemma FourthReuses(states0: seq<State>, steps0: seq<Step>, s0: State, d: Contents, d2: Contents)
    returns (states: seq<State>, steps: seq<Step>)
    requires EndsIn(states0, steps0, AfterThird(s0, d)) && s0.w.Unlocked? && s0.slots == []
    ensures var s := AfterThird(s0, d);
            EndsIn(states, steps, s.(stale := true, oldest := s.oldest[0 := 3], disk := s.disk[2 := d2],
                                     unsynced := s.unsynced + {2}, w := Writing(FourthTxn(d, d2))))
  {
    hide EndsIn;
    var s := AfterThird(s0, d);
    states, steps := BeginAndScan(states0, steps0, s);
    var s1 := SetTxn(s, BeginTxn(s, 0)).(oldest := s.oldest[0 := 3]);
    states, steps := ReusePage(states, steps, s1, BeginTxn(s, 0), 2, 2, d2);
    var x := BeginTxn(s, 0);
    assert x.dirty + {2} == {2} && x.work[2 := d2] == map[3 := d, 4 := d, 2 := d2];
    assert Taken(x, 2, 2, d2) == FourthTxn(d, d2);
  }

  /** The snapshot before the one mdb_env_pick_meta finds need not be whole: a crash can
      lose meta page 3, which was never synced, after transaction 4 has written over a
      page of snapshot 1; meta page 1 is back and names that page. */
  lemma OlderMetaCanBeStale(s: State, d: Contents, d2: Contents) returns (states: seq<State>, steps: seq<Step>)
    requires Init(s) && d != d2
    ensures IsRun(states, steps)
    ensures var s' := states[|steps|];
            && s'.w.Unlocked? && PickMeta(s').txnid == 2 && OtherMeta(s').txnid == 1
            && Complete(s', PickMeta(s')) && !Complete(s', OtherMeta(s'))
  {
    states, steps := [s], [];
    assert EndsIn(states, steps, s);
    states, steps := FirstCommit(states, steps, s, d);
    states, steps := SecondCommit(states, steps, s, d);
    states, steps := ThirdDies(states, steps, s, d);
    states, steps := FourthReuses(states, steps, s, d, d2);
    states, steps := LoseThird(states, steps, s, d, d2);
  }

  lemma LoseThird(states0: seq<State>, steps0: seq<Step>, s0: State, d: Contents, d2: Contents)
    returns (states: seq<State>, steps: seq<Step>)
    requires s0.w.Unlocked? && d != d2
    requires var s := AfterThird(s0, d);
             EndsIn(states0, steps0, s.(stale := true, oldest := s.oldest[0 := 3], disk := s.disk[2 := d2],
                                        unsynced := s.unsynced + {2}, w := Writing(FourthTxn(d, d2))))
    ensures IsRun(states, steps)
    ensures var s' := states[|steps|];
            && s'.w.Unlocked? && PickMeta(s').txnid == 2 && OtherMeta(s').txnid == 1
            && Complete(s', PickMeta(s')) && !Complete(s', OtherMeta(s'))
  {
    hide EndsIn;
    var s := AfterThird(s0, d);
    var s1 := s.(stale := true, oldest := s.oldest[0 := 3], disk := s.disk[2 := d2], unsynced := s.unsynced + {2},
                 w := Writing(FourthTxn(d, d2)));
    states, steps := Take(states0, steps0, s1, Crash(map[], true));
    var s2 := Apply(s1, Crash(map[], true));
    assert s2.meta1 == Meta(1, Snapshot(map[2 := d], map[], 2)) && s2.disk == s1.disk;
    assert 2 in s2.meta1.snap.view && s2.disk[2] == d2;
    CompleteSecond(s2, d);
    EndOf(states, steps, s2);
  }

  lemma EndOf(states: seq<State>, steps: seq<Step>, s: State)
    requires EndsIn(states, steps, s)
    ensures IsRun(states, steps) && |states| == |steps| + 1 && states[|steps|] == s
  {
  }

  lemma CompleteSecond(s: State, d: Contents)
    requires s.meta0 == Meta(2, Snapshot(map[3 := d], map[2 := {2}], 3)) && 3 in s.disk && s.disk[3] == d
    ensures Complete(s, s.meta0)
  {
    assert Lists(s.meta0.snap.free, 0, 2, 2);
  }
}
