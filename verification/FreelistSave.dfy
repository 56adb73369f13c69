/**
 mdb_freelist_save: writing the freelist into the freeDB changes the freelist,
 so the reservation loop runs until it stabilises; a second pass then fills the
 reserved records. What the inner B-tree operations do to the lists is taken from
 `future`, an arbitrary finite sequence of effects: the theorems hold for all of
 them, and an operation with no effect left (or an impossible one) fails.
 */
module FreelistSave {
  import opened Arith
  import opened Idl
  import opened IdlSort
  import opened IdlSortLimit
  import IdlSortMain
  import Pghead
  import Mvcc

  type Txnid = Mvcc.Txnid

  /** A freeDB record: room for that many ids, and the ids stored in it. */
  datatype Record = Record(room: nat, ids: seq<ID>)

  type FreeDb = map<Txnid, Record>

  /** The page lists that inner operations change. */
  datatype Lists = Lists(head: seq<ID>, hasHead: bool, pglast: Txnid, freed: seq<ID>, loose: seq<ID>)

  /** me_pghead exists once a record has been consumed; its pages and the loose pages
      are different pages. */
  predicate ListsOk(l: Lists) {
    && (l.hasHead <==> l.pglast > 0)
    && (!l.hasHead ==> l.head == [] && l.loose == [])
    && StrictlyDescending(l.head) && Distinct(l.loose) && Elems(l.head) !! Elems(l.loose)
    && (forall x :: x in l.loose ==> x <= MAX_ID)
    && |l.head| + |l.loose| <= SORTABLE && |l.freed| <= SORTABLE
  }

  /** What an inner operation may do: me_pghead may become any list, me_pglast may
      move up to the key of an existing record older than the transaction,
      mt_free_pgs only grows, loose pages are only used up. */
  predicate Legal(db: FreeDb, id: Txnid, l: Lists, l': Lists) {
    && ListsOk(l')
    && (l'.pglast == l.pglast || (l.pglast < l'.pglast < id && l'.pglast in db))
    && l.freed <= l'.freed
    && Elems(l'.loose) <= Elems(l.loose)
  }

  /** The room reserved in records with keys 1..t. */
  ghost function Rooms(db: FreeDb, t: nat): nat {
    if t == 0 then 0 else (if t in db then db[t].room else 0) + Rooms(db, t - 1)
  }

  lemma {:induction false} RoomsUpdate(db: FreeDb, t: nat, k: nat, r: Record)
    requires 1 <= k
    ensures Rooms(db[k := r], t) == Rooms(db, t) + (if k <= t then r.room - (if k in db then db[k].room else 0) else 0)
  {
    if t > 0 {
      RoomsUpdate(db, t - 1, k, r);
    }
  }

  lemma {:induction false} RoomsNone(db: FreeDb, t: nat)
    requires forall k :: k in db ==> k > t
    ensures Rooms(db, t) == 0
  {
    if t > 0 {
      RoomsNone(db, t - 1);
    }
  }

  /** The book-keeping of the reservation loop. Records with keys up to `done` are the
      loop's own reservations, still empty; total is their room, and the one being
      grown is headId. */
  datatype Book = Book(done: Txnid, headId: Txnid, headRoom: int, totalRoom: int)

  ghost predicate Reserved(db: FreeDb, b: Book) {
    && (if b.done == 0 then b.headId == 0 else 1 <= b.headId <= b.done)
    && b.totalRoom == Rooms(db, b.done)
    && b.headRoom == (if b.headId in db && b.headId > 0 then db[b.headId].room else 0)
    && (forall k :: k in db && k <= b.done ==> b.headId <= k && db[k].ids == [])
  }

  /** Nothing is reserved, and no consumed record remains. */
  ghost predicate Cleared(db: FreeDb, b: Book) {
    b == Book(b.done, b.done, 0, 0) && forall k :: k in db ==> k > b.done
  }

  /** Records above `done`, other than this transaction's own, are those of the
      database the transaction started from. */
  ghost predicate SameAbove(db0: FreeDb, db: FreeDb, done: Txnid, id: Txnid) {
    forall k :: k > done && k != id ==> (k in db <==> k in db0) && (k in db ==> db[k] == db0[k])
  }

  /** This transaction's record holds the first freecnt pages it freed. */
  ghost predicate OwnRecord(db: FreeDb, id: Txnid, freed: seq<ID>, freecnt: nat) {
    && freecnt <= |freed|
    && (id in db <==> freecnt > 0)
    && (freecnt > 0 ==> db[id].ids == freed[..freecnt])
  }

  /** What every state of the loop satisfies, this transaction's own record aside. */
  ghost predicate Base(db: FreeDb, l: Lists, id: Txnid, db0: FreeDb, b: Book) {
    && ListsOk(l) && b.done <= l.pglast < id
    && (forall k :: k in db ==> 1 <= k <= id)
    && (b.done < l.pglast ==> l.pglast in db)
    && Reserved(db, b) && SameAbove(db0, db, b.done, id)
  }

  ghost predicate State(db: FreeDb, l: Lists, id: Txnid, db0: FreeDb, b: Book, freecnt: nat) {
    Base(db, l, id, db0, b) && OwnRecord(db, id, l.freed, freecnt)
  }

  /** An inner operation's effect on the lists keeps the state. */
  lemma LegalKeeps(db: FreeDb, l: Lists, l': Lists, id: Txnid, db0: FreeDb, b: Book)
    requires Base(db, l, id, db0, b) && Legal(db, id, l, l')
    ensures Base(db, l', id, db0, b)
  {
  }

  lemma LegalKeepsOwn(db: FreeDb, l: Lists, l': Lists, id: Txnid, freecnt: nat)
    requires OwnRecord(db, id, l.freed, freecnt) && Legal(db, id, l, l')
    ensures OwnRecord(db, id, l'.freed, freecnt)
  {
    assert freecnt > 0 ==> l'.freed[..freecnt] == l.freed[..freecnt];
  }

  /** Writing this transaction's record touches no reservation. */
  lemma OwnPutKeeps(db: FreeDb, l: Lists, id: Txnid, db0: FreeDb, b: Book, r: Record)
    requires Base(db, l, id, db0, b)
    ensures Base(db[id := r], l, id, db0, b)
  {
    RoomsUpdate(db, b.done, id, r);
  }

  /** (Re)writing the reservation under b.headId, or starting one just below it. */
  lemma ReserveKeeps(db: FreeDb, l: Lists, id: Txnid, db0: FreeDb, b: Book, headId: Txnid, room: nat)
    requires Base(db, l, id, db0, b) && b.done > 0
    requires headId == b.headId || (headId == b.headId - 1 && headId >= 1)
    ensures var kept := if headId == b.headId then b.headRoom else 0;
            Base(db[headId := Record(room, [])], l, id, db0, Book(b.done, headId, room, b.totalRoom - kept + room))
  {
    RoomsUpdate(db, b.done, headId, Record(room, []));
  }

  /** While consumed records and stale reservations are being deleted, lowest key
      first: everything up to `cur` is gone. */
  ghost predicate Sweeping(db: FreeDb, l: Lists, id: Txnid, db0: FreeDb, done: Txnid, cur: Txnid, freecnt: nat) {
    && ListsOk(l) && done < l.pglast < id && cur <= l.pglast
    && (forall k :: k in db ==> cur < k <= id)
    && (cur < l.pglast ==> l.pglast in db)
    && SameAbove(db0, db, if cur < done then done else cur, id) && OwnRecord(db, id, l.freed, freecnt)
  }

  lemma SweepStarts(db: FreeDb, l: Lists, id: Txnid, db0: FreeDb, b: Book, freecnt: nat)
    requires State(db, l, id, db0, b, freecnt) && b.done < l.pglast
    ensures Sweeping(db, l, id, db0, b.done, 0, freecnt)
  {
  }

  lemma SweepStep(db: FreeDb, l: Lists, l': Lists, id: Txnid, db0: FreeDb, done: Txnid, cur: Txnid, freecnt: nat,
                  key: Txnid)
    requires Sweeping(db, l, id, db0, done, cur, freecnt) && cur < l.pglast
    requires key in db && (forall q :: q in db ==> key <= q) && Legal(db - {key}, id, l, l')
    ensures Sweeping(db - {key}, l', id, db0, done, key, freecnt)
  {
    assert freecnt > 0 ==> l'.freed[..freecnt] == l.freed[..freecnt];
  }

  lemma SweepEnds(db: FreeDb, l: Lists, id: Txnid, db0: FreeDb, done: Txnid, freecnt: nat)
    requires Sweeping(db, l, id, db0, done, l.pglast, freecnt)
    ensures State(db, l, id, db0, Book(l.pglast, l.pglast, 0, 0), freecnt)
    ensures Cleared(db, Book(l.pglast, l.pglast, 0, 0))
  {
    RoomsNone(db, l.pglast);
  }

  lemma MinKey(db: FreeDb)
    requires db.Keys != {}
    ensures exists k :: k in db && forall q :: q in db ==> k <= q
  {
    var k :| k in db;
    FirstAbove(db.Keys, -1, k);
  }

  /** Whether reserving moves on to the record below: the current one is full. */
  predicate MovesOn(b: Book, mopLen: nat, max: nat) {
    b.totalRoom < mopLen && b.headRoom >= max && b.headId > 1
  }

  /** What one reservation chooses. It takes the current record, or the one below when that
      is full, and gives it all the room that is missing, if that fits one page or no
      record is left below. Otherwise the record gets its share of the missing room,
      rounded up so that, with its count word, it fills whole pages. */
  ghost predicate Chosen(b: Book, mopLen: nat, max: nat, b': Book) {
    var others := if MovesOn(b, mopLen, max) then b.totalRoom else b.totalRoom - b.headRoom;
    var missing := mopLen - others;
    && b'.done == b.done && b'.headId == (if MovesOn(b, mopLen, max) then b.headId - 1 else b.headId)
    && b'.totalRoom == others + b'.headRoom
    && (missing <= max || b'.headId <= 1 ==> b'.headRoom == if missing < 0 then 0 else missing)
    && (missing > max && b'.headId > 1 ==>
          && b'.headRoom % (max + 1) == max
          && missing / b'.headId <= b'.headRoom <= missing / b'.headId + max)
  }

  method Choose(b: Book, mopLen: nat, max: nat) returns (b': Book)
    requires b.headRoom <= b.totalRoom
    ensures Chosen(b, mopLen, max, b')
  {
    var headId, headRoom: int, totalRoom := b.headId, b.headRoom, b.totalRoom;
    if totalRoom < mopLen && headRoom >= max && headId > 1 {
      headId, headRoom := headId - 1, 0;
    }
    totalRoom := totalRoom - headRoom;
    headRoom := mopLen - totalRoom;
    if headRoom > max && headId > 1 {
      headRoom := headRoom / headId;
      WholePages(headRoom, max);
      headRoom := headRoom + max - headRoom % (max + 1);
    } else if headRoom < 0 {
      headRoom := 0;
    }
    b' := Book(b.done, headId, headRoom, totalRoom + headRoom);
  }

  lemma WholePages(room: int, max: nat)
    ensures (room + max - room % (max + 1)) % (max + 1) == max
  {
    var q, r := room / (max + 1), room % (max + 1);
    ModUnique(room + max - r, q, max, max + 1);
  }

  lemma ChosenBounds(b: Book, mopLen: nat, max: nat, b': Book)
    requires Chosen(b, mopLen, max, b') && b.headRoom <= b.totalRoom
    ensures b'.done == b.done && b'.headId <= b.headId <= b'.headId + 1 && (b.headId >= 1 ==> b'.headId >= 1)
    ensures b'.headId == b.headId ==> b'.totalRoom == b.totalRoom - b.headRoom + b'.headRoom
    ensures b'.headId < b.headId ==> b'.totalRoom == b.totalRoom + b'.headRoom
  {
  }

  /** The parts of MDB_env and MDB_txn that mdb_freelist_save works on. */
  class Saver {
    const id: Txnid
    const maxfree1pg: nat
    var db: FreeDb
    var l: Lists
    var future: seq<Lists>

    constructor (id: Txnid, maxfree1pg: nat, db: FreeDb, l: Lists, future: seq<Lists>)
      ensures this.id == id && this.maxfree1pg == maxfree1pg && this.db == db && this.l == l && this.future == future
    {
      this.id, this.maxfree1pg, this.db, this.l, this.future := id, maxfree1pg, db, l, future;
    }

    ghost predicate Inv(db0: FreeDb, b: Book, freecnt: nat)
      reads this
    {
      State(db, l, id, db0, b, freecnt)
    }

    /** An inner page operation: the lists change as the next effect says. */
    method Inner() returns (ok: bool)
      modifies this`l, this`future
      ensures |future| <= |old(future)|
      ensures if ok then Legal(db, id, old(l), l) && |future| < |old(future)| else l == old(l)
    {
      ok := future != [];
      if ok {
        var l' := future[0];
        future := future[1..];
        ok := Legal(db, id, l, l');
        if ok {
          l := l';
        }
      }
    }

    /** One round: mdb_cursor_first, mdb_cursor_del. The first key is a consumed
        record or a stale reservation, never a live record. */
    method DeleteFirst(ghost db0: FreeDb, ghost done: Txnid, ghost cur: Txnid, ghost freecnt: nat)
      returns (ok: bool, key: Txnid)
      requires Sweeping(db, l, id, db0, done, cur, freecnt) && cur < l.pglast
      modifies this
      ensures |future| <= |old(future)|
      ensures ok ==> |future| < |old(future)| && cur < key <= old(l.pglast) <= l.pglast && old(l.freed) <= l.freed
      ensures ok ==> Sweeping(db, l, id, db0, done, key, freecnt)
    {
      MinKey(db);
      key :| key in db && forall q :: q in db ==> key <= q;
      ghost var before, l0 := db, l;
      assert key <= l.pglast;   // asserted by the source, too
      db := db - {key};
      ok := Inner();
      if ok {
        SweepStep(before, l0, l, id, db0, done, cur, freecnt, key);
      }
    }

    /** Deletes the records consumed since the last visit, and with them whatever was
        reserved: nothing up to me_pglast remains. */
    method DeleteConsumed(b0: Book, ghost db0: FreeDb, ghost freecnt: nat) returns (ok: bool, b: Book)
      requires Inv(db0, b0, freecnt) && b0.done <= l.pglast
      modifies this
      ensures |future| <= old(|future|)
      ensures ok ==> Inv(db0, b, freecnt) && b.done == l.pglast >= old(l.pglast) && old(l.freed) <= l.freed
      ensures ok && old(l.pglast) == b0.done ==> b == b0 && db == old(db) && l == old(l)
      ensures ok && old(l.pglast) > b0.done ==> Cleared(db, b)
    {
      hide State, Sweeping, Cleared, Legal;
      ok, b := true, b0;
      ghost var cur: Txnid, started := 0, false;
      if b.done < l.pglast {
        SweepStarts(db, l, id, db0, b0, freecnt);
      }
      while b.done < l.pglast
        invariant |future| <= old(|future|) && old(l.freed) <= l.freed && cur <= l.pglast && old(l.pglast) <= l.pglast
        invariant if started then b == Book(cur, cur, 0, 0) && old(l.pglast) > b0.done
                  else b == b0 && cur == 0 && db == old(db) && l == old(l)
        invariant old(l.pglast) > b0.done ==> Sweeping(db, l, id, db0, b0.done, cur, freecnt)
        decreases |future|
      {
        var key: Txnid;
        ok, key := DeleteFirst(db0, b0.done, cur, freecnt);
        if !ok {
          return;
        }
        b := Book(key, key, 0, 0);
        cur, started := key, true;
      }
      if started {
        SweepEnds(db, l, id, db0, b0.done, freecnt);
      }
    }

    /** The put of this transaction's own record, retried while it frees more pages. */
    method PutOwn(b: Book, ghost db0: FreeDb) returns (ok: bool, freecnt: nat)
      requires Base(db, l, id, db0, b)
      modifies this
      ensures |future| <= old(|future|)
      ensures ok ==> |future| < old(|future|) && Base(db, l, id, db0, b) && id in db && old(l.freed) <= l.freed
      ensures ok ==> freecnt == |l.freed| && old(l.pglast) <= l.pglast
    {
      hide Base, Legal;
      ok := true;
      freecnt := |l.freed|;
      OwnPutKeeps(db, l, id, db0, b, Record(freecnt, []));
      db := db[id := Record(freecnt, [])];
      ghost var l0 := l;
      ok := InnerKeeps(b, db0);
      while ok && freecnt < |l.freed|
        invariant |future| <= old(|future|)
        invariant ok ==> |future| < old(|future|) && Base(db, l, id, db0, b) && id in db && old(l.freed) <= l.freed
        invariant ok ==> freecnt <= |l.freed| && old(l.pglast) <= l.pglast
        decreases |future|, ok
      {
        freecnt := |l.freed|;
        OwnPutKeeps(db, l, id, db0, b, Record(freecnt, []));
        db := db[id := Record(freecnt, [])];
        ok := InnerKeeps(b, db0);
      }
    }

    /** An inner operation, seen as a step of the loop. */
    method InnerKeeps(b: Book, ghost db0: FreeDb) returns (ok: bool)
      requires Base(db, l, id, db0, b)
      modifies this`l, this`future
      ensures |future| <= |old(future)|
      ensures ok ==> |future| < |old(future)| && Base(db, l, id, db0, b) && Legal(db, id, old(l), l)
      ensures ok ==> old(l.freed) <= l.freed
      ensures ok ==> old(l.pglast) <= l.pglast
    {
      ghost var l0 := l;
      ok := Inner();
      if ok {
        LegalKeeps(db, l0, l, id, db0, b);
      }
    }

    /** Saves the pages freed by this transaction to a single record, sorted. */
    method SaveFreed(b: Book, freecnt0: nat, ghost db0: FreeDb) returns (ok: bool, freecnt: nat)
      requires Inv(db0, b, freecnt0) && freecnt0 < |l.freed|
      modifies this
      ensures |future| <= old(|future|)
      ensures ok ==> |future| < old(|future|) && Inv(db0, b, freecnt) && 0 < freecnt == |l.freed|
      ensures ok ==> Elems(old(l.freed)) <= Elems(l.freed) && old(l.pglast) <= l.pglast
    {
      hide Base, Legal;
      ok, freecnt := true, freecnt0;
      if freecnt0 == 0 {
        ok := InnerKeeps(b, db0);
      }
      if ok {
        ok, freecnt := PutOwn(b, db0);
      }
      if ok {
        FreedBound(db, l, id, db0, b);
        var sorted := SortIds(l.freed);
        OwnPutKeeps(db, l, id, db0, b, Record(freecnt, sorted));
        FreedKeeps(db[id := Record(freecnt, sorted)], l, sorted, id, db0, b);
        l := l.(freed := sorted);
        db := db[id := Record(freecnt, sorted)];
        assert sorted[..freecnt] == sorted;
      }
    }

    /** One reservation for the mopLen pages of me_pghead: grow the current record, or
        start a new one below a full one. */
    method Reserve(b: Book, mopLen: nat, freecnt: nat, ghost db0: FreeDb) returns (ok: bool, b': Book)
      requires Inv(db0, b, freecnt) && b.done > 0
      modifies this
      ensures |future| <= old(|future|)
      ensures ok ==> |future| < old(|future|) && Inv(db0, b', freecnt) && old(l.freed) <= l.freed
      ensures ok ==> old(l.pglast) <= l.pglast && Chosen(b, mopLen, maxfree1pg, b')
    {
      hide Base, Legal, OwnRecord, Chosen;
      BookBounds(db, l, id, db0, b);
      b' := Choose(b, mopLen, maxfree1pg);
      ChosenBounds(b, mopLen, maxfree1pg, b');
      ReserveKeeps(db, l, id, db0, b, b'.headId, b'.headRoom);
      ReserveOwn(db, id, l.freed, freecnt, b'.headId, Record(b'.headRoom, []), b.done);
      db := db[b'.headId := Record(b'.headRoom, [])];
      ghost var l0 := l;
      ok := InnerKeeps(b', db0);
      if ok {
        LegalKeepsOwn(db, l0, l, id, freecnt);
      }
    }

    /** The reservation loop. When it ends, no consumed record remains, this
        transaction's record is exactly mt_free_pgs, and the records reserved under
        keys up to me_pglast have room for all of me_pghead and the loose pages. */
    method ReserveAll(ghost db0: FreeDb) returns (ok: bool, b: Book)
      requires Inv(db0, Book(0, 0, 0, 0), 0)
      modifies this
      ensures ok ==> Inv(db0, b, |l.freed|) && b.done == l.pglast
      ensures ok ==> b.totalRoom == Rooms(db, l.pglast) >= |l.head| + |l.loose|
      ensures ok ==> Elems(old(l.freed)) <= Elems(l.freed) && old(l.pglast) <= l.pglast
    {
      hide Base, Legal, OwnRecord;
      b := Book(0, 0, 0, 0);
      var freecnt: nat, more := 0, 1;
      while true
        invariant Inv(db0, b, freecnt)
        invariant Elems(old(l.freed)) <= Elems(l.freed) && old(l.pglast) <= l.pglast
        decreases |future|
      {
        ghost var f0 := |future|;
        BookBounds(db, l, id, db0, b);
        ok, b := DeleteConsumed(b, db0, freecnt);
        if !ok {
          return;
        }
        BookBounds(db, l, id, db0, b);
        OwnBound(db, id, l.freed, freecnt);
        if freecnt < |l.freed| {
          ok, freecnt := SaveFreed(b, freecnt, db0);
          if !ok {
            return;
          }
        } else {
          var mopLen := |l.head| + |l.loose|;
          if b.totalRoom >= mopLen {
            if b.totalRoom == mopLen {
              break;
            }
            more := more - 1;
            if more < 0 {
              break;
            }
          }
          ok, b := Reserve(b, mopLen, freecnt, db0);
          if !ok {
            return;
          }
        }
      }
    }
  }

  lemma BookBounds(db: FreeDb, l: Lists, id: Txnid, db0: FreeDb, b: Book)
    requires Base(db, l, id, db0, b)
    ensures b.done <= l.pglast < id && b.totalRoom == Rooms(db, b.done)
    ensures if b.done == 0 then b.headId == 0 else 1 <= b.headId <= b.done
    ensures b.done == 0 && l.pglast == 0 ==> l.head == [] && l.loose == []
    ensures b.done > 0 ==> b.headRoom <= b.totalRoom
  {
    if b.done > 0 {
      RoomsUpdate(db, b.done, b.headId, Record(0, []));
    }
  }

  lemma OwnBound(db: FreeDb, id: Txnid, freed: seq<ID>, freecnt: nat)
    requires OwnRecord(db, id, freed, freecnt)
    ensures freecnt <= |freed|
  {
  }

  lemma ReserveOwn(db: FreeDb, id: Txnid, freed: seq<ID>, freecnt: nat, headId: Txnid, r: Record, done: Txnid)
    requires OwnRecord(db, id, freed, freecnt) && headId < id
    ensures OwnRecord(db[headId := r], id, freed, freecnt)
  {
  }

  lemma FreedBound(db: FreeDb, l: Lists, id: Txnid, db0: FreeDb, b: Book)
    requires Base(db, l, id, db0, b)
    ensures |l.freed| <= SORTABLE
  {
  }

  lemma FreedKeeps(db: FreeDb, l: Lists, freed: seq<ID>, id: Txnid, db0: FreeDb, b: Book)
    requires Base(db, l, id, db0, b) && |freed| == |l.freed|
    ensures Base(db, l.(freed := freed), id, db0, b)
  {
  }

  /** mdb_midl_sort on a list held as a value. */
  method SortIds(s: seq<ID>) returns (r: seq<ID>)
    requires |s| <= SORTABLE
    ensures |r| == |s| && Descending(r) && multiset(r) == multiset(s) && Elems(r) == Elems(s)
  {
    var buf := ToList(s);
    ghost var before := buf[..];
    assert before[1..] == s;
    var ok := IdlSortMain.Sort(buf, 0);
    r := buf[1..];
    assert buf[..][1..|s| + 1] == r && before[1..|s| + 1] == s;
    SameElems(r, s);
  }

  lemma SameElems(r: seq<ID>, s: seq<ID>)
    requires multiset(r) == multiset(s)
    ensures Elems(r) == Elems(s)
  {
    forall x
      ensures x in r <==> x in s
    {
      assert x in r <==> x in multiset(r);
    }
  }

  // ---------------------------------------------------------------- loose pages

  /** Copies the loose pages to words off+1.. of the buffer, and counts them at off. */
  method WriteLoose(mop: array<ID>, off: nat, loose: seq<ID>)
    requires off + |loose| < mop.Length
    modifies mop
    ensures mop[off] == |loose| && mop[off + 1..off + 1 + |loose|] == loose
    ensures forall h :: 0 <= h < off ==> mop[h] == old(mop[h])
  {
    var count := 0;
    while count < |loose|
      invariant 0 <= count <= |loose|
      invariant forall h :: 0 <= h < count ==> mop[off + 1 + h] == loose[h]
      invariant forall h :: 0 <= h < off ==> mop[h] == old(mop[h])
    {
      count := count + 1;
      mop[off + count] := loose[count - 1];
    }
    mop[off] := count;
  }

  lemma SortedTail(before: seq<ID>, after: seq<ID>, off: nat, loose: seq<ID>)
    requires off + |loose| < |before| && before[off + 1..off + 1 + |loose|] == loose && Distinct(loose)
    requires Rearranged(before, after, off + 1, off + 1 + |loose|)
    requires forall p, q :: off + 1 <= p < q < off + 1 + |loose| ==> after[p] >= after[q]
    ensures var r := after[off + 1..off + 1 + |loose|]; StrictlyDescending(r) && Elems(r) == Elems(loose)
  {
    var r := after[off + 1..off + 1 + |loose|];
    SameElems(r, loose);
    DistinctDescending(r, loose);
  }

  lemma DistinctDescending(r: seq<ID>, s: seq<ID>)
    requires multiset(r) == multiset(s) && Distinct(s) && Descending(r)
    ensures StrictlyDescending(r)
  {
    forall i, j | 0 <= i < j < |r|
      ensures r[i] != r[j]
    {
      if r[i] == r[j] {
        Twice(r, i, j);
        assert multiset(s)[r[i]] >= 2;
        OnlyOnce(s, r[i]);
      }
    }
  }

  /** The temporary list of loose pages, sorted in place. */
  method SortTail(mop: array<ID>, off: nat, loose: seq<ID>)
    requires off + |loose| < mop.Length && Distinct(loose) && |loose| <= SORTABLE
    modifies mop
    ensures mop[off] == |loose| && forall h :: 0 <= h < off ==> mop[h] == old(mop[h])
    ensures StrictlyDescending(mop[off + 1..off + 1 + |loose|])
    ensures Elems(mop[off + 1..off + 1 + |loose|]) == Elems(loose)
  {
    WriteLoose(mop, off, loose);
    ghost var before := mop[..];
    var ok := IdlSortMain.Sort(mop, off);
    assert before[off] == |loose|;
    SortedTail(before, mop[..], off, loose);
    assert mop[..][off + 1..off + 1 + |loose|] == mop[off + 1..off + 1 + |loose|];
  }

  /** Returning loose pages to me_pghead. The temporary list lives in the last words
      of the same buffer; the merge never reaches it. */
  method ReturnLoose(mop0: array<ID>, loose: seq<ID>) returns (mop: array<ID>)
    requires IsList(mop0[..]) && StrictlyDescending(Ids(mop0[..])) && Distinct(loose)
    requires Elems(Ids(mop0[..])) !! Elems(loose)
    requires |loose| <= SORTABLE && forall x :: x in loose ==> x <= MAX_ID
    modifies mop0
    ensures mop == mop0 || fresh(mop)
    ensures IsList(mop[..]) && StrictlyDescending(Ids(mop[..]))
    ensures Elems(Ids(mop[..])) == old(Elems(Ids(mop0[..]))) + Elems(loose)
    ensures mop[0] == old(mop0[0]) + |loose|
  {
    hide Merge, StrictlyDescending, Distinct;
    ghost var head := Ids(mop0[..]);
    var ok: bool;
    ok, mop := Pghead.Need(mop0, 2 * |loose| + 1, true);
    var off := mop.Length - 1 - |loose|;
    SortTail(mop, off, loose);
    assert Ids(mop[..]) == head;
    ghost var sorted := mop[off + 1..off + 1 + |loose|];
    forall k | off < k <= off + |loose|
      ensures mop[k] <= MAX_ID
    {
      assert mop[k] == sorted[k - off - 1] && sorted[k - off - 1] in Elems(sorted);
    }
    XMerge(mop, mop, off);
    Pghead.RecordMergeIsUnion(head, sorted);
  }

  // ---------------------------------------------------------------- fill

  /** Record k, among those up to `last`, holds page x. */
  ghost predicate Has(db: FreeDb, last: Txnid, k: Txnid, x: ID) {
    k in db && k <= last && x in db[k].ids
  }

  ghost predicate Holds(db: FreeDb, last: Txnid, x: ID) {
    exists k :: Has(db, last, k, x)
  }

  /** The records with keys up to `last` hold the ids of s from position r on, each in
      one record only. */
  ghost predicate Filled(db: FreeDb, last: Txnid, s: seq<ID>, r: nat) {
    && r <= |s|
    && (forall k: Txnid, x: ID :: Has(db, last, k, x) ==> x in s[r..])
    && (forall k: Txnid, q: Txnid, x: ID :: Has(db, last, k, x) && Has(db, last, q, x) ==> k == q)
    && (forall x: ID :: x in s[r..] ==> Holds(db, last, x))
  }

  /** Filling the next record with the len ids before position r. */
  lemma FillStep(db: FreeDb, last: Txnid, s: seq<ID>, r: nat, key: Txnid, len: nat)
    requires Filled(db, last, s, r) && StrictlyDescending(s) && key in db && last < key && len <= r
    requires forall q :: q in db && q > last ==> key <= q
    ensures Filled(db[key := Record(len, s[r - len..r])], key, s, r - len)
  {
    var slice := s[r - len..r];
    var db' := db[key := Record(len, slice)];
    assert s[r - len..] == slice + s[r..];
    forall k: Txnid, x: ID
      ensures Has(db', key, k, x) <==> Has(db, last, k, x) || (k == key && x in slice)
    {
    }
    hide Has, StrictlyDescending;
    forall x: ID | x in s[r..]
      ensures x !in slice && Holds(db', key, x)
    {
      var k :| Has(db, last, k, x);
      assert Has(db', key, k, x);
      SlicesApart(s, r, len, x);
    }
    forall x: ID | x in slice
      ensures Holds(db', key, x)
    {
      assert Has(db', key, key, x);
    }
  }

  lemma SlicesApart(s: seq<ID>, r: nat, len: nat, x: ID)
    requires StrictlyDescending(s) && len <= r <= |s| && x in s[r..]
    ensures x !in s[r - len..r]
  {
    var i :| r <= i < |s| && s[i] == x;
  }

  lemma {:induction false} RoomsGrow(db: FreeDb, a: nat, b: nat)
    requires a <= b
    ensures Rooms(db, a) <= Rooms(db, b)
    ensures (forall k :: k in db ==> !(a < k <= b)) ==> Rooms(db, a) == Rooms(db, b)
    decreases b
  {
    if a < b {
      RoomsGrow(db, a, b - 1);
    }
  }

  /** The next record after `last`. */
  lemma NextKey(db: FreeDb, last: Txnid, limit: Txnid)
    requires last <= limit && Rooms(db, last) < Rooms(db, limit)
    ensures exists k :: k in db && last < k <= limit && forall q :: q in db && q > last ==> k <= q
  {
    RoomsGrow(db, last, limit);
    var k :| k in db && last < k <= limit;
    FirstAbove(db.Keys, last, k);
  }

  /** Carves the IDL of length len that ends at position r out of the list: word
      r - len becomes its count for the duration of the put. */
  method PutSlice(mop: array<ID>, r: nat, len: nat) returns (value: seq<ID>)
    requires IsList(mop[..]) && len <= r <= mop[0]
    modifies mop
    ensures mop[..] == old(mop[..])
    ensures |value| == len + 1 && value[0] == len && value[1..] == Ids(mop[..])[r - len..r]
  {
    var save := mop[r - len];
    mop[r - len] := len;
    value := mop[r - len..r + 1];
    mop[r - len] := save;
  }

  /** Fills the reserved records from the tail of me_pghead, in key order. */
  method Fill(mop: array<ID>, db0: FreeDb, pglast: Txnid) returns (db: FreeDb)
    requires IsList(mop[..]) && StrictlyDescending(Ids(mop[..])) && Rooms(db0, pglast) >= mop[0]
    requires forall k :: k in db0 ==> k >= 1 && (k <= pglast ==> db0[k].ids == [])
    modifies mop
    ensures mop[..] == old(mop[..])
    ensures Filled(db, pglast, Ids(mop[..]), 0)
    ensures db.Keys == db0.Keys && forall k :: k in db && k > pglast ==> db[k] == db0[k]
  {
    hide Filled, Rooms, StrictlyDescending;
    db := db0;
    ghost var s := Ids(mop[..]);
    var mopLen, last := mop[0], 0;
    FillStarts(db, s);
    RoomsZero(db0);
    while mopLen > 0
      invariant 0 <= mopLen <= |s| && last <= pglast && mop[..] == old(mop[..])
      invariant mopLen > 0 ==> Rooms(db0, pglast) - Rooms(db0, last) >= mopLen
      invariant Filled(db, last, s, mopLen)
      invariant db.Keys == db0.Keys && forall k :: k in db && k > last ==> db[k] == db0[k]
      decreases pglast - last
    {
      NextKey(db0, last, pglast);
      var id :| id in db && last < id <= pglast && forall q :: q in db && q > last ==> id <= q;
      var len := db[id].room;
      if len > mopLen {
        len := mopLen;
      }
      var value := PutSlice(mop, mopLen, len);
      FillStep(db, last, s, mopLen, id, len);
      RoomsNext(db0, last, id);
      db := db[id := Record(len, value[1..])];
      mopLen, last := mopLen - len, id;
    }
    FillEnds(db, db0, last, pglast, s);
  }

  lemma FillStarts(db: FreeDb, s: seq<ID>)
    requires forall k :: k in db ==> k >= 1
    ensures Filled(db, 0, s, |s|)
  {
  }

  lemma RoomsZero(db: FreeDb)
    ensures Rooms(db, 0) == 0
  {
  }

  lemma RoomsNext(db: FreeDb, last: Txnid, id: Txnid)
    requires last < id && id in db && forall q :: q in db && q > last ==> id <= q
    ensures Rooms(db, id) == Rooms(db, last) + db[id].room
  {
    RoomsGrow(db, last, id - 1);
  }

  /** Records not reached are still empty. */
  lemma FillEnds(db: FreeDb, db0: FreeDb, last: Txnid, pglast: Txnid, s: seq<ID>)
    requires Filled(db, last, s, 0) && last <= pglast
    requires db.Keys == db0.Keys && forall k :: k in db && k > last ==> db[k] == db0[k]
    requires forall k :: k in db0 && k <= pglast ==> db0[k].ids == []
    ensures Filled(db, pglast, s, 0)
  {
    forall x | x in s[0..]
      ensures Holds(db, pglast, x)
    {
      var k :| Has(db, last, k, x);
      assert Has(db, pglast, k, x);
    }
    assert forall k: Txnid, x: ID :: Has(db, pglast, k, x) ==> Has(db, last, k, x);
  }

  // ---------------------------------------------------------------- the whole

  /** The page set of each record, as the protocol model sees the freeDB. */
  ghost function Sets(db: FreeDb): map<Txnid, set<nat>> {
    map k | k in db :: Elems(db[k].ids)
  }

  ghost function Kept(db: FreeDb, pglast: Txnid): map<Txnid, set<nat>> {
    map k | k in db && k <= pglast :: Elems(db[k].ids)
  }

  lemma FilledDistributes(db: FreeDb, pglast: Txnid, s: seq<ID>)
    requires Filled(db, pglast, s, 0) && forall k :: k in db ==> k >= 1
    ensures Mvcc.Distributes(Kept(db, pglast), Elems(s), pglast)
  {
    var kept := Kept(db, pglast);
    assert s[0..] == s;
    assert forall k: Txnid, x: ID :: Mvcc.Lists(kept, 0, k, x) <==> Has(db, pglast, k, x);
    forall x | x in Elems(s)
      ensures Mvcc.Listed(kept, 0, x)
    {
      var k :| Has(db, pglast, k, x);
      assert Mvcc.Lists(kept, 0, k, x);
    }
  }

  /** Filling changes only records up to me_pglast. */
  lemma SavedIs(db0: FreeDb, db1: FreeDb, db: FreeDb, l: Lists, id: Txnid, b: Book)
    requires State(db1, l, id, db0, b, |l.freed|) && b.done == l.pglast && id !in db0
    requires db.Keys == db1.Keys && forall k :: k in db && k > l.pglast ==> db[k] == db1[k]
    ensures Sets(db) == Mvcc.SavedRecords(Sets(db0), l.pglast, Kept(db, l.pglast), id, Elems(l.freed))
  {
    hide Reserved, ListsOk, Elems;
    var saved := Mvcc.SavedRecords(Sets(db0), l.pglast, Kept(db, l.pglast), id, Elems(l.freed));
    EmptyElems(l.freed);
    forall k
      ensures k in Sets(db) <==> k in saved
      ensures k in Sets(db) ==> Sets(db)[k] == saved[k]
    {
      assert l.freed[..|l.freed|] == l.freed;
    }
  }

  lemma EmptyElems(s: seq<ID>)
    ensures Elems(s) == {} <==> s == []
  {
    assert s != [] ==> s[0] in Elems(s);
  }

  /** The state a committing transaction hands to mdb_freelist_save. */
  ghost predicate Start(db: FreeDb, l: Lists, id: Txnid) {
    && ListsOk(l.(loose := [])) && Distinct(l.loose) && Elems(l.head) !! Elems(l.loose)
    && (forall x :: x in l.loose ==> x <= MAX_ID)
    && |l.head| + |l.loose| <= SORTABLE && |l.freed| + |l.loose| <= SORTABLE
    && (forall k :: k in db ==> 1 <= k < id)
    && l.pglast < id && (l.pglast > 0 ==> l.pglast in db)
  }

  /** mdb_freelist_save. If no inner operation fails, the freeDB ends up as the
      protocol model's SaveFreelist step requires: consumed records gone, live ones
      untouched, one record with exactly the pages this transaction freed, and every
      page left in me_pghead or loose stored exactly once under a key in
      [1, me_pglast]. */
  method Save(sv: Saver) returns (ok: bool)
    requires Start(sv.db, sv.l, sv.id)
    modifies sv
    ensures ok ==> sv.l.loose == [] && Elems(old(sv.l.freed)) <= Elems(sv.l.freed)
    ensures ok ==> old(sv.l.pglast) <= sv.l.pglast < sv.id
    ensures ok ==> Mvcc.Distributes(Kept(sv.db, sv.l.pglast), Elems(sv.l.head), sv.l.pglast)
    ensures ok ==> Sets(sv.db) == Mvcc.SavedRecords(old(Sets(sv.db)), sv.l.pglast, Kept(sv.db, sv.l.pglast),
                                                    sv.id, Elems(sv.l.freed))
  {
    ok := true;
    ghost var db0, freed0 := sv.db, sv.l.freed;
    if sv.l.hasHead {
      ok := sv.Inner();
    }
    if !ok {
      return;
    }
    if !sv.l.hasHead && sv.l.loose != [] {
      sv.l := sv.l.(freed := sv.l.freed + sv.l.loose, loose := []);
    }
    var b;
    ok, b := sv.ReserveAll(db0);
    if ok {
      FillAll(sv, db0, b);
    }
  }

  method ToList(s: seq<ID>) returns (b: array<ID>)
    ensures fresh(b) && IsList(b[..]) && Ids(b[..]) == s && b[0] == |s| && b.Length == |s| + 1
  {
    b := new ID[|s| + 1](k requires 0 <= k <= |s| => if k == 0 then |s| else s[k - 1]);
  }

  lemma ReservedEmpty(db: FreeDb, l: Lists, id: Txnid, db0: FreeDb, b: Book)
    requires Base(db, l, id, db0, b) && b.done == l.pglast
    ensures forall k :: k in db ==> k >= 1 && (k <= l.pglast ==> db[k].ids == [])
  {
  }

  /** Everything after the reservation loop. */
  method FillAll(sv: Saver, ghost db0: FreeDb, b: Book)
    requires sv.Inv(db0, b, |sv.l.freed|) && b.done == sv.l.pglast && sv.id !in db0
    requires Rooms(sv.db, sv.l.pglast) >= |sv.l.head| + |sv.l.loose|
    modifies sv
    ensures sv.l.loose == [] && sv.l == old(sv.l).(loose := [], head := sv.l.head)
    ensures Elems(sv.l.head) == old(Elems(sv.l.head)) + old(Elems(sv.l.loose))
    ensures Mvcc.Distributes(Kept(sv.db, sv.l.pglast), Elems(sv.l.head), sv.l.pglast)
    ensures Sets(sv.db) == Mvcc.SavedRecords(Sets(db0), sv.l.pglast, Kept(sv.db, sv.l.pglast), sv.id, Elems(sv.l.freed))
  {
    hide Filled, Rooms, Reserved, SameAbove, Sets, Kept, Mvcc.Distributes, Mvcc.SavedRecords, Elems, Distinct;
    var l := sv.l;
    ReservedEmpty(sv.db, l, sv.id, db0, b);
    var mop := ToList(l.head);
    EmptyElems(l.loose);
    if l.loose != [] {
      mop := ReturnLoose(mop, l.loose);
    }
    ghost var db1 := sv.db;
    var db := Fill(mop, sv.db, l.pglast);
    SavedIs(db0, db1, db, l, sv.id, b);
    FilledDistributes(db, l.pglast, Ids(mop[..]));
    sv.db := db;
    sv.l := l.(loose := [], head := mop[1..mop[0] + 1]);
  }
}
